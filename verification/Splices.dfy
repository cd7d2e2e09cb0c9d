/** An edit of the tree seen as a splice of the structure block. */
module Splices {
  import opened Bytes
  import opened Tokens
  import opened Trees
  import opened Views
  import opened Scan
  import opened Lookup

  /** What a well-formed structure block and strings block say. */
  ghost predicate Represents(s: seq<byte>, strtab: seq<byte>, top: seq<Item>) {
    Block(s, BlockToks(top)) && Named(Toks(top), strtab) && Ordered(top)
  }

  /** The bytes of the block before item a of a list, and from item b on. */
  function Head(top: seq<Item>, path: seq<nat>, a: nat): seq<byte>
    requires ValidPath(top, path) && a <= |Sub(top, path)|
  {
    EncAll(Before(top, path, a))
  }

  function Tail(top: seq<Item>, path: seq<nat>, b: nat): seq<byte>
    requires ValidPath(top, path) && b <= |Sub(top, path)|
  {
    EncAll(After(top, path, b) + [End])
  }

  lemma EncThree(a: seq<Token>, b: seq<Token>, c: seq<Token>)
    ensures EncAll(a + b + (c + [End])) == EncAll(a) + EncAll(b) + EncAll(c + [End])
    ensures a + b + c + [End] == a + b + (c + [End])
  {
    hide EncAll;
    EncAllConcat(a + b, c + [End]);
    EncAllConcat(a, b);
  }

  lemma ValidConcat(a: seq<Token>, b: seq<Token>)
    ensures ValidTokens(a + b) <==> ValidTokens(a) && ValidTokens(b)
  {
    var c := a + b;
    hide ValidToken;
    assert forall i :: 0 <= i < |a| ==> c[i] == a[i];
    assert forall i :: 0 <= i < |b| ==> c[|a| + i] == b[i];
    assert forall i :: |a| <= i < |c| ==> c[i] == b[i - |a|];
  }

  lemma BlockSplit(top: seq<Item>, path: seq<nat>, a: nat, b: nat)
    requires ValidPath(top, path) && a <= b <= |Sub(top, path)|
    ensures EncAll(BlockToks(top)) == Head(top, path, a) + EncAll(Toks(Sub(top, path)[a..b])) + Tail(top, path, b)
  {
    SplitToks(top, path, a, b);
    hide EncAll, Before, After, Toks;
    EncThree(Before(top, path, a), Toks(Sub(top, path)[a..b]), After(top, path, b));
  }

  lemma BlockEdit(top: seq<Item>, path: seq<nat>, a: nat, b: nat, repl: seq<Item>)
    requires ValidPath(top, path) && a <= b <= |Sub(top, path)|
    ensures EncAll(BlockToks(Edit(top, path, a, b, repl)))
         == Head(top, path, a) + EncAll(Toks(repl)) + Tail(top, path, b)
  {
    EditToks(top, path, a, b, repl);
    hide EncAll, Before, After, Toks, Edit;
    EncThree(Before(top, path, a), Toks(repl), After(top, path, b));
  }

  lemma EditValid(top: seq<Item>, path: seq<nat>, a: nat, b: nat, repl: seq<Item>, strtab: seq<byte>)
    requires ValidPath(top, path) && a <= b <= |Sub(top, path)|
    requires ValidTokens(BlockToks(top)) && ValidTokens(Toks(repl))
    requires Named(Toks(top), strtab) && Named(Toks(repl), strtab)
    ensures ValidTokens(BlockToks(Edit(top, path, a, b, repl)))
    ensures Named(Toks(Edit(top, path, a, b, repl)), strtab)
  {
    var x, y, z, m := Before(top, path, a), Toks(Sub(top, path)[a..b]), After(top, path, b), Toks(repl);
    SplitToks(top, path, a, b);
    EditToks(top, path, a, b, repl);
    hide *;
    assert BlockToks(top) == x + y + z + [End] && BlockToks(Edit(top, path, a, b, repl)) == x + m + z + [End] by {
      BlockToksIs(top);
      BlockToksIs(Edit(top, path, a, b, repl));
    }
    ValidConcat(x + y + z, [End]);
    ValidConcat(x + y, z);
    ValidConcat(x, y);
    ValidConcat(x, m);
    ValidConcat(x + m, z);
    ValidConcat(x + m + z, [End]);
    NamedConcat(x + y, z, strtab);
    NamedConcat(x, y, strtab);
    NamedConcat(x, m, strtab);
    NamedConcat(x + m, z, strtab);
  }

  lemma BlockToksIs(top: seq<Item>)
    ensures BlockToks(top) == Toks(top) + [End]
  {
  }

  /**
   * The splice lemma: putting the encoding of repl in place of items a..b of a list
   * gives a well-formed block whose tree is the edited tree.
   */
  lemma SpliceRefines(s: seq<byte>, strtab: seq<byte>, top: seq<Item>, path: seq<nat>, a: nat, b: nat,
                      repl: seq<Item>, t: seq<byte>)
    requires Represents(s, strtab, top) && ValidPath(top, path) && a <= b <= |Sub(top, path)|
    requires t == Head(top, path, a) + EncAll(Toks(repl)) + Tail(top, path, b)
    requires ValidTokens(Toks(repl)) && Named(Toks(repl), strtab)
    requires Ordered(Sub(top, path)[..a] + repl + Sub(top, path)[b..])
    ensures Represents(t, strtab, SetSub(top, path, Sub(top, path)[..a] + repl + Sub(top, path)[b..]))
  {
    BlockEdit(top, path, a, b, repl);
    EditValid(top, path, a, b, repl, strtab);
    OrderedEdit(top, path, a, b, repl);
    BlockToksIs(Edit(top, path, a, b, repl));
    EditIsSet(top, path, a, b, repl);
  }

  /** Items a..b of a list take a stretch of the block. */
  lemma RangeFits(s: seq<byte>, strtab: seq<byte>, top: seq<Item>, path: seq<nat>, a: nat, b: nat)
    requires Represents(s, strtab, top) && ValidPath(top, path) && a <= b <= |Sub(top, path)|
    ensures var p, n := OffsetOf(top, path, a), |EncAll(Toks(Sub(top, path)[a..b]))|;
      p + n <= |s| && s[..p] == Head(top, path, a) && s[p + n..] == Tail(top, path, b)
  {
    hide Toks, Ordered, Named, Tail, Sub, ValidPath, EncAll;
    BlockSplit(top, path, a, b);
    var h, m, r := Head(top, path, a), EncAll(Toks(Sub(top, path)[a..b])), Tail(top, path, b);
    assert (h + m + r)[..|h|] == h && (h + m + r)[|h| + |m|..] == r;
  }

  /** The splice lemma with the unchanged parts taken from the old block. */
  lemma ReplaceRefines(s: seq<byte>, strtab: seq<byte>, top: seq<Item>, path: seq<nat>, a: nat, b: nat,
                       repl: seq<Item>, t: seq<byte>)
    requires Represents(s, strtab, top) && ValidPath(top, path) && a <= b <= |Sub(top, path)|
    requires var p, n := OffsetOf(top, path, a), |EncAll(Toks(Sub(top, path)[a..b]))|;
      p + n <= |s| && t == s[..p] + EncAll(Toks(repl)) + s[p + n..]
    requires ValidTokens(Toks(repl)) && Named(Toks(repl), strtab)
    requires Ordered(Sub(top, path)[..a] + repl + Sub(top, path)[b..])
    ensures Represents(t, strtab, SetSub(top, path, Sub(top, path)[..a] + repl + Sub(top, path)[b..]))
  {
    hide Toks, Ordered, Named, Tail, Head, Sub, SetSub, ValidPath, EncAll, Represents, OffsetOf;
    RangeFits(s, strtab, top, path, a, b);
    SpliceRefines(s, strtab, top, path, a, b, repl, t);
  }

  /** Names of a part of the tree are strings of the table too. */
  lemma NamedSub(top: seq<Item>, path: seq<nat>, strtab: seq<byte>)
    requires Named(Toks(top), strtab) && ValidPath(top, path)
    ensures Named(Toks(Sub(top, path)), strtab)
  {
    var n := |Sub(top, path)|;
    SplitToks(top, path, 0, n);
    assert Sub(top, path)[0..n] == Sub(top, path);
    NamedConcat(Before(top, path, 0) + Toks(Sub(top, path)), After(top, path, n), strtab);
    NamedConcat(Before(top, path, 0), Toks(Sub(top, path)), strtab);
  }

  /** A node's own list: where it starts, and that its items are those of the node. */
  lemma {:induction false} Enter(top: seq<Item>, path: seq<nat>, k: nat, a: nat)
    requires NodeAt(top, path, k) && a <= |Sub(top, path)[k].items|
    ensures ValidPath(top, path + [k]) && Sub(top, path + [k]) == Sub(top, path)[k].items
    ensures var n := Sub(top, path)[k];
      Before(top, path + [k], a) == Before(top, path, k) + [Begin(n.name, n.pad)] + Toks(n.items[..a])
    decreases |path|
  {
    var full := path + [k];
    if path == [] {
      assert full[1..] == [] && full[0] == k;
    } else {
      assert full[1..] == path[1..] + [k] && full[0] == path[0];
      Enter(top[path[0]].items, path[1..], k, a);
    }
  }
}
