/**
 * Trees over tokens.  An Item list is the concrete tree, with padding and NOPs;
 * Tree is what it means once the trivia and the string offsets are resolved.
 */
module Trees {
  import opened Bytes
  import opened Tokens

  datatype Item =
    | INop
    | IProp(nameoff: u32, val: seq<byte>, pad: seq<byte>)
    | Node(name: seq<byte>, pad: seq<byte>, items: seq<Item>)

  function ItemToks(it: Item): (ts: seq<Token>)
    ensures |ts| > 0
    decreases it, 0
  {
    match it
    case INop => [Nop]
    case IProp(o, v, p) => [Prop(o, v, p)]
    case Node(n, p, items) => [Begin(n, p)] + Toks(items) + [EndNode]
  }

  function Toks(items: seq<Item>): (ts: seq<Token>)
    decreases items, 1
  {
    if items == [] then [] else ItemToks(items[0]) + Toks(items[1..])
  }

  lemma {:induction false} ToksConcat(a: seq<Item>, b: seq<Item>)
    ensures Toks(a + b) == Toks(a) + Toks(b)
  {
    if a == [] {
      assert a + b == b;
    } else {
      ToksConcat(a[1..], b);
      assert (a + b)[1..] == a[1..] + b && (a + b)[0] == a[0];
      hide ItemToks;
      Assoc(ItemToks(a[0]), Toks(a[1..]), Toks(b));
    }
  }

  lemma ToksOne(it: Item)
    ensures Toks([it]) == ItemToks(it)
  {
    assert [it][1..] == [];
  }

  // ---------------------------------------------------------------- positions

  /** A path picks a list of items: [] is the top list, [k] the items of node k in it, and so on. */
  predicate ValidPath(items: seq<Item>, path: seq<nat>) {
    path == [] ||
    (path[0] < |items| && items[path[0]].Node? && ValidPath(items[path[0]].items, path[1..]))
  }

  function Sub(items: seq<Item>, path: seq<nat>): seq<Item>
    requires ValidPath(items, path)
  {
    if path == [] then items else Sub(items[path[0]].items, path[1..])
  }

  /** Replace items a..b of the list at path. */
  function Edit(items: seq<Item>, path: seq<nat>, a: nat, b: nat, repl: seq<Item>): (r: seq<Item>)
    requires ValidPath(items, path) && a <= b <= |Sub(items, path)|
  {
    if path == [] then items[..a] + repl + items[b..] else
    var k := path[0];
    items[k := items[k].(items := Edit(items[k].items, path[1..], a, b, repl))]
  }

  /** The tokens before item a of the list at path. */
  function Before(items: seq<Item>, path: seq<nat>, a: nat): seq<Token>
    requires ValidPath(items, path) && a <= |Sub(items, path)|
  {
    if path == [] then Toks(items[..a]) else
    var n := items[path[0]];
    Toks(items[..path[0]]) + [Begin(n.name, n.pad)] + Before(n.items, path[1..], a)
  }

  /** The tokens from item b of the list at path on. */
  function After(items: seq<Item>, path: seq<nat>, b: nat): seq<Token>
    requires ValidPath(items, path) && b <= |Sub(items, path)|
  {
    if path == [] then Toks(items[b..]) else
    After(items[path[0]].items, path[1..], b) + [EndNode] + Toks(items[path[0] + 1..])
  }

  lemma ToksUpdate(items: seq<Item>, k: nat, it: Item)
    requires k < |items|
    ensures Toks(items[k := it]) == Toks(items[..k]) + ItemToks(it) + Toks(items[k + 1..])
  {
    assert items[k := it] == items[..k] + [it] + items[k + 1..];
    ToksOne(it);
    ToksConcat(items[..k] + [it], items[k + 1..]);
    ToksConcat(items[..k], [it]);
  }

  lemma Regroup<T>(pre: seq<T>, o: seq<T>, l: seq<T>, m: seq<T>, r: seq<T>, c: seq<T>, post: seq<T>)
    ensures pre + (o + (l + m + r) + c) + post == (pre + o + l) + m + (r + c + post)
  {
  }

  /** An edit of the tree is a splice of the token list. */
  lemma {:induction false} EditToks(items: seq<Item>, path: seq<nat>, a: nat, b: nat, repl: seq<Item>)
    requires ValidPath(items, path) && a <= b <= |Sub(items, path)|
    ensures Toks(Edit(items, path, a, b, repl)) == Before(items, path, a) + Toks(repl) + After(items, path, b)
  {
    if path == [] {
      ToksConcat(items[..a] + repl, items[b..]);
      ToksConcat(items[..a], repl);
    } else {
      var k := path[0];
      var n := items[k];
      EditToks(n.items, path[1..], a, b, repl);
      ToksUpdate(items, k, n.(items := Edit(n.items, path[1..], a, b, repl)));
      Regroup(Toks(items[..k]), [Begin(n.name, n.pad)], Before(n.items, path[1..], a), Toks(repl),
              After(n.items, path[1..], b), [EndNode], Toks(items[k + 1..]));
    }
  }

  lemma {:induction false} EditSame(items: seq<Item>, path: seq<nat>, a: nat, b: nat)
    requires ValidPath(items, path) && a <= b <= |Sub(items, path)|
    ensures Edit(items, path, a, b, Sub(items, path)[a..b]) == items
  {
    if path == [] {
      assert items[..a] + items[a..b] + items[b..] == items;
    } else {
      EditSame(items[path[0]].items, path[1..], a, b);
    }
  }

  lemma SplitToks(items: seq<Item>, path: seq<nat>, a: nat, b: nat)
    requires ValidPath(items, path) && a <= b <= |Sub(items, path)|
    ensures Toks(items) == Before(items, path, a) + Toks(Sub(items, path)[a..b]) + After(items, path, b)
  {
    EditSame(items, path, a, b);
    EditToks(items, path, a, b, Sub(items, path)[a..b]);
  }

  /** Give the list at path new contents. */
  function SetSub(items: seq<Item>, path: seq<nat>, list: seq<Item>): seq<Item>
    requires ValidPath(items, path)
  {
    if path == [] then list else
    var k := path[0];
    items[k := items[k].(items := SetSub(items[k].items, path[1..], list))]
  }

  lemma {:induction false} EditIsSet(items: seq<Item>, path: seq<nat>, a: nat, b: nat, repl: seq<Item>)
    requires ValidPath(items, path) && a <= b <= |Sub(items, path)|
    ensures Edit(items, path, a, b, repl) == SetSub(items, path, Sub(items, path)[..a] + repl + Sub(items, path)[b..])
  {
    if path == [] {
    } else {
      EditIsSet(items[path[0]].items, path[1..], a, b, repl);
    }
  }

  lemma {:induction false} SetSubGet(items: seq<Item>, path: seq<nat>, list: seq<Item>)
    requires ValidPath(items, path)
    ensures ValidPath(SetSub(items, path, list), path) && Sub(SetSub(items, path, list), path) == list
    ensures SetSub(items, path, Sub(items, path)) == items
  {
    if path == [] {
    } else {
      SetSubGet(items[path[0]].items, path[1..], list);
    }
  }

  lemma {:induction false} SetSubSet(items: seq<Item>, path: seq<nat>, l: seq<Item>, m: seq<Item>)
    requires ValidPath(items, path) && ValidPath(SetSub(items, path, l), path)
    ensures SetSub(SetSub(items, path, l), path, m) == SetSub(items, path, m)
  {
    if path == [] {
    } else {
      SetSubSet(items[path[0]].items, path[1..], l, m);
    }
  }

  /** New contents behind item a leave everything before it in place. */
  lemma {:induction false} BeforeSet(items: seq<Item>, path: seq<nat>, list: seq<Item>, a: nat)
    requires ValidPath(items, path) && a <= |Sub(items, path)| && a <= |list| && list[..a] == Sub(items, path)[..a]
    ensures ValidPath(SetSub(items, path, list), path) && Sub(SetSub(items, path, list), path) == list
    ensures Before(SetSub(items, path, list), path, a) == Before(items, path, a)
  {
    SetSubGet(items, path, list);
    if path == [] {
    } else {
      var k := path[0];
      BeforeSet(items[k].items, path[1..], list, a);
      assert SetSub(items, path, list)[..k] == items[..k];
    }
  }

  /** The list of node k at path lies at path + [k]. */
  lemma {:induction false} SetInner(items: seq<Item>, path: seq<nat>, k: nat, list: seq<Item>)
    requires ValidPath(items, path) && k < |Sub(items, path)| && Sub(items, path)[k].Node?
    ensures ValidPath(items, path + [k]) && Sub(items, path + [k]) == Sub(items, path)[k].items
    ensures SetSub(items, path + [k], list)
         == SetSub(items, path, Sub(items, path)[k := Sub(items, path)[k].(items := list)])
    decreases |path|
  {
    var full := path + [k];
    if path == [] {
      assert full[1..] == [] && full[0] == k;
    } else {
      assert full[1..] == path[1..] + [k] && full[0] == path[0];
      SetInner(items[path[0]].items, path[1..], k, list);
    }
  }
}
