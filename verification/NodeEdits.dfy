/** Renaming, adding, deleting and blanking nodes (fdt_rw.c, fdt_wip.c), in terms of the tree. */
module NodeEdits {
  import opened Bytes
  import opened Tokens
  import opened Trees
  import opened Views
  import opened Walks
  import opened Scan
  import opened Lookup
  import opened Splices
  import opened Blob
  import opened Edits
  import opened PropEdits

  // -------------------------------------------------------- ends and children

  /** Where a node's children and its end lie in the walk that starts at the node. */
  lemma NodeWalk(top: seq<Item>, path: seq<nat>, k: nat)
    requires NodeAt(top, path, k)
    ensures var ts, i, n := BlockToks(top), Index(top, path, k), Sub(top, path)[k];
      var e := i + 1 + |Toks(n.items)|;
      && e < |ts| && Walk(ts, i + 1, 0) == TreeWalk(n.items, i + 1, 0) && WalkEnd(ts, i + 1, 0) == Up(e + 1)
      && HasAt(ts, i + 1, Toks(n.items))
  {
    hide Before, Toks, Sub, BlockToks, TreeWalk, HasAt, Index;
    NodeInBlock(top, path, k);
    var ts, i, n := BlockToks(top), Index(top, path, k), Sub(top, path)[k];
    WalkItems(ts, i + 1, 0, n.items);
    WalkOut(ts, i + 1 + |Toks(n.items)|);
    assert TreeWalk(n.items, i + 1, 0) + [] == TreeWalk(n.items, i + 1, 0);
  }

  lemma WalkOut(ts: seq<Token>, e: nat)
    requires e < |ts| && ts[e].EndNode?
    ensures Walk(ts, e, 0) == [] && WalkEnd(ts, e, 0) == Up(e + 1)
  {
  }

  /** fdt_subnode_offset_namelen finds the first child of the tree that answers to the name. */
  lemma ChildOffset(top: seq<Item>, path: seq<nat>, k: nat, name: seq<byte>)
    requires NodeAt(top, path, k)
    ensures Inside(top, path, k)
    ensures var ts, i, f := BlockToks(top), Index(top, path, k), KidIndex(Sub(top, path + [k]), name);
      if f.Found? then
        && ChildFrom(ts, i + 1, 0, name) == Found(Index(top, path + [k], f.index))
        && Off(ts, Index(top, path + [k], f.index)) == OffsetOf(top, path + [k], f.index)
      else ChildFrom(ts, i + 1, 0, name) == Missing
    ensures FirstAnswer(Sub(top, path + [k]), name, KidIndex(Sub(top, path + [k]), name))
  {
    hide FirstAnswer, Before, Toks, Sub, BlockToks, TreeWalk, HasAt, Off, EncAll, Walk, WalkEnd;
    Enter(top, path, k, 0);
    NodeWalk(top, path, k);
    var ts, i, items := BlockToks(top), Index(top, path, k), Sub(top, path)[k].items;
    FirstChildItems(ts, i + 1, items, name);
    KidIndexIs(items, name);
    var f := KidIndex(items, name);
    if f.Found? {
      Enter(top, path, k, f.index);
      Located(top, path + [k], f.index);
    }
  }

  /** A node takes the bytes from its offset to the end that fdt_node_end_offset_ finds. */
  lemma NodeExtent(s: seq<byte>, strtab: seq<byte>, top: seq<Item>, path: seq<nat>, k: nat)
    requires Represents(s, strtab, top) && NodeAt(top, path, k)
    ensures var ts, i := BlockToks(top), Index(top, path, k);
      && WalkEnd(ts, i + 1, 0).Up?
      && Off(ts, WalkEnd(ts, i + 1, 0).index) == OffsetOf(top, path, k) + Extent(top, path, k)
    ensures Extent(top, path, k) % 4 == 0
  {
    hide Before, Toks, Sub, BlockToks, TreeWalk, HasAt, Walk, WalkEnd, EncAll, ItemToks, Named, Ordered;
    NodeWalk(top, path, k);
    Located(top, path, k);
    var ts, i, it := BlockToks(top), Index(top, path, k), Sub(top, path)[k];
    NodeToksLength(it);
    EndOffset(ts, i, ItemToks(it));
  }

  lemma NodeToksLength(it: Item)
    requires it.Node?
    ensures |ItemToks(it)| == |Toks(it.items)| + 2
  {
  }

  lemma EndOffset(ts: seq<Token>, i: nat, part: seq<Token>)
    requires HasAt(ts, i, part) && ValidTokens(ts)
    ensures Off(ts, i + |part|) == Off(ts, i) + |EncAll(part)|
    ensures |EncAll(part)| % 4 == 0
  {
    hide EncAll, ValidToken;
    var e := i + |part|;
    assert ts[..e] == ts[..i] + part;
    EncAllConcat(ts[..i], part);
    OffAligned(ts, i);
    OffAligned(ts, e);
  }

  // ------------------------------------------------------------------ deleting

  /** The list of children without child j. */
  function Without<T>(kids: seq<T>, j: nat): seq<T>
    requires j < |kids|
  {
    kids[..j] + kids[j + 1..]
  }

  /** The child number of node k of a list. */
  function KidNumber(items: seq<Item>, k: nat, strtab: seq<byte>): nat
    requires k <= |items|
  {
    |KidsOf(items[..k], strtab)|
  }

  lemma DropNode(items: seq<Item>, strtab: seq<byte>, k: nat, n: nat)
    requires k < |items| && items[k].Node?
    ensures var r, j := items[..k] + Nops(n) + items[k + 1..], KidNumber(items, k, strtab);
      && PropsOf(r, strtab) == PropsOf(items, strtab)
      && j < |KidsOf(items, strtab)| && KidsOf(r, strtab) == Without(KidsOf(items, strtab), j)
  {
    hide PropsOf, KidsOf, Nops, View;
    SplitView(items, k, strtab);
    BlankView(items, k, n, strtab);
  }

  /** fdt_del_node */
  method DelNode(f: Fdt, node: int, ghost top: seq<Item>, ghost path: seq<nat>, ghost k: nat, ghost i: int)
    returns (err: int, ghost items: seq<Item>)
    requires Means(f, top) && Names(top, path, k, i, node)
    modifies f, f.buf
    ensures f.Valid() && f.Around() == old(f.Around())
    ensures i < 0 ==> err == node
    ensures i >= 0 && !IsNode(top, i) ==> err == -ERR_BADOFFSET
    ensures IsNode(top, i) ==>
      && err == 0 && NodeAt(top, path, k)
      && var list, j := Sub(top, path), KidNumber(Sub(top, path), k, f.Strings());
         && j < |KidsOf(list, f.Strings())|
         && Becomes(f, top, path, items, PropsOf(list, f.Strings()), Without(KidsOf(list, f.Strings()), j))
         && f.DataSize() == old(f.DataSize()) - Extent(top, path, k)
    ensures !IsNode(top, i) ==> f.All() == old(f.All())
  {
    hide SetSub, Sub, StructOf, StringsOf, PropsOf, KidsOf, ValidPath, Extent, EncAll, Toks, Before, Off, WalkEnd, Walk,
      OffsetOf, KidNumber, Without;
    ghost var s, strtab := f.Struct(), f.Strings();
    items := [];
    var end := NodeEndOffset(f.Struct(), node, BlockToks(top), i);
    if IsNode(top, i) {
      NodeExtent(s, strtab, top, path, k);
      Located(top, path, k);
    }
    if end < 0 {
      return end, items;
    }
    err := RemoveItem(f, node, end - node, top, path, k);
    items := Sub(top, path)[..k] + Sub(top, path)[k + 1..];
    assert Sub(top, path)[..k] + Nops(0) == Sub(top, path)[..k];
    DropNode(Sub(top, path), strtab, k, 0);
  }

  /** fdt_nop_node: the tree loses the node, and no byte outside the node changes. */
  method NopNode(f: Fdt, node: int, ghost top: seq<Item>, ghost path: seq<nat>, ghost k: nat, ghost i: int)
    returns (err: int, ghost items: seq<Item>)
    requires Means(f, top) && Names(top, path, k, i, node)
    modifies f.buf
    ensures f.Valid() && f.Around() == old(f.Around())
    ensures i < 0 ==> err == node
    ensures i >= 0 && !IsNode(top, i) ==> err == -ERR_BADOFFSET
    ensures IsNode(top, i) ==>
      && err == 0 && NodeAt(top, path, k)
      && var list, j := Sub(top, path), KidNumber(Sub(top, path), k, f.Strings());
         && j < |KidsOf(list, f.Strings())|
         && Becomes(f, top, path, items, PropsOf(list, f.Strings()), Without(KidsOf(list, f.Strings()), j))
    ensures IsNode(top, i) ==>
      var e := node + Extent(top, path, k);
      && 0 <= node && e <= |f.Struct()| && f.Struct()[..node] == old(f.Struct())[..node]
      && f.Struct()[e..] == old(f.Struct())[e..]
    ensures !IsNode(top, i) ==> f.All() == old(f.All())
  {
    hide SetSub, Sub, StructOf, StringsOf, PropsOf, KidsOf, ValidPath, Extent, EncAll, Toks, Before, Off, WalkEnd, Walk,
      OffsetOf, KidNumber, Without;
    ghost var s, strtab := f.Struct(), f.Strings();
    items := [];
    var end := NodeEndOffset(f.Struct(), node, BlockToks(top), i);
    if IsNode(top, i) {
      NodeExtent(s, strtab, top, path, k);
      Located(top, path, k);
    }
    if end < 0 {
      return end, items;
    }
    NopItem(f, node, end - node, top, path, k);
    err := 0;
    items := Sub(top, path)[..k] + Nops((end - node) / 4) + Sub(top, path)[k + 1..];
    DropNode(Sub(top, path), strtab, k, (end - node) / 4);
  }

  // ------------------------------------------------------------------ renaming

  /** The bytes of a node: its tag and name, then its contents. */
  lemma NodeBytes(it: Item)
    requires it.Node?
    ensures EncAll(ItemToks(it))
         == Be32(FDT_BEGIN_NODE) + (it.name + [0] + it.pad) + EncAll(Toks(it.items) + [EndNode])
  {
    hide Be32, EncAll, Toks;
    var b := Begin(it.name, it.pad);
    assert ItemToks(it) == [b] + (Toks(it.items) + [EndNode]);
    EncAllConcat([b], Toks(it.items) + [EndNode]);
    EncAllOne(b);
    assert Enc(b) == Be32(FDT_BEGIN_NODE) + (it.name + [0] + it.pad);
  }

  lemma NodeFacts(s: seq<byte>, strtab: seq<byte>, top: seq<Item>, path: seq<nat>, k: nat)
    requires Represents(s, strtab, top) && NodeAt(top, path, k)
    ensures var n := Sub(top, path)[k];
      && ValidToken(Begin(n.name, n.pad)) && ValidTokens(Toks(n.items)) && Named(Toks(n.items), strtab)
  {
    hide Before, Sub, Ordered, ValidToken;
    NodeInBlock(top, path, k);
    Enter(top, path, k, 0);
    NamedSub(top, path + [k], strtab);
    var ts, i, n := BlockToks(top), Index(top, path, k), Sub(top, path)[k];
    assert ValidToken(ts[i]);
    SliceValid(ts, i + 1, Toks(n.items));
  }

  lemma SliceValid(ts: seq<Token>, i: nat, part: seq<Token>)
    requires HasAt(ts, i, part) && ValidTokens(ts)
    ensures ValidTokens(part)
  {
    hide ValidToken;
    forall j | 0 <= j < |part| ensures ValidToken(part[j]) {
      assert part[j] == ts[i..i + |part|][j] == ts[i + j];
    }
  }

  lemma NodeValid(it: Item, strtab: seq<byte>)
    requires it.Node? && ValidToken(Begin(it.name, it.pad)) && ValidTokens(Toks(it.items))
    requires Named(Toks(it.items), strtab)
    ensures ValidTokens(Toks([it])) && Named(Toks([it]), strtab) && Toks([it]) == ItemToks(it)
  {
    hide ValidToken, Toks;
    ToksOne(it);
    NodeNamed(it, strtab);
    ValidConcat([Begin(it.name, it.pad)], Toks(it.items));
    ValidConcat([Begin(it.name, it.pad)] + Toks(it.items), [EndNode]);
    assert ValidToken(EndNode) by {
      EndIsValid();
    }
  }

  lemma EndIsValid()
    ensures ValidToken(EndNode)
  {
  }

  lemma OrderedRename(s: seq<byte>, strtab: seq<byte>, top: seq<Item>, path: seq<nat>, k: nat, it: Item)
    requires Represents(s, strtab, top) && NodeAt(top, path, k)
    requires it.Node? && it.items == Sub(top, path)[k].items
    ensures Sub(top, path)[..k] + [it] + Sub(top, path)[k + 1..] == Sub(top, path)[k := it]
    ensures Ordered(Sub(top, path)[k := it])
  {
    OrderedSub(top, path);
  }

  /** Replacing the name area of a node renames it. */
  lemma RenameRefines(s: seq<byte>, strtab: seq<byte>, top: seq<Item>, path: seq<nat>, k: nat,
                      name: seq<byte>, pad: seq<byte>, t: seq<byte>)
    requires Represents(s, strtab, top) && NodeAt(top, path, k) && ValidToken(Begin(name, pad))
    requires var a, o := OffsetOf(top, path, k) + 4, Align4(|Sub(top, path)[k].name| + 1);
      a + o <= |s| && t == s[..a] + (name + [0] + pad) + s[a + o..]
    ensures Represents(t, strtab, SetSub(top, path, Sub(top, path)[k := Node(name, pad, Sub(top, path)[k].items)]))
  {
    hide Represents, OffsetOf, SetSub, Sub, Toks, EncAll, ValidPath, Before, Be32, Align4, Named;
    var o := Sub(top, path)[k];
    var it := Node(name, pad, o.items);
    NodeFacts(s, strtab, top, path, k);
    NodeBytes(o);
    NodeBytes(it);
    NodeValid(it, strtab);
    OrderedRename(s, strtab, top, path, k, it);
    OneExtent(top, path, k);
    RangeFits(s, strtab, top, path, k, k + 1);
    NodeSlices(s, strtab, top, path, k);
    RenameBytes(s, OffsetOf(top, path, k), o.name + [0] + o.pad, name + [0] + pad,
                EncAll(Toks(o.items) + [EndNode]), t);
    ReplaceRefines(s, strtab, top, path, k, k + 1, [it], t);
  }

  lemma NodeSlices(s: seq<byte>, strtab: seq<byte>, top: seq<Item>, path: seq<nat>, k: nat)
    requires Represents(s, strtab, top) && NodeAt(top, path, k)
    ensures var p, b := OffsetOf(top, path, k), EncAll(ItemToks(Sub(top, path)[k]));
      p + |b| <= |s| && s[p..p + |b|] == b
  {
    hide Represents, Sub, EncAll, ValidPath, Tail, Ordered, Named;
    RangeFits(s, strtab, top, path, k, k + 1);
    BlockAt3(s, strtab, top, path, k);
  }

  lemma BlockAt3(s: seq<byte>, strtab: seq<byte>, top: seq<Item>, path: seq<nat>, k: nat)
    requires Represents(s, strtab, top) && ValidPath(top, path) && k < |Sub(top, path)|
    ensures s == Head(top, path, k) + EncAll(ItemToks(Sub(top, path)[k])) + Tail(top, path, k + 1)
    ensures |Head(top, path, k)| == OffsetOf(top, path, k)
  {
    hide Sub, EncAll, ValidPath, Tail, Ordered, Named, Toks;
    BlockSplit(top, path, k, k + 1);
    assert Sub(top, path)[k..k + 1] == [Sub(top, path)[k]];
    ToksOne(Sub(top, path)[k]);
  }

  lemma RenameBytes(s: seq<byte>, p: nat, old_area: seq<byte>, area: seq<byte>, body: seq<byte>, t: seq<byte>)
    requires var b := Be32(FDT_BEGIN_NODE) + old_area + body; p + |b| <= |s| && s[p..p + |b|] == b
    requires t == s[..p + 4] + area + s[p + 4 + |old_area|..]
    ensures t == s[..p] + (Be32(FDT_BEGIN_NODE) + area + body) + s[p + 4 + |old_area| + |body|..]
  {
    hide Be32;
    var w := Be32(FDT_BEGIN_NODE);
    var b := w + old_area + body;
    var e := p + |b|;
    SubSlice(s, p, b, 0, 4);
    SubSlice(s, p, b, 4 + |old_area|, |b|);
    assert b[0..4] == w && b[4 + |old_area|..|b|] == body;
    assert s[..p + 4] == s[..p] + w;
    assert s[p + 4 + |old_area|..] == body + s[e..];
  }

  /** fdt_set_name */
  method SetName(f: Fdt, node: int, name: seq<byte>, ghost top: seq<Item>, ghost path: seq<nat>, ghost k: nat,
                 ghost i: int)
    returns (err: int, ghost items: seq<Item>)
    requires Means(f, top) && Names(top, path, k, i, node) && 0 !in name
    modifies f, f.buf
    ensures f.Valid() && f.Around() == old(f.Around())
    ensures !IsNode(top, i) ==> err == -ERR_BADOFFSET
    ensures IsNode(top, i) ==> NodeAt(top, path, k)
    ensures IsNode(top, i) ==>
      err == if old(f.DataSize()) - Align4(|Sub(top, path)[k].name| + 1) + Align4(|name| + 1) > f.h.totalsize
             then -ERR_NOSPACE else 0
    ensures err != 0 ==> f.All() == old(f.All())
    ensures err == 0 ==>
      && IsNode(top, i)
      && f.DataSize() == old(f.DataSize()) - Align4(|Sub(top, path)[k].name| + 1) + Align4(|name| + 1)
      && var list, j := Sub(top, path), KidNumber(Sub(top, path), k, f.Strings());
         && j < |KidsOf(list, f.Strings())|
         && Becomes(f, top, path, items, PropsOf(list, f.Strings()),
                    KidsOf(list, f.Strings())[j := KidsOf(list, f.Strings())[j].(name := name)])
  {
    hide SetSub, Sub, StructOf, StringsOf, PropsOf, KidsOf, Represents, OffsetOf, Align4, Names, CheckOffset, IsNode,
      KidNumber, NodeName, ValidPath, Before;
    ghost var s, strtab := f.Struct(), f.Strings();
    items := [];
    NameOf(s, strtab, top, path, k, i, node);
    err := CheckOffset(f.Struct(), node, FDT_BEGIN_NODE);
    if err < 0 {
      return;
    }
    var oldlen, newlen := |NodeName(f.Struct(), node)|, |name|;
    assert IsNode(top, i) && node == OffsetOf(top, path, k) && oldlen == |Sub(top, path)[k].name|;
    err := f.SpliceStruct(node + 4, Align4(oldlen + 1), Align4(newlen + 1));
    if err != 0 {
      return;
    }
    ghost var s1 := f.Struct();
    Align4Mono(newlen + 1, newlen + 1);
    f.PutStruct(node + 4, name + [0]);
    items := Renamed(s, s1, f.Struct(), strtab, top, path, k, name);
  }

  lemma Renamed(s: seq<byte>, s1: seq<byte>, t: seq<byte>, strtab: seq<byte>,
                top: seq<Item>, path: seq<nat>, k: nat, name: seq<byte>)
    returns (items: seq<Item>)
    requires Represents(s, strtab, top) && NodeAt(top, path, k) && 0 !in name
    requires var a, o, n := OffsetOf(top, path, k) + 4, Align4(|Sub(top, path)[k].name| + 1), Align4(|name| + 1);
      && a + o <= |s| && |s1| == |s| - o + n && s1[..a] == s[..a] && s1[a + n..] == s[a + o..]
      && |name| + 1 <= n && t == s1[..a] + (name + [0]) + s1[a + |name| + 1..]
    ensures Represents(t, strtab, SetSub(top, path, items))
    ensures var list, j := Sub(top, path), KidNumber(Sub(top, path), k, strtab);
      && j < |KidsOf(list, strtab)| && PropsOf(items, strtab) == PropsOf(list, strtab)
      && KidsOf(items, strtab) == KidsOf(list, strtab)[j := KidsOf(list, strtab)[j].(name := name)]
  {
    hide SetSub, Sub, PropsOf, KidsOf, Represents, OffsetOf, Align4, KidNumber;
    var a, o, n := OffsetOf(top, path, k) + 4, Align4(|Sub(top, path)[k].name| + 1), Align4(|name| + 1);
    var pad := s1[a + |name| + 1..a + n];
    NameGap(s, s1, t, a, o, n, name + [0], pad);
    RenameRefines(s, strtab, top, path, k, name, pad, t);
    items := Sub(top, path)[k := Node(name, pad, Sub(top, path)[k].items)];
    RenameView(Sub(top, path), k, name, pad, strtab);
  }

  lemma RenameView(items: seq<Item>, k: nat, name: seq<byte>, pad: seq<byte>, strtab: seq<byte>)
    requires k < |items| && items[k].Node?
    ensures var r, j := items[k := Node(name, pad, items[k].items)], KidNumber(items, k, strtab);
      && j < |KidsOf(items, strtab)| && PropsOf(r, strtab) == PropsOf(items, strtab)
      && KidsOf(r, strtab) == KidsOf(items, strtab)[j := KidsOf(items, strtab)[j].(name := name)]
  {
    hide PropsOf, KidsOf;
    KidAt(items, k, strtab);
    ReplaceNode(items, k, Node(name, pad, items[k].items), strtab);
  }

  /** What fdt_get_name says about an offset. */
  lemma NameOf(s: seq<byte>, strtab: seq<byte>, top: seq<Item>, path: seq<nat>, k: nat, i: int, node: int)
    requires Represents(s, strtab, top) && Names(top, path, k, i, node)
    ensures !IsNode(top, i) ==> CheckOffset(s, node, FDT_BEGIN_NODE) == -ERR_BADOFFSET
    ensures IsNode(top, i) ==>
      && CheckOffset(s, node, FDT_BEGIN_NODE) >= 0 && NodeAt(top, path, k) && node == OffsetOf(top, path, k)
      && node + 4 + Align4(|Sub(top, path)[k].name| + 1) <= |s|
      && |NodeName(s, node)| == |Sub(top, path)[k].name|
  {
    hide Sub, EncAll, Toks, Before, Off, OffsetOf, Align4, Ordered, Named, TagAt, NodeName;
    if i >= 0 {
      CheckToken(s, BlockToks(top), i, FDT_BEGIN_NODE);
      if IsNode(top, i) {
        Located(top, path, k);
        NodeNameToken(s, BlockToks(top), i);
        NodeInBlock(top, path, k);
        NameArea(s, strtab, top, path, k);
      }
    }
  }

  /** The name area of a node lies inside the block. */
  lemma NameArea(s: seq<byte>, strtab: seq<byte>, top: seq<Item>, path: seq<nat>, k: nat)
    requires Represents(s, strtab, top) && NodeAt(top, path, k)
    ensures OffsetOf(top, path, k) + 4 + Align4(|Sub(top, path)[k].name| + 1) <= |s|
  {
    hide Represents, Sub, EncAll, ValidPath, OffsetOf, Toks, Before, Be32, Align4, Named;
    NodeFacts(s, strtab, top, path, k);
    NodeSlices(s, strtab, top, path, k);
    NodeBytes(Sub(top, path)[k]);
  }

  lemma NameGap(s: seq<byte>, s1: seq<byte>, t: seq<byte>, a: nat, o: nat, n: nat, x: seq<byte>, pad: seq<byte>)
    requires a + o <= |s| && |s1| == |s| - o + n && |x| <= n
    requires s1[..a] == s[..a] && s1[a + n..] == s[a + o..] && pad == s1[a + |x|..a + n]
    requires t == s1[..a] + x + s1[a + |x|..]
    ensures t == s[..a] + (x + pad) + s[a + o..]
  {
    Cut(s1, a + |x|, a + n);
    assert s1[a + |x|..] == pad + s1[a + n..];
  }

  // -------------------------------------------------------------------- adding

  /** The first token from i on that is neither a property nor a NOP. */
  function AfterProps(ts: seq<Token>, i: nat): (j: nat)
    ensures i <= |ts| ==> i <= j <= |ts|
    decreases |ts| - i
  {
    if i < |ts| && (ts[i].Prop? || ts[i].Nop?) then AfterProps(ts, i + 1) else i
  }

  /** The index of the first node of a list, or its length. */
  function FirstNode(items: seq<Item>): (q: nat)
    ensures q <= |items| && (q < |items| ==> items[q].Node?)
    ensures forall m :: 0 <= m < q ==> !items[m].Node?
  {
    if items == [] || items[0].Node? then 0 else 1 + FirstNode(items[1..])
  }

  lemma {:induction false} AfterPropsItems(ts: seq<Token>, i: nat, items: seq<Item>)
    requires HasAt(ts, i, Toks(items)) && i + |Toks(items)| < |ts| && ts[i + |Toks(items)|].EndNode?
    ensures AfterProps(ts, i) == i + |Toks(items[..FirstNode(items)])|
    decreases |items|
  {
    if items == [] {
    } else {
      var it, rest := items[0], items[1..];
      HasSplit(ts, i, ItemToks(it), Toks(rest));
      assert ts[i] == ts[i..i + |ItemToks(it)|][0] == ItemToks(it)[0];
      if !it.Node? {
        AfterPropsItems(ts, i + 1, rest);
        var q := FirstNode(rest);
        if q < |rest| {
          PrefixToks(items, q);
        } else {
          assert items[..q + 1] == items && rest[..q] == rest;
        }
      }
    }
  }

  /** The place for a new child: after the parent's properties and NOPs. */
  method SubnodePlace(s: seq<byte>, parent: nat, ghost ts: seq<Token>, ghost i: nat) returns (off: int)
    requires Block(s, ts) && i < |ts| && parent == Off(ts, i) && ts[i].Begin?
    ensures AfterProps(ts, i + 1) < |ts| && off == Off(ts, AfterProps(ts, i + 1))
  {
    hide TagAt, EncAll, Off;
    TagAtToken(ts, i);
    var tag, next := NextTag(s, parent);
    ghost var j := i + 1;
    while true
      invariant i < j < |ts| && next == Off(ts, j) && AfterProps(ts, j) == AfterProps(ts, i + 1)
      decreases |ts| - j
    {
      off := next;
      TagAtToken(ts, j);
      tag, next := NextTag(s, off);
      if tag != FDT_PROP && tag != FDT_NOP {
        return;
      }
      j := j + 1;
    }
  }

  /** A fresh node without contents. */
  function Fresh(name: seq<byte>): Item {
    Node(name, Zeros(Align4(|name| + 1) - (|name| + 1)), [])
  }

  lemma FreshBytes(name: seq<byte>, strtab: seq<byte>)
    requires 0 !in name
    ensures EncAll(Toks([Fresh(name)]))
         == Be32(FDT_BEGIN_NODE) + (name + Zeros(Align4(|name| + 1) - |name|)) + Be32(FDT_END_NODE)
    ensures ValidTokens(Toks([Fresh(name)])) && Named(Toks([Fresh(name)]), strtab)
    ensures View(Fresh(name), strtab) == Tree(name, [], [])
  {
    hide Be32;
    var it := Fresh(name);
    Align4Mono(|name| + 1, |name| + 1);
    NodeBytes(it);
    NodeValid(it, strtab);
    EncAllOne(EndNode);
    assert Toks(it.items) + [EndNode] == [EndNode];
    assert Zeros(Align4(|name| + 1) - |name|) == [0] + it.pad;
    assert name + [0] + it.pad == name + ([0] + it.pad);
  }

  /** A new first child, and nothing else. */
  lemma AddView(s: seq<byte>, strtab: seq<byte>, top: seq<Item>, list: seq<nat>, name: seq<byte>)
    requires Represents(s, strtab, top) && ValidPath(top, list)
    ensures var items := Sub(top, list);
      var q := FirstNode(items);
      var r := items[..q] + [Fresh(name)] + items[q..];
      && Ordered(r) && PropsOf(r, strtab) == PropsOf(items, strtab)
      && KidsOf(r, strtab) == [Tree(name, [], [])] + KidsOf(items, strtab)
  {
    hide Represents, Fresh, PropsOf, KidsOf;
    var items := Sub(top, list);
    var q := FirstNode(items);
    AddOrdered(s, strtab, top, list, name);
    assert items == items[..q] + items[q..];
    PropsConcat(items[..q], items[q..], strtab);
    KidsConcat(items[..q], items[q..], strtab);
    OneItem(Fresh(name), strtab);
    FreshView(name, strtab);
    PropsConcat(items[..q] + [Fresh(name)], items[q..], strtab);
    PropsConcat(items[..q], [Fresh(name)], strtab);
    KidsConcat(items[..q] + [Fresh(name)], items[q..], strtab);
    KidsConcat(items[..q], [Fresh(name)], strtab);
    NoKids(items[..q], strtab);
  }

  lemma FreshView(name: seq<byte>, strtab: seq<byte>)
    ensures ItemProps(Fresh(name), strtab) == [] && ItemKids(Fresh(name), strtab) == [Tree(name, [], [])]
  {
    var it := Fresh(name);
    assert it.items == [];
    assert View(it, strtab) == Tree(name, [], []);
  }

  lemma {:induction false} NoKids(items: seq<Item>, strtab: seq<byte>)
    requires forall m :: 0 <= m < |items| ==> !items[m].Node?
    ensures KidsOf(items, strtab) == []
  {
    if items == [] {
    } else {
      NoKids(items[1..], strtab);
    }
  }

  lemma AddOrdered(s: seq<byte>, strtab: seq<byte>, top: seq<Item>, list: seq<nat>, name: seq<byte>)
    requires Represents(s, strtab, top) && ValidPath(top, list)
    ensures var items, q := Sub(top, list), FirstNode(Sub(top, list));
      Ordered(items[..q] + [Fresh(name)] + items[q..])
  {
    hide Sub, ValidPath, Toks, Named, Ordered, Fresh;
    OrderedSub(top, list);
    OrderedInsert(Sub(top, list), name);
  }

  lemma OrderedInsert(items: seq<Item>, name: seq<byte>)
    requires Ordered(items)
    ensures var q := FirstNode(items); Ordered(items[..q] + [Fresh(name)] + items[q..])
  {
    var q := FirstNode(items);
    var r := items[..q] + [Fresh(name)] + items[q..];
    assert forall x :: 0 <= x < |r| ==>
      r[x] == if x < q then items[x] else if x == q then Fresh(name) else items[x - 1];
  }

  /** A fresh node written into a gap. */
  lemma AddNodeRefines(s: seq<byte>, strtab: seq<byte>, top: seq<Item>, list: seq<nat>, name: seq<byte>, t: seq<byte>)
    requires Represents(s, strtab, top) && ValidPath(top, list) && 0 !in name
    requires var a := OffsetOf(top, list, FirstNode(Sub(top, list)));
      a <= |s| && t == s[..a] + EncAll(Toks([Fresh(name)])) + s[a..]
    ensures var items, q := Sub(top, list), FirstNode(Sub(top, list));
      Represents(t, strtab, SetSub(top, list, items[..q] + [Fresh(name)] + items[q..]))
  {
    hide Represents, OffsetOf, SetSub, Sub, Toks, EncAll, ValidPath, Fresh, Named, Ordered;
    var items, q := Sub(top, list), FirstNode(Sub(top, list));
    FreshBytes(name, strtab);
    AddOrdered(s, strtab, top, list, name);
    assert items[q..q] == [];
    NoToks();
    ReplaceRefines(s, strtab, top, list, q, q, [Fresh(name)], t);
  }

  lemma GapFilled(s1: seq<byte>, s2: seq<byte>, s3: seq<byte>, t: seq<byte>, a: nat, w: seq<byte>, n: seq<byte>,
                  e: seq<byte>)
    requires |w| == |e| == 4 && a + 8 + |n| <= |s1|
    requires s2 == s1[..a] + w + s1[a + 4..]
    requires s3 == s2[..a + 4] + n + s2[a + 4 + |n|..]
    requires t == s3[..a + 4 + |n|] + e + s3[a + 8 + |n|..]
    ensures t == s1[..a] + (w + n + e) + s1[a + 8 + |n|..]
  {
    assert s3 == s1[..a] + w + n + s1[a + 4 + |n|..];
    assert s3[..a + 4 + |n|] == s1[..a] + w + n;
    assert s3[a + 8 + |n|..] == s1[a + 8 + |n|..];
  }

  lemma NameFilled(s1: seq<byte>, s2: seq<byte>, t: seq<byte>, a: nat, z: seq<byte>, name: seq<byte>)
    requires a + |z| <= |s1| && |name| <= |z| && s2 == s1[..a] + z + s1[a + |z|..]
    requires t == s2[..a] + name + s2[a + |name|..]
    ensures t == s1[..a] + (name + z[|name|..]) + s1[a + |z|..]
  {
    assert s2[a + |name|..] == z[|name|..] + s1[a + |z|..];
  }

  /** The name area of a new node: zeroes, then the name over them. */
  method FillName(f: Fdt, off: nat, name: seq<byte>, size: nat)
    requires f.Valid() && off + size <= f.h.sizeStruct && |name| <= size
    modifies f.buf
    ensures f.Valid() && f.Around() == old(f.Around())
    ensures f.Struct() == old(f.Struct())[..off] + (name + Zeros(size - |name|)) + old(f.Struct())[off + size..]
  {
    hide StructOf, StringsOf, Zeros;
    ZerosTail(size, |name|);
    ghost var s1 := f.Struct();
    f.PutStruct(off, Zeros(size));
    ghost var s2 := f.Struct();
    f.PutStruct(off, name);
    NameFilled(s1, s2, f.Struct(), off, Zeros(size), name);
  }

  /** The stores of fdt_add_subnode_namelen: tag, zeroed name area, name, end tag. */
  method FillNode(f: Fdt, off: nat, name: seq<byte>, size: nat)
    requires f.Valid() && off + 8 + size <= f.h.sizeStruct && |name| <= size
    modifies f.buf
    ensures f.Valid() && f.Around() == old(f.Around())
    ensures f.Struct() == old(f.Struct())[..off] + EmptyNode(name, size) + old(f.Struct())[off + 8 + size..]
  {
    hide StructOf, StringsOf, Be32, Zeros, EmptyNode;
    ghost var s1 := f.Struct();
    f.PutStruct(off, Be32(FDT_BEGIN_NODE));
    ghost var s2 := f.Struct();
    FillName(f, off + 4, name, size);
    ghost var s3 := f.Struct();
    f.PutStruct(off + 4 + size, Be32(FDT_END_NODE));
    NodeFilled(s1, s2, s3, f.Struct(), off, name, size);
  }

  /** A node with a name area and no contents. */
  function EmptyNode(name: seq<byte>, size: nat): (r: seq<byte>)
    requires |name| <= size
    ensures |r| == 8 + size
  {
    Be32(FDT_BEGIN_NODE) + (name + Zeros(size - |name|)) + Be32(FDT_END_NODE)
  }

  lemma NodeFilled(s1: seq<byte>, s2: seq<byte>, s3: seq<byte>, t: seq<byte>, a: nat, name: seq<byte>, size: nat)
    requires |name| <= size && a + 8 + size <= |s1|
    requires s2 == s1[..a] + Be32(FDT_BEGIN_NODE) + s1[a + 4..]
    requires s3 == s2[..a + 4] + (name + Zeros(size - |name|)) + s2[a + 4 + size..]
    requires t == s3[..a + 4 + size] + Be32(FDT_END_NODE) + s3[a + 8 + size..]
    ensures t == s1[..a] + EmptyNode(name, size) + s1[a + 8 + size..]
  {
    hide Be32, Zeros;
    GapFilled(s1, s2, s3, t, a, Be32(FDT_BEGIN_NODE), name + Zeros(size - |name|), Be32(FDT_END_NODE));
  }

  lemma ZerosTail(n: nat, k: nat)
    requires k <= n
    ensures Zeros(n)[k..] == Zeros(n - k)
  {
  }

  /** The bytes that fdt_add_subnode stores for a node. */
  function NodeStored(name: seq<byte>): (x: seq<byte>)
    ensures |x| == 8 + Align4(|name| + 1)
  {
    Align4Mono(|name| + 1, |name| + 1);
    Be32(FDT_BEGIN_NODE) + (name + Zeros(Align4(|name| + 1) - |name|)) + Be32(FDT_END_NODE)
  }

  /**
   * Bytes x have been stored 8 bytes before the structure block, and everything from there on has made room for them.
   */
  predicate Misplaced(m: seq<byte>, h: Header, n: seq<byte>, g: Header, x: seq<byte>)
    requires h.totalsize <= |m| && RwProbe(h) == 0 && g.totalsize <= |n| && RwProbe(g) == 0 && |x| >= 8
  {
    var p := h.offStruct - 8;
    && g == h.(sizeStruct := h.sizeStruct + |x|, offStrings := h.offStrings + |x|)
    && n[..p] == m[..p] && n[p..p + 8] == x[..8]
    && StructOf(n, g) == x[8..] + m[p..p + 8] + StructOf(m, h) && StringsOf(n, g) == StringsOf(m, h)
  }

  /** Bytes x inserted at p. */
  lemma Inserted(m: seq<byte>, p: nat, x: seq<byte>, end: nat, a: nat, b: nat, n: seq<byte>)
    requires p <= a <= b <= end && end + |x| <= |m| && n == Put(Moved(m, p, 0, |x|, end), p, x)
    ensures |n| == |m| && n[..p] == m[..p] && n[p..p + |x|] == x && n[a + |x|..b + |x|] == m[a..b]
  {
    hide Moved, Put;
    var q := Moved(m, p, 0, |x|, end);
    MovedSlice(m, p, 0, |x|, end, 0, p);
    MovedSlice(m, p, 0, |x|, end, a, b);
    PutSlice(q, p, x, 0, p);
    PutSlice(q, p, x, p, p + |x|);
    PutSlice(q, p, x, a + |x|, b + |x|);
    assert q[p..p] + x + q[p + |x|..p + |x|] == x;
  }

  lemma MisplacedIs(m: seq<byte>, h: Header, n: seq<byte>, g: Header, x: seq<byte>)
    requires h.totalsize <= |m| && RwProbe(h) == 0 && |x| >= 8 && h.offStrings + h.sizeStrings + |x| <= h.totalsize
    requires n == Put(Moved(m, h.offStruct - 8, 0, |x|, h.offStrings + h.sizeStrings), h.offStruct - 8, x)
    requires g == h.(sizeStruct := h.sizeStruct + |x|, offStrings := h.offStrings + |x|)
    ensures g.totalsize <= |n| && RwProbe(g) == 0 && Misplaced(m, h, n, g, x)
  {
    hide Moved, Put;
    var p, end := h.offStruct - 8, h.offStrings + h.sizeStrings;
    Inserted(m, p, x, end, p, h.offStruct + h.sizeStruct, n);
    Inserted(m, p, x, end, h.offStrings, end, n);
    BlockAround(m, h.offStruct, h.sizeStruct, x, n);
  }

  /** The end of the list, and what the structure block has become. */
  lemma BlockAround(m: seq<byte>, s: nat, ss: nat, x: seq<byte>, n: seq<byte>)
    requires 8 <= s && s + ss + |x| <= |m| == |n| && |x| >= 8
    requires n[s - 8..s - 8 + |x|] == x && n[s - 8 + |x|..s + ss + |x|] == m[s - 8..s + ss]
    ensures n[s - 8..s] == x[..8] && n[s..s + ss + |x|] == x[8..] + m[s - 8..s] + m[s..s + ss]
  {
    var y := m[s - 8..s + ss];
    assert y == m[s - 8..s] + m[s..s + ss];
    SubSlice(n, s - 8, x, 0, 8);
    SubSlice(n, s - 8, x, 8, |x|);
    assert n[s..s + ss + |x|] == n[s..s - 8 + |x|] + n[s - 8 + |x|..s + ss + |x|];
  }

  /** The end of fdt_add_subnode_namelen with the place -8, which it takes from a parent offset of -1. */
  method StoreMisplaced(f: Fdt, place: int, name: seq<byte>) returns (err: int)
    requires f.Valid() && place == -8
    modifies f, f.buf
    ensures f.Valid()
    ensures err == if old(f.DataSize()) + |NodeStored(name)| > old(f.h.totalsize) then -ERR_NOSPACE else 0
    ensures err != 0 ==> f.All() == old(f.All())
    ensures err == 0 ==> Misplaced(old(f.buf[..]), old(f.h), f.buf[..], f.h, NodeStored(name))
  {
    hide Put, Moved, Misplaced, NodeStored, StructOf, StringsOf;
    ghost var m, h := f.buf[..], f.h;
    var x := NodeStored(name);
    err := f.Splice(f.h.offStruct + place, 0, |x|);
    if err != 0 {
      return;
    }
    f.h := f.h.(sizeStruct := f.h.sizeStruct + |x|, offStrings := f.h.offStrings + |x|);
    Store(f.buf, f.h.offStruct + place, x);
    MisplacedIs(m, h, f.buf[..], f.h, x);
  }

  /**
   * fdt_add_subnode: a new first child, unless some child already answers to the name.  The offset -1 is
   * passed on by the search for such a child, and means there that there is none: the node is then stored
   * over the end of the reservation list, and the answer is an error.
   */
  method AddSubnode(f: Fdt, parent: int, name: seq<byte>,
                    ghost top: seq<Item>, ghost path: seq<nat>, ghost k: nat, ghost i: int)
    returns (r: int, ghost items: seq<Item>)
    requires Means(f, top) && Names(top, path, k, i, parent) && 0 !in name
    modifies f, f.buf
    ensures f.Valid() && (parent != -1 ==> f.Around() == old(f.Around()))
    ensures i < 0 && parent != -1 ==> r == parent
    ensures parent == -1 ==>
      if old(f.DataSize()) + 8 + Align4(|name| + 1) > old(f.h.totalsize) then
        r == -ERR_NOSPACE && f.All() == old(f.All())
      else r == -ERR_TRUNCATED && Misplaced(old(f.buf[..]), old(f.h), f.buf[..], f.h, NodeStored(name))
    ensures i >= 0 && !IsNode(top, i) ==> r == -ERR_BADOFFSET
    ensures IsNode(top, i) ==> Inside(top, path, k)
    ensures IsNode(top, i) && KidIndex(Sub(top, path + [k]), name).Found? ==> r == -ERR_EXISTS
    ensures IsNode(top, i) && KidIndex(Sub(top, path + [k]), name).Missing? ==>
      if old(f.DataSize()) + 8 + Align4(|name| + 1) > f.h.totalsize then r == -ERR_NOSPACE else r >= 0
    ensures r < 0 && parent != -1 ==> f.All() == old(f.All())
    ensures r >= 0 ==>
      && IsNode(top, i) && f.DataSize() == old(f.DataSize()) + 8 + Align4(|name| + 1)
      && var list, q := Sub(top, path + [k]), FirstNode(Sub(top, path + [k]));
         && r == OffsetOf(top, path + [k], q) && items == list[..q] + [Fresh(name)] + list[q..]
         && Becomes(f, top, path + [k], items, PropsOf(list, f.Strings()),
                    [Tree(name, [], [])] + KidsOf(list, f.Strings()))
  {
    hide SetSub, Sub, StructOf, StringsOf, PropsOf, KidsOf, ValidPath, EncAll, Toks, Before, Off, OffsetOf,
      Align4, Ordered, Named, NodeAt, Fresh, KidIndex, Be32, ChildAnswers,
      FirstAnswer;
    ghost var s, strtab, list := f.Struct(), f.Strings(), path + [k];
    items := [];
    r := SubnodeOffset(f.Struct(), parent, name, BlockToks(top), i);
    if IsNode(top, i) {
      ChildOffset(top, path, k, name);
    }
    if r >= 0 {
      return -ERR_EXISTS, items;
    } else if r != -ERR_NOTFOUND {
      return;
    }
    if parent < 0 {
      var tag, place := NextTag(f.Struct(), parent);
      r := StoreMisplaced(f, place, name);
      return if r != 0 then r else place, items;
    }
    r := SubnodePlace(f.Struct(), parent, BlockToks(top), i);
    PlaceInTree(s, strtab, top, path, k);
    Align4Mono(|name| + 1, |name| + 1);
    var size := Align4(|name| + 1);
    var err := f.SpliceStruct(r, 0, 8 + size);
    if err != 0 {
      return err, items;
    }
    FillNode(f, r, name, size);
    FreshBytes(name, strtab);
    AddNodeRefines(s, strtab, top, list, name, f.Struct());
    AddView(s, strtab, top, list, name);
    ghost var q := FirstNode(Sub(top, list));
    items := Sub(top, list)[..q] + [Fresh(name)] + Sub(top, list)[q..];
  }

  lemma PlaceInTree(s: seq<byte>, strtab: seq<byte>, top: seq<Item>, path: seq<nat>, k: nat)
    requires Represents(s, strtab, top) && Inside(top, path, k)
    ensures var ts, i := BlockToks(top), Index(top, path, k);
      var q := FirstNode(Sub(top, path + [k]));
      && AfterProps(ts, i + 1) < |ts|
      && Off(ts, AfterProps(ts, i + 1)) == OffsetOf(top, path + [k], q) <= |s|
  {
    hide Sub, EncAll, Toks, Before, Ordered, Named, HasAt;
    var ts, i, items := BlockToks(top), Index(top, path, k), Sub(top, path)[k].items;
    NodeInBlock(top, path, k);
    AfterPropsItems(ts, i + 1, items);
    var q := FirstNode(items);
    Enter(top, path, k, q);
    RangeFits(s, strtab, top, path + [k], q, q);
    PrefixOff(top, path + [k], q);
  }

  /** The offset of a position in a list is that of the token with its index. */
  lemma PrefixOff(top: seq<Item>, path: seq<nat>, a: nat)
    requires ValidPath(top, path) && a <= |Sub(top, path)|
    ensures Index(top, path, a) < |BlockToks(top)|
    ensures Off(BlockToks(top), Index(top, path, a)) == OffsetOf(top, path, a)
  {
    hide Sub, EncAll, Toks, Before;
    SplitToks(top, path, a, a);
    assert Sub(top, path)[a..a] == [] && Toks([]) == [] by {
      NoToks();
    }
    var b := Before(top, path, a);
    assert BlockToks(top)[..|b|] == b;
  }
}
