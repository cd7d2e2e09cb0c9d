/** Renumbering phandles in a blob: fdt_find_max_phandle and overlay_adjust_node_phandles. */
module Renumber {
  import opened Bytes
  import opened Tokens
  import opened Trees
  import opened Views
  import opened Walks
  import opened Scan
  import opened Lookup
  import opened Splices
  import opened InPlace
  import opened Blob
  import opened Edits
  import opened PropEdits
  import opened NodeEdits
  import opened Cursors
  import opened Overlay
  import opened Phandles

  /** An in-place edit of the node at path: its contents are items, of the same shape as before. */
  ghost predicate Retouched(f: Fdt, top: seq<Item>, path: seq<nat>, k: nat, items: seq<Item>)
    reads f, f.buf
  {
    && Inside(top, path, k) && Means(f, SetSub(top, path + [k], items))
    && Like(Sub(top, path + [k]), items)
  }

  lemma Untouched(f: Fdt, top: seq<Item>, path: seq<nat>, k: nat)
    requires Means(f, top) && Inside(top, path, k)
    ensures Retouched(f, top, path, k, Sub(top, path + [k]))
    ensures NodeView(top, path, k, f.Strings()).props == PropsOf(Sub(top, path + [k]), f.Strings())
    ensures NodeView(top, path, k, f.Strings()).kids == KidsOf(Sub(top, path + [k]), f.Strings())
  {
    SetSubGet(top, path + [k], Sub(top, path + [k]));
    LikeSelf(Sub(top, path + [k]));
  }

  /** Within a retouched node, every item is where it was. */
  lemma Steady(top: seq<Item>, path: seq<nat>, k: nat, items: seq<Item>)
    requires Inside(top, path, k) && Like(Sub(top, path + [k]), items)
    ensures var t := SetSub(top, path + [k], items);
      && Inside(t, path, k) && Sub(t, path + [k]) == items && OffsetOf(t, path, k) == OffsetOf(top, path, k)
      && forall p: nat :: p <= |items| ==> OffsetOf(t, path + [k], p) == OffsetOf(top, path + [k], p)
  {
    hide Like, Sub, SetSub, Before, EncAll;
    var list, t := path + [k], SetSub(top, path + [k], items);
    Reenter(top, path, k, items);
    LikeSet(top, list, items);
    LikeSize(Sub(top, list), items);
    forall p: nat | p <= |items| ensures OffsetOf(t, list, p) == OffsetOf(top, list, p) {
      LikePlaces(top, t, list, p);
    }
  }

  lemma LikeSize(a: seq<Item>, b: seq<Item>)
    requires Like(a, b)
    ensures |a| == |b| && |Toks(a)| == |Toks(b)|
  {
    hide EncAll;
    LikeToks(a, b);
  }

  /** A cell inside a property's value, read from the block. */
  lemma ValueRead(s: seq<byte>, strtab: seq<byte>, top: seq<Item>, path: seq<nat>, k: nat, m: nat, x: nat)
    requires Represents(s, strtab, top) && Inside(top, path, k) && m < |Sub(top, path + [k])|
    requires Sub(top, path + [k])[m].IProp?
    requires x + 4 <= |Sub(top, path + [k])[m].val|
    ensures var o := OffsetOf(top, path + [k], m) + 12 + x;
      o + 4 <= |s| && Word(s, o) == Word(Sub(top, path + [k])[m].val, x)
  {
    hide Sub, OffsetOf, Represents, CheckOffset, GetString, Str;
    PropertyAt(s, strtab, top, path, k, m);
    var o, v := OffsetOf(top, path + [k], m) + 12, Sub(top, path + [k])[m].val;
    SubSlice(s, o, v, x, x + 4);
    SameWord(s, o + x, v, x);
  }

  /** overlay_phandle_add_offset */
  method PhandleAddOffset(f: Fdt, node: nat, name: seq<byte>, delta: u32, ghost top: seq<Item>, ghost path: seq<nat>,
                          ghost k: nat)
    returns (err: int, ghost items: seq<Item>)
    requires Means(f, top) && Inside(top, path, k) && node == OffsetOf(top, path, k)
    modifies f.buf
    ensures f.Valid() && f.Around() == old(f.Around()) && Retouched(f, top, path, k, items)
    ensures (err, PropsOf(items, f.Strings())) == ShiftProp(NodeView(top, path, k, f.Strings()).props, name, delta)
    ensures KidsOf(items, f.Strings()) == NodeView(top, path, k, f.Strings()).kids
  {
    hide Names, Represents, SetSub, Sub, StructOf, StringsOf, IsNode, Align4, OffsetOf, PropIndex, PropsOf, KidsOf,
      PutProp, NodeView, ValidPath, PropPos, Like, Word, Be32;
    ghost var s, strtab, list := f.Struct(), f.Strings(), path + [k];
    NamesNode(s, strtab, top, path, k);
    Untouched(f, top, path, k);
    ListFacts(s, strtab, top, list);
    ghost var i := Index(top, path, k);
    ghost var m;
    var prop, len;
    items := Sub(top, list);
    prop, len, m := FindProperty(f.Struct(), f.Strings(), node, name, top, path, k, i);
    if prop < 0 {
      NoValue(Sub(top, list), strtab, name);
      return prop, items;
    }
    FirstValue(Sub(top, list), strtab, name, m);
    if len != 4 {
      return -ERR_BADPHANDLE, items;
    }
    ValueRead(s, strtab, top, path, k, m, 0);
    var adjVal := Word(f.Struct(), prop + 12);
    if adjVal + delta >= U32 {
      return -ERR_NOPHANDLES, items;
    }
    adjVal := adjVal + delta;
    if adjVal == NO_PHANDLE {
      return -ERR_NOPHANDLES, items;
    }
    err, items := SetPropInplace(f, node, name, Be32(adjVal), top, path, k, i);
  }

  /** A second in-place edit of the same node. */
  lemma Again(top: seq<Item>, path: seq<nat>, k: nat, items: seq<Item>, items': seq<Item>)
    requires Inside(top, path, k) && Like(Sub(top, path + [k]), items)
    requires var t := SetSub(top, path + [k], items);
      Inside(t, path, k) && Sub(t, path + [k]) == items && Like(items, items')
    ensures SetSub(SetSub(top, path + [k], items), path + [k], items') == SetSub(top, path + [k], items')
    ensures Like(Sub(top, path + [k]), items')
  {
    hide Like, Sub, SetSub;
    SetSubSet(top, path + [k], items, items');
    LikeBoth(Sub(top, path + [k]), items, items');
  }

  /** The two phandle properties of a node. */
  method AdjustProps(f: Fdt, node: nat, delta: u32, ghost top: seq<Item>, ghost path: seq<nat>, ghost k: nat)
    returns (ret: int, ghost items: seq<Item>)
    requires Means(f, top) && Inside(top, path, k) && node == OffsetOf(top, path, k)
    modifies f.buf
    ensures f.Valid() && f.Around() == old(f.Around()) && Retouched(f, top, path, k, items)
    ensures (if ret == -ERR_NOTFOUND then 0 else ret, PropsOf(items, f.Strings()))
         == ShiftProps(NodeView(top, path, k, f.Strings()).props, delta)
    ensures KidsOf(items, f.Strings()) == NodeView(top, path, k, f.Strings()).kids
  {
    hide Represents, SetSub, Sub, StructOf, StringsOf, OffsetOf, PropsOf, KidsOf, NodeView, ValidPath, Like, ShiftProp;
    ret, items := PhandleAddOffset(f, node, PHANDLE, delta, top, path, k);
    if ret != 0 && ret != -ERR_NOTFOUND {
      return;
    }
    ghost var t, items1 := SetSub(top, path + [k], items), items;
    Steady(top, path, k, items);
    NodeViewIs(t, path, k, f.Strings());
    ret, items := PhandleAddOffset(f, node, LINUX_PHANDLE, delta, t, path, k);
    Again(top, path, k, items1, items);
  }

  /** A child of a retouched node, as the next node to visit. */
  lemma KidPlace(strtab: seq<byte>, top: seq<Item>, path: seq<nat>, k: nat, items: seq<Item>, p: nat)
    requires Inside(top, path, k) && Like(Sub(top, path + [k]), items) && p < |items| && items[p].Node?
    ensures var t, list := SetSub(top, path + [k], items), path + [k];
      && Inside(t, list, p) && Sub(t, list + [p]) == items[p].items && NodeAt(t, list, p) && Sub(t, list)[p] == items[p]
      && OffsetOf(t, list, p) == OffsetOf(top, list, p)
      && |Toks(items[p].items)| < |Toks(Sub(top, list))|
    ensures var v := NodeView(SetSub(top, path + [k], items), path + [k], p, strtab);
      v == View(items[p], strtab) && v.name == items[p].name
  {
    hide Like, SetSub, Before, EncAll, OffsetOf;
    var t, list := SetSub(top, path + [k], items), path + [k];
    Steady(top, path, k, items);
    Enter(t, list, p, 0);
    LikeSize(Sub(top, list), items);
    ToksUpdate(items, p, items[p]);
    assert items[p := items[p]] == items;
  }

  /** A child has been shifted: what that makes of the list. */
  lemma KidRetouched(strtab: seq<byte>, top: seq<Item>, path: seq<nat>, k: nat, items: seq<Item>, p: nat,
                     sub: seq<Item>)
    requires Inside(top, path, k) && Like(Sub(top, path + [k]), items)
    requires p < |items| && items[p].Node? && Like(items[p].items, sub)
    requires Inside(SetSub(top, path + [k], items), path + [k], p)
    ensures var items', list := items[p := items[p].(items := sub)], path + [k];
      && SetSub(SetSub(top, list, items), list + [p], sub) == SetSub(top, list, items')
      && Like(items, items') && Like(Sub(top, list), items')
      && PropsOf(items', strtab) == PropsOf(items, strtab)
      && KidsOf(items'[..p + 1], strtab)
         == KidsOf(items[..p], strtab) + [Tree(items[p].name, PropsOf(sub, strtab), KidsOf(sub, strtab))]
  {
    hide Like, Sub, SetSub, PropsOf, KidsOf;
    var it := items[p].(items := sub);
    var items' := items[p := it];
    Compose(top, path + [k], items, p, sub);
    LikeSelf(items);
    assert LikeItem(items[p], it);
    LikeAt(items, items, p, it);
    LikeBoth(Sub(top, path + [k]), items, items');
    ReplaceNode(items, p, it, strtab);
    assert items'[..p + 1] == items[..p] + [it];
    KidsConcat(items[..p], [it], strtab);
    OneItem(it, strtab);
  }

  /** Up to item q the children have been shifted, from there on nothing has changed. */
  ghost predicate Halfway(items0: seq<Item>, items: seq<Item>, q: nat, strtab: seq<byte>, delta: u32) {
    && q <= |items0| == |items| && items[q..] == items0[q..]
    && PropsOf(items, strtab) == PropsOf(items0, strtab)
    && ShiftKids(KidsOf(items0[..q], strtab), delta) == (0, KidsOf(items[..q], strtab))
  }

  lemma Start(items0: seq<Item>, strtab: seq<byte>, delta: u32)
    ensures Halfway(items0, items0, 0, strtab, delta)
  {
    assert items0[..0] == [];
  }

  /** The next child node of a half-shifted list, and the list after the shift of that child. */
  lemma OneMore(items0: seq<Item>, items: seq<Item>, q: nat, p: nat, sub: seq<Item>, strtab: seq<byte>, delta: u32,
                ret: int)
    requires Halfway(items0, items, q, strtab, delta) && p == NextKid(items, q) < |items|
    requires var items', n := items[p := items[p].(items := sub)],
      Tree(items[p].name, PropsOf(sub, strtab), KidsOf(sub, strtab));
      && PropsOf(items', strtab) == PropsOf(items, strtab)
      && KidsOf(items'[..p + 1], strtab) == KidsOf(items[..p], strtab) + [n]
      && (ret, n) == Shift(View(items[p], strtab), delta)
    ensures var items' := items[p := items[p].(items := sub)];
      && (ret == 0 ==> Halfway(items0, items', p + 1, strtab, delta))
      && (ret != 0 ==> ShiftKids(KidsOf(items0, strtab), delta) == (ret, KidsOf(items', strtab)))
  {
    hide PropsOf, KidsOf, View, Shift;
    var items' := items[p := items[p].(items := sub)];
    var a, v, n := KidsOf(items0[..q], strtab), View(items[p], strtab),
      Tree(items[p].name, PropsOf(sub, strtab), KidsOf(sub, strtab));
    assert items0[p] == items0[q..][p - q] == items[q..][p - q] == items[p];
    assert items0[q..p] == items0[q..][..p - q] == items[q..p];
    Gap(items0, q, p, strtab);
    Gap(items, q, p, strtab);
    assert KidsOf(items[..p], strtab) == KidsOf(items[..q], strtab);
    ShiftKidsOne(v, delta);
    ShiftKidsSplit(a, [v], delta);
    if ret == 0 {
      assert items'[p + 1..] == items[p + 1..] == items[q..][p + 1 - q..] == items0[p + 1..];
    } else {
      var rest := KidsOf(items0[p + 1..], strtab);
      Around(items0, p, strtab);
      Around(items', p, strtab);
      assert items'[p + 1..] == items[q..][p + 1 - q..] == items0[p + 1..];
      ShiftKidsStop(v, rest, delta);
      ShiftKidsSplit(a, [v] + rest, delta);
      Assoc(a, [v], rest);
      Assoc(KidsOf(items[..q], strtab), [n], rest);
    }
  }

  /** Skipping to the next child node. */
  lemma Gap(items: seq<Item>, q: nat, p: nat, strtab: seq<byte>)
    requires q <= p < |items| && items[p].Node? && forall m :: q <= m < p ==> !items[m].Node?
    ensures KidsOf(items[..p], strtab) == KidsOf(items[..q], strtab)
    ensures KidsOf(items[..p + 1], strtab) == KidsOf(items[..q], strtab) + [View(items[p], strtab)]
  {
    hide View;
    assert items[..p] == items[..q] + items[q..p] && items[..p + 1] == items[..p] + [items[p]];
    KidsConcat(items[..q], items[q..p], strtab);
    NoKids(items[q..p], strtab);
    KidsConcat(items[..p], [items[p]], strtab);
    OneItem(items[p], strtab);
  }

  lemma Around(items: seq<Item>, p: nat, strtab: seq<byte>)
    requires p < |items|
    ensures KidsOf(items, strtab) == KidsOf(items[..p + 1], strtab) + KidsOf(items[p + 1..], strtab)
  {
    assert items == items[..p + 1] + items[p + 1..];
    KidsConcat(items[..p + 1], items[p + 1..], strtab);
  }

  lemma ShiftKidsOne(v: Tree, delta: u32)
    ensures ShiftKids([v], delta) == (Shift(v, delta).0, [Shift(v, delta).1])
  {
    hide Shift;
    var n := Shift(v, delta).1;
    assert [v][1..] == [] && [n] + [] == [n] && [n] + [v][1..] == [n];
  }

  lemma ShiftKidsStop(v: Tree, rest: seq<Tree>, delta: u32)
    requires Shift(v, delta).0 != 0
    ensures ShiftKids([v] + rest, delta) == (Shift(v, delta).0, [Shift(v, delta).1] + rest)
  {
    hide Shift;
    var kids := [v] + rest;
    assert kids[0] == v && kids[1..] == rest;
    assert ShiftKids(kids, delta) == (Shift(v, delta).0, [Shift(v, delta).1] + kids[1..]);
  }

  lemma Finished(items0: seq<Item>, items: seq<Item>, q: nat, strtab: seq<byte>, delta: u32)
    requires Halfway(items0, items, q, strtab, delta) && NextKid(items, q) == |items|
    ensures ShiftKids(KidsOf(items0, strtab), delta) == (0, KidsOf(items, strtab))
    ensures PropsOf(items, strtab) == PropsOf(items0, strtab)
  {
    hide KidsOf, PropsOf;
    assert items == items[..q] + items[q..] && items0 == items0[..q] + items0[q..];
    KidsConcat(items[..q], items[q..], strtab);
    KidsConcat(items0[..q], items0[q..], strtab);
    NoKids(items[q..], strtab);
    assert KidsOf(items, strtab) == KidsOf(items[..q], strtab);
    assert KidsOf(items0, strtab) == KidsOf(items0[..q], strtab);
  }

  /** overlay_adjust_node_phandles: the node's subtree becomes the shifted one, as far as the answer allows. */
  method AdjustNodePhandles(f: Fdt, node: nat, delta: u32, ghost top: seq<Item>, ghost path: seq<nat>, ghost k: nat)
    returns (ret: int, ghost items: seq<Item>)
    requires Means(f, top) && Inside(top, path, k) && node == OffsetOf(top, path, k)
    modifies f.buf
    ensures f.Valid() && f.Around() == old(f.Around()) && Retouched(f, top, path, k, items)
    ensures var n := NodeView(top, path, k, f.Strings());
      (ret, Tree(n.name, PropsOf(items, f.Strings()), KidsOf(items, f.Strings()))) == Shift(n, delta)
    decreases |Toks(Sub(top, path + [k]))|, 1
  {
    hide Represents, SetSub, Sub, StructOf, StringsOf, OffsetOf, PropsOf, KidsOf, NodeView, ValidPath, Like, ShiftProps,
      Toks, View, ShiftKids, Halfway;
    ghost var strtab, list := f.Strings(), path + [k];
    ret, items := AdjustProps(f, node, delta, top, path, k);
    if ret != 0 && ret != -ERR_NOTFOUND {
      return;
    }
    ghost var items0, q := items, 0;
    Start(items0, strtab, delta);
    Steady(top, path, k, items);
    LikeSize(Sub(top, list), items);
    var child := FirstSubnode(f.Struct(), node, strtab, SetSub(top, list, items), path, k);
    while child >= 0
      invariant f.Valid() && f.Around() == old(f.Around()) && Retouched(f, top, path, k, items)
      invariant Halfway(items0, items, q, strtab, delta) && q <= |items| == |items0| == |Sub(top, list)|
      invariant var p := NextKid(items, q);
        child == if p < |items| then OffsetOf(top, list, p) else -ERR_NOTFOUND
      decreases |items0| - q, child
    {
      ghost var p := NextKid(items, q);
      ret, items := AdjustKid(f, child, delta, top, path, k, items0, items, q);
      if ret != 0 {
        return;
      }
      q := p + 1;
      Steady(top, path, k, items);
      child := NextSubnode(f.Struct(), child, strtab, SetSub(top, list, items), path, k, p);
    }
    ret := 0;
    Finished(items0, items, q, strtab, delta);
  }

  /** The loop body: the next child is shifted. */
  method AdjustKid(f: Fdt, child: nat, delta: u32, ghost top: seq<Item>, ghost path: seq<nat>, ghost k: nat,
                   ghost items0: seq<Item>, ghost items: seq<Item>, ghost q: nat)
    returns (ret: int, ghost items': seq<Item>)
    requires Retouched(f, top, path, k, items) && Halfway(items0, items, q, f.Strings(), delta)
    requires NextKid(items, q) < |items| == |Sub(top, path + [k])|
    requires child == OffsetOf(top, path + [k], NextKid(items, q))
    modifies f.buf
    ensures f.Valid() && f.Around() == old(f.Around()) && Retouched(f, top, path, k, items')
    ensures var p := NextKid(items, q);
      |items'| == |items| && items'[p].Node? && items'[p + 1..] == items[p + 1..]
    ensures ret == 0 ==> Halfway(items0, items', NextKid(items, q) + 1, f.Strings(), delta)
    ensures ret != 0 ==> ShiftKids(KidsOf(items0, f.Strings()), delta) == (ret, KidsOf(items', f.Strings()))
    ensures PropsOf(items', f.Strings()) == PropsOf(items0, f.Strings())
    decreases |Toks(Sub(top, path + [k]))|, 0
  {
    hide Represents, SetSub, Sub, StructOf, StringsOf, OffsetOf, PropsOf, KidsOf, ValidPath, Like, Toks, View, Shift,
      ShiftKids;
    ghost var strtab, list, p, sub := f.Strings(), path + [k], NextKid(items, q), [];
    KidPlace(strtab, top, path, k, items, p);
    ret, sub := AdjustNodePhandles(f, child, delta, SetSub(top, list, items), list, p);
    items' := items[p := items[p].(items := sub)];
    KidRetouched(strtab, top, path, k, items, p, sub);
    OneMore(items0, items, q, p, sub, strtab, delta, ret);
  }

  // -------------------------------------------------- fdt_find_max_phandle

  /** The cell of a property, found among the tokens of the node at token i. */
  function TokenCell(ts: seq<Token>, i: nat, strtab: seq<byte>, name: seq<byte>): Option<u32> {
    var p := FirstProp(ts, i + 1, strtab, name);
    if p.Found? && |ts[p.index].val| == 4 then Some(Word(ts[p.index].val, 0)) else None
  }

  function TokenPhandle(ts: seq<Token>, i: nat, strtab: seq<byte>): u32 {
    var a, b := TokenCell(ts, i, strtab, PHANDLE), TokenCell(ts, i, strtab, LINUX_PHANDLE);
    if a.Some? then a.value else if b.Some? then b.value else 0
  }

  /** The largest phandle of the nodes from token i on. */
  function MaxFrom(ts: seq<Token>, i: nat, strtab: seq<byte>): u32
    decreases |ts| - i
  {
    if i >= |ts| || ts[i].End? then 0
    else if ts[i].Begin? then Max(TokenPhandle(ts, i, strtab), MaxFrom(ts, i + 1, strtab))
    else MaxFrom(ts, i + 1, strtab)
  }

  /** fdt_next_node skips no node. */
  lemma {:induction false} NextSkips(ts: seq<Token>, i: nat, d: int, strtab: seq<byte>)
    ensures match Next(ts, i, d, false)
      case Down(j, _) => MaxFrom(ts, i, strtab) == MaxFrom(ts, j, strtab)
      case Up(_) => false
      case Stop(_) => MaxFrom(ts, i, strtab) == 0
    decreases |ts| - i
  {
    hide TokenPhandle;
    if i < |ts| && !ts[i].Begin? && !ts[i].End? {
      NextSkips(ts, i + 1, if ts[i].EndNode? then d - 1 else d, strtab);
    }
  }

  /** What the tokens of a node say about a property is what its tree says. */
  lemma CellIs(ts: seq<Token>, i: nat, n: Item, strtab: seq<byte>, name: seq<byte>)
    requires n.Node? && HasAt(ts, i, ItemToks(n)) && Named(Toks(n.items), strtab) && Ordered(n.items)
    ensures TokenCell(ts, i, strtab, name) == CellOf(View(n, strtab).props, name)
  {
    hide Toks, Named, Ordered, PropsOf, KidsOf, FirstProp, PropIndex, Word, EncAll, Str, ItemToks, HasAt;
    NodeTokens(ts, i, n);
    AfterNode(ts, i, n);
    FirstPropItems(ts, i + 1, n.items, strtab, name);
    var p := PropIndex(n.items, strtab, name);
    if p.Found? {
      FirstValue(n.items, strtab, name, p.index);
      PropTokenOf(ts, i + 1, n.items, p.index);
    } else {
      NoValue(n.items, strtab, name);
    }
  }

  lemma AfterNode(ts: seq<Token>, i: nat, n: Item)
    requires n.Node? && HasAt(ts, i, ItemToks(n))
    ensures i + 1 + |Toks(n.items)| < |ts| && ts[i + 1 + |Toks(n.items)|].EndNode?
  {
    hide Toks;
    NodeTokens(ts, i, n);
  }

  lemma PropTokenOf(ts: seq<Token>, i: nat, items: seq<Item>, m: nat)
    requires HasAt(ts, i, Toks(items)) && m < |items| && items[m].IProp?
    ensures i + |Toks(items[..m])| < |ts|
    ensures ts[i + |Toks(items[..m])|] == Prop(items[m].nameoff, items[m].val, items[m].pad)
  {
    var it := items[m];
    ToksUpdate(items, m, it);
    assert items[m := it] == items;
    var a, b, c := Toks(items[..m]), ItemToks(it), Toks(items[m + 1..]);
    HasSplit(ts, i, a + b, c);
    HasSplit(ts, i, a, b);
    assert ts[i + |a|] == ts[i + |a|..i + |a| + 1][0];
  }

  /** The largest phandle in a list of items, from that of the first item. */
  lemma MaxStep(it: Item, rest: seq<Item>, strtab: seq<byte>)
    requires Named(Toks([it] + rest), strtab)
    ensures Named(ItemToks(it), strtab) && Named(Toks(rest), strtab)
    ensures MaxKids(KidsOf([it] + rest, strtab)) ==
      if it.Node? then Max(MaxPhandle(View(it, strtab)), MaxKids(KidsOf(rest, strtab)))
      else MaxKids(KidsOf(rest, strtab))
  {
    hide Named, View, ItemToks, MaxPhandle;
    assert ([it] + rest)[1..] == rest;
    NamedConcat(ItemToks(it), Toks(rest), strtab);
    var kids := KidsOf(rest, strtab);
    assert [] + kids == kids;
    if it.Node? {
      assert ([View(it, strtab)] + kids)[1..] == kids;
    }
  }

  lemma NoItems(strtab: seq<byte>)
    ensures |Toks([])| == 0 && MaxKids(KidsOf([], strtab)) == 0
  {
  }

  lemma HeadItem(ts: seq<Token>, i: nat, it: Item, rest: seq<Item>)
    requires HasAt(ts, i, Toks([it] + rest)) && Ordered([it] + rest)
    ensures |Toks([it] + rest)| == |ItemToks(it)| + |Toks(rest)|
    ensures HasAt(ts, i, ItemToks(it)) && HasAt(ts, i + |ItemToks(it)|, Toks(rest))
    ensures Ordered(rest) && (it.Node? ==> Ordered(it.items))
  {
    hide HasAt, ItemToks;
    assert ([it] + rest)[1..] == rest;
    HasSplit(ts, i, ItemToks(it), Toks(rest));
  }

  /** The largest phandle from a list of items on. */
  lemma {:induction false} MaxItems(ts: seq<Token>, i: nat, items: seq<Item>, strtab: seq<byte>)
    requires HasAt(ts, i, Toks(items)) && Named(Toks(items), strtab) && Ordered(items)
    ensures MaxFrom(ts, i, strtab) == Max(MaxKids(KidsOf(items, strtab)), MaxFrom(ts, i + |Toks(items)|, strtab))
    decreases items, 1
  {
    hide Named, HasAt, View, ItemToks, Toks, Ordered, MaxFrom, MaxPhandle, KidsOf, MaxKids;
    if items == [] {
      NoItems(strtab);
    } else {
      var it, rest := items[0], items[1..];
      assert items == [it] + rest;
      HeadItem(ts, i, it, rest);
      MaxStep(it, rest, strtab);
      MaxItem(ts, i, it, strtab);
      MaxItems(ts, i + |ItemToks(it)|, rest, strtab);
    }
  }

  lemma {:induction false} MaxItem(ts: seq<Token>, i: nat, it: Item, strtab: seq<byte>)
    requires HasAt(ts, i, ItemToks(it)) && Named(ItemToks(it), strtab) && (it.Node? ==> Ordered(it.items))
    ensures var rest := MaxFrom(ts, i + |ItemToks(it)|, strtab);
      MaxFrom(ts, i, strtab) == if it.Node? then Max(MaxPhandle(View(it, strtab)), rest) else rest
    decreases it, 0
  {
    hide Ordered, Named, MaxFrom, MaxPhandle, TokenPhandle, View, MaxKids, KidsOf;
    if it.Node? {
      NodeTokens(ts, i, it);
      NodeNamed(it, strtab);
      MaxItems(ts, i + 1, it.items, strtab);
      NodePhandle(ts, i, it, strtab);
      MaxToken(ts, i, strtab);
      MaxToken(ts, i + 1 + |Toks(it.items)|, strtab);
    } else {
      FirstToken(ts, i, it);
      MaxToken(ts, i, strtab);
    }
  }

  /** One token of the scan. */
  lemma MaxToken(ts: seq<Token>, i: nat, strtab: seq<byte>)
    requires i < |ts| && !ts[i].End?
    ensures MaxFrom(ts, i, strtab) ==
      if ts[i].Begin? then Max(TokenPhandle(ts, i, strtab), MaxFrom(ts, i + 1, strtab)) else MaxFrom(ts, i + 1, strtab)
  {
    hide TokenPhandle;
  }

  lemma FirstToken(ts: seq<Token>, i: nat, it: Item)
    requires HasAt(ts, i, ItemToks(it)) && !it.Node?
    ensures i < |ts| && ts[i] == ItemToks(it)[0] && |ItemToks(it)| == 1 && !ts[i].Begin? && !ts[i].End?
  {
    assert ts[i] == ts[i..i + 1][0];
  }

  /** The phandles of a node and of those below it. */
  lemma NodePhandle(ts: seq<Token>, i: nat, it: Item, strtab: seq<byte>)
    requires it.Node? && HasAt(ts, i, ItemToks(it)) && Named(Toks(it.items), strtab) && Ordered(it.items)
    ensures MaxPhandle(View(it, strtab)) == Max(TokenPhandle(ts, i, strtab), MaxKids(KidsOf(it.items, strtab)))
  {
    hide TokenCell, CellOf, Ordered, Named, HasAt, MaxKids, KidsOf, PropsOf, Toks, ItemToks;
    CellIs(ts, i, it, strtab, PHANDLE);
    CellIs(ts, i, it, strtab, LINUX_PHANDLE);
  }

  /** fdt_getprop of a single cell. */
  method GetCell(s: seq<byte>, strtab: seq<byte>, node: int, name: seq<byte>, ghost ts: seq<Token>, ghost i: nat)
    returns (r: Option<u32>)
    requires Block(s, ts) && i < |ts| && ts[i].Begin? && node == Off(ts, i)
    ensures r == TokenCell(ts, i, strtab, name)
  {
    hide EncAll, Off, FirstProp, Word;
    var p := GetProperty(s, strtab, node, name, ts, i);
    if p < 0 {
      return None;
    }
    ghost var j := FirstProp(ts, i + 1, strtab, name).index;
    PropToken(s, ts, j);
    if Word(s, p + 4) != 4 {
      return None;
    }
    ghost var v := ts[j].val;
    assert v[0..4] == v;
    SameWord(s, p + 12, v, 0);
    r := Some(Word(s, p + 12));
  }

  /** fdt_get_phandle */
  method GetPhandle(s: seq<byte>, strtab: seq<byte>, node: int, ghost ts: seq<Token>, ghost i: nat) returns (r: u32)
    requires Block(s, ts) && i < |ts| && ts[i].Begin? && node == Off(ts, i)
    ensures r == TokenPhandle(ts, i, strtab)
  {
    hide EncAll, Off, TokenCell;
    var php := GetCell(s, strtab, node, PHANDLE, ts, i);
    if php.None? {
      php := GetCell(s, strtab, node, LINUX_PHANDLE, ts, i);
      if php.None? {
        return 0;
      }
    }
    r := php.value;
  }

  /** fdt_find_max_phandle */
  method FindMaxPhandle(s: seq<byte>, strtab: seq<byte>, ghost top: seq<Item>) returns (err: int, phandle: u32)
    requires Represents(s, strtab, top)
    ensures err == 0 && phandle == MaxKids(KidsOf(top, strtab))
  {
    hide EncAll, Off, TokenPhandle, Named, Ordered, KidsOf, Toks, MaxFrom, MaxKids, BlockToks;
    ghost var ts := BlockToks(top);
    WholeBlock(top, strtab);
    phandle := 0;
    var offset := -1;
    ghost var i := -1;
    while true
      invariant -1 <= i < |ts| && Points(ts, i, offset) && (i >= 0 ==> ts[i].Begin?)
      invariant Max(phandle, MaxFrom(ts, i + 1, strtab)) == MaxFrom(ts, 0, strtab)
      decreases |ts| - i
    {
      NextSkips(ts, i + 1, 0, strtab);
      ghost var h := Next(ts, i + 1, 0, false);
      var d;
      offset, d := NextNode(s, offset, 0, false, ts, i);
      if offset < 0 {
        if offset == -ERR_NOTFOUND {
          break;
        }
        return offset, phandle;
      }
      i := h.index;
      MaxToken(ts, i, strtab);
      var value := GetPhandle(s, strtab, offset, ts, i);
      if value > phandle {
        phandle := value;
      }
    }
    err := 0;
  }

  lemma WholeBlock(top: seq<Item>, strtab: seq<byte>)
    requires Named(Toks(top), strtab) && Ordered(top)
    ensures MaxFrom(BlockToks(top), 0, strtab) == MaxKids(KidsOf(top, strtab))
  {
    hide Named, Ordered, KidsOf, Toks;
    var ts := BlockToks(top);
    assert ts[0..|Toks(top)|] == Toks(top);
    MaxItems(ts, 0, top, strtab);
  }
}
