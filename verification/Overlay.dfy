/** overlay_apply_node: merging a node of an overlay blob into a node of the base blob. */
module Overlay {
  import opened Bytes
  import opened Tokens
  import opened Trees
  import opened Views
  import opened Scan
  import opened Lookup
  import opened Splices
  import opened Blob
  import opened Edits
  import opened PropEdits
  import opened NodeEdits
  import opened Cursors
  import opened Merges

  /** Giving a node new contents moves neither the node nor anything before it. */
  lemma Reenter(top: seq<Item>, path: seq<nat>, k: nat, items: seq<Item>)
    requires Inside(top, path, k)
    ensures var t := SetSub(top, path + [k], items);
      && Inside(t, path, k) && Sub(t, path + [k]) == items
      && Sub(t, path)[k].name == Sub(top, path)[k].name
      && Index(t, path, k) == Index(top, path, k) && OffsetOf(t, path, k) == OffsetOf(top, path, k)
  {
    hide Sub, SetSub, Before, EncAll;
    var list, n := Sub(top, path), Sub(top, path)[k];
    SetInner(top, path, k, items);
    BeforeSet(top, path, list[k := n.(items := items)], k);
    Enter(SetSub(top, path + [k], items), path, k, 0);
  }

  /** Node k at path, named by its offset. */
  lemma NamesNode(s: seq<byte>, strtab: seq<byte>, top: seq<Item>, path: seq<nat>, k: nat)
    requires Represents(s, strtab, top) && Inside(top, path, k)
    ensures Names(top, path, k, Index(top, path, k), OffsetOf(top, path, k))
    ensures IsNode(top, Index(top, path, k))
  {
    hide Sub, Before, EncAll, Toks, Off, BlockToks, Ordered, Named;
    Located(top, path, k);
    NodeInBlock(top, path, k);
  }

  /** The state of a merge in progress: the target's contents are items, nothing else has changed. */
  ghost predicate Merging(f: Fdt, strtab: seq<byte>, front: Fore, top: seq<Item>, path: seq<nat>, k: nat,
                          items: seq<Item>)
    reads f, f.buf
  {
    && f.Valid() && strtab <= f.Strings() && f.Front() == front
    && Inside(top, path, k) && Means(f, SetSub(top, path + [k], items))
  }

  // ------------------------------------------------------------- room for the overlay

  /** The most that setting a property can add to the blob. */
  function PropRoom(p: PropVal): nat {
    12 + Align4(|p.val|) + |p.name| + 1
  }

  function PropsRoom(props: seq<PropVal>): nat {
    if props == [] then 0 else PropRoom(props[0]) + PropsRoom(props[1..])
  }

  /** The most that merging the contents of a node can add. */
  function Room(o: Tree): nat
    decreases o, 0
  {
    PropsRoom(o.props) + KidsRoom(o.kids)
  }

  function KidRoom(o: Tree): nat
    decreases o, 1
  {
    8 + Align4(|o.name| + 1) + Room(o)
  }

  function KidsRoom(kids: seq<Tree>): nat
    decreases kids, 2
  {
    if kids == [] then 0 else KidRoom(kids[0]) + KidsRoom(kids[1..])
  }

  /** A property takes its token, and its name in the strings block with a NUL. */
  lemma PropRoomIs(p: PropVal, t: Token)
    requires t.Prop? && ValidToken(t) && |t.val| == |p.val|
    ensures PropRoom(p) == |Enc(t)| + (|p.name| + 1)
  {
  }

  /** A node takes its two tokens, and room for its contents. */
  lemma KidRoomIs(o: Tree, t: Token)
    requires t.Begin? && ValidToken(t) && t.name == o.name
    ensures KidRoom(o) == |Enc(t)| + |Enc(EndNode)| + Room(o)
  {
  }

  lemma {:induction false} PropsRoomSplit(a: seq<PropVal>, b: seq<PropVal>)
    ensures PropsRoom(a + b) == PropsRoom(a) + PropsRoom(b)
  {
    hide PropRoom;
    if a == [] {
      assert a + b == b;
    } else {
      PropsRoomSplit(a[1..], b);
      assert (a + b)[0] == a[0] && (a + b)[1..] == a[1..] + b;
    }
  }

  lemma {:induction false} KidsRoomSplit(a: seq<Tree>, b: seq<Tree>)
    ensures KidsRoom(a + b) == KidsRoom(a) + KidsRoom(b)
    decreases |a|
  {
    hide KidRoom;
    if a == [] {
      assert a + b == b;
    } else {
      KidsRoomSplit(a[1..], b);
      assert (a + b)[0] == a[0] && (a + b)[1..] == a[1..] + b;
    }
  }

  /** One more property of an overlay node: room up to it, and room for all. */
  lemma PropsRoomNext(o: seq<Item>, q: nat, p: nat, strtab: seq<byte>)
    requires q <= |o| && p == NextProperty(o, q) < |o| && o[p].IProp?
    ensures var v := PropVal(Str(strtab, o[p].nameoff), o[p].val);
      && PropsRoom(PropsOf(o[..p + 1], strtab)) == PropsRoom(PropsOf(o[..q], strtab)) + PropRoom(v)
      && PropsRoom(PropsOf(o[..p + 1], strtab)) <= PropsRoom(PropsOf(o, strtab))
  {
    hide PropsOf, PropsRoom, PropRoom, Str;
    var v := PropVal(Str(strtab, o[p].nameoff), o[p].val);
    PropsUpTo(o, q, p, strtab);
    assert o == o[..p + 1] + o[p + 1..];
    PropsConcat(o[..p + 1], o[p + 1..], strtab);
    PropsRoomSplit(PropsOf(o[..p + 1], strtab), PropsOf(o[p + 1..], strtab));
    PropsRoomSplit(PropsOf(o[..q], strtab), [v]);
    OnePropRoom(v);
  }

  lemma OnePropRoom(v: PropVal)
    ensures PropsRoom([v]) == PropRoom(v)
  {
    assert [v][1..] == [];
  }

  lemma KidsRoomNext(o: seq<Item>, q: nat, p: nat, strtab: seq<byte>)
    requires q <= |o| && p == NextKid(o, q) < |o|
    ensures KidsRoom(KidsOf(o[..p + 1], strtab)) == KidsRoom(KidsOf(o[..q], strtab)) + KidRoom(View(o[p], strtab))
    ensures KidsRoom(KidsOf(o[..p + 1], strtab)) <= KidsRoom(KidsOf(o, strtab))
  {
    hide KidsOf, KidsRoom, KidRoom, View;
    var v := View(o[p], strtab);
    KidsUpTo(o, q, p, strtab);
    assert o == o[..p + 1] + o[p + 1..];
    KidsConcat(o[..p + 1], o[p + 1..], strtab);
    KidsRoomSplit(KidsOf(o[..p + 1], strtab), KidsOf(o[p + 1..], strtab));
    KidsRoomSplit(KidsOf(o[..q], strtab), [v]);
    OneKidRoom(v);
  }

  lemma OneKidRoom(v: Tree)
    ensures KidsRoom([v]) == KidRoom(v)
  {
    hide KidRoom;
    assert [v][1..] == [];
  }

  /** An edit that needs no more than room: it succeeds and stays within it, or there was not enough. */
  predicate Within(ret: int, before: nat, after: nat, room: nat, totalsize: nat) {
    if ret == 0 then after <= before + room else ret == -ERR_NOSPACE && before + room > totalsize
  }

  lemma SetCostWithin(props: seq<PropVal>, name: seq<byte>, val: seq<byte>, strtab: seq<byte>)
    ensures SetCost(props, name, |val|, strtab) <= PropRoom(PropVal(name, val))
  {
  }

  lemma PropsUpTo(items: seq<Item>, q: nat, p: nat, strtab: seq<byte>)
    requires q <= p <= |items| && p == NextProperty(items, q)
    ensures PropsOf(items[..p], strtab) == PropsOf(items[..q], strtab)
    ensures p < |items| && items[p].IProp? ==>
      PropsOf(items[..p + 1], strtab)
        == PropsOf(items[..q], strtab) + [PropVal(Str(strtab, items[p].nameoff), items[p].val)]
  {
    hide Str;
    assert items[..p] == items[..q] + items[q..p];
    PropsConcat(items[..q], items[q..p], strtab);
    NoProps(items[q..p], strtab);
    if p < |items| {
      assert items[..p + 1] == items[..p] + [items[p]];
      PropsConcat(items[..p], [items[p]], strtab);
      OneItem(items[p], strtab);
    }
  }

  /** Once the property iteration has reached a node or the end, no property is left. */
  lemma PropsDone(items: seq<Item>, p: nat, strtab: seq<byte>)
    requires Ordered(items) && p <= |items| && (p < |items| ==> items[p].Node?)
    ensures PropsOf(items[..p], strtab) == PropsOf(items, strtab)
  {
    assert items == items[..p] + items[p..];
    PropsConcat(items[..p], items[p..], strtab);
    NoProps(items[p..], strtab);
  }

  lemma StrClean(strtab: seq<byte>, o: nat)
    ensures 0 !in Str(strtab, o)
  {
  }

  /** The property at an item's offset, as fdt_getprop_by_offset reads it. */
  lemma PropertyAt(s: seq<byte>, strtab: seq<byte>, top: seq<Item>, path: seq<nat>, k: nat, p: nat)
    requires Represents(s, strtab, top) && Inside(top, path, k) && p < |Sub(top, path + [k])|
    requires Sub(top, path + [k])[p].IProp?
    ensures var it, o := Sub(top, path + [k])[p], OffsetOf(top, path + [k], p);
      && o + 12 + |it.val| <= |s| && Word(s, o + 4) == |it.val| && Word(s, o + 8) == it.nameoff
      && s[o + 12..o + 12 + |it.val|] == it.val
      && GetString(strtab, it.nameoff) == Some(Str(strtab, it.nameoff)) && 0 !in Str(strtab, it.nameoff)
      && CheckOffset(s, o, FDT_PROP) == OffsetOf(top, path + [k], p + 1)
  {
    hide Sub, Before, EncAll, Toks, Off, TagAt, OffsetOf, Index, BlockToks, Word, Ordered;
    PropInBlock(s, strtab, top, path + [k], p);
    TokenAtItem(top, path, k, p);
    TokenAtItem(top, path, k, p + 1);
    var ts, i := BlockToks(top), Index(top, path + [k], p);
    PropToken(s, ts, i);
    CheckToken(s, ts, i, FDT_PROP);
    StrClean(strtab, Sub(top, path + [k])[p].nameoff);
  }

  /** The first loop of overlay_apply_node: every property of the overlay node is set on the target. */
  method ApplyProps(f: Fdt, target: nat, so: seq<byte>, to: seq<byte>, node: nat,
                    ghost top: seq<Item>, ghost path: seq<nat>, ghost k: nat,
                    ghost otop: seq<Item>, ghost opath: seq<nat>, ghost ok: nat)
    returns (ret: int, ghost items: seq<Item>)
    requires Means(f, top) && Inside(top, path, k) && target == OffsetOf(top, path, k)
    requires Represents(so, to, otop) && Inside(otop, opath, ok) && node == OffsetOf(otop, opath, ok)
    modifies f, f.buf
    ensures Merging(f, old(f.Strings()), old(f.Front()), top, path, k, items)
    ensures ret == 0 ==>
      var n := NodeView(top, path, k, old(f.Strings()));
      && PropsOf(items, f.Strings()) == MergeProps(n.props, NodeView(otop, opath, ok, to).props)
      && KidsOf(items, f.Strings()) == n.kids
    ensures Within(ret, old(f.DataSize()), f.DataSize(), PropsRoom(NodeView(otop, opath, ok, to).props), f.h.totalsize)
  {
    hide Sub, SetSub, Before, EncAll, Toks, Off, OffsetOf, Index, BlockToks, PropsOf, KidsOf, Represents, IsNode, Names,
      StructOf, StringsOf, NodeView, MergeProps, CheckOffset, Word, ValidPath, Str, PropsRoom, PropRoom, Align4;
    ghost var strtab, front, list, olist := f.Strings(), f.Front(), path + [k], opath + [ok];
    ghost var o, n, size := Sub(otop, olist), NodeView(top, path, k, f.Strings()), f.DataSize();
    items := Sub(top, list);
    SetSubGet(top, list, items);
    NodeViewIs(top, path, k, strtab);
    NodeViewIs(otop, opath, ok, to);
    ghost var q := 0;
    StartProps(so, to, otop, opath, ok, n.props);
    var property := CheckOffset(so, node, FDT_BEGIN_NODE);
    property := PropertyFrom(so, property, to, otop, opath, ok, 0);
    while property >= 0
      invariant q <= |o| && Merging(f, strtab, front, top, path, k, items)
      invariant var p := NextProperty(o, q);
        property == if p < |o| && o[p].IProp? then OffsetOf(otop, olist, p) else -ERR_NOTFOUND
      invariant PropsOf(items, f.Strings()) == MergeProps(n.props, PropsOf(o[..q], to))
      invariant KidsOf(items, f.Strings()) == n.kids && f.DataSize() <= size + PropsRoom(PropsOf(o[..q], to))
      decreases |o| - q, property
    {
      ghost var p := NextProperty(o, q);
      PropsRoomNext(o, q, p, to);
      PropertyAt(so, to, otop, opath, ok, p);
      var len := Word(so, property + 4);
      var name := GetString(to, Word(so, property + 8)).value;
      items, ret := ApplyProp(f, target, name, so[property + 12..property + 12 + len], top, path, k, items, strtab,
                              front);
      if ret != 0 {
        return;
      }
      PropsUpTo(o, q, p, to);
      MergePropsStep(n.props, PropsOf(o[..q], to), name, o[p].val);
      q := p + 1;
      property := CheckOffset(so, property, FDT_PROP);
      property := PropertyFrom(so, property, to, otop, opath, ok, q);
    }
    ret := 0;
    ListFacts(so, to, otop, olist);
    PropsUpTo(o, q, NextProperty(o, q), to);
    PropsDone(o, NextProperty(o, q), to);
  }

  lemma StartProps(s: seq<byte>, strtab: seq<byte>, top: seq<Item>, path: seq<nat>, k: nat, props: seq<PropVal>)
    requires Represents(s, strtab, top) && Inside(top, path, k)
    ensures CheckOffset(s, OffsetOf(top, path, k), FDT_BEGIN_NODE) == OffsetOf(top, path + [k], 0)
    ensures MergeProps(props, PropsOf(Sub(top, path + [k])[..0], strtab)) == props
    ensures PropsRoom(PropsOf(Sub(top, path + [k])[..0], strtab)) == 0
  {
    hide Sub, Before, EncAll, Toks, OffsetOf, Index, BlockToks, Represents, IsNode, Names, CheckOffset;
    NamesNode(s, strtab, top, path, k);
    NodeStart(s, strtab, top, path, k, Index(top, path, k), OffsetOf(top, path, k));
    assert Sub(top, path + [k])[..0] == [];
  }

  lemma MergePropsStep(props: seq<PropVal>, o: seq<PropVal>, name: seq<byte>, val: seq<byte>)
    ensures MergeProps(props, o + [PropVal(name, val)]) == PutProp(MergeProps(props, o), name, val)
  {
    var all := o + [PropVal(name, val)];
    assert all[..|all| - 1] == o;
  }

  /** One fdt_setprop on the target of a merge. */
  method ApplyProp(f: Fdt, target: nat, name: seq<byte>, val: seq<byte>,
                   ghost top: seq<Item>, ghost path: seq<nat>, ghost k: nat, ghost items: seq<Item>,
                   ghost strtab: seq<byte>, ghost front: Fore)
    returns (ghost items': seq<Item>, ret: int)
    requires Merging(f, strtab, front, top, path, k, items) && target == OffsetOf(top, path, k) && 0 !in name
    modifies f, f.buf
    ensures Merging(f, strtab, front, top, path, k, items')
    ensures ret == 0 ==>
      && PropsOf(items', f.Strings()) == PutProp(PropsOf(items, old(f.Strings())), name, val)
      && KidsOf(items', f.Strings()) == KidsOf(items, old(f.Strings()))
    ensures Within(ret, old(f.DataSize()), f.DataSize(), PropRoom(PropVal(name, val)), f.h.totalsize)
  {
    hide Sub, SetSub, OffsetOf, Index, PropsOf, KidsOf, Represents, IsNode, Names, StructOf, StringsOf, NodeView,
      PutProp, ValidPath, PropRoom, SetCost;
    ghost var t, list := SetSub(top, path + [k], items), path + [k];
    Reenter(top, path, k, items);
    NamesNode(f.Struct(), f.Strings(), t, path, k);
    NodeViewIs(t, path, k, f.Strings());
    SetCostWithin(NodeView(t, path, k, f.Strings()).props, name, val, f.Strings());
    ret, items' := SetProp(f, target, name, val, t, path, k, Index(t, path, k));
    if ret != 0 {
      return items, ret;
    }
    SetSubSet(top, list, items, items');
  }

  // ------------------------------------------------------------------ children

  /** The first child item that answers to a name, in the view. */
  lemma {:induction false} KidFound(items: seq<Item>, name: seq<byte>, strtab: seq<byte>)
    ensures match KidIndex(items, name)
      case Found(m) => KidPos(KidsOf(items, strtab), name) == |KidsOf(items[..m], strtab)| < |KidsOf(items, strtab)|
      case _ => KidPos(KidsOf(items, strtab), name) == |KidsOf(items, strtab)|
  {
    if items == [] {
    } else {
      var it, rest := items[0], items[1..];
      assert it.Node? ==> ItemKids(it, strtab)[0].name == it.name;
      if !IsKid(it, name) {
        KidFound(rest, name, strtab);
        var f := KidIndex(rest, name);
        if f.Found? {
          PrefixKids(items, f.index, strtab);
        }
        KidPosSkip(ItemKids(it, strtab), KidsOf(rest, strtab), name);
      }
    }
  }

  lemma PrefixKids(items: seq<Item>, m: nat, strtab: seq<byte>)
    requires m < |items|
    ensures KidsOf(items[..m + 1], strtab) == ItemKids(items[0], strtab) + KidsOf(items[1..][..m], strtab)
  {
    hide ItemKids, KidsOf;
    assert items[..m + 1] == [items[0]] + items[1..][..m];
    OneItem(items[0], strtab);
    KidsConcat([items[0]], items[1..][..m], strtab);
  }

  lemma KidPosSkip(a: seq<Tree>, b: seq<Tree>, name: seq<byte>)
    requires |a| <= 1 && (a != [] ==> !NameEq(a[0].name, name))
    ensures KidPos(a + b, name) == |a| + KidPos(b, name)
  {
    hide NameEq;
    if a == [] {
      assert a + b == b;
    } else {
      assert (a + b)[1..] == b;
    }
  }

  lemma MergeKidsStep(kids: seq<Tree>, os: seq<Tree>, o: Tree)
    ensures MergeKids(kids, os + [o]) == MergeKid(MergeKids(kids, os), o)
  {
    var all := os + [o];
    assert all[..|all| - 1] == os;
  }

  lemma KidsUpTo(items: seq<Item>, q: nat, p: nat, strtab: seq<byte>)
    requires q <= p <= |items| && p == NextKid(items, q)
    ensures p == |items| ==> KidsOf(items[..q], strtab) == KidsOf(items, strtab)
    ensures p < |items| ==> KidsOf(items[..p + 1], strtab) == KidsOf(items[..q], strtab) + [View(items[p], strtab)]
  {
    hide View;
    assert items[..p] == items[..q] + items[q..p];
    KidsConcat(items[..q], items[q..p], strtab);
    NoKids(items[q..p], strtab);
    if p < |items| {
      assert items[..p + 1] == items[..p] + [items[p]];
      KidsConcat(items[..p], [items[p]], strtab);
      OneItem(items[p], strtab);
    } else {
      assert items[..p] == items;
    }
  }

  /** A list whose child m has been given new contents, read with a longer strings block. */
  lemma KidChanged(items: seq<Item>, m: nat, sub: seq<Item>, strtab: seq<byte>, longer: seq<byte>)
    requires m < |items| && items[m].Node? && Views.Named(Toks(items), strtab) && strtab <= longer
    ensures var r, j := items[m := items[m].(items := sub)], |KidsOf(items[..m], strtab)|;
      && j < |KidsOf(items, strtab)| && KidsOf(items, strtab)[j] == View(items[m], strtab)
      && PropsOf(r, longer) == PropsOf(items, strtab)
      && KidsOf(r, longer)
         == KidsOf(items, strtab)[j := Tree(items[m].name, PropsOf(sub, longer), KidsOf(sub, longer))]
  {
    hide PropsOf, KidsOf, Toks;
    var x := longer[|strtab|..];
    assert longer == strtab + x;
    var it := items[m].(items := sub);
    ViewExtend(items, strtab, x);
    PrefixNamed(items, m, strtab);
    ViewExtend(items[..m], strtab, x);
    KidAt(items, m, strtab);
    ReplaceNode(items, m, it, longer);
  }

  lemma PrefixNamed(items: seq<Item>, m: nat, strtab: seq<byte>)
    requires m <= |items| && Views.Named(Toks(items), strtab)
    ensures Views.Named(Toks(items[..m]), strtab)
  {
    hide Toks;
    assert items == items[..m] + items[m..];
    ToksConcat(items[..m], items[m..]);
    NamedConcat(Toks(items[..m]), Toks(items[m..]), strtab);
  }

  /** The child that the overlay's child goes into: an existing one that answers to its name, or a fresh one. */
  method TargetChild(f: Fdt, target: nat, name: seq<byte>,
                     ghost top: seq<Item>, ghost path: seq<nat>, ghost k: nat, ghost items: seq<Item>,
                     ghost strtab: seq<byte>, ghost front: Fore)
    returns (r: int, ghost items': seq<Item>, ghost m: nat)
    requires Merging(f, strtab, front, top, path, k, items) && target == OffsetOf(top, path, k) && 0 !in name
    modifies f, f.buf
    ensures Merging(f, strtab, front, top, path, k, items') && f.Strings() == old(f.Strings())
    ensures r >= 0 ==>
      && m < |items'| && items'[m].Node?
      && Inside(SetSub(top, path + [k], items'), path + [k], m)
      && r == OffsetOf(SetSub(top, path + [k], items'), path + [k], m)
      && PropsOf(items', f.Strings()) == PropsOf(items, f.Strings())
      && var kids, kids' := KidsOf(items, f.Strings()), KidsOf(items', f.Strings());
         var j := |KidsOf(items'[..m], f.Strings())|;
         if KidPos(kids, name) < |kids| then kids' == kids && j == KidPos(kids, name)
         else kids' == [Tree(name, [], [])] + kids && j == 0
    ensures Within(if r >= 0 then 0 else r, old(f.DataSize()), f.DataSize(), 8 + Align4(|name| + 1), f.h.totalsize)
  {
    hide Sub, SetSub, OffsetOf, Index, PropsOf, KidsOf, Represents, IsNode, Names, StructOf, StringsOf, KidIndex, Fresh,
      KidPos, BlockToks, Align4, ChildAnswers;
    ghost var t, list := SetSub(top, path + [k], items), path + [k];
    Reenter(top, path, k, items);
    NamesNode(f.Struct(), f.Strings(), t, path, k);
    KidFound(items, name, f.Strings());
    items', m := items, 0;
    r, items' := AddSubnode(f, target, name, t, path, k, Index(t, path, k));
    if r == -ERR_EXISTS {
      ChildHere(f.Struct(), f.Strings(), t, path, k, name);
      r := SubnodeOffset(f.Struct(), target, name, BlockToks(t), Index(t, path, k));
      items', m := items, KidIndex(items, name).index;
      if r == -ERR_NOTFOUND {
        return -ERR_INTERNAL, items', m;
      }
    } else if r < 0 {
      items' := items;
    } else {
      m := FirstNode(items);
      SetSubSet(top, list, items, items');
      FreshHere(t, list, items, name, f.Strings());
    }
  }

  lemma ChildHere(s: seq<byte>, strtab: seq<byte>, t: seq<Item>, path: seq<nat>, k: nat, name: seq<byte>)
    requires Represents(s, strtab, t) && Inside(t, path, k)
    ensures Block(s, BlockToks(t)) && Points(BlockToks(t), Index(t, path, k), OffsetOf(t, path, k))
    ensures BlockToks(t)[Index(t, path, k)].Begin?
    ensures var f := KidIndex(Sub(t, path + [k]), name);
      f.Found? ==>
        && Inside(t, path + [k], f.index)
        && ChildFrom(BlockToks(t), Index(t, path, k) + 1, 0, name).Found?
        && Off(BlockToks(t), ChildFrom(BlockToks(t), Index(t, path, k) + 1, 0, name).index)
           == OffsetOf(t, path + [k], f.index)
  {
    hide Sub, Before, EncAll, Toks, Off, OffsetOf, Index, BlockToks, KidIndex, ChildFrom, FirstAnswer;
    NamesNode(s, strtab, t, path, k);
    ChildOffset(t, path, k, name);
    var f := KidIndex(Sub(t, path + [k]), name);
    if f.Found? {
      Enter(t, path + [k], f.index, 0);
    }
  }

  /** The fresh child added in front: where it is and what is before it. */
  lemma FreshHere(t: seq<Item>, list: seq<nat>, items: seq<Item>, name: seq<byte>, strtab: seq<byte>)
    requires ValidPath(t, list) && Sub(t, list) == items
    ensures var q := FirstNode(items);
      var r := items[..q] + [Fresh(name)] + items[q..];
      && r[q].Node? && Inside(SetSub(t, list, r), list, q)
      && OffsetOf(t, list, q) == OffsetOf(SetSub(t, list, r), list, q)
      && |KidsOf(r[..q], strtab)| == 0
  {
    hide Sub, SetSub, Before, EncAll;
    var q := FirstNode(items);
    var r := items[..q] + [Fresh(name)] + items[q..];
    assert r[..q] == items[..q] && r[q] == Fresh(name);
    BeforeSet(t, list, r, q);
    Enter(SetSub(t, list, r), list, q, 0);
    NoKids(items[..q], strtab);
  }

  // ------------------------------------------------------------- the recursion

  /** The target's view after the merge of the overlay node. */
  ghost predicate Merged(items: seq<Item>, strtab: seq<byte>, n: Tree, o: Tree) {
    PropsOf(items, strtab) == Merge(n, o).props && KidsOf(items, strtab) == Merge(n, o).kids
  }

  /**
   * overlay_apply_node.  On success the target is the recursive merge; whatever
   * happens, nothing outside the target changes.
   */
  method ApplyNode(f: Fdt, target: int, so: seq<byte>, to: seq<byte>, node: nat,
                   ghost top: seq<Item>, ghost path: seq<nat>, ghost k: nat,
                   ghost otop: seq<Item>, ghost opath: seq<nat>, ghost ok: nat)
    returns (ret: int, ghost items: seq<Item>)
    requires Means(f, top) && Inside(top, path, k) && target == OffsetOf(top, path, k)
    requires Represents(so, to, otop) && Inside(otop, opath, ok) && node == OffsetOf(otop, opath, ok)
    modifies f, f.buf
    ensures Merging(f, old(f.Strings()), old(f.Front()), top, path, k, items)
    ensures ret == 0 ==>
      Merged(items, f.Strings(), NodeView(top, path, k, old(f.Strings())), NodeView(otop, opath, ok, to))
    ensures Within(ret, old(f.DataSize()), f.DataSize(), Room(NodeView(otop, opath, ok, to)), f.h.totalsize)
    decreases Sub(otop, opath)[ok], 1
  {
    hide SetSub, OffsetOf, MergeKid, View, Index, PropsOf, KidsOf, Represents, StructOf, StringsOf, NodeView,
      MergeProps, MergeKids, PropsRoom, KidsRoom, KidRoom;
    ghost var size := f.DataSize();
    ghost var strtab, front, olist := f.Strings(), f.Front(), opath + [ok];
    ghost var n, o, on := NodeView(top, path, k, f.Strings()), Sub(otop, olist), NodeView(otop, opath, ok, to);
    ret, items := ApplyProps(f, target, so, to, node, top, path, k, otop, opath, ok);
    if ret != 0 {
      return;
    }
    ghost var q := 0;
    StartKids(n.kids, o, to);
    NodeViewIs(otop, opath, ok, to);
    var subnode := FirstSubnode(so, node, to, otop, opath, ok);
    while subnode >= 0
      invariant q <= |o| && Merging(f, strtab, front, top, path, k, items)
      invariant var p := NextKid(o, q);
        subnode == if p < |o| then OffsetOf(otop, olist, p) else -ERR_NOTFOUND
      invariant PropsOf(items, f.Strings()) == MergeProps(n.props, on.props)
      invariant KidsOf(items, f.Strings()) == MergeKids(n.kids, KidsOf(o[..q], to))
      invariant f.DataSize() <= size + PropsRoom(on.props) + KidsRoom(KidsOf(o[..q], to))
      decreases |o| - q, subnode
    {
      ghost var p := NextKid(o, q);
      KidsRoomNext(o, q, p, to);
      ret, items := ApplyKid(f, target, so, to, subnode, top, path, k, items, strtab, front, otop, opath, ok, p);
      if ret != 0 {
        return;
      }
      KidsUpTo(o, q, p, to);
      MergeKidsStep(n.kids, KidsOf(o[..q], to), View(o[p], to));
      q := p + 1;
      subnode := NextSubnode(so, subnode, to, otop, opath, ok, p);
    }
    ret := 0;
    KidsUpTo(o, q, NextKid(o, q), to);
  }

  /** The second loop's body: find or add the child, and merge into it. */
  method ApplyKid(f: Fdt, target: nat, so: seq<byte>, to: seq<byte>, subnode: nat,
                  ghost top: seq<Item>, ghost path: seq<nat>, ghost k: nat, ghost items: seq<Item>,
                  ghost strtab: seq<byte>, ghost front: Fore,
                  ghost otop: seq<Item>, ghost opath: seq<nat>, ghost ok: nat, ghost p: nat)
    returns (ret: int, ghost items': seq<Item>)
    requires Merging(f, strtab, front, top, path, k, items) && target == OffsetOf(top, path, k)
    requires Represents(so, to, otop) && Inside(otop, opath, ok)
    requires p < |Sub(otop, opath + [ok])| && Sub(otop, opath + [ok])[p].Node?
    requires subnode == OffsetOf(otop, opath + [ok], p)
    modifies f, f.buf
    ensures Merging(f, strtab, front, top, path, k, items')
    ensures ret == 0 ==>
      && PropsOf(items', f.Strings()) == PropsOf(items, old(f.Strings()))
      && KidsOf(items', f.Strings())
         == MergeKid(KidsOf(items, old(f.Strings())), View(Sub(otop, opath + [ok])[p], to))
    ensures Within(ret, old(f.DataSize()), f.DataSize(), KidRoom(View(Sub(otop, opath + [ok])[p], to)), f.h.totalsize)
    decreases Sub(otop, opath)[ok], 0
  {
    hide SetSub, OffsetOf, Index, PropsOf, KidsOf, Represents, StructOf, StringsOf, MergeKid, Merged, KidPos, Sub,
      ValidPath, Room, Align4;
    ghost var list, olist, strtab1 := path + [k], opath + [ok], f.Strings();
    SubnodeName(so, to, otop, opath, ok, p);
    var name := NodeName(so, subnode);
    ghost var items1, m, sub;
    ret, items1, m := TargetChild(f, target, name, top, path, k, items, strtab, front);
    if ret < 0 {
      return ret, items1;
    }
    ghost var top1 := SetSub(top, list, items1);
    ghost var s1 := f.Struct();
    ret, sub := ApplyNode(f, ret, so, to, subnode, top1, list, m, otop, olist, p);
    items' := items1[m := items1[m].(items := sub)];
    Compose(top, list, items1, m, sub);
    KidMerged(s1, strtab1, f.Strings(), top, list, items, items1, m, sub, View(Sub(otop, olist)[p], to), name);
  }

  /** New contents for a child are new contents for its parent. */
  lemma Compose(top: seq<Item>, list: seq<nat>, items: seq<Item>, m: nat, sub: seq<Item>)
    requires ValidPath(top, list) && m < |items| && items[m].Node? && Inside(SetSub(top, list, items), list, m)
    ensures SetSub(SetSub(top, list, items), list + [m], sub) == SetSub(top, list, items[m := items[m].(items := sub)])
  {
    hide SetSub, Sub;
    SetSubGet(top, list, items);
    SetInner(SetSub(top, list, items), list, m, sub);
    SetSubSet(top, list, items, items[m := items[m].(items := sub)]);
  }

  lemma KidMerged(s: seq<byte>, strtab: seq<byte>, longer: seq<byte>, top: seq<Item>, list: seq<nat>,
                  items: seq<Item>, items1: seq<Item>, m: nat, sub: seq<Item>, o: Tree, name: seq<byte>)
    requires ValidPath(top, list) && Represents(s, strtab, SetSub(top, list, items1)) && strtab <= longer
    requires m < |items1| && items1[m].Node? && Inside(SetSub(top, list, items1), list, m)
    requires PropsOf(items1, strtab) == PropsOf(items, strtab)
    requires var kids, kids', j := KidsOf(items, strtab), KidsOf(items1, strtab), |KidsOf(items1[..m], strtab)|;
      if KidPos(kids, name) < |kids| then kids' == kids && j == KidPos(kids, name)
      else kids' == [Tree(name, [], [])] + kids && j == 0
    requires o.name == name
    ensures var items2 := items1[m := items1[m].(items := sub)];
      Merged(sub, longer, NodeView(SetSub(top, list, items1), list, m, strtab), o) ==>
        && PropsOf(items2, longer) == PropsOf(items, strtab)
        && KidsOf(items2, longer) == MergeKid(KidsOf(items, strtab), o)
  {
    hide SetSub, Sub, PropsOf, KidsOf, KidPos, Represents, MergeProps, MergeKids;
    var top1 := SetSub(top, list, items1);
    SetSubGet(top, list, items1);
    ListFacts(s, strtab, top1, list);
    KidChanged(items1, m, sub, strtab, longer);
  }

  lemma StartKids(kids: seq<Tree>, o: seq<Item>, to: seq<byte>)
    ensures MergeKids(kids, KidsOf(o[..0], to)) == kids && KidsRoom(KidsOf(o[..0], to)) == 0
  {
    assert o[..0] == [];
  }

  lemma SubnodeName(s: seq<byte>, strtab: seq<byte>, top: seq<Item>, path: seq<nat>, k: nat, p: nat)
    requires Represents(s, strtab, top) && Inside(top, path, k) && p < |Sub(top, path + [k])|
    requires Sub(top, path + [k])[p].Node?
    ensures Inside(top, path + [k], p)
    ensures var it, o := Sub(top, path + [k])[p], OffsetOf(top, path + [k], p);
      o + 4 <= |s| && NodeName(s, o) == it.name && 0 !in it.name
    ensures NodeView(top, path + [k], p, strtab).name == Sub(top, path + [k])[p].name
  {
    hide Sub, Before, EncAll, Toks, Off, OffsetOf, Index, BlockToks, NodeName;
    TokenAtItem(top, path, k, p);
    Enter(top, path + [k], p, 0);
    NodeNameToken(s, BlockToks(top), Index(top, path + [k], p));
    NodeFacts(s, strtab, top, path + [k], p);
  }
}
