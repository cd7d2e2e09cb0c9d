/**
 * Updating local references in a blob (overlay_update_local_node_references): tree and fixups are
 * two parts of one blob, and the fixups stay as they are while the tree is written.
 */
module Fixups {
  import opened Bytes
  import opened Tokens
  import opened Trees
  import opened Views
  import opened Scan
  import opened Lookup
  import opened Splices
  import opened InPlace
  import opened Blob
  import opened Edits
  import opened PropEdits
  import opened NodeEdits
  import opened Cursors
  import opened Merges
  import opened Overlay
  import opened Phandles
  import opened References
  import opened Renumber

  // ------------------------------------------------------- two lists of one tree

  /** New contents for one list leave a list elsewhere in the tree alone. */
  lemma {:induction false} OtherList(top: seq<Item>, list: seq<nat>, items: seq<Item>, other: seq<nat>)
    requires ValidPath(top, list) && ValidPath(top, other) && !(list <= other) && !(other <= list)
    ensures ValidPath(SetSub(top, list, items), other) && Sub(SetSub(top, list, items), other) == Sub(top, other)
    decreases |list|
  {
    if list[0] == other[0] {
      OtherList(top[list[0]].items, list[1..], items, other[1..]);
    }
  }

  /** They leave a list below an item that stays alone, too. */
  lemma {:induction false} ListBelow(top: seq<Item>, list: seq<nat>, items: seq<Item>, other: seq<nat>)
    requires ValidPath(top, list) && ValidPath(top, other) && list < other
    ensures other[|list|] < |Sub(top, list)| && Sub(top, list)[other[|list|]].Node?
    ensures other[|list|] < |items| && items[other[|list|]] == Sub(top, list)[other[|list|]] ==>
      ValidPath(SetSub(top, list, items), other) && Sub(SetSub(top, list, items), other) == Sub(top, other)
    decreases |list|
  {
    if list == [] {
    } else {
      ListBelow(top[list[0]].items, list[1..], items, other[1..]);
    }
  }

  /** The contents of a list are changing, but not where another list is. */
  predicate Spared(top: seq<Item>, list: seq<nat>, items: seq<Item>, other: seq<nat>)
    requires ValidPath(top, list)
  {
    && !(other <= list) && |items| == |Sub(top, list)|
    && (list <= other ==> other[|list|] < |items| && items[other[|list|]] == Sub(top, list)[other[|list|]])
  }

  lemma SparedStart(top: seq<Item>, list: seq<nat>, other: seq<nat>)
    requires ValidPath(top, list) && ValidPath(top, other) && !(other <= list)
    ensures Spared(top, list, Sub(top, list), other)
  {
    if list <= other {
      ListBelow(top, list, Sub(top, list), other);
    }
  }

  lemma SparedKept(top: seq<Item>, list: seq<nat>, items: seq<Item>, other: seq<nat>)
    requires ValidPath(top, list) && ValidPath(top, other) && Spared(top, list, items, other)
    ensures ValidPath(SetSub(top, list, items), other) && Sub(SetSub(top, list, items), other) == Sub(top, other)
  {
    if list <= other {
      ListBelow(top, list, items, other);
    } else {
      OtherList(top, list, items, other);
    }
  }

  /** Writing property values spares every node of the list. */
  lemma SparedValues(top: seq<Item>, list: seq<nat>, items: seq<Item>, items': seq<Item>, other: seq<nat>)
    requires ValidPath(top, list) && ValidPath(top, other) && Spared(top, list, items, other)
    requires ValuesOnly(items, items')
    ensures Spared(top, list, items', other)
  {
    if list <= other {
      ListBelow(top, list, items, other);
    }
  }

  /** Writing below another item does, too. */
  lemma SparedKid(top: seq<Item>, list: seq<nat>, items: seq<Item>, m: nat, it: Item, other: seq<nat>)
    requires ValidPath(top, list) && Spared(top, list, items, other) && m < |items| && !(list + [m] <= other)
    ensures Spared(top, list, items[m := it], other)
  {
    NextStep(list, other);
  }

  /**
   * No child of the fixup list other leads into other itself: the fixups name nothing in themselves.
   */
  predicate Clear(top: seq<Item>, list: seq<nat>, other: seq<nat>)
    requires ValidPath(top, list) && ValidPath(top, other)
  {
    && !(other <= list)
    && forall p :: 0 <= p < |Sub(top, other)| && Sub(top, other)[p].Node? ==>
         var m := KidIndex(Sub(top, list), Sub(top, other)[p].name);
         m.Found? ==> !(list + [m.index] <= other)
  }

  /** Below a child that does not lead into the fixups, nothing does. */
  lemma ClearBelow(t: seq<Item>, list: seq<nat>, m: nat, other: seq<nat>, p: nat)
    requires ValidPath(t, list + [m]) && ValidPath(t, other + [p]) && !(other <= list) && !(list + [m] <= other)
    ensures Clear(t, list + [m], other + [p])
  {
    var a, b := list + [m], other + [p];
    Shorter(other, p, list, m);
    forall n: nat ensures a + [n] <= b ==> a <= other {
      Shorter(a, n, other, p);
    }
  }

  lemma Shorter(a: seq<nat>, x: nat, b: seq<nat>, y: nat)
    ensures a + [x] <= b + [y] ==> a <= b
  {
    if a + [x] <= b + [y] {
      assert a == (a + [x])[..|a|] == (b + [y])[..|a|] == b[..|a|];
    }
  }

  lemma NextStep(a: seq<nat>, b: seq<nat>)
    ensures a < b ==> a + [b[|a|]] <= b
  {
    if a < b {
      assert b[..|a| + 1] == b[..|a|] + [b[|a|]];
    }
  }

  /** While a node is written, another node is where it was, with what it had. */
  lemma Stays(top: seq<Item>, path: seq<nat>, k: nat, items: seq<Item>, fpath: seq<nat>, fk: nat)
    requires Inside(top, path, k) && Like(Sub(top, path + [k]), items)
    requires Inside(top, fpath, fk) && Spared(top, path + [k], items, fpath + [fk])
    ensures var t := SetSub(top, path + [k], items);
      && Inside(t, fpath, fk) && Sub(t, fpath + [fk]) == Sub(top, fpath + [fk])
      && OffsetOf(t, fpath, fk) == OffsetOf(top, fpath, fk)
      && forall p: nat :: p <= |Sub(top, fpath + [fk])| ==>
           OffsetOf(t, fpath + [fk], p) == OffsetOf(top, fpath + [fk], p)
  {
    hide Like, SetSub, Before, EncAll;
    var t := SetSub(top, path + [k], items);
    SparedKept(top, path + [k], items, fpath + [fk]);
    LikeSet(top, path + [k], items);
    LikePlaces(top, t, fpath, fk);
    LikeNode(Sub(top, fpath), Sub(t, fpath), fk);
    Enter(t, fpath, fk, 0);
    forall p: nat | p <= |Sub(top, fpath + [fk])|
      ensures OffsetOf(t, fpath + [fk], p) == OffsetOf(top, fpath + [fk], p)
    {
      LikePlaces(top, t, fpath + [fk], p);
    }
  }

  lemma LikeNode(a: seq<Item>, b: seq<Item>, k: nat)
    requires Like(a, b) && k < |a| && a[k].Node?
    ensures k < |b| && b[k].Node?
  {
    assert LikeItem(a[k], b[k]);
  }

  // --------------------------------------------------------------- one property

  /** The value of the node's property of a name, as far as the words of a list have been added. */
  ghost predicate Adding(items: seq<Item>, strtab: seq<byte>, name: seq<byte>, m: nat, val: seq<byte>, list: seq<byte>,
                         i: nat, delta: u32)
  {
    && |list| % 4 == 0 && 4 * i <= |list| && m < |items| && items[m].IProp?
    && PropIndex(items, strtab, name) == Found(m) && |items[m].val| == |val|
    && FixWords(val, list, 0, delta) == FixWords(items[m].val, list, i, delta)
  }

  lemma PatchIsAdd(props: seq<PropVal>, name: seq<byte>, x: nat, delta: u32)
    requires PropPos(props, name) < |props|
    ensures var val := props[PropPos(props, name)].val;
      PutProp(props, name, AddAt(val, x, delta))
      == if x + 4 <= |val| then Patch(props, name, x, Be32((Word(val, x) + delta) % U32)) else props
  {
  }

  /** Where the loop over the cells ends. */
  lemma ProgressStop(props: seq<PropVal>, kids: seq<Tree>, items0: seq<Item>, items: seq<Item>, strtab: seq<byte>,
                     name: seq<byte>, m: nat, list: seq<byte>, i: nat, delta: u32)
    requires Progress(props, kids, items0, items, strtab, name, m, list, i, delta)
    requires 4 * i < |list| ==> !SaysFits(|items[m].val|, 4, Entry(list, i))
    ensures FixProp(props, PropVal(name, list), delta)
         == (if 4 * i < |list| then -ERR_BADOVERLAY else 0, PropsOf(items, strtab))
  {
    hide PropsOf, KidsOf, PutProp, AddAt, PropIndex;
  }

  /** One cell of one property is shifted: the word is read before anything checks that it lies in the value. */
  method AddCell(f: Fdt, treeNode: nat, name: seq<byte>, prop: nat, len: nat, x: u32, delta: u32,
                 ghost top: seq<Item>, ghost path: seq<nat>, ghost k: nat, ghost m: nat)
    returns (ret: int, ghost items: seq<Item>)
    requires Means(f, top) && Inside(top, path, k) && treeNode == OffsetOf(top, path, k)
    requires PropIndex(Sub(top, path + [k]), f.Strings(), name) == Found(m) && prop == OffsetOf(top, path + [k], m)
    requires len == |Sub(top, path + [k])[m].val|
    modifies f.buf
    ensures f.Valid() && f.Around() == old(f.Around()) && ret == if SaysFits(len, 4, x) then 0 else -ERR_NOSPACE
    ensures ret != 0 ==> items == Sub(top, path + [k])
    ensures Means(f, SetSub(top, path + [k], items)) && ValuesOnly(Sub(top, path + [k]), items)
    ensures PropsOf(items, f.Strings())
         == PutProp(NodeView(top, path, k, f.Strings()).props, name, AddAt(Sub(top, path + [k])[m].val, x, delta))
    ensures KidsOf(items, f.Strings()) == NodeView(top, path, k, f.Strings()).kids
  {
    hide Names, Represents, SetSub, Sub, StructOf, StringsOf, IsNode, OffsetOf, PropIndex, PropsOf, KidsOf, PutProp,
      NodeView, ValidPath, PropPos, Word, Be32, ValuesOnly, Patch, AddAt;
    ghost var s, strtab, list := f.Struct(), f.Strings(), path + [k];
    NamesNode(s, strtab, top, path, k);
    ListFacts(s, strtab, top, list);
    NodeViewIs(top, path, k, strtab);
    FirstValue(Sub(top, list), strtab, name, m);
    var word: u32 := *;
    if x + 4 <= len {
      ValueRead(s, strtab, top, path, k, m, x);
      word := Word(f.Struct(), prop + 12 + x);
    }
    PatchIsAdd(NodeView(top, path, k, strtab).props, name, x, delta);
    var escapes;
    ret, escapes, items := SetPropInplacePartial(f, treeNode, name, x, Be32((word + delta) % U32), top, path, k,
                                                 Index(top, path, k));
    if ret != 0 {
      items := Sub(top, list);
      Untouched(f, top, path, k);
      Nothing(items);
    }
  }

  lemma PutTwice(props: seq<PropVal>, name: seq<byte>, v: seq<byte>, w: seq<byte>)
    requires PropPos(props, name) < |props|
    ensures PutProp(PutProp(props, name, v), name, w) == PutProp(props, name, w)
    ensures v == props[PropPos(props, name)].val ==> PutProp(props, name, v) == props
  {
    PutThere(props, name, v, name);
  }

  /** The cells of one value, as far as they have been shifted, in terms of the node. */
  ghost predicate Progress(props: seq<PropVal>, kids: seq<Tree>, items0: seq<Item>, items: seq<Item>, strtab: seq<byte>,
                           name: seq<byte>, m: nat, list: seq<byte>, i: nat, delta: u32)
  {
    && PropPos(props, name) < |props| && ValuesOnly(items0, items)
    && Adding(items, strtab, name, m, props[PropPos(props, name)].val, list, i, delta)
    && PropsOf(items, strtab) == PutProp(props, name, items[m].val) && KidsOf(items, strtab) == kids
  }

  lemma ProgressFacts(props: seq<PropVal>, kids: seq<Tree>, items0: seq<Item>, items: seq<Item>, strtab: seq<byte>,
                      name: seq<byte>, m: nat, list: seq<byte>, i: nat, delta: u32)
    requires Progress(props, kids, items0, items, strtab, name, m, list, i, delta)
    ensures PropPos(props, name) < |props| && ValuesOnly(items0, items) && KidsOf(items, strtab) == kids
    ensures PropIndex(items, strtab, name) == Found(m) && m < |items| && items[m].IProp?
    ensures |items[m].val| == |props[PropPos(props, name)].val|
  {
  }

  lemma ProgressStart(items: seq<Item>, strtab: seq<byte>, name: seq<byte>, m: nat, list: seq<byte>, delta: u32)
    requires Named(Toks(items), strtab) && Ordered(items) && PropIndex(items, strtab, name) == Found(m)
    requires |list| % 4 == 0
    ensures Progress(PropsOf(items, strtab), KidsOf(items, strtab), items, items, strtab, name, m, list, 0, delta)
  {
    hide Toks, Named, Ordered, PropsOf, KidsOf, PutProp, FixWords;
    FirstValue(items, strtab, name, m);
    PutTwice(PropsOf(items, strtab), name, items[m].val, items[m].val);
  }

  lemma ProgressStep(props: seq<PropVal>, kids: seq<Tree>, items0: seq<Item>, items: seq<Item>, items': seq<Item>,
                     strtab: seq<byte>, name: seq<byte>, m: nat, list: seq<byte>, i: nat, delta: u32)
    requires Progress(props, kids, items0, items, strtab, name, m, list, i, delta) && 4 * i < |list|
    requires SaysFits(|items[m].val|, 4, Entry(list, i)) && ValuesOnly(items, items')
    requires Named(Toks(items'), strtab) && Ordered(items')
    requires PropsOf(items', strtab)
      == PutProp(PropsOf(items, strtab), name, AddAt(items[m].val, Entry(list, i), delta))
    requires KidsOf(items', strtab) == KidsOf(items, strtab)
    ensures Progress(props, kids, items0, items', strtab, name, m, list, i + 1, delta)
  {
    hide Toks, Named, Ordered, PropsOf, KidsOf, PutProp, AddAt, PropIndex;
    var v := AddAt(items[m].val, Entry(list, i), delta);
    ValuesFind(items, items', strtab, name);
    FirstValue(items', strtab, name, m);
    PutThere(props, name, items[m].val, name);
    PutThere(PropsOf(items, strtab), name, v, name);
    PutTwice(props, name, items[m].val, v);
  }

  /** The same for a node that has been written before. */
  method AddNext(f: Fdt, treeNode: nat, name: seq<byte>, prop: nat, len: nat, x: u32, delta: u32,
                 ghost top: seq<Item>, ghost path: seq<nat>, ghost k: nat, ghost m: nat, ghost items: seq<Item>)
    returns (ret: int, ghost items': seq<Item>)
    requires Inside(top, path, k) && treeNode == OffsetOf(top, path, k) && Means(f, SetSub(top, path + [k], items))
    requires ValuesOnly(Sub(top, path + [k]), items) && PropIndex(items, f.Strings(), name) == Found(m)
    requires prop == OffsetOf(top, path + [k], m) && len == |items[m].val|
    modifies f.buf
    ensures f.Valid() && f.Around() == old(f.Around()) && ret == if SaysFits(len, 4, x) then 0 else -ERR_NOSPACE
    ensures ret != 0 ==> items' == items
    ensures Means(f, SetSub(top, path + [k], items')) && ValuesOnly(items, items')
    ensures PropsOf(items', f.Strings()) == PutProp(PropsOf(items, f.Strings()), name, AddAt(items[m].val, x, delta))
    ensures KidsOf(items', f.Strings()) == KidsOf(items, f.Strings())
  {
    hide Represents, SetSub, Sub, StructOf, StringsOf, OffsetOf, PropIndex, PropsOf, KidsOf, PutProp, NodeView,
      ValidPath, ValuesOnly, AddAt, Like;
    ghost var l, t := path + [k], SetSub(top, path + [k], items);
    ValuesLike(Sub(top, l), items);
    Steady(top, path, k, items);
    NodeViewIs(t, path, k, f.Strings());
    ret, items' := AddCell(f, treeNode, name, prop, len, x, delta, t, path, k, m);
    SetSubSet(top, l, items, items');
  }

  /** One of the first i entries leads out of a value of len bytes. */
  predicate StrayBefore(list: seq<byte>, i: nat, len: nat)
    requires 4 * i <= |list|
  {
    exists j :: 0 <= j < i && Entry(list, j) + 4 > len
  }

  lemma StrayMore(list: seq<byte>, i: nat, len: nat)
    requires 4 * i + 4 <= |list|
    ensures StrayBefore(list, i + 1, len) <==> StrayBefore(list, i, len) || Entry(list, i) + 4 > len
  {
    hide Word;
  }

  lemma NoStrays(list: seq<byte>, len: nat)
    ensures !StrayBefore(list, 0, len)
  {
  }

  /** The two refusals before the loop read nothing of a value. */
  lemma Refused(props: seq<PropVal>, name: seq<byte>, list: seq<byte>, delta: u32)
    ensures |list| % 4 != 0 || PropPos(props, name) == |props| ==>
      FixProp(props, PropVal(name, list), delta) == (-ERR_BADOVERLAY, props) && !Strays(props, PropVal(name, list))
  {
  }

  /** When the loop is over, or stopped at an entry that leads out of the value, all is known. */
  lemma StraysIs(props: seq<PropVal>, name: seq<byte>, list: seq<byte>, i: nat, len: nat)
    requires |list| % 4 == 0 && 4 * i <= |list| && PropPos(props, name) < |props|
    requires len == |props[PropPos(props, name)].val| && (4 * i < |list| ==> StrayBefore(list, i, len))
    ensures Strays(props, PropVal(name, list)) == StrayBefore(list, i, len)
  {
    hide Word, PropPos;
  }

  /**
   * One property of a fixup node: the cells that it lists are shifted in the tree's property of that name, unless one
   * strays.
   */
  method FixProperty(f: Fdt, treeNode: nat, name: seq<byte>, list: seq<byte>, delta: u32,
                     ghost top: seq<Item>, ghost path: seq<nat>, ghost k: nat)
    returns (ret: int, strays: bool, ghost items: seq<Item>)
    requires Means(f, top) && Inside(top, path, k) && treeNode == OffsetOf(top, path, k)
    modifies f.buf
    ensures f.Valid() && f.Around() == old(f.Around())
    ensures Means(f, SetSub(top, path + [k], items)) && ValuesOnly(Sub(top, path + [k]), items)
    ensures (ret, PropsOf(items, f.Strings()))
      == FixProp(NodeView(top, path, k, f.Strings()).props, PropVal(name, list), delta)
    ensures KidsOf(items, f.Strings()) == NodeView(top, path, k, f.Strings()).kids
    ensures strays == Strays(NodeView(top, path, k, f.Strings()).props, PropVal(name, list))
  {
    hide Names, Represents, SetSub, Sub, StructOf, StringsOf, IsNode, OffsetOf, PropIndex, PropsOf, KidsOf, PutProp,
      NodeView, ValidPath, PropPos, Word, AddAt, Like, FixWords, Progress, StrayBefore, FixProp, ValuesOnly, Strays;
    ghost var s, strtab, l, n := f.Struct(), f.Strings(), path + [k], NodeView(top, path, k, f.Strings());
    items, strays := Sub(top, l), false;
    Untouched(f, top, path, k);
    Nothing(items);
    ListFacts(s, strtab, top, l);
    NamesNode(s, strtab, top, path, k);
    Refused(n.props, name, list, delta);
    if |list| % 4 != 0 {
      return -ERR_BADOVERLAY, strays, items;
    }
    var prop, len;
    ghost var m;
    prop, len, m := FindProperty(f.Struct(), f.Strings(), treeNode, name, top, path, k, Index(top, path, k));
    if prop < 0 {
      NoValue(items, strtab, name);
      return -ERR_BADOVERLAY, strays, items;
    }
    ProgressStart(items, strtab, name, m, list, delta);
    FirstValue(items, strtab, name, m);
    NoStrays(list, len);
    var i := 0;
    while i < |list| / 4
      invariant f.Valid() && f.Around() == old(f.Around()) && i <= |list| / 4 && Means(f, SetSub(top, l, items))
      invariant Progress(n.props, n.kids, Sub(top, l), items, strtab, name, m, list, i, delta)
      invariant strays == StrayBefore(list, i, len)
    {
      ProgressFacts(n.props, n.kids, Sub(top, l), items, strtab, name, m, list, i, delta);
      var poffset: nat := Word(list, 4 * i);
      ghost var items1;
      ret, items1 := AddNext(f, treeNode, name, prop, len, poffset, delta, top, path, k, m, items);
      StrayMore(list, i, len);
      strays := strays || poffset + 4 > len;
      if ret == -ERR_NOSPACE {
        ProgressStop(n.props, n.kids, Sub(top, l), items, strtab, name, m, list, i, delta);
        StraysIs(n.props, name, list, i + 1, len);
        return -ERR_BADOVERLAY, strays, items;
      }
      SetSubGet(top, l, items1);
      ListFacts(f.Struct(), strtab, SetSub(top, l, items1), l);
      ProgressStep(n.props, n.kids, Sub(top, l), items, items1, strtab, name, m, list, i, delta);
      items, i := items1, i + 1;
    }
    ProgressFacts(n.props, n.kids, Sub(top, l), items, strtab, name, m, list, i, delta);
    ProgressStop(n.props, n.kids, Sub(top, l), items, strtab, name, m, list, i, delta);
    StraysIs(n.props, name, list, i, len);
    ret := 0;
  }

  // -------------------------------------------------------- the properties of a node

  lemma FixPropsOne(props: seq<PropVal>, f: PropVal, rest: seq<PropVal>, delta: u32)
    ensures FixProps(props, [f], delta) == FixProp(props, f, delta)
    ensures FixProp(props, f, delta).0 != 0 ==> FixProps(props, [f] + rest, delta) == FixProp(props, f, delta)
  {
    hide FixProp;
    var fs := [f] + rest;
    assert fs[0] == f && [f][1..] == [];
  }

  /** One more property of the fixup node. */
  lemma FixPropsNext(props: seq<PropVal>, o: seq<Item>, q: nat, p: nat, strtab: seq<byte>, cur: seq<PropVal>,
                     delta: u32)
    requires q <= |o| && FixProps(props, PropsOf(o[..q], strtab), delta) == (0, cur)
    requires p == NextProperty(o, q) < |o| && o[p].IProp?
    ensures var one := FixProp(cur, PropVal(Str(strtab, o[p].nameoff), o[p].val), delta);
      && (one.0 == 0 ==> FixProps(props, PropsOf(o[..p + 1], strtab), delta) == one)
      && (one.0 != 0 ==> FixProps(props, PropsOf(o, strtab), delta) == one)
  {
    hide PropsOf, FixProps, FixProp, Str;
    var a, v, rest := PropsOf(o[..q], strtab), PropVal(Str(strtab, o[p].nameoff), o[p].val),
      PropsOf(o[p + 1..], strtab);
    PropsUpTo(o, q, p, strtab);
    assert o == o[..p + 1] + o[p + 1..];
    PropsConcat(o[..p + 1], o[p + 1..], strtab);
    Assoc(a, [v], rest);
    FixPropsOne(cur, v, rest, delta);
    FixPropsSplit(props, a, [v], delta);
    FixPropsSplit(props, a, [v] + rest, delta);
  }

  /** The fixup property at hand is applied. */
  method FixNext(f: Fdt, treeNode: nat, property: nat, delta: u32, ghost top: seq<Item>, ghost path: seq<nat>,
                 ghost k: nat, ghost items: seq<Item>, ghost fpath: seq<nat>, ghost fk: nat, ghost p: nat)
    returns (ret: int, ghost items': seq<Item>)
    requires Inside(top, path, k) && treeNode == OffsetOf(top, path, k) && Means(f, SetSub(top, path + [k], items))
    requires ValuesOnly(Sub(top, path + [k]), items) && Inside(top, fpath, fk) && !(fpath + [fk] <= path + [k])
    requires p < |Sub(top, fpath + [fk])| && Sub(top, fpath + [fk])[p].IProp?
    requires property == OffsetOf(top, fpath + [fk], p)
    modifies f.buf
    ensures f.Valid() && f.Around() == old(f.Around())
    ensures Means(f, SetSub(top, path + [k], items')) && ValuesOnly(Sub(top, path + [k]), items')
    ensures var o := Sub(top, fpath + [fk])[p];
      (ret, PropsOf(items', f.Strings()))
      == FixProp(PropsOf(items, f.Strings()), PropVal(Str(f.Strings(), o.nameoff), o.val), delta)
    ensures KidsOf(items', f.Strings()) == KidsOf(items, f.Strings())
    ensures CheckOffset(f.Struct(), property, FDT_PROP) == OffsetOf(top, fpath + [fk], p + 1)
  {
    hide Represents, SetSub, Sub, StructOf, StringsOf, OffsetOf, PropsOf, KidsOf, NodeView, ValidPath, Like, FixProp,
      Word, Str, CheckOffset, ValuesOnly;
    ghost var strtab, l, t := f.Strings(), path + [k], SetSub(top, path + [k], items);
    StaysValues(top, path, k, items, fpath, fk);
    NodeViewIs(t, path, k, strtab);
    PropertyAt(f.Struct(), strtab, t, fpath, fk, p);
    var len := Word(f.Struct(), property + 4);
    var name := GetString(f.Strings(), Word(f.Struct(), property + 8)).value;
    var strays;
    ret, strays, items' := FixProperty(f, treeNode, name, f.Struct()[property + 12..property + 12 + len], delta, t,
                                       path, k);
    SetSubSet(top, l, items, items');
    ValuesBoth(Sub(top, l), items, items');
    StaysValues(top, path, k, items', fpath, fk);
    PropertyAt(f.Struct(), strtab, SetSub(top, l, items'), fpath, fk, p);
  }

  lemma ValuesBoth(a: seq<Item>, b: seq<Item>, c: seq<Item>)
    requires ValuesOnly(a, b) && ValuesOnly(b, c)
    ensures ValuesOnly(a, c)
  {
  }

  /** Steady and Stays, after values of the node's own properties have been written. */
  lemma StaysValues(top: seq<Item>, path: seq<nat>, k: nat, items: seq<Item>, fpath: seq<nat>, fk: nat)
    requires Inside(top, path, k) && ValuesOnly(Sub(top, path + [k]), items)
    requires Inside(top, fpath, fk) && !(fpath + [fk] <= path + [k])
    ensures var t := SetSub(top, path + [k], items);
      && Inside(t, path, k) && Sub(t, path + [k]) == items && OffsetOf(t, path, k) == OffsetOf(top, path, k)
      && Inside(t, fpath, fk) && Sub(t, fpath + [fk]) == Sub(top, fpath + [fk])
      && OffsetOf(t, fpath, fk) == OffsetOf(top, fpath, fk)
      && forall p: nat :: p <= |Sub(top, fpath + [fk])| ==>
           OffsetOf(t, fpath + [fk], p) == OffsetOf(top, fpath + [fk], p)
    ensures Like(Sub(top, path + [k]), items) && Spared(top, path + [k], items, fpath + [fk])
  {
    hide Like, SetSub, Sub, OffsetOf, ValuesOnly, Spared, ValidPath;
    ValuesLike(Sub(top, path + [k]), items);
    Steady(top, path, k, items);
    SparedStart(top, path + [k], fpath + [fk]);
    SparedValues(top, path + [k], Sub(top, path + [k]), items, fpath + [fk]);
    Stays(top, path, k, items, fpath, fk);
  }

  /** The first loop of overlay_update_local_node_references. */
  method FixNodeProps(f: Fdt, treeNode: nat, fixNode: nat, delta: u32, ghost top: seq<Item>, ghost path: seq<nat>,
                      ghost k: nat, ghost fpath: seq<nat>, ghost fk: nat)
    returns (ret: int, ghost items: seq<Item>)
    requires Means(f, top) && Inside(top, path, k) && treeNode == OffsetOf(top, path, k)
    requires Inside(top, fpath, fk) && fixNode == OffsetOf(top, fpath, fk) && !(fpath + [fk] <= path + [k])
    modifies f.buf
    ensures f.Valid() && f.Around() == old(f.Around())
    ensures Means(f, SetSub(top, path + [k], items)) && ValuesOnly(Sub(top, path + [k]), items)
    ensures (ret, PropsOf(items, f.Strings()))
         == FixProps(NodeView(top, path, k, f.Strings()).props, NodeView(top, fpath, fk, f.Strings()).props, delta)
    ensures KidsOf(items, f.Strings()) == NodeView(top, path, k, f.Strings()).kids
  {
    hide Represents, SetSub, Sub, StructOf, StringsOf, OffsetOf, PropsOf, KidsOf, NodeView, ValidPath, Like, FixProps,
      FixProp, Str, CheckOffset, ValuesOnly;
    ghost var strtab, l, fl, o, n := f.Strings(), path + [k], fpath + [fk], Sub(top, fpath + [fk]),
      NodeView(top, path, k, f.Strings());
    items := Sub(top, l);
    Untouched(f, top, path, k);
    Nothing(items);
    NodeViewIs(top, fpath, fk, strtab);
    ListFacts(f.Struct(), strtab, top, fl);
    StartFix(f.Struct(), strtab, top, fpath, fk, n.props, delta);
    ghost var q := 0;
    var property := CheckOffset(f.Struct(), fixNode, FDT_BEGIN_NODE);
    property := PropertyFrom(f.Struct(), property, strtab, top, fpath, fk, 0);
    while property >= 0
      invariant f.Valid() && f.Around() == old(f.Around()) && q <= |o|
      invariant Means(f, SetSub(top, l, items)) && ValuesOnly(Sub(top, l), items)
      invariant var p := NextProperty(o, q);
        property == if p < |o| && o[p].IProp? then OffsetOf(top, fl, p) else -ERR_NOTFOUND
      invariant FixProps(n.props, PropsOf(o[..q], strtab), delta) == (0, PropsOf(items, strtab))
      invariant KidsOf(items, strtab) == n.kids
      decreases |o| - q, property
    {
      ghost var p := NextProperty(o, q);
      FixPropsNext(n.props, o, q, p, strtab, PropsOf(items, strtab), delta);
      ret, items := FixNext(f, treeNode, property, delta, top, path, k, items, fpath, fk, p);
      if ret != 0 {
        return;
      }
      q := p + 1;
      StaysValues(top, path, k, items, fpath, fk);
      property := CheckOffset(f.Struct(), property, FDT_PROP);
      property := PropertyFrom(f.Struct(), property, strtab, SetSub(top, l, items), fpath, fk, q);
    }
    ret := 0;
    PropsUpTo(o, q, NextProperty(o, q), strtab);
    PropsDone(o, NextProperty(o, q), strtab);
  }

  lemma Nothing(items: seq<Item>)
    ensures ValuesOnly(items, items)
  {
  }

  lemma StartFix(s: seq<byte>, strtab: seq<byte>, top: seq<Item>, path: seq<nat>, k: nat, props: seq<PropVal>,
                 delta: u32)
    requires Represents(s, strtab, top) && Inside(top, path, k)
    ensures CheckOffset(s, OffsetOf(top, path, k), FDT_BEGIN_NODE) == OffsetOf(top, path + [k], 0)
    ensures FixProps(props, PropsOf(Sub(top, path + [k])[..0], strtab), delta) == (0, props)
  {
    hide Sub, OffsetOf, Represents, CheckOffset;
    StartProps(s, strtab, top, path, k, props);
    assert Sub(top, path + [k])[..0] == [];
  }

  // ----------------------------------------------------------------- the recursion

  lemma FixKidsOne(kids: seq<Tree>, f: Tree, rest: seq<Tree>, delta: u32)
    ensures FixKids(kids, [f], delta) == FixKid(kids, f, delta)
    ensures FixKid(kids, f, delta).0 != 0 ==> FixKids(kids, [f] + rest, delta) == FixKid(kids, f, delta)
  {
    hide FixKid;
    var fs := [f] + rest;
    assert fs[0] == f && [f][1..] == [];
  }

  /** One more child of the fixup node. */
  lemma FixKidsNext(kids: seq<Tree>, o: seq<Item>, q: nat, p: nat, strtab: seq<byte>, cur: seq<Tree>, delta: u32)
    requires q <= |o| && FixKids(kids, KidsOf(o[..q], strtab), delta) == (0, cur) && p == NextKid(o, q) < |o|
    ensures var one := FixKid(cur, View(o[p], strtab), delta);
      && (one.0 == 0 ==> FixKids(kids, KidsOf(o[..p + 1], strtab), delta) == one)
      && (one.0 != 0 ==> FixKids(kids, KidsOf(o, strtab), delta) == one)
  {
    hide KidsOf, FixKids, FixKid, View;
    var a, v, rest := KidsOf(o[..q], strtab), View(o[p], strtab), KidsOf(o[p + 1..], strtab);
    KidsUpTo(o, q, p, strtab);
    assert o == o[..p + 1] + o[p + 1..];
    KidsConcat(o[..p + 1], o[p + 1..], strtab);
    Assoc(a, [v], rest);
    FixKidsOne(cur, v, rest, delta);
    FixKidsSplit(kids, a, [v], delta);
    FixKidsSplit(kids, a, [v] + rest, delta);
  }

  /** A child that has been fixed, in the list of children. */
  lemma KidFixed(strtab: seq<byte>, items: seq<Item>, m: nat, sub: seq<Item>, f: Tree, ret: int, delta: u32)
    requires KidIndex(items, f.name) == Found(m) && Views.Named(Toks(items), strtab)
    requires (ret, Tree(items[m].name, PropsOf(sub, strtab), KidsOf(sub, strtab)))
      == Fix(View(items[m], strtab), f, delta)
    ensures (ret, KidsOf(items[m := items[m].(items := sub)], strtab)) == FixKid(KidsOf(items, strtab), f, delta)
  {
    hide Toks, PropsOf, KidsOf, Fix, View, KidIndex, KidPos;
    KidFound(items, f.name, strtab);
    KidChanged(items, m, sub, strtab, strtab);
  }

  lemma NoKidFixed(strtab: seq<byte>, items: seq<Item>, o: Item, delta: u32)
    requires o.Node? && !KidIndex(items, o.name).Found?
    ensures FixKid(KidsOf(items, strtab), View(o, strtab), delta) == (-ERR_BADOVERLAY, KidsOf(items, strtab))
  {
    hide KidsOf, Fix, KidIndex, KidPos;
    KidFound(items, o.name, strtab);
  }

  /** A node while its children are being fixed. */
  ghost predicate Fixing(f: Fdt, top: seq<Item>, path: seq<nat>, k: nat, items: seq<Item>, fpath: seq<nat>, fk: nat)
    reads f, f.buf
  {
    && Retouched(f, top, path, k, items) && Inside(top, fpath, fk)
    && Spared(top, path + [k], items, fpath + [fk]) && Clear(top, path + [k], fpath + [fk])
  }

  lemma ChildClear(top: seq<Item>, list: seq<nat>, items: seq<Item>, other: seq<nat>, p: nat, m: nat)
    requires ValidPath(top, list) && ValidPath(top, other) && Clear(top, list, other) && Like(Sub(top, list), items)
    requires p < |Sub(top, other)| && Sub(top, other)[p].Node? && KidIndex(items, Sub(top, other)[p].name) == Found(m)
    ensures !(list + [m] <= other) && !(other <= list)
  {
    hide Like, KidIndex;
    LikeKids(Sub(top, list), items, Sub(top, other)[p].name);
  }

  /** Both nodes of the next step, seen in the blob as it is now. */
  lemma NextPair(top: seq<Item>, path: seq<nat>, k: nat, items: seq<Item>, fpath: seq<nat>, fk: nat, p: nat, m: nat,
                 strtab: seq<byte>)
    requires Inside(top, path, k) && Like(Sub(top, path + [k]), items) && Inside(top, fpath, fk)
    requires Spared(top, path + [k], items, fpath + [fk]) && Clear(top, path + [k], fpath + [fk])
    requires p < |Sub(top, fpath + [fk])| && Sub(top, fpath + [fk])[p].Node?
    requires KidIndex(items, Sub(top, fpath + [fk])[p].name) == Found(m)
    ensures var t, l, fl := SetSub(top, path + [k], items), path + [k], fpath + [fk];
      && Inside(t, l, m) && Inside(t, fl, p) && Clear(t, l + [m], fl + [p])
      && Sub(t, l)[m] == items[m] && Sub(t, l + [m]) == items[m].items
      && Sub(t, fl)[p] == Sub(top, fl)[p] && Sub(t, fl + [p]) == Sub(top, fl)[p].items
      && NodeView(t, l, m, strtab) == View(items[m], strtab) && View(items[m], strtab).name == items[m].name
      && NodeView(t, fl, p, strtab) == View(Sub(top, fl)[p], strtab)
      && |Toks(Sub(t, fl + [p]))| < |Toks(Sub(top, fl))|
  {
    hide Like, SetSub, Sub, ValidPath, OffsetOf, Clear, Spared, KidIndex, Before;
    var t, l, fl := SetSub(top, path + [k], items), path + [k], fpath + [fk];
    Steady(top, path, k, items);
    Stays(top, path, k, items, fpath, fk);
    Enter(t, l, m, 0);
    Enter(t, fl, p, 0);
    ChildClear(top, l, items, fl, p, m);
    ClearBelow(t, l, m, fl, p);
    var o := Sub(top, fl);
    ToksUpdate(o, p, o[p]);
    assert o[p := o[p]] == o;
  }

  /** Looking for the child of the tree node that answers to the name of a fixup child. */
  lemma TreeChild(s: seq<byte>, strtab: seq<byte>, t: seq<Item>, path: seq<nat>, k: nat, name: seq<byte>)
    requires Represents(s, strtab, t) && Inside(t, path, k)
    ensures Block(s, BlockToks(t)) && Points(BlockToks(t), Index(t, path, k), OffsetOf(t, path, k))
    ensures BlockToks(t)[Index(t, path, k)].Begin?
    ensures var f, c := KidIndex(Sub(t, path + [k]), name), ChildFrom(BlockToks(t), Index(t, path, k) + 1, 0, name);
      && (c.Found? <==> f.Found?)
      && (f.Found? ==> Inside(t, path + [k], f.index) && Off(BlockToks(t), c.index) == OffsetOf(t, path + [k], f.index))
  {
    hide Sub, Before, EncAll, Toks, Off, OffsetOf, Index, BlockToks, KidIndex, ChildFrom, FirstAnswer;
    ChildHere(s, strtab, t, path, k, name);
    ChildOffset(t, path, k, name);
  }

  /** The list after one of its children has been fixed. */
  lemma ChildDone(strtab: seq<byte>, top: seq<Item>, path: seq<nat>, k: nat, items: seq<Item>, m: nat, sub: seq<Item>,
                  fpath: seq<nat>, fk: nat, p: nat, ret: int, delta: u32)
    requires Inside(top, path, k) && Like(Sub(top, path + [k]), items) && Inside(top, fpath, fk)
    requires Spared(top, path + [k], items, fpath + [fk]) && Clear(top, path + [k], fpath + [fk])
    requires p < |Sub(top, fpath + [fk])| && Sub(top, fpath + [fk])[p].Node?
    requires KidIndex(items, Sub(top, fpath + [fk])[p].name) == Found(m) && Views.Named(Toks(items), strtab)
    requires Inside(SetSub(top, path + [k], items), path + [k], m) && Like(items[m].items, sub)
    requires (ret, Tree(items[m].name, PropsOf(sub, strtab), KidsOf(sub, strtab)))
          == Fix(View(items[m], strtab), View(Sub(top, fpath + [fk])[p], strtab), delta)
    ensures var items', l := items[m := items[m].(items := sub)], path + [k];
      && SetSub(SetSub(top, l, items), l + [m], sub) == SetSub(top, l, items')
      && Like(Sub(top, l), items') && Spared(top, l, items', fpath + [fk])
      && PropsOf(items', strtab) == PropsOf(items, strtab)
      && (ret, KidsOf(items', strtab)) == FixKid(KidsOf(items, strtab), View(Sub(top, fpath + [fk])[p], strtab), delta)
  {
    hide SetSub, Sub, PropsOf, KidsOf, ValidPath, Like, Fix, FixKid, Toks, Clear, Spared, KidIndex;
    KidRetouched(strtab, top, path, k, items, m, sub);
    KidFixed(strtab, items, m, sub, View(Sub(top, fpath + [fk])[p], strtab), ret, delta);
    ChildClear(top, path + [k], items, fpath + [fk], p, m);
    SparedKid(top, path + [k], items, m, items[m].(items := sub), fpath + [fk]);
  }

  /** overlay_update_local_node_references: the tree node becomes the fixed one, as far as the answer allows. */
  method UpdateLocalNodeReferences(f: Fdt, treeNode: nat, fixupNode: nat, delta: u32, ghost top: seq<Item>,
                                   ghost path: seq<nat>, ghost k: nat, ghost fpath: seq<nat>, ghost fk: nat)
    returns (ret: int, ghost items: seq<Item>)
    requires Means(f, top) && Inside(top, path, k) && treeNode == OffsetOf(top, path, k)
    requires Inside(top, fpath, fk) && fixupNode == OffsetOf(top, fpath, fk) && Clear(top, path + [k], fpath + [fk])
    modifies f.buf
    ensures f.Valid() && f.Around() == old(f.Around()) && Fixing(f, top, path, k, items, fpath, fk)
    ensures var n := NodeView(top, path, k, f.Strings());
      (ret, Tree(n.name, PropsOf(items, f.Strings()), KidsOf(items, f.Strings())))
      == Fix(n, NodeView(top, fpath, fk, f.Strings()), delta)
    decreases |Toks(Sub(top, fpath + [fk]))|, 1
  {
    hide Represents, SetSub, Sub, StructOf, StringsOf, OffsetOf, PropsOf, KidsOf, NodeView, ValidPath, Like, FixProps,
      FixKids, ValuesOnly, Toks, View, Spared;
    ghost var strtab, l, fl, o := f.Strings(), path + [k], fpath + [fk], Sub(top, fpath + [fk]);
    ghost var n, g := NodeView(top, path, k, strtab), NodeView(top, fpath, fk, strtab);
    NodeViewIs(top, fpath, fk, strtab);
    ret, items := FixNodeProps(f, treeNode, fixupNode, delta, top, path, k, fpath, fk);
    StaysValues(top, path, k, items, fpath, fk);
    if ret != 0 {
      return;
    }
    ghost var q, props := 0, PropsOf(items, strtab);
    StartFixKids(n.kids, o, strtab, delta);
    var fixupChild := FirstSubnode(f.Struct(), fixupNode, strtab, SetSub(top, l, items), fpath, fk);
    while fixupChild >= 0
      invariant f.Valid() && f.Around() == old(f.Around()) && q <= |o|
      invariant Fixing(f, top, path, k, items, fpath, fk)
      invariant var p := NextKid(o, q);
        fixupChild == if p < |o| then OffsetOf(top, fl, p) else -ERR_NOTFOUND
      invariant FixKids(n.kids, KidsOf(o[..q], strtab), delta) == (0, KidsOf(items, strtab))
      invariant PropsOf(items, strtab) == props
      decreases |o| - q, fixupChild
    {
      ghost var p := NextKid(o, q);
      FixKidsNext(n.kids, o, q, p, strtab, KidsOf(items, strtab), delta);
      ret, items := UpdateChild(f, treeNode, fixupChild, delta, top, path, k, items, fpath, fk, p);
      if ret != 0 {
        return;
      }
      q := p + 1;
      Stays(top, path, k, items, fpath, fk);
      fixupChild := NextSubnode(f.Struct(), fixupChild, strtab, SetSub(top, l, items), fpath, fk, p);
    }
    ret := 0;
    KidsUpTo(o, q, NextKid(o, q), strtab);
  }

  lemma StartFixKids(kids: seq<Tree>, o: seq<Item>, strtab: seq<byte>, delta: u32)
    ensures FixKids(kids, KidsOf(o[..0], strtab), delta) == (0, kids)
  {
    assert o[..0] == [];
  }

  /**
   * The second loop's body: the child of the fixup node is applied to the child of the tree node that answers to its
   * name.
   */
  method UpdateChild(f: Fdt, treeNode: nat, fixupChild: nat, delta: u32,
                     ghost top: seq<Item>, ghost path: seq<nat>, ghost k: nat, ghost items: seq<Item>,
                     ghost fpath: seq<nat>, ghost fk: nat, ghost p: nat)
    returns (ret: int, ghost items': seq<Item>)
    requires Fixing(f, top, path, k, items, fpath, fk) && treeNode == OffsetOf(top, path, k)
    requires p < |Sub(top, fpath + [fk])| && Sub(top, fpath + [fk])[p].Node?
    requires fixupChild == OffsetOf(top, fpath + [fk], p)
    modifies f.buf
    ensures f.Valid() && f.Around() == old(f.Around()) && Fixing(f, top, path, k, items', fpath, fk)
    ensures (ret, KidsOf(items', f.Strings()))
         == FixKid(KidsOf(items, f.Strings()), View(Sub(top, fpath + [fk])[p], f.Strings()), delta)
    ensures PropsOf(items', f.Strings()) == PropsOf(items, f.Strings())
    decreases |Toks(Sub(top, fpath + [fk]))|, 0
  {
    hide Represents, SetSub, Sub, StructOf, StringsOf, OffsetOf, PropsOf, KidsOf, NodeView, ValidPath, Like, Fix,
      FixKid, Toks, View, Clear, Spared, KidIndex, BlockToks, Index;
    ghost var strtab, l, fl := f.Strings(), path + [k], fpath + [fk];
    items' := items;
    var treeChild;
    ghost var m, sub := 0, [];
    treeChild, m := FindTreeChild(f, treeNode, fixupChild, top, path, k, items, fpath, fk, p);
    if treeChild == -ERR_NOTFOUND {
      NoKidFixed(strtab, items, Sub(top, fl)[p], delta);
      return -ERR_BADOVERLAY, items';
    }
    NextPair(top, path, k, items, fpath, fk, p, m, strtab);
    ChildPlaces(f.Struct(), strtab, top, path, k, items, fpath, fk);
    ret, sub := UpdateLocalNodeReferences(f, treeChild, fixupChild, delta, SetSub(top, l, items), l, m, fl, p);
    items' := items[m := items[m].(items := sub)];
    ChildDone(strtab, top, path, k, items, m, sub, fpath, fk, p, ret, delta);
  }

  lemma ChildPlaces(s: seq<byte>, strtab: seq<byte>, top: seq<Item>, path: seq<nat>, k: nat, items: seq<Item>,
                    fpath: seq<nat>, fk: nat)
    requires Inside(top, path, k) && Like(Sub(top, path + [k]), items) && Inside(top, fpath, fk)
    requires Spared(top, path + [k], items, fpath + [fk]) && Represents(s, strtab, SetSub(top, path + [k], items))
    ensures var t, fl := SetSub(top, path + [k], items), fpath + [fk];
      && ValidPath(t, fl) && Sub(t, fl) == Sub(top, fl)
      && forall p: nat :: p <= |Sub(top, fl)| ==> OffsetOf(t, fl, p) == OffsetOf(top, fl, p)
    ensures Views.Named(Toks(items), strtab)
  {
    hide Like, SetSub, Sub, OffsetOf, Spared, Represents, ValidPath, Toks;
    Steady(top, path, k, items);
    Stays(top, path, k, items, fpath, fk);
    ListFacts(s, strtab, SetSub(top, path + [k], items), path + [k]);
  }

  /** fdt_subnode_offset with the name of the fixup child. */
  method FindTreeChild(f: Fdt, treeNode: nat, fixupChild: nat, ghost top: seq<Item>, ghost path: seq<nat>, ghost k: nat,
                       ghost items: seq<Item>, ghost fpath: seq<nat>, ghost fk: nat, ghost p: nat)
    returns (treeChild: int, ghost m: nat)
    requires Fixing(f, top, path, k, items, fpath, fk) && treeNode == OffsetOf(top, path, k)
    requires p < |Sub(top, fpath + [fk])| && Sub(top, fpath + [fk])[p].Node?
    requires fixupChild == OffsetOf(top, fpath + [fk], p)
    ensures treeChild < 0 ==> treeChild == -ERR_NOTFOUND && !KidIndex(items, Sub(top, fpath + [fk])[p].name).Found?
    ensures treeChild >= 0 ==>
      && KidIndex(items, Sub(top, fpath + [fk])[p].name) == Found(m)
      && Inside(SetSub(top, path + [k], items), path + [k], m)
      && treeChild == OffsetOf(SetSub(top, path + [k], items), path + [k], m)
  {
    hide Represents, SetSub, Sub, StructOf, StringsOf, OffsetOf, NodeView, ValidPath, Like, Toks, Clear, Spared,
      KidIndex, BlockToks, Index, Block, Points, Before, ChildFrom, Off, ChildAnswers;
    ghost var strtab, t := f.Strings(), SetSub(top, path + [k], items);
    Steady(top, path, k, items);
    Stays(top, path, k, items, fpath, fk);
    SubnodeName(f.Struct(), strtab, t, fpath, fk, p);
    var name := NodeName(f.Struct(), fixupChild);
    TreeChild(f.Struct(), strtab, t, path, k, name);
    treeChild := SubnodeOffset(f.Struct(), treeNode, name, BlockToks(t), Index(t, path, k));
    m := if KidIndex(items, name).Found? then KidIndex(items, name).index else 0;
  }
}
