/** Setting, appending to and deleting properties (fdt_rw.c), in terms of the tree. */
module PropEdits {
  import opened Bytes
  import opened Tokens
  import opened Trees
  import opened Views
  import opened Scan
  import opened Lookup
  import opened Splices
  import opened InPlace
  import opened Blob
  import opened Edits

  /** The blob now means the tree with items as the contents of one list, which has these properties and children. */
  ghost predicate Becomes(f: Fdt, top: seq<Item>, list: seq<nat>, items: seq<Item>,
                          props: seq<PropVal>, kids: seq<Tree>)
    reads f, f.buf
  {
    && ValidPath(top, list) && Means(f, SetSub(top, list, items))
    && PropsOf(items, f.Strings()) == props && KidsOf(items, f.Strings()) == kids
  }

  /** The tree of node k at path. */
  function NodeView(top: seq<Item>, path: seq<nat>, k: nat, strtab: seq<byte>): Tree
    requires NodeAt(top, path, k)
  {
    View(Sub(top, path)[k], strtab)
  }

  lemma NodeViewIs(top: seq<Item>, path: seq<nat>, k: nat, strtab: seq<byte>)
    requires Inside(top, path, k)
    ensures NodeView(top, path, k, strtab).props == PropsOf(Sub(top, path + [k]), strtab)
    ensures NodeView(top, path, k, strtab).kids == KidsOf(Sub(top, path + [k]), strtab)
  {
  }

  lemma ListFacts(s: seq<byte>, strtab: seq<byte>, top: seq<Item>, list: seq<nat>)
    requires Represents(s, strtab, top) && ValidPath(top, list)
    ensures Named(Toks(Sub(top, list)), strtab) && Ordered(Sub(top, list))
  {
    NamedSub(top, list, strtab);
    OrderedSub(top, list);
  }

  /** Replacing the first property of a name by one of the same name sets the value. */
  lemma PutFound(items: seq<Item>, strtab: seq<byte>, name: seq<byte>, m: nat, it: Item)
    requires Named(Toks(items), strtab) && Ordered(items) && PropIndex(items, strtab, name) == Found(m)
    requires it.IProp? && it.nameoff == items[m].nameoff
    ensures PropsOf(items[m := it], strtab) == PutProp(PropsOf(items, strtab), name, it.val)
    ensures KidsOf(items[m := it], strtab) == KidsOf(items, strtab)
  {
    hide Toks, Ordered, Named, PropsOf, KidsOf;
    PropFound(items, strtab, name);
    ReplaceView(items, m, it, strtab);
  }

  /** A new first property of a name that the node does not have sets the value too. */
  lemma PutNew(items: seq<Item>, strtab: seq<byte>, x: seq<byte>, name: seq<byte>, it: Item)
    requires Named(Toks(items), strtab) && Ordered(items) && PropIndex(items, strtab, name).Missing?
    requires it.IProp? && Str(strtab + x, it.nameoff) == name
    ensures PropsOf([it] + items, strtab + x) == PutProp(PropsOf(items, strtab), name, it.val)
    ensures KidsOf([it] + items, strtab + x) == KidsOf(items, strtab)
  {
    hide Toks, Ordered, Named, PropsOf, KidsOf, Str;
    PropFound(items, strtab, name);
    ViewExtend(items, strtab, x);
    OneItem(it, strtab + x);
    PropsConcat([it], items, strtab + x);
    KidsConcat([it], items, strtab + x);
    assert [] + KidsOf(items, strtab) == KidsOf(items, strtab);
  }

  /** WriteValue seen from the tree before the list got its present contents. */
  method StoreValue(f: Fdt, prop: nat, idx: nat, bytes: seq<byte>,
                    ghost top: seq<Item>, ghost list: seq<nat>, ghost items: seq<Item>, ghost m: nat)
    requires ValidPath(top, list) && Means(f, SetSub(top, list, items))
    requires m < |items| && m <= |Sub(top, list)| && items[..m] == Sub(top, list)[..m] && items[m].IProp?
    requires prop == OffsetOf(top, list, m) && idx + |bytes| <= |items[m].val|
    modifies f.buf
    ensures f.Valid() && f.Around() == old(f.Around())
    ensures Means(f, SetSub(top, list, items[m := WithValue(items[m], idx, bytes)]))
  {
    hide Represents, SetSub, Sub, ValidPath, WithValue, StructOf, StringsOf, Before;
    ghost var top1 := SetSub(top, list, items);
    BeforeSet(top, list, items, m);
    SetSubSet(top, list, items, items[m := WithValue(items[m], idx, bytes)]);
    WriteValue(f, prop, idx, bytes, top1, list, m);
  }

  /** The bytes that giving a property a value of len bytes adds to the blob. */
  ghost function SetCost(props: seq<PropVal>, name: seq<byte>, len: nat, strtab: seq<byte>): int {
    var p := PropPos(props, name);
    if p < |props| then Align4(len) - Align4(|props[p].val|) else 12 + Align4(len) + NameCost(strtab, name)
  }

  /** fdt_setprop */
  method SetProp(f: Fdt, node: int, name: seq<byte>, val: seq<byte>,
                 ghost top: seq<Item>, ghost path: seq<nat>, ghost k: nat, ghost i: int)
    returns (err: int, ghost items: seq<Item>)
    requires Means(f, top) && Names(top, path, k, i, node) && 0 !in name
    modifies f, f.buf
    ensures f.Valid() && f.Front() == old(f.Front()) && old(f.Strings()) <= f.Strings()
    ensures !IsNode(top, i) ==> err == -ERR_BADOFFSET
    ensures err != 0 ==> f.All() == old(f.All())
    ensures IsNode(top, i) ==> NodeAt(top, path, k)
    ensures IsNode(top, i) ==>
      var n := NodeView(top, path, k, old(f.Strings()));
      var size := old(f.DataSize()) + SetCost(n.props, name, |val|, old(f.Strings()));
      err == (if size > f.h.totalsize then -ERR_NOSPACE else 0) && (err == 0 ==> f.DataSize() == size)
    ensures err == 0 ==>
      IsNode(top, i) &&
      var n := NodeView(top, path, k, old(f.Strings()));
      Becomes(f, top, path + [k], items, PutProp(n.props, name, val), n.kids)
  {
    hide Names, Represents, SetSub, Sub, StructOf, StringsOf, IsNode, Align4, OffsetOf, PropIndex, PropsOf, KidsOf,
      PutProp, Str, NodeView, ValidPath;
    ghost var strtab, list, m, found := f.Strings(), path + [k], 0, false;
    ghost var s := f.Struct();
    var prop;
    ghost var it;
    items := [];
    if IsNode(top, i) {
      FoundInView(s, strtab, top, path, k, i, node, name);
    }
    err, prop, m, it := ResizeProperty(f, node, name, |val|, top, path, k, i);
    if err == 0 {
      found := true;
      items := Sub(top, list)[m := it];
    } else if err == -ERR_NOTFOUND {
      err, prop, it := AddProperty(f, node, name, |val|, top, path, k, i);
      if err == 0 {
        m := 0;
        items := [it] + Sub(top, list);
      }
    }
    if err != 0 {
      return;
    }
    StoreValue(f, prop, 0, val, top, list, items, m);
    ghost var stored := items[m := WithValue(items[m], 0, val)];
    it := WithValue(it, 0, val);
    assert it.val == val;
    ListFacts(s, strtab, top, list);
    NodeViewIs(top, path, k, strtab);
    if found {
      items := Sub(top, list)[m := it];
      assert stored == items;
      PutFound(Sub(top, list), strtab, name, m, it);
    } else {
      items := [it] + Sub(top, list);
      assert stored == items;
      ghost var x := f.Strings()[|strtab|..];
      assert f.Strings() == strtab + x;
      PutNew(Sub(top, list), strtab, x, name, it);
    }
  }

  /** The search for a property in a node and in the node's view. */
  lemma FoundInView(s: seq<byte>, strtab: seq<byte>, top: seq<Item>, path: seq<nat>, k: nat, i: int, off: int,
                    name: seq<byte>)
    requires Represents(s, strtab, top) && Names(top, path, k, i, off) && IsNode(top, i)
    ensures Inside(top, path, k)
    ensures var n, f := NodeView(top, path, k, strtab), PropIndex(Sub(top, path + [k]), strtab, name);
      && (f.Found? <==> PropPos(n.props, name) < |n.props|)
      && (f.Found? ==> n.props[PropPos(n.props, name)].val == Sub(top, path + [k])[f.index].val)
  {
    hide Represents, Sub, PropIndex, PropsOf, KidsOf, NodeView, PropPos;
    NodeInside(top, path, k, i, off);
    ListFacts(s, strtab, top, path + [k]);
    NodeViewIs(top, path, k, strtab);
    var f := PropIndex(Sub(top, path + [k]), strtab, name);
    if f.Found? {
      FirstValue(Sub(top, path + [k]), strtab, name, f.index);
    } else {
      NoValue(Sub(top, path + [k]), strtab, name);
    }
  }

  /** The list with bytes added to its first property of that name, or with a new one in front. */
  function AppendTo(props: seq<PropVal>, name: seq<byte>, val: seq<byte>): seq<PropVal> {
    var p := PropPos(props, name);
    PutProp(props, name, (if p < |props| then props[p].val else []) + val)
  }

  /** The first property item of a name, in the view. */
  lemma FirstValue(items: seq<Item>, strtab: seq<byte>, name: seq<byte>, m: nat)
    requires Named(Toks(items), strtab) && Ordered(items) && PropIndex(items, strtab, name) == Found(m)
    ensures var props := PropsOf(items, strtab);
      PropPos(props, name) < |props| && props[PropPos(props, name)].val == items[m].val
  {
    hide Toks, Ordered, Named, PropsOf, KidsOf;
    PropFound(items, strtab, name);
    SplitView(items, m, strtab);
  }

  lemma NoValue(items: seq<Item>, strtab: seq<byte>, name: seq<byte>)
    requires Named(Toks(items), strtab) && Ordered(items) && PropIndex(items, strtab, name).Missing?
    ensures PropPos(PropsOf(items, strtab), name) == |PropsOf(items, strtab)|
  {
    hide Toks, Ordered, Named, PropsOf, KidsOf;
    PropFound(items, strtab, name);
  }

  /** fdt_appendprop */
  method AppendProp(f: Fdt, node: int, name: seq<byte>, val: seq<byte>,
                    ghost top: seq<Item>, ghost path: seq<nat>, ghost k: nat, ghost i: int)
    returns (err: int, ghost items: seq<Item>)
    requires Means(f, top) && Names(top, path, k, i, node) && 0 !in name
    modifies f, f.buf
    ensures f.Valid() && f.Front() == old(f.Front()) && old(f.Strings()) <= f.Strings()
    ensures !IsNode(top, i) ==> err == -ERR_BADOFFSET
    ensures err != 0 ==> f.All() == old(f.All())
    ensures IsNode(top, i) ==> NodeAt(top, path, k)
    ensures IsNode(top, i) ==>
      var n := NodeView(top, path, k, old(f.Strings()));
      var p := PropPos(n.props, name);
      var len := if p < |n.props| then |n.props[p].val| + |val| else |val|;
      var size := old(f.DataSize()) + SetCost(n.props, name, len, old(f.Strings()));
      err == (if size > f.h.totalsize then -ERR_NOSPACE else 0) && (err == 0 ==> f.DataSize() == size)
    ensures err == 0 ==>
      IsNode(top, i) &&
      var n := NodeView(top, path, k, old(f.Strings()));
      Becomes(f, top, path + [k], items, AppendTo(n.props, name, val), n.kids)
  {
    hide Names, Represents, SetSub, Sub, StructOf, StringsOf, IsNode, Align4, OffsetOf, PropIndex, PropsOf, KidsOf,
      PutProp, Str, NodeView, ValidPath, PropPos;
    ghost var s, strtab, list, m := f.Struct(), f.Strings(), path + [k], 0;
    ghost var it;
    items := [];
    var prop, oldlen;
    if IsNode(top, i) {
      FoundInView(s, strtab, top, path, k, i, node, name);
    }
    prop, oldlen, m := FindProperty(f.Struct(), f.Strings(), node, name, top, path, k, i);
    if prop >= 0 {
      ghost var v := Sub(top, list)[m].val;
      err, it := ResizeAt(f, prop, oldlen, |val| + oldlen, top, list, m);
      if err != 0 {
        return;
      }
      items := Sub(top, list)[m := it];
      StoreValue(f, prop, oldlen, val, top, list, items, m);
      ghost var stored := items[m := WithValue(items[m], oldlen, val)];
      it := WithValue(it, oldlen, val);
      items := Sub(top, list)[m := it];
      assert stored == items && it.val == v + val;
      ListFacts(s, strtab, top, list);
      FirstValue(Sub(top, list), strtab, name, m);
      PutFound(Sub(top, list), strtab, name, m, it);
    } else {
      err, prop, it := AddProperty(f, node, name, |val|, top, path, k, i);
      if err != 0 {
        return;
      }
      items := [it] + Sub(top, list);
      StoreValue(f, prop, 0, val, top, list, items, 0);
      ghost var stored := items[0 := WithValue(items[0], 0, val)];
      it := WithValue(it, 0, val);
      items := [it] + Sub(top, list);
      assert stored == items && it.val == [] + val;
      ListFacts(s, strtab, top, list);
      ghost var x := f.Strings()[|strtab|..];
      assert f.Strings() == strtab + x;
      NoValue(Sub(top, list), strtab, name);
      PutNew(Sub(top, list), strtab, x, name, it);
    }
    NodeViewIs(top, path, k, strtab);
  }

  /** Cutting out or blanking the first property item of a name drops the property from the view. */
  lemma DropFound(items: seq<Item>, strtab: seq<byte>, name: seq<byte>, m: nat, n: nat)
    requires Named(Toks(items), strtab) && Ordered(items) && PropIndex(items, strtab, name) == Found(m)
    ensures PropsOf(items[..m] + Nops(n) + items[m + 1..], strtab) == DropProp(PropsOf(items, strtab), name)
    ensures KidsOf(items[..m] + Nops(n) + items[m + 1..], strtab) == KidsOf(items, strtab)
  {
    hide Toks, Ordered, Named, PropsOf, KidsOf, Nops;
    PropFound(items, strtab, name);
    SplitView(items, m, strtab);
    BlankView(items, m, n, strtab);
  }

  lemma {:induction false} NopsView(n: nat, strtab: seq<byte>)
    ensures PropsOf(Nops(n), strtab) == [] && KidsOf(Nops(n), strtab) == []
  {
    if n == 0 {
    } else {
      assert Nops(n)[1..] == Nops(n - 1);
      NopsView(n - 1, strtab);
    }
  }

  lemma BlankView(items: seq<Item>, m: nat, n: nat, strtab: seq<byte>)
    requires m < |items|
    ensures var r := items[..m] + Nops(n) + items[m + 1..];
      && PropsOf(r, strtab) == PropsOf(items[..m], strtab) + PropsOf(items[m + 1..], strtab)
      && KidsOf(r, strtab) == KidsOf(items[..m], strtab) + KidsOf(items[m + 1..], strtab)
  {
    hide PropsOf, KidsOf, Nops;
    NopsView(n, strtab);
    PropsConcat(items[..m] + Nops(n), items[m + 1..], strtab);
    PropsConcat(items[..m], Nops(n), strtab);
    KidsConcat(items[..m] + Nops(n), items[m + 1..], strtab);
    KidsConcat(items[..m], Nops(n), strtab);
  }

  /** fdt_delprop */
  method DelProp(f: Fdt, node: int, name: seq<byte>,
                 ghost top: seq<Item>, ghost path: seq<nat>, ghost k: nat, ghost i: int)
    returns (err: int, ghost items: seq<Item>)
    requires Means(f, top) && Names(top, path, k, i, node)
    modifies f, f.buf
    ensures f.Valid() && f.Around() == old(f.Around())
    ensures !IsNode(top, i) ==> err == -ERR_BADOFFSET
    ensures IsNode(top, i) ==> NodeAt(top, path, k)
    ensures IsNode(top, i) ==>
      var n := NodeView(top, path, k, f.Strings());
      if PropPos(n.props, name) == |n.props| then err == -ERR_NOTFOUND
      else
        && err == 0 && Becomes(f, top, path + [k], items, DropProp(n.props, name), n.kids)
        && f.DataSize() == old(f.DataSize()) - 12 - Align4(|n.props[PropPos(n.props, name)].val|)
    ensures err != 0 ==> f.All() == old(f.All())
  {
    hide Names, Represents, SetSub, Sub, StructOf, StringsOf, IsNode, Align4, OffsetOf, PropIndex, PropsOf, KidsOf,
      DropProp, NodeView, ValidPath, PropPos, Extent;
    ghost var s, strtab, list, m := f.Struct(), f.Strings(), path + [k], 0;
    items := [];
    var prop, len;
    prop, len, m := FindProperty(f.Struct(), f.Strings(), node, name, top, path, k, i);
    if IsNode(top, i) {
      ListFacts(s, strtab, top, list);
      NodeViewIs(top, path, k, strtab);
    }
    if prop < 0 {
      if IsNode(top, i) {
        NoValue(Sub(top, list), strtab, name);
      }
      return prop, items;
    }
    PropExtent(s, strtab, top, list, m);
    err := RemoveItem(f, prop, 12 + Align4(len), top, list, m);
    items := Sub(top, list)[..m] + Sub(top, list)[m + 1..];
    FirstValue(Sub(top, list), strtab, name, m);
    DropFound(Sub(top, list), strtab, name, m, 0);
    assert Sub(top, list)[..m] + Nops(0) == Sub(top, list)[..m];
  }

  /** fdt_nop_property: the tree loses the property, and no byte outside the property changes. */
  method NopProperty(f: Fdt, node: int, name: seq<byte>,
                     ghost top: seq<Item>, ghost path: seq<nat>, ghost k: nat, ghost i: int)
    returns (err: int, ghost items: seq<Item>, ghost off: nat, ghost len: nat)
    requires Means(f, top) && Names(top, path, k, i, node)
    modifies f.buf
    ensures f.Valid() && f.Around() == old(f.Around())
    ensures !IsNode(top, i) ==> err == -ERR_BADOFFSET
    ensures IsNode(top, i) ==> NodeAt(top, path, k)
    ensures IsNode(top, i) ==>
      var n := NodeView(top, path, k, f.Strings());
      if PropPos(n.props, name) == |n.props| then err == -ERR_NOTFOUND
      else err == 0 && Becomes(f, top, path + [k], items, DropProp(n.props, name), n.kids)
    ensures err != 0 ==> f.All() == old(f.All())
    ensures err == 0 ==>
      && off + len <= |f.Struct()| && f.Struct()[..off] == old(f.Struct())[..off]
      && f.Struct()[off + len..] == old(f.Struct())[off + len..]
      && Inside(top, path, k)
      && PropIndex(Sub(top, path + [k]), f.Strings(), name).Found?
      && off == OffsetOf(top, path + [k], PropIndex(Sub(top, path + [k]), f.Strings(), name).index)
      && len == Extent(top, path + [k], PropIndex(Sub(top, path + [k]), f.Strings(), name).index)
  {
    hide Names, Represents, SetSub, Sub, StructOf, StringsOf, IsNode, OffsetOf, PropIndex, PropsOf, KidsOf, DropProp,
      NodeView, ValidPath, PropPos, Extent;
    ghost var s, strtab, list, m := f.Struct(), f.Strings(), path + [k], 0;
    items, off, len := [], 0, 0;
    var prop, vlen;
    prop, vlen, m := FindProperty(f.Struct(), f.Strings(), node, name, top, path, k, i);
    if IsNode(top, i) {
      ListFacts(s, strtab, top, list);
      NodeViewIs(top, path, k, strtab);
    }
    if prop < 0 {
      if IsNode(top, i) {
        NoValue(Sub(top, list), strtab, name);
      }
      return prop, items, off, len;
    }
    PropExtent(s, strtab, top, list, m);
    Align4Add(12, vlen);
    NopItem(f, prop, vlen + 12, top, list, m);
    err, off, len := 0, prop, Align4(vlen + 12);
    ghost var n := len / 4;
    items := Sub(top, list)[..m] + Nops(n) + Sub(top, list)[m + 1..];
    FirstValue(Sub(top, list), strtab, name, m);
    DropFound(Sub(top, list), strtab, name, m, n);
  }

  /** The list with part of the value of its first property of that name overwritten. */
  function Patch(props: seq<PropVal>, name: seq<byte>, idx: nat, val: seq<byte>): seq<PropVal>
    requires var p := PropPos(props, name); p < |props| && idx + |val| <= |props[p].val|
  {
    var old_val := props[PropPos(props, name)].val;
    PutProp(props, name, old_val[..idx] + val + old_val[idx + |val|..])
  }

  /** The check of fdt_setprop_inplace_namelen_partial in 32-bit arithmetic: do len bytes at idx lie in a value? */
  predicate SaysFits(proplen: nat, len: nat, idx: u32) {
    (len + idx) % U32 <= proplen
  }

  /** The check answers correctly exactly when the sum does not wrap, or wraps to more than the value holds. */
  lemma FitsExact(proplen: nat, len: nat, idx: u32)
    requires proplen <= INT_MAX && len <= INT_MAX
    ensures (SaysFits(proplen, len, idx) <==> idx + len <= proplen) <==> idx + len < U32 || proplen < idx + len - U32
  {
    if idx + len >= U32 {
      assert (len + idx) % U32 == idx + len - U32;
    }
  }

  /**
   * fdt_setprop_inplace_namelen_partial.  When the check is wrong the copy escapes: it goes to an
   * address behind every blob, and the tree stays as it was.
   */
  method SetPropInplacePartial(f: Fdt, node: int, name: seq<byte>, idx: u32, val: seq<byte>,
                               ghost top: seq<Item>, ghost path: seq<nat>, ghost k: nat, ghost i: int)
    returns (err: int, escapes: bool, ghost items: seq<Item>)
    requires Means(f, top) && Names(top, path, k, i, node) && |val| <= INT_MAX
    modifies f.buf
    ensures f.Valid() && f.Around() == old(f.Around())
    ensures !IsNode(top, i) ==> err == -ERR_BADOFFSET
    ensures IsNode(top, i) ==> NodeAt(top, path, k)
    ensures IsNode(top, i) ==>
      var n := NodeView(top, path, k, f.Strings());
      var p := PropPos(n.props, name);
      if p == |n.props| then err == -ERR_NOTFOUND
      else if !SaysFits(|n.props[p].val|, |val|, idx) then err == -ERR_NOSPACE
      else
        && err == 0 && escapes == (idx + |val| > |n.props[p].val|)
        && Becomes(f, top, path + [k], items, if escapes then n.props else Patch(n.props, name, idx, val), n.kids)
    ensures err != 0 ==> !escapes && f.All() == old(f.All())
    ensures escapes ==> idx > INT_MAX && f.All() == old(f.All())
    ensures err == 0 ==> Inside(top, path, k) && ValuesOnly(Sub(top, path + [k]), items)
  {
    hide Names, Represents, SetSub, Sub, StructOf, StringsOf, IsNode, Align4, OffsetOf, PropIndex, PropsOf, KidsOf,
      PutProp, NodeView, ValidPath, PropPos;
    ghost var s, strtab, list, m := f.Struct(), f.Strings(), path + [k], 0;
    items, escapes := [], false;
    var prop, len;
    prop, len, m := FindProperty(f.Struct(), f.Strings(), node, name, top, path, k, i);
    if IsNode(top, i) {
      ListFacts(s, strtab, top, list);
      NodeViewIs(top, path, k, strtab);
    }
    if prop < 0 {
      if IsNode(top, i) {
        NoValue(Sub(top, list), strtab, name);
      }
      return prop, escapes, items;
    }
    FirstValue(Sub(top, list), strtab, name, m);
    if len < (|val| + idx) % U32 {
      return -ERR_NOSPACE, escapes, items;
    }
    if idx + |val| > len {
      SetSubGet(top, list, Sub(top, list));
      return 0, true, Sub(top, list);
    }
    WriteValue(f, prop, idx, val, top, list, m);
    err := 0;
    items := Sub(top, list)[m := WithValue(Sub(top, list)[m], idx, val)];
    PutFound(Sub(top, list), strtab, name, m, WithValue(Sub(top, list)[m], idx, val));
    OneValue(Sub(top, list), m, idx, val);
  }

  lemma OneValue(items: seq<Item>, m: nat, idx: nat, bytes: seq<byte>)
    requires m < |items| && items[m].IProp? && idx + |bytes| <= |items[m].val|
    ensures ValuesOnly(items, items[m := WithValue(items[m], idx, bytes)])
  {
  }

  /** fdt_setprop_inplace */
  method SetPropInplace(f: Fdt, node: int, name: seq<byte>, val: seq<byte>,
                        ghost top: seq<Item>, ghost path: seq<nat>, ghost k: nat, ghost i: int)
    returns (err: int, ghost items: seq<Item>)
    requires Means(f, top) && Names(top, path, k, i, node) && |val| <= INT_MAX
    modifies f.buf
    ensures f.Valid() && f.Around() == old(f.Around())
    ensures !IsNode(top, i) ==> err == -ERR_BADOFFSET
    ensures IsNode(top, i) ==> NodeAt(top, path, k)
    ensures IsNode(top, i) ==>
      var n := NodeView(top, path, k, f.Strings());
      var p := PropPos(n.props, name);
      if p == |n.props| then err == -ERR_NOTFOUND
      else if |n.props[p].val| != |val| then err == -ERR_NOSPACE
      else err == 0 && Becomes(f, top, path + [k], items, PutProp(n.props, name, val), n.kids)
    ensures err != 0 ==> f.All() == old(f.All())
    ensures err == 0 ==> Inside(top, path, k) && Like(Sub(top, path + [k]), items)
  {
    hide Names, Represents, SetSub, Sub, StructOf, StringsOf, IsNode, Align4, OffsetOf, PropIndex, PropsOf, KidsOf,
      PutProp, NodeView, ValidPath, PropPos, Like;
    ghost var s, strtab, list, m := f.Struct(), f.Strings(), path + [k], 0;
    items := [];
    var prop, len;
    prop, len, m := FindProperty(f.Struct(), f.Strings(), node, name, top, path, k, i);
    if IsNode(top, i) {
      ListFacts(s, strtab, top, list);
      NodeViewIs(top, path, k, strtab);
    }
    if prop < 0 {
      if IsNode(top, i) {
        NoValue(Sub(top, list), strtab, name);
      }
      return prop, items;
    }
    FirstValue(Sub(top, list), strtab, name, m);
    if len != |val| {
      return -ERR_NOSPACE, items;
    }
    PatchAll(NodeView(top, path, k, strtab).props, name, val);
    var escapes;
    err, escapes, items := SetPropInplacePartial(f, node, name, 0, val, top, path, k, i);
    ValuesLike(Sub(top, list), items);
  }

  lemma PatchAll(props: seq<PropVal>, name: seq<byte>, val: seq<byte>)
    requires var p := PropPos(props, name); p < |props| && |props[p].val| == |val|
    ensures Patch(props, name, 0, val) == PutProp(props, name, val)
  {
    var old_val := props[PropPos(props, name)].val;
    assert old_val[..0] + val + old_val[0 + |val|..] == val;
  }
}
