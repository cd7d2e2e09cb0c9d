/** The in-place edits of a blob, each shown to be an edit of the tree that the blob means. */
module Edits {
  import opened Bytes
  import opened Tokens
  import opened Trees
  import opened Views
  import opened Walks
  import opened Scan
  import opened Lookup
  import opened Splices
  import opened Blob

  /** The blob is well formed and means the tree top. */
  ghost predicate Means(f: Fdt, top: seq<Item>)
    reads f, f.buf
  {
    f.Valid() && Represents(f.Struct(), f.Strings(), top)
  }

  /** An offset argument: either a token that is no BEGIN_NODE, or node k of the list at path, or negative. */
  ghost predicate Names(top: seq<Item>, path: seq<nat>, k: nat, i: int, off: int) {
    && Points(BlockToks(top), i, off)
    && (IsNode(top, i) ==> NodeAt(top, path, k) && i == Index(top, path, k))
  }

  predicate IsNode(top: seq<Item>, i: int) {
    0 <= i < |BlockToks(top)| && BlockToks(top)[i].Begin?
  }

  /** Everything the property search needs to know about the node at token i. */
  lemma NodeInBlock(top: seq<Item>, path: seq<nat>, k: nat)
    requires NodeAt(top, path, k)
    ensures NodeTokensAt(BlockToks(top), Index(top, path, k), Sub(top, path)[k])
  {
    hide Sub, Before, Toks, ItemToks, BlockToks, Index;
    Located(top, path, k);
    NodeTokens(BlockToks(top), Index(top, path, k), Sub(top, path)[k]);
  }

  predicate NodeTokensAt(ts: seq<Token>, i: nat, n: Item)
    requires n.Node?
  {
    var e := i + 1 + |Toks(n.items)|;
    e < |ts| && ts[i] == Begin(n.name, n.pad) && ts[e] == EndNode && HasAt(ts, i + 1, Toks(n.items))
  }

  /** The items of node k at path are the list at path + [k]. */
  predicate Inside(top: seq<Item>, path: seq<nat>, k: nat) {
    NodeAt(top, path, k) && ValidPath(top, path + [k]) && Sub(top, path + [k]) == Sub(top, path)[k].items
  }

  lemma NodeInside(top: seq<Item>, path: seq<nat>, k: nat, i: int, off: int)
    requires Names(top, path, k, i, off) && IsNode(top, i)
    ensures Inside(top, path, k)
  {
    hide Sub, Before, Toks;
    Enter(top, path, k, 0);
  }

  /** The property search finds the tree's first property of that name, at its offset. */
  lemma PropOffset(top: seq<Item>, path: seq<nat>, k: nat, strtab: seq<byte>, name: seq<byte>)
    requires NodeAt(top, path, k)
    ensures ValidPath(top, path + [k]) && Sub(top, path + [k]) == Sub(top, path)[k].items
    ensures var ts, i := BlockToks(top), Index(top, path, k);
      match PropIndex(Sub(top, path)[k].items, strtab, name)
      case Found(m) =>
        && FirstProp(ts, i + 1, strtab, name) == Found(Index(top, path + [k], m))
        && Off(ts, Index(top, path + [k], m)) == OffsetOf(top, path + [k], m)
      case _ => FirstProp(ts, i + 1, strtab, name) == Missing
  {
    NodeInBlock(top, path, k);
    Enter(top, path, k, 0);
    var ts, i, items := BlockToks(top), Index(top, path, k), Sub(top, path)[k].items;
    FirstPropItems(ts, i + 1, items, strtab, name);
    var f := PropIndex(items, strtab, name);
    hide Sub, Before, Toks, ItemToks, BlockToks, Index, FirstProp, PropIndex;
    if f.Found? {
      Enter(top, path, k, f.index);
      Located(top, path + [k], f.index);
    }
  }

  predicate IsPropItem(top: seq<Item>, list: seq<nat>, m: nat) {
    ValidPath(top, list) && m < |Sub(top, list)| && Sub(top, list)[m].IProp?
  }

  lemma Cut(s: seq<byte>, a: nat, b: nat)
    requires a <= b <= |s|
    ensures s == s[..a] + s[a..b] + s[b..]
  {
  }

  lemma PutAt(s: seq<byte>, p: seq<byte>, q: seq<byte>, r: seq<byte>, x: seq<byte>)
    requires s == p + q + r
    ensures s[..|p|] + x + s[|p| + |q|..] == p + x + r
  {
  }

  lemma Parts3(s: seq<byte>, p: seq<byte>, q: seq<byte>, r: seq<byte>)
    requires s == p + q + r
    ensures s[..|p|] == p && s[|p|..|p| + |q|] == q && s[|p| + |q|..] == r
  {
  }

  /** Bytes of a property item: header, then data area. */
  function PropHeader(len: nat, nameoff: nat): (b: seq<byte>)
    ensures |b| == 12
  {
    Be32(FDT_PROP) + Be32(len) + Be32(nameoff)
  }

  lemma PropBytes(it: Item)
    requires it.IProp?
    ensures EncAll(Toks([it])) == PropHeader(|it.val|, it.nameoff) + (it.val + it.pad)
    ensures Toks([it]) == [Prop(it.nameoff, it.val, it.pad)]
  {
    ToksOne(it);
    EncAllOne(Prop(it.nameoff, it.val, it.pad));
    hide Be32;
    assert Enc(Prop(it.nameoff, it.val, it.pad)) == PropHeader(|it.val|, it.nameoff) + (it.val + it.pad);
  }

  /** The block around property m of a list. */
  lemma PropInBlock(s: seq<byte>, strtab: seq<byte>, top: seq<Item>, path: seq<nat>, m: nat)
    requires Represents(s, strtab, top) && IsPropItem(top, path, m)
    ensures var it, o := Sub(top, path)[m], OffsetOf(top, path, m);
      && s == Head(top, path, m) + (PropHeader(|it.val|, it.nameoff) + (it.val + it.pad)) + Tail(top, path, m + 1)
      && |Head(top, path, m)| == o && |PropHeader(|it.val|, it.nameoff)| == 12
      && |it.val| + |it.pad| == Align4(|it.val|) && |it.val| <= INT_MAX
      && o + 12 + Align4(|it.val|) <= |s| && Word(s, o + 4) == |it.val| && HasStr(strtab, it.nameoff)
  {
    var it := Sub(top, path)[m];
    BlockSplit(top, path, m, m + 1);
    assert Sub(top, path)[m..m + 1] == [it];
    PropBytes(it);
    Located(top, path, m);
    var ts, i := BlockToks(top), Index(top, path, m);
    assert ts[i] == ts[i..i + 1][0] == ItemToks(it)[0] == Prop(it.nameoff, it.val, it.pad);
    assert Toks(top)[i] == ts[i];
    PropToken(s, ts, i);
  }

  /** From the old block to the one with property m resized: a splice of the data area, then the length word. */
  lemma Resized(h: seq<byte>, w: seq<byte>, old_len: seq<byte>, off: seq<byte>, data: seq<byte>, t: seq<byte>,
                new_len: seq<byte>, s0: seq<byte>, s1: seq<byte>, s2: seq<byte>, n: nat)
    requires |w| == |old_len| == |off| == |new_len| == 4
    requires s0 == h + (w + old_len + off + data) + t
    requires |s1| == |s0| - |data| + n
    requires s1[..|h| + 12] == s0[..|h| + 12] && s1[|h| + 12 + n..] == s0[|h| + 12 + |data|..]
    requires s2 == s1[..|h| + 4] + new_len + s1[|h| + 8..]
    ensures s2 == h + (w + new_len + off + s1[|h| + 12..|h| + 12 + n]) + t
    ensures s2[|h| + 12..|h| + 12 + n] == s1[|h| + 12..|h| + 12 + n]
  {
    var gap := s1[|h| + 12..|h| + 12 + n];
    assert s0[..|h| + 12] == h + w + old_len + off;
    assert s0[|h| + 12 + |data|..] == t;
    Cut(s1, |h| + 12, |h| + 12 + n);
    assert s1 == (h + w) + old_len + (off + gap + t);
    PutAt(s1, h + w, old_len, off + gap + t, new_len);
    assert s2 == (h + w) + new_len + (off + gap + t);
  }

  /** A property item with another offset, value or padding fits where a property was. */
  lemma OrderedProp(top: seq<Item>, list: seq<nat>, m: nat, it: Item)
    requires Ordered(top) && IsPropItem(top, list, m) && it.IProp?
    ensures Ordered(Sub(top, list)[m := it])
    ensures Sub(top, list)[..m] + [it] + Sub(top, list)[m + 1..] == Sub(top, list)[m := it]
  {
    OrderedSub(top, list);
  }

  /** Replacing the bytes of a property by those of another property item replaces the item. */
  lemma ReplaceProp(s: seq<byte>, strtab: seq<byte>, top: seq<Item>, list: seq<nat>, m: nat, it: Item, t: seq<byte>)
    requires Represents(s, strtab, top) && IsPropItem(top, list, m)
    requires it.IProp? && |it.val| <= INT_MAX && |it.val| + |it.pad| == Align4(|it.val|) && HasStr(strtab, it.nameoff)
    requires t == Head(top, list, m) + (PropHeader(|it.val|, it.nameoff) + (it.val + it.pad)) + Tail(top, list, m + 1)
    ensures Represents(t, strtab, SetSub(top, list, Sub(top, list)[m := it]))
  {
    hide Head, Tail, PropHeader, SetSub, Sub, Align4, EncAll, Toks;
    PropBytes(it);
    OrderedProp(top, list, m, it);
    SpliceRefines(s, strtab, top, list, m, m + 1, [it], t);
  }

  lemma KeepsValue(h: seq<byte>, v: seq<byte>, p: seq<byte>, t: seq<byte>, s: seq<byte>, gap: seq<byte>)
    requires s == h + (v + p) + t && |v| + |p| <= |gap| && gap[..|v| + |p|] == s[|h|..|h| + |v| + |p|]
    ensures v <= gap
  {
    Parts3(s, h, v + p, t);
    assert (v + p)[..|v|] == v;
    SubSlice(gap, 0, v + p, 0, |v|);
  }

  lemma ResizeRefines(s0: seq<byte>, s1: seq<byte>, s2: seq<byte>, strtab: seq<byte>,
                      top: seq<Item>, list: seq<nat>, m: nat, len: nat)
    returns (it: Item)
    requires Represents(s0, strtab, top) && IsPropItem(top, list, m)
    requires len <= INT_MAX
    requires var p, n := OffsetOf(top, list, m), Align4(|Sub(top, list)[m].val|);
      && p + 12 + n <= |s0| && |s1| == |s0| - n + Align4(len)
      && s1[..p + 12] == s0[..p + 12] && s1[p + 12 + Align4(len)..] == s0[p + 12 + n..]
      && (n <= Align4(len) ==> s1[p + 12..p + 12 + n] == s0[p + 12..p + 12 + n])
      && s2 == s1[..p + 4] + Be32(len) + s1[p + 8..]
    ensures it.IProp? && it.nameoff == Sub(top, list)[m].nameoff && |it.val| == len
    ensures |Sub(top, list)[m].val| <= len ==> Sub(top, list)[m].val <= it.val
    ensures Represents(s2, strtab, SetSub(top, list, Sub(top, list)[m := it]))
  {
    hide Represents, Head, Tail, SetSub, Sub, Be32, OffsetOf, ValidPath, Align4, HasStr;
    var o, p := Sub(top, list)[m], OffsetOf(top, list, m);
    PropInBlock(s0, strtab, top, list, m);
    Align4Mono(len, len);
    var gap := s1[p + 12..p + 12 + Align4(len)];
    it := IProp(o.nameoff, gap[..len], gap[len..]);
    var h, t := Head(top, list, m), Tail(top, list, m + 1);
    Resized(h, Be32(FDT_PROP), Be32(|o.val|), Be32(o.nameoff), o.val + o.pad, t, Be32(len), s0, s1, s2, Align4(len));
    assert gap == it.val + it.pad;
    ReplaceProp(s0, strtab, top, list, m, it, s2);
    if |o.val| <= len {
      Align4Mono(|o.val|, len);
      Assoc(h, PropHeader(|o.val|, o.nameoff), o.val + o.pad);
      SubSlice(s1, p + 12, gap, 0, Align4(|o.val|));
      KeepsValue(h + PropHeader(|o.val|, o.nameoff), o.val, o.pad, t, s0, gap);
    }
  }

  /** fdt_get_property_w on a tree: the offset and length of the node's first property with that name. */
  method FindProperty(s: seq<byte>, strtab: seq<byte>, node: int, name: seq<byte>,
                      ghost top: seq<Item>, ghost path: seq<nat>, ghost k: nat, ghost i: int)
    returns (prop: int, len: nat, ghost m: nat)
    requires Represents(s, strtab, top) && Names(top, path, k, i, node)
    ensures !IsNode(top, i) ==> prop == -ERR_BADOFFSET
    ensures IsNode(top, i) ==> Inside(top, path, k)
    ensures IsNode(top, i) && PropIndex(Sub(top, path + [k]), strtab, name).Missing? ==> prop == -ERR_NOTFOUND
    ensures IsNode(top, i) && PropIndex(Sub(top, path + [k]), strtab, name).Found? ==>
      && PropIndex(Sub(top, path + [k]), strtab, name) == Found(m)
      && prop >= 0 && PropAt(s, top, path + [k], m, prop, len)
  {
    hide Toks, Sub, Before, BlockToks, Index, FirstProp, PropIndex, Word, EncAll, Off;
    prop := GetProperty(s, strtab, node, name, BlockToks(top), i);
    len, m := 0, 0;
    if IsNode(top, i) {
      NodeInside(top, path, k, i, node);
      PropOffset(top, path, k, strtab, name);
    }
    if prop >= 0 {
      m := PropIndex(Sub(top, path + [k]), strtab, name).index;
      PropInBlock(s, strtab, top, path + [k], m);
      len := Word(s, prop + 4);
    }
  }

  /** Property m of a list lies at prop and has a value of len bytes. */
  ghost predicate PropAt(s: seq<byte>, top: seq<Item>, list: seq<nat>, m: nat, prop: int, len: nat) {
    && IsPropItem(top, list, m)
    && prop == OffsetOf(top, list, m) && len == |Sub(top, list)[m].val|
    && prop + 12 + Align4(len) <= |s|
  }

  /** Make room for len bytes of value in the property at prop, and store the new length. */
  method ResizeAt(f: Fdt, prop: nat, oldlen: nat, len: nat, ghost top: seq<Item>, ghost list: seq<nat>, ghost m: nat)
    returns (err: int, ghost it: Item)
    requires Means(f, top) && PropAt(f.Struct(), top, list, m, prop, oldlen)
    modifies f, f.buf
    ensures f.Valid() && f.Around() == old(f.Around())
    ensures Resizes(f, err, old(f.DataSize()), prop, it, top, list, m, len)
    ensures err != 0 ==> f.All() == old(f.All())
  {
    hide Sub, OffsetOf, Represents, SetSub, StructOf, StringsOf, Align4, ValidPath;
    ghost var s := f.Struct();
    it := INop;
    err := f.SpliceStruct(prop + 12, Align4(oldlen), Align4(len));
    if err != 0 {
      return;
    }
    ghost var s1 := f.Struct();
    f.PutStruct(prop + 4, Be32(len));
    Align4Mono(len, len);
    it := ResizeRefines(s, s1, f.Struct(), f.Strings(), top, list, m, len);
  }

  /** fdt_resize_property_ */
  method ResizeProperty(f: Fdt, node: int, name: seq<byte>, len: nat,
                        ghost top: seq<Item>, ghost path: seq<nat>, ghost k: nat, ghost i: int)
    returns (err: int, prop: int, ghost m: nat, ghost it: Item)
    requires Means(f, top) && Names(top, path, k, i, node)
    modifies f, f.buf
    ensures f.Valid() && f.Around() == old(f.Around())
    ensures !IsNode(top, i) ==> err == -ERR_BADOFFSET
    ensures IsNode(top, i) ==> Inside(top, path, k)
    ensures IsNode(top, i) && PropIndex(Sub(top, path + [k]), f.Strings(), name).Missing? ==> err == -ERR_NOTFOUND
    ensures IsNode(top, i) && PropIndex(Sub(top, path + [k]), f.Strings(), name).Found? ==>
      && PropIndex(Sub(top, path + [k]), f.Strings(), name) == Found(m)
      && Resizes(f, err, old(f.DataSize()), prop, it, top, path + [k], m, len)
    ensures err != 0 ==> f.All() == old(f.All())
  {
    hide Names, PropIndex, Sub, OffsetOf, Represents, SetSub, StructOf, StringsOf, IsNode, Inside, Resizes, PropAt;
    var oldlen;
    prop, oldlen, m := FindProperty(f.Struct(), f.Strings(), node, name, top, path, k, i);
    it := INop;
    if prop < 0 {
      return prop, prop, m, it;
    }
    err, it := ResizeAt(f, prop, oldlen, len, top, path + [k], m);
  }

  /**
   * Property m of a list is now it, of len bytes, with as much of the old value as fits before and after;
   * or there was no room for the longer value.
   */
  ghost predicate Resizes(f: Fdt, err: int, size: nat, prop: int, it: Item,
                          top: seq<Item>, list: seq<nat>, m: nat, len: nat)
    reads f, f.buf
  {
    && IsPropItem(top, list, m) && prop == OffsetOf(top, list, m)
    && err == (if size - Align4(|Sub(top, list)[m].val|) + Align4(len) > f.h.totalsize then -ERR_NOSPACE else 0)
    && (err == 0 ==>
          && it.IProp? && it.nameoff == Sub(top, list)[m].nameoff && |it.val| == len
          && (|Sub(top, list)[m].val| <= len ==> Sub(top, list)[m].val <= it.val)
          && f.DataSize() == size - Align4(|Sub(top, list)[m].val|) + Align4(len)
          && Means(f, SetSub(top, list, Sub(top, list)[m := it])))
  }

  // ------------------------------------------------------- storing a value

  function WithValue(it: Item, idx: nat, bytes: seq<byte>): Item
    requires it.IProp? && idx + |bytes| <= |it.val|
  {
    it.(val := it.val[..idx] + bytes + it.val[idx + |bytes|..])
  }

  lemma ValueBytes(h: seq<byte>, v: seq<byte>, p: seq<byte>, t: seq<byte>, s: seq<byte>, idx: nat, bytes: seq<byte>)
    requires s == h + (v + p) + t && idx + |bytes| <= |v|
    ensures s[..|h| + idx] + bytes + s[|h| + idx + |bytes|..]
         == h + ((v[..idx] + bytes + v[idx + |bytes|..]) + p) + t
  {
    var a, b, c := v[..idx], v[idx..idx + |bytes|], v[idx + |bytes|..];
    Cut(v, idx, idx + |bytes|);
    Regroup5(h, a, b, c, p, t);
    PutAt(s, h + a, b, c + p + t, bytes);
    Regroup5(h, a, bytes, c, p, t);
  }

  lemma Regroup5(h: seq<byte>, a: seq<byte>, b: seq<byte>, c: seq<byte>, p: seq<byte>, t: seq<byte>)
    ensures h + ((a + b + c) + p) + t == (h + a) + b + (c + p + t)
  {
  }

  lemma ValueRefines(s: seq<byte>, strtab: seq<byte>, top: seq<Item>, list: seq<nat>, m: nat,
                     idx: nat, bytes: seq<byte>, t: seq<byte>)
    requires Represents(s, strtab, top) && IsPropItem(top, list, m)
    requires idx + |bytes| <= |Sub(top, list)[m].val|
    requires OffsetOf(top, list, m) + 12 + |Sub(top, list)[m].val| <= |s|
    requires var p := OffsetOf(top, list, m) + 12 + idx; t == s[..p] + bytes + s[p + |bytes|..]
    ensures Represents(t, strtab, SetSub(top, list, Sub(top, list)[m := WithValue(Sub(top, list)[m], idx, bytes)]))
  {
    hide Represents, Head, Tail, SetSub, Sub, OffsetOf, ValidPath, Align4, HasStr, PropHeader;
    var it, h, r := Sub(top, list)[m], Head(top, list, m), Tail(top, list, m + 1);
    var ph := PropHeader(|it.val|, it.nameoff);
    PropInBlock(s, strtab, top, list, m);
    Assoc(h, ph, it.val + it.pad);
    ValueBytes(h + ph, it.val, it.pad, r, s, idx, bytes);
    var v := WithValue(it, idx, bytes);
    Assoc(h, ph, v.val + v.pad);
    ReplaceProp(s, strtab, top, list, m, v, t);
  }

  /** The memcpy into a property's value that ends every way of setting it. */
  method WriteValue(f: Fdt, prop: nat, idx: nat, bytes: seq<byte>, ghost top: seq<Item>, ghost list: seq<nat>,
                    ghost m: nat)
    requires Means(f, top) && IsPropItem(top, list, m)
    requires prop == OffsetOf(top, list, m) && idx + |bytes| <= |Sub(top, list)[m].val|
    modifies f.buf
    ensures f.Valid() && f.Around() == old(f.Around())
    ensures Means(f, SetSub(top, list, Sub(top, list)[m := WithValue(Sub(top, list)[m], idx, bytes)]))
  {
    hide Represents, SetSub, Sub, OffsetOf, ValidPath, WithValue, StructOf, StringsOf;
    ghost var s := f.Struct();
    PropInBlock(s, f.Strings(), top, list, m);
    Align4Mono(|Sub(top, list)[m].val|, |Sub(top, list)[m].val|);
    f.PutStruct(prop + 12 + idx, bytes);
    ValueRefines(s, f.Strings(), top, list, m, idx, bytes, f.Struct());
  }

  // ------------------------------------------------------ adding a property

  /** fdt_check_node_offset_ gives the offset of the node's first item. */
  lemma NodeStart(s: seq<byte>, strtab: seq<byte>, top: seq<Item>, path: seq<nat>, k: nat, i: int, node: int)
    requires Represents(s, strtab, top) && Names(top, path, k, i, node)
    ensures !IsNode(top, i) ==> CheckOffset(s, node, FDT_BEGIN_NODE) == -ERR_BADOFFSET
    ensures IsNode(top, i) ==>
      Inside(top, path, k) && CheckOffset(s, node, FDT_BEGIN_NODE) == OffsetOf(top, path + [k], 0) <= |s|
  {
    hide EncAll, TagAt, Toks, Sub;
    if i >= 0 {
      CheckToken(s, BlockToks(top), i, FDT_BEGIN_NODE);
      if IsNode(top, i) {
        FirstItem(top, path, k);
      }
    }
  }

  lemma FirstItem(top: seq<Item>, path: seq<nat>, k: nat)
    requires NodeAt(top, path, k)
    ensures ValidPath(top, path + [k]) && Sub(top, path + [k]) == Sub(top, path)[k].items
    ensures Index(top, path, k) < |BlockToks(top)|
    ensures Off(BlockToks(top), Index(top, path, k) + 1) == OffsetOf(top, path + [k], 0) <= |EncAll(BlockToks(top))|
  {
    hide EncAll, Sub, Toks, Before;
    Enter(top, path, k, 0);
    Located(top, path, k);
    NodeInBlock(top, path, k);
    BlockSplit(top, path + [k], 0, 0);
    var ts, i := BlockToks(top), Index(top, path, k);
    NoToks();
    assert ts[..i + 1] == ts[..i] + [ts[i]];
    assert Sub(top, path)[k].items[..0] == [];
    assert Before(top, path + [k], 0) == ts[..i + 1];
  }

  lemma NoToks()
    ensures Toks([]) == [] && EncAll(Toks([])) == []
  {
  }

  lemma RepresentsGrow(s: seq<byte>, strtab: seq<byte>, top: seq<Item>, x: seq<byte>)
    requires Represents(s, strtab, top)
    ensures Represents(s, strtab + x, top)
  {
    hide Toks, Ordered;
    forall j | 0 <= j < |Toks(top)| && Toks(top)[j].Prop? ensures HasStr(strtab + x, Toks(top)[j].nameoff) {
      StrExtend(strtab, x, Toks(top)[j].nameoff);
    }
  }

  lemma ThreeWords(s1: seq<byte>, a: nat, w0: seq<byte>, w1: seq<byte>, w2: seq<byte>,
                   s2: seq<byte>, s3: seq<byte>, s4: seq<byte>)
    requires |w0| == |w1| == |w2| == 4 && a + 12 <= |s1|
    requires s2 == s1[..a] + w0 + s1[a + 4..]
    requires s3 == s2[..a + 8] + w2 + s2[a + 12..]
    requires s4 == s3[..a + 4] + w1 + s3[a + 8..]
    ensures s4 == s1[..a] + (w0 + w1 + w2) + s1[a + 12..]
  {
  }

  /** A gap in front of a node's items, filled with a property header, is a new first property. */
  lemma AddRefines(s: seq<byte>, strtab: seq<byte>, top: seq<Item>, list: seq<nat>, len: nat, off: u32,
                   s1: seq<byte>, t: seq<byte>)
    returns (it: Item)
    requires Represents(s, strtab, top) && ValidPath(top, list) && len <= INT_MAX && HasStr(strtab, off)
    requires var a, n := OffsetOf(top, list, 0), 12 + Align4(len);
      && a <= |s| && |s1| == |s| + n && s1[..a] == s[..a] && s1[a + n..] == s[a..]
      && t == s1[..a] + PropHeader(len, off) + s1[a + 12..]
    ensures it.IProp? && it.nameoff == off && |it.val| == len
    ensures Represents(t, strtab, SetSub(top, list, [it] + Sub(top, list)))
  {
    hide Head, Tail, SetSub, Sub, EncAll, Toks, Align4, PropHeader, HasStr, Represents, OffsetOf, ValidPath;
    var a, n := OffsetOf(top, list, 0), 12 + Align4(len);
    Align4Mono(len, len);
    var data := s1[a + 12..a + n];
    it := IProp(off, data[..len], data[len..]);
    BlockAt(s, strtab, top, list, 0);
    Inserted(s, Head(top, list, 0), Tail(top, list, 0), s1, t, PropHeader(len, off), n);
    PropBytes(it);
    OrderedFirst(s, strtab, top, list, it);
    SpliceRefines(s, strtab, top, list, 0, 0, [it], t);
  }

  /** The block on both sides of a position. */
  lemma BlockAt(s: seq<byte>, strtab: seq<byte>, top: seq<Item>, list: seq<nat>, a: nat)
    requires Represents(s, strtab, top) && ValidPath(top, list) && a <= |Sub(top, list)|
    ensures s == Head(top, list, a) + Tail(top, list, a)
    ensures |Head(top, list, a)| == OffsetOf(top, list, a)
  {
    hide Sub, Head, Tail, Before, After, BlockToks;
    BlockSplit(top, list, a, a);
    assert Sub(top, list)[a..a] == [];
    HeadLength(top, list, a);
    NoTokens(Head(top, list, a), Tail(top, list, a));
  }

  lemma HeadLength(top: seq<Item>, list: seq<nat>, a: nat)
    requires ValidPath(top, list) && a <= |Sub(top, list)|
    ensures |Head(top, list, a)| == OffsetOf(top, list, a)
  {
    hide Before, EncAll;
  }

  lemma NoTokens(h: seq<byte>, r: seq<byte>)
    ensures h + EncAll(Toks([])) + r == h + r
  {
  }

  /** A header of twelve bytes at the front of the room made between h and r. */
  lemma Inserted(s: seq<byte>, h: seq<byte>, r: seq<byte>, s1: seq<byte>, t: seq<byte>, x: seq<byte>, n: nat)
    requires s == h + r && |x| == 12 <= n && |s1| == |s| + n && s1[..|h|] == s[..|h|] && s1[|h| + n..] == s[|h|..]
    requires t == s1[..|h|] + x + s1[|h| + 12..]
    ensures t == h + (x + s1[|h| + 12..|h| + n]) + r
  {
    assert s[..|h|] == h && s[|h|..] == r;
    assert s1[|h| + 12..] == s1[|h| + 12..|h| + n] + s1[|h| + n..];
  }

  lemma OrderedFirst(s: seq<byte>, strtab: seq<byte>, top: seq<Item>, list: seq<nat>, it: Item)
    requires Represents(s, strtab, top) && ValidPath(top, list) && it.IProp?
    ensures Sub(top, list)[..0] + [it] + Sub(top, list)[0..] == [it] + Sub(top, list)
    ensures Ordered([it] + Sub(top, list))
  {
    OrderedSub(top, list);
    var items := Sub(top, list);
    assert forall x :: 0 < x <= |items| ==> ([it] + items)[x] == items[x - 1];
  }

  /** The three stores of a struct fdt_property header. */
  method PutPropHeader(f: Fdt, prop: nat, len: nat, off: nat)
    requires f.Valid() && prop + 12 <= f.h.sizeStruct
    modifies f.buf
    ensures f.Valid() && f.Around() == old(f.Around())
    ensures f.Struct() == old(f.Struct())[..prop] + PropHeader(len, off) + old(f.Struct())[prop + 12..]
  {
    hide StructOf, StringsOf, Be32;
    ghost var s1 := f.Struct();
    f.PutStruct(prop, Be32(FDT_PROP));
    ghost var s2 := f.Struct();
    f.PutStruct(prop + 8, Be32(off));
    ghost var s3 := f.Struct();
    f.PutStruct(prop + 4, Be32(len));
    ThreeWords(s1, prop, Be32(FDT_PROP), Be32(len), Be32(off), s2, s3, f.Struct());
  }

  method AddProperty(f: Fdt, node: int, name: seq<byte>, len: nat,
                     ghost top: seq<Item>, ghost path: seq<nat>, ghost k: nat, ghost i: int)
    returns (err: int, prop: int, ghost it: Item)
    requires Means(f, top) && Names(top, path, k, i, node) && 0 !in name
    modifies f, f.buf
    ensures f.Valid() && f.Front() == old(f.Front())
    ensures !IsNode(top, i) ==> err == -ERR_BADOFFSET
    ensures IsNode(top, i) ==> Inside(top, path, k)
    ensures IsNode(top, i) ==>
      if old(f.DataSize()) + 12 + Align4(len) + NameCost(old(f.Strings()), name) > f.h.totalsize then
        err == -ERR_NOSPACE
      else
        && err == 0
        && f.DataSize() == old(f.DataSize()) + 12 + Align4(len) + NameCost(old(f.Strings()), name)
        && prop == OffsetOf(top, path + [k], 0)
        && old(f.Strings()) <= f.Strings() && it.IProp? && |it.val| == len && Str(f.Strings(), it.nameoff) == name
        && Means(f, SetSub(top, path + [k], [it] + Sub(top, path + [k])))
    ensures err != 0 ==> f.All() == old(f.All())
  {
    hide Names, Sub, OffsetOf, Represents, SetSub, StructOf, StringsOf, IsNode, Align4, ValidPath, PropHeader, HasName;
    ghost var s, strtab, list := f.Struct(), f.Strings(), path + [k];
    NodeStart(s, strtab, top, path, k, i, node);
    prop, it := CheckOffset(f.Struct(), node, FDT_BEGIN_NODE), INop;
    if prop < 0 {
      return prop, prop, it;
    }
    var off, added := f.FindAddString(name);
    if off < 0 {
      return off, prop, it;
    }
    err := f.SpliceStruct(prop, 0, 12 + Align4(len));
    if err != 0 {
      if added {
        f.DelLastString(name, strtab);
      }
      return;
    }
    ghost var s1 := f.Struct();
    PutPropHeader(f, prop, len, off);
    if added {
      RepresentsGrow(s, strtab, top, name + [0]);
    }
    Align4Mono(len, len);
    it := AddRefines(s, f.Strings(), top, list, len, off, s1, f.Struct());
  }

  // ------------------------------------------------------- removing and blanking

  /** The bytes of item k of a list. */
  function Extent(top: seq<Item>, list: seq<nat>, k: nat): nat
    requires ValidPath(top, list) && k < |Sub(top, list)|
  {
    |EncAll(ItemToks(Sub(top, list)[k]))|
  }

  lemma OneExtent(top: seq<Item>, list: seq<nat>, k: nat)
    requires ValidPath(top, list) && k < |Sub(top, list)|
    ensures |EncAll(Toks(Sub(top, list)[k..k + 1]))| == Extent(top, list, k)
  {
    assert Sub(top, list)[k..k + 1] == [Sub(top, list)[k]];
    ToksOne(Sub(top, list)[k]);
  }

  lemma PropExtent(s: seq<byte>, strtab: seq<byte>, top: seq<Item>, list: seq<nat>, m: nat)
    requires Represents(s, strtab, top) && IsPropItem(top, list, m)
    ensures Extent(top, list, m) == 12 + Align4(|Sub(top, list)[m].val|)
  {
    hide Represents, Sub, Toks, ItemToks, EncAll, ValidPath, PropHeader, OffsetOf;
    PropInBlock(s, strtab, top, list, m);
    PropBytes(Sub(top, list)[m]);
    OneExtent(top, list, m);
    assert Sub(top, list)[m..m + 1] == [Sub(top, list)[m]];
  }

  /** NOP tokens in place of an item keep every other item where it was. */
  function Nops(n: nat): (r: seq<Item>)
    ensures |r| == n
  {
    seq(n, _ => INop)
  }

  lemma OrderedBlank(s: seq<byte>, strtab: seq<byte>, top: seq<Item>, list: seq<nat>, k: nat, n: nat)
    requires Represents(s, strtab, top) && ValidPath(top, list) && k < |Sub(top, list)|
    ensures Ordered(Sub(top, list)[..k] + Nops(n) + Sub(top, list)[k + 1..])
  {
    hide Sub, ValidPath, Toks, Named, Ordered;
    OrderedSub(top, list);
    BlankOrdered(Sub(top, list), k, n);
  }

  lemma BlankOrdered(items: seq<Item>, k: nat, n: nat)
    requires Ordered(items) && k < |items|
    ensures Ordered(items[..k] + Nops(n) + items[k + 1..])
  {
    var upd := items[..k] + Nops(n) + items[k + 1..];
    hide Nops;
    forall a, b | 0 <= a < b < |upd| && upd[a].Node? ensures !upd[b].IProp? {
      BlankAt(items, k, n, a);
      BlankAt(items, k, n, b);
    }
    forall a | 0 <= a < |upd| && upd[a].Node? ensures Ordered(upd[a].items) {
      BlankAt(items, k, n, a);
    }
  }

  lemma BlankAt(items: seq<Item>, k: nat, n: nat, x: nat)
    requires k < |items| && x < |items| - 1 + n
    ensures (items[..k] + Nops(n) + items[k + 1..])[x] == if k <= x < k + n then INop else items[Unblank(x, k, n)]
  {
  }

  /** The index an item had before item k became n NOPs. */
  function Unblank(a: nat, k: nat, n: nat): int {
    if a < k + n then a else a - n + 1
  }

  function NopWords(n: nat): (b: seq<byte>)
    ensures |b| == 4 * n
  {
    if n == 0 then [] else NopWords(n - 1) + Be32(FDT_NOP)
  }

  lemma {:induction false} NopTokens(n: nat, strtab: seq<byte>)
    ensures ValidTokens(Toks(Nops(n))) && Named(Toks(Nops(n)), strtab)
    ensures EncAll(Toks(Nops(n))) == NopWords(n)
  {
    hide Be32;
    if n == 0 {
    } else {
      NopTokens(n - 1, strtab);
      assert Nops(n) == Nops(n - 1) + [INop];
      ToksConcat(Nops(n - 1), [INop]);
      ToksOne(INop);
      EncAllConcat(Toks(Nops(n - 1)), [Nop]);
      EncAllOne(Nop);
    }
  }

  /** Item k of a list cut out (n = 0) or overwritten with n NOPs. */
  lemma BlankRefines(s: seq<byte>, strtab: seq<byte>, top: seq<Item>, list: seq<nat>, k: nat, n: nat, t: seq<byte>)
    requires Represents(s, strtab, top) && ValidPath(top, list) && k < |Sub(top, list)|
    requires var p, e := OffsetOf(top, list, k), Extent(top, list, k);
      p + e <= |s| && t == s[..p] + NopWords(n) + s[p + e..]
    ensures Represents(t, strtab, SetSub(top, list, Sub(top, list)[..k] + Nops(n) + Sub(top, list)[k + 1..]))
  {
    hide Represents, OffsetOf, SetSub, Sub, Extent, Toks, EncAll, ValidPath, NopWords, Nops;
    OneExtent(top, list, k);
    NopTokens(n, strtab);
    OrderedBlank(s, strtab, top, list, k, n);
    ReplaceRefines(s, strtab, top, list, k, k + 1, Nops(n), t);
  }

  lemma ExtentFits(s: seq<byte>, strtab: seq<byte>, top: seq<Item>, list: seq<nat>, k: nat)
    requires Represents(s, strtab, top) && ValidPath(top, list) && k < |Sub(top, list)|
    ensures OffsetOf(top, list, k) + Extent(top, list, k) <= |s|
  {
    hide Represents, OffsetOf, Sub, Extent, Toks, EncAll, ValidPath;
    RangeFits(s, strtab, top, list, k, k + 1);
    OneExtent(top, list, k);
  }

  /** The splice that cuts item k of a list out of the block. */
  method RemoveItem(f: Fdt, off: nat, len: nat, ghost top: seq<Item>, ghost list: seq<nat>, ghost k: nat)
    returns (err: int)
    requires Means(f, top) && ValidPath(top, list) && k < |Sub(top, list)|
    requires off == OffsetOf(top, list, k) && len == Extent(top, list, k)
    modifies f, f.buf
    ensures err == 0 && f.Valid() && f.Around() == old(f.Around()) && f.DataSize() == old(f.DataSize()) - len
    ensures Means(f, SetSub(top, list, Sub(top, list)[..k] + Sub(top, list)[k + 1..]))
  {
    hide Represents, OffsetOf, SetSub, Sub, Extent, ValidPath, StructOf, StringsOf;
    ghost var s := f.Struct();
    ExtentFits(s, f.Strings(), top, list, k);
    err := f.SpliceStruct(off, len, 0);
    assert f.Struct() == s[..off] + NopWords(0) + s[off + len..];
    BlankRefines(s, f.Strings(), top, list, k, 0, f.Struct());
    assert Sub(top, list)[..k] + Nops(0) == Sub(top, list)[..k];
  }

  /** fdt_nop_region_ over item k of a list. */
  method NopItem(f: Fdt, off: nat, len: nat, ghost top: seq<Item>, ghost list: seq<nat>, ghost k: nat)
    requires Means(f, top) && ValidPath(top, list) && k < |Sub(top, list)|
    requires off == OffsetOf(top, list, k) && Align4(len) == Extent(top, list, k)
    modifies f.buf
    ensures f.Valid() && f.Around() == old(f.Around())
    ensures off + Align4(len) <= |f.Struct()|
    ensures f.Struct()[..off] == old(f.Struct())[..off]
    ensures f.Struct()[off + Align4(len)..] == old(f.Struct())[off + Align4(len)..]
    ensures Means(f, SetSub(top, list, Sub(top, list)[..k] + Nops(Align4(len) / 4) + Sub(top, list)[k + 1..]))
  {
    hide Represents, OffsetOf, SetSub, Sub, Extent, ValidPath, StructOf, StringsOf, Be32;
    ghost var s := f.Struct();
    ExtentFits(s, f.Strings(), top, list, k);
    var p := 0;
    ghost var n := 0;
    while p < len
      invariant p == 4 * n && p <= Align4(len)
      invariant f.Valid() && f.Around() == old(f.Around())
      invariant f.Struct() == s[..off] + NopWords(n) + s[off + p..]
    {
      ghost var before := f.Struct();
      f.PutStruct(off + p, Be32(FDT_NOP));
      NextNop(s, off, n, before, f.Struct());
      p, n := p + 4, n + 1;
    }
    BlankRefines(s, f.Strings(), top, list, k, n, f.Struct());
  }

  lemma NextNop(s: seq<byte>, off: nat, n: nat, t: seq<byte>, u: seq<byte>)
    requires off + 4 * n + 4 <= |s| && t == s[..off] + NopWords(n) + s[off + 4 * n..]
    requires u == t[..off + 4 * n] + Be32(FDT_NOP) + t[off + 4 * n + 4..]
    ensures u == s[..off] + NopWords(n + 1) + s[off + 4 * (n + 1)..]
  {
    hide Be32;
    assert t[..off + 4 * n] == s[..off] + NopWords(n);
    assert t[off + 4 * n + 4..] == s[off + 4 * n + 4..];
  }
}
