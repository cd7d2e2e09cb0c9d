/**
 * Lists of items that differ in property values of equal length only: what in-place edits
 * leave behind.  No offset and no token index differs between them.
 */
module InPlace {
  import opened Bytes
  import opened Tokens
  import opened Trees
  import opened Views
  import opened Scan
  import opened Lookup

  predicate LikeItem(a: Item, b: Item)
    decreases a, 0
  {
    match a
    case INop => b.INop?
    case IProp(o, v, p) => b.IProp? && b.nameoff == o && |b.val| == |v| && b.pad == p
    case Node(n, p, items) => b.Node? && b.name == n && b.pad == p && Like(items, b.items)
  }

  predicate Like(a: seq<Item>, b: seq<Item>)
    decreases a, 1
  {
    |a| == |b| && forall i :: 0 <= i < |a| ==> LikeItem(a[i], b[i])
  }

  lemma {:induction false} LikeSelf(a: seq<Item>)
    ensures Like(a, a)
    decreases a
  {
    forall i | 0 <= i < |a| ensures LikeItem(a[i], a[i]) {
      if a[i].Node? {
        LikeSelf(a[i].items);
      }
    }
  }

  lemma {:induction false} LikeBoth(a: seq<Item>, b: seq<Item>, c: seq<Item>)
    requires Like(a, b) && Like(b, c)
    ensures Like(a, c)
    decreases a
  {
    forall i | 0 <= i < |a| ensures LikeItem(a[i], c[i]) {
      assert LikeItem(a[i], b[i]) && LikeItem(b[i], c[i]);
      if a[i].Node? {
        LikeBoth(a[i].items, b[i].items, c[i].items);
      }
    }
  }

  /** Changing one item for one like it. */
  lemma LikeAt(a: seq<Item>, b: seq<Item>, m: nat, it: Item)
    requires Like(a, b) && m < |b| && LikeItem(a[m], it)
    ensures Like(a, b[m := it])
  {
  }

  /** Item tokens of the same number and length. */
  predicate SameLength(a: seq<Token>, b: seq<Token>) {
    |a| == |b| && |EncAll(a)| == |EncAll(b)|
  }

  lemma SameConcat(a: seq<Token>, b: seq<Token>, c: seq<Token>, d: seq<Token>)
    requires SameLength(a, c) && SameLength(b, d)
    ensures SameLength(a + b, c + d)
  {
    hide EncAll;
    EncAllConcat(a, b);
    EncAllConcat(c, d);
  }

  lemma {:induction false} LikeToks(a: seq<Item>, b: seq<Item>)
    requires Like(a, b)
    ensures SameLength(Toks(a), Toks(b))
    decreases a, 1
  {
    hide ItemToks, EncAll;
    if a == [] {
    } else {
      assert LikeItem(a[0], b[0]);
      LikeItemToks(a[0], b[0]);
      LikeToks(a[1..], b[1..]);
      SameConcat(ItemToks(a[0]), Toks(a[1..]), ItemToks(b[0]), Toks(b[1..]));
    }
  }

  lemma {:induction false} LikeItemToks(a: Item, b: Item)
    requires LikeItem(a, b)
    ensures SameLength(ItemToks(a), ItemToks(b))
    decreases a, 0
  {
    match a
    case INop =>
    case IProp(o, v, p) =>
      EncAllOne(Prop(o, v, p));
      EncAllOne(Prop(b.nameoff, b.val, b.pad));
    case Node(n, p, items) =>
      hide EncAll;
      LikeToks(items, b.items);
      SameConcat([Begin(n, p)], Toks(items), [Begin(n, p)], Toks(b.items));
      SameConcat([Begin(n, p)] + Toks(items), [EndNode], [Begin(n, p)] + Toks(b.items), [EndNode]);
  }

  lemma LikePrefix(a: seq<Item>, b: seq<Item>, k: nat)
    requires Like(a, b) && k <= |a|
    ensures Like(a[..k], b[..k]) && Like(a[k..], b[k..])
  {
    assert forall i :: 0 <= i < k ==> a[..k][i] == a[i] && b[..k][i] == b[i];
    assert forall i :: 0 <= i < |a| - k ==> a[k..][i] == a[k + i] && b[k..][i] == b[k + i];
  }

  /** Positions in a tree are positions in a tree like it, with the same token index and the same offset. */
  lemma {:induction false} LikePlaces(a: seq<Item>, b: seq<Item>, path: seq<nat>, k: nat)
    requires Like(a, b) && ValidPath(a, path) && k <= |Sub(a, path)|
    ensures ValidPath(b, path) && Like(Sub(a, path), Sub(b, path))
    ensures SameLength(Before(a, path, k), Before(b, path, k))
    decreases |path|
  {
    hide EncAll, Toks;
    if path == [] {
      LikePrefix(a, b, k);
      LikeToks(a[..k], b[..k]);
    } else {
      var m := path[0];
      assert LikeItem(a[m], b[m]);
      LikePlaces(a[m].items, b[m].items, path[1..], k);
      LikePrefix(a, b, m);
      LikeToks(a[..m], b[..m]);
      SameConcat(Toks(a[..m]), [Begin(a[m].name, a[m].pad)], Toks(b[..m]), [Begin(a[m].name, a[m].pad)]);
      SameConcat(Toks(a[..m]) + [Begin(a[m].name, a[m].pad)], Before(a[m].items, path[1..], k),
                 Toks(b[..m]) + [Begin(a[m].name, a[m].pad)], Before(b[m].items, path[1..], k));
    }
  }

  /** New contents like the old ones, for one list. */
  lemma {:induction false} LikeSet(top: seq<Item>, path: seq<nat>, list: seq<Item>)
    requires ValidPath(top, path) && Like(Sub(top, path), list)
    ensures Like(top, SetSub(top, path, list))
    decreases |path|
  {
    LikeSelf(top);
    if path == [] {
    } else {
      LikeSet(top[path[0]].items, path[1..], list);
    }
  }

  /** Lists alike have as many properties and children up to each item. */
  lemma {:induction false} LikeCounts(a: seq<Item>, b: seq<Item>, strtab: seq<byte>)
    requires Like(a, b)
    ensures |PropsOf(a, strtab)| == |PropsOf(b, strtab)| && |KidsOf(a, strtab)| == |KidsOf(b, strtab)|
    decreases |a|
  {
    hide View, Str;
    if a == [] {
    } else {
      assert LikeItem(a[0], b[0]);
      LikeCounts(a[1..], b[1..], strtab);
    }
  }

  /** Only values of property items of the list itself differ. */
  predicate ValuesOnly(a: seq<Item>, b: seq<Item>) {
    |a| == |b| && forall i :: 0 <= i < |a| ==>
      a[i] == b[i] || (a[i].IProp? && b[i].IProp? && b[i].nameoff == a[i].nameoff && |b[i].val| == |a[i].val|
        && b[i].pad == a[i].pad)
  }

  lemma ValuesLike(a: seq<Item>, b: seq<Item>)
    requires ValuesOnly(a, b)
    ensures Like(a, b)
  {
    LikeSelf(a);
  }

  lemma {:induction false} ValuesFind(a: seq<Item>, b: seq<Item>, strtab: seq<byte>, name: seq<byte>)
    requires ValuesOnly(a, b)
    ensures PropIndex(a, strtab, name) == PropIndex(b, strtab, name)
    decreases |a|
  {
    if a == [] {
    } else {
      assert b[0] == a[0] || b[0].IProp?;
      ValuesFind(a[1..], b[1..], strtab, name);
    }
  }

  lemma {:induction false} LikeKids(a: seq<Item>, b: seq<Item>, name: seq<byte>)
    requires Like(a, b)
    ensures KidIndex(a, name) == KidIndex(b, name)
    decreases |a|
  {
    hide NameEq;
    if a == [] {
    } else {
      assert LikeItem(a[0], b[0]);
      LikeKids(a[1..], b[1..], name);
    }
  }
}
