/** What the scans find, said about the tree instead of the tokens. */
module Lookup {
  import opened Bytes
  import opened Tokens
  import opened Trees
  import opened Views
  import opened Walks
  import opened Scan

  /** Properties come before subnodes in every node (section 5.4.2 of the Devicetree Specification). */
  predicate Ordered(items: seq<Item>)
    decreases items
  {
    && (forall a, b :: 0 <= a < b < |items| && items[a].Node? ==> !items[b].IProp?)
    && (forall a :: 0 <= a < |items| && items[a].Node? ==> Ordered(items[a].items))
  }

  lemma {:induction false} OrderedSub(items: seq<Item>, path: seq<nat>)
    requires Ordered(items) && ValidPath(items, path)
    ensures Ordered(Sub(items, path))
  {
    if path == [] {
    } else {
      OrderedSub(items[path[0]].items, path[1..]);
    }
  }

  lemma {:induction false} OrderedEdit(items: seq<Item>, path: seq<nat>, a: nat, b: nat, repl: seq<Item>)
    requires Ordered(items) && ValidPath(items, path) && a <= b <= |Sub(items, path)|
    requires Ordered(Sub(items, path)[..a] + repl + Sub(items, path)[b..])
    ensures Ordered(Edit(items, path, a, b, repl))
  {
    if path == [] {
    } else {
      OrderedEdit(items[path[0]].items, path[1..], a, b, repl);
    }
  }

  // -------------------------------------------------------------- properties

  predicate IsProp(it: Item, strtab: seq<byte>, name: seq<byte>) {
    it.IProp? && GetString(strtab, it.nameoff) == Some(name)
  }

  /** The index of the first property of a node with a name. */
  function PropIndex(items: seq<Item>, strtab: seq<byte>, name: seq<byte>): (f: Find)
    ensures f.Found? ==> f.index < |items| && IsProp(items[f.index], strtab, name)
    ensures f.Found? ==> forall m :: 0 <= m < f.index ==> !items[m].Node? && !IsProp(items[m], strtab, name)
    ensures !f.Broken?
  {
    if items == [] || items[0].Node? then Missing
    else if IsProp(items[0], strtab, name) then Found(0)
    else
      match PropIndex(items[1..], strtab, name)
      case Found(m) => Found(m + 1)
      case _ => Missing
  }

  lemma PrefixToks(items: seq<Item>, m: nat)
    requires m < |items|
    ensures Toks(items[..m + 1]) == ItemToks(items[0]) + Toks(items[1..][..m])
  {
    assert items[..m + 1] == [items[0]] + items[1..][..m];
    ToksOne(items[0]);
    ToksConcat([items[0]], items[1..][..m]);
  }

  /** One item of a node's list, seen by the property search. */
  lemma FirstPropOne(ts: seq<Token>, i: nat, it: Item, strtab: seq<byte>, name: seq<byte>)
    requires HasAt(ts, i, ItemToks(it)) && i < |ts|
    ensures FirstProp(ts, i, strtab, name)
         == if it.Node? then Missing
            else if IsProp(it, strtab, name) then Found(i) else FirstProp(ts, i + 1, strtab, name)
    ensures !it.Node? ==> |ItemToks(it)| == 1
  {
    assert ts[i] == ts[i..i + |ItemToks(it)|][0] == ItemToks(it)[0];
  }

  lemma {:induction false} FirstPropItems(ts: seq<Token>, i: nat, items: seq<Item>, strtab: seq<byte>, name: seq<byte>)
    requires HasAt(ts, i, Toks(items)) && i + |Toks(items)| < |ts| && ts[i + |Toks(items)|].EndNode?
    ensures FirstProp(ts, i, strtab, name) ==
      match PropIndex(items, strtab, name)
      case Found(m) => Found(i + |Toks(items[..m])|)
      case _ => Missing
    decreases |items|
  {
    hide ItemToks, IsProp;
    if items == [] {
    } else {
      var it, rest := items[0], items[1..];
      var j := i + |ItemToks(it)|;
      HasSplit(ts, i, ItemToks(it), Toks(rest));
      FirstPropOne(ts, i, it, strtab, name);
      if !it.Node? && !IsProp(it, strtab, name) {
        FirstPropItems(ts, j, rest, strtab, name);
        var f := PropIndex(rest, strtab, name);
        if f.Found? {
          PrefixToks(items, f.index);
        }
      }
    }
  }

  /** The list with its first property of that name given a value, or with a new one in front. */
  function PutProp(props: seq<PropVal>, name: seq<byte>, val: seq<byte>): seq<PropVal> {
    if PropPos(props, name) == |props| then [PropVal(name, val)] + props
    else props[PropPos(props, name) := PropVal(name, val)]
  }

  /** The list without its first property of that name. */
  function DropProp(props: seq<PropVal>, name: seq<byte>): seq<PropVal> {
    var p := PropPos(props, name);
    if p == |props| then props else props[..p] + props[p + 1..]
  }

  /** The position of the first property with that name, or the length of the list. */
  function PropPos(props: seq<PropVal>, name: seq<byte>): (p: nat)
    ensures p <= |props|
    ensures p < |props| ==> props[p].name == name
    ensures forall q :: 0 <= q < p ==> props[q].name != name
  {
    if props == [] || props[0].name == name then 0 else 1 + PropPos(props[1..], name)
  }

  lemma PropPosAt(props: seq<PropVal>, name: seq<byte>, p: nat)
    requires p <= |props| && (p < |props| ==> props[p].name == name)
    requires forall q :: 0 <= q < p ==> props[q].name != name
    ensures PropPos(props, name) == p
  {
  }

  /** The first property item of a name is the first property of that name. */
  lemma {:induction false} PropFound(items: seq<Item>, strtab: seq<byte>, name: seq<byte>)
    requires Named(Toks(items), strtab) && Ordered(items)
    ensures match PropIndex(items, strtab, name)
      case Found(m) => PropPos(PropsOf(items, strtab), name) == |PropsOf(items[..m], strtab)| < |PropsOf(items, strtab)|
      case _ => PropPos(PropsOf(items, strtab), name) == |PropsOf(items, strtab)|
  {
    hide Toks, Ordered, Named, PropsOf, IsProp, HasStr, PropPos, ItemProps;
    if items != [] {
      var it, rest := items[0], items[1..];
      FirstItemFacts(items, strtab, name);
      if it.Node? {
        NoProps(items, strtab);
        PropPosAt([], name, 0);
      } else if !IsProp(it, strtab, name) {
        PropFound(rest, strtab, name);
        var f := PropIndex(rest, strtab, name);
        assert f.Found? ==> PropIndex(items, strtab, name) == Found(f.index + 1);
        if f.Found? {
          PrefixProps(items, f.index, strtab);
        }
        PrefixProps(items, |rest|, strtab);
        assert items[..|rest| + 1] == items && rest[..|rest|] == rest;
        PropPosSkip(PropsOf([it], strtab), PropsOf(rest, strtab), name);
      } else {
        FirstIsProp(items, strtab, name);
      }
    } else {
      NoProps(items, strtab);
    }
  }

  lemma FirstItemFacts(items: seq<Item>, strtab: seq<byte>, name: seq<byte>)
    requires items != [] && Named(Toks(items), strtab) && Ordered(items)
    ensures Named(Toks(items[1..]), strtab) && Ordered(items[1..])
    ensures items[0].Node? ==> forall m :: 0 <= m < |items| ==> !items[m].IProp?
    ensures |ItemProps(items[0], strtab)| <= 1
    ensures items[0].IProp? ==>
      ItemProps(items[0], strtab) != []
        && (ItemProps(items[0], strtab)[0].name == name <==> IsProp(items[0], strtab, name))
    ensures !items[0].IProp? ==> ItemProps(items[0], strtab) == [] && !IsProp(items[0], strtab, name)
  {
    var it, rest := items[0], items[1..];
    NamedConcat(ItemToks(it), Toks(rest), strtab);
    if it.IProp? {
      assert ItemToks(it)[0].Prop?;
    }
  }

  lemma FirstIsProp(items: seq<Item>, strtab: seq<byte>, name: seq<byte>)
    requires items != [] && items[0].IProp? && ItemProps(items[0], strtab) != []
    requires ItemProps(items[0], strtab)[0].name == name
    ensures PropPos(PropsOf(items, strtab), name) == 0 == |PropsOf(items[..0], strtab)| < |PropsOf(items, strtab)|
  {
    assert items[..0] == [];
  }

  lemma PrefixProps(items: seq<Item>, m: nat, strtab: seq<byte>)
    requires m < |items|
    ensures PropsOf(items[..m + 1], strtab) == PropsOf([items[0]], strtab) + PropsOf(items[1..][..m], strtab)
    ensures PropsOf([items[0]], strtab) == ItemProps(items[0], strtab)
  {
    assert items[..m + 1] == [items[0]] + items[1..][..m];
    OneItem(items[0], strtab);
    PropsConcat([items[0]], items[1..][..m], strtab);
  }

  lemma PropPosSkip(a: seq<PropVal>, b: seq<PropVal>, name: seq<byte>)
    requires |a| <= 1 && (a != [] ==> a[0].name != name)
    ensures PropPos(a + b, name) == |a| + PropPos(b, name)
  {
    if a == [] {
      assert a + b == b;
    } else {
      assert (a + b)[1..] == b;
    }
  }

  lemma {:induction false} NoProps(items: seq<Item>, strtab: seq<byte>)
    requires forall m :: 0 <= m < |items| ==> !items[m].IProp?
    ensures PropsOf(items, strtab) == []
  {
    if items == [] {
    } else {
      NoProps(items[1..], strtab);
    }
  }

  // ---------------------------------------------------------------- children

  predicate IsKid(it: Item, name: seq<byte>) {
    it.Node? && NameEq(it.name, name)
  }

  /** The index of the first child that answers to a name. */
  function KidIndex(items: seq<Item>, name: seq<byte>): (f: Find)
    ensures f.Found? ==> f.index < |items| && IsKid(items[f.index], name)
    ensures f.Found? ==> forall m :: 0 <= m < f.index ==> !IsKid(items[m], name)
    ensures !f.Found? ==> forall m :: 0 <= m < |items| ==> !IsKid(items[m], name)
    ensures !f.Broken?
  {
    if items == [] then Missing
    else if IsKid(items[0], name) then Found(0)
    else
      match KidIndex(items[1..], name)
      case Found(m) => Found(m + 1)
      case _ => Missing
  }

  /** None of the first n items is a child that answers to the name. */
  predicate NoneAnswers(items: seq<Item>, n: nat, name: seq<byte>)
    requires n <= |items|
  {
    forall j :: 0 <= j < n && items[j].Node? ==> !Answers(items[j].name, name)
  }

  /** The first child that answers to the name, or none when none answers. */
  predicate FirstAnswer(items: seq<Item>, name: seq<byte>, f: Find) {
    if f.Found? then
      && f.index < |items| && items[f.index].Node? && Answers(items[f.index].name, name)
      && NoneAnswers(items, f.index, name)
    else NoneAnswers(items, |items|, name)
  }

  lemma KidIndexIs(items: seq<Item>, name: seq<byte>)
    ensures FirstAnswer(items, name, KidIndex(items, name))
  {
    hide NameEq, Answers;
    forall j | 0 <= j < |items| && items[j].Node?
      ensures IsKid(items[j], name) <==> Answers(items[j].name, name) {
      NameEqIs(items[j].name, name);
    }
  }

  lemma {:induction false} FirstChildSkip(ts: seq<Token>, a: seq<(nat, int)>, b: seq<(nat, int)>, name: seq<byte>)
    requires forall m :: 0 <= m < |a| ==> a[m].1 != 1
    ensures FirstChild(ts, a + b, name) == FirstChild(ts, b, name)
  {
    if a == [] {
      assert a + b == b;
    } else {
      FirstChildSkip(ts, a[1..], b, name);
      assert (a + b)[1..] == a[1..] + b;
    }
  }

  lemma {:induction false} DeepWalk(items: seq<Item>, i: nat, d: int)
    ensures forall m :: 0 <= m < |TreeWalk(items, i, d)| ==> TreeWalk(items, i, d)[m].1 > d
    decreases items
  {
    if items == [] {
    } else {
      var it := items[0];
      DeepWalk(items[1..], i + |ItemToks(it)|, d);
      if it.Node? {
        DeepWalk(it.items, i + 1, d + 1);
        assert ItemWalk(it, i, d) == [(i, d + 1)] + TreeWalk(it.items, i + 1, d + 1);
      }
    }
  }

  lemma {:induction false} FirstChildItems(ts: seq<Token>, i: nat, items: seq<Item>, name: seq<byte>)
    requires HasAt(ts, i, Toks(items))
    ensures FirstChild(ts, TreeWalk(items, i, 0), name) ==
      match KidIndex(items, name)
      case Found(m) => Found(i + |Toks(items[..m])|)
      case _ => Missing
    decreases |items|
  {
    if items == [] {
    } else {
      var it, rest := items[0], items[1..];
      var j := i + |ItemToks(it)|;
      HasSplit(ts, i, ItemToks(it), Toks(rest));
      FirstChildItems(ts, j, rest, name);
      var f := KidIndex(rest, name);
      assert KidIndex(items, name)
          == if IsKid(it, name) then Found(0) else if f.Found? then Found(f.index + 1) else Missing;
      if f.Found? {
        PrefixToks(items, f.index);
      }
      assert TreeWalk(items, i, 0) == ItemWalk(it, i, 0) + TreeWalk(rest, j, 0);
      FirstChildOne(ts, i, it, TreeWalk(rest, j, 0), name);
    }
  }

  lemma FirstChildOne(ts: seq<Token>, i: nat, it: Item, w: seq<(nat, int)>, name: seq<byte>)
    requires HasAt(ts, i, ItemToks(it))
    ensures FirstChild(ts, ItemWalk(it, i, 0) + w, name)
         == if IsKid(it, name) then Found(i) else FirstChild(ts, w, name)
  {
    if it.Node? {
      NodeTokens(ts, i, it);
      var inner := TreeWalk(it.items, i + 1, 1);
      DeepWalk(it.items, i + 1, 1);
      FirstChildSkip(ts, inner, w, name);
      var all := ItemWalk(it, i, 0) + w;
      assert all[0] == (i, 1) && all[1..] == inner + w;
    } else {
      assert ItemWalk(it, i, 0) + w == w;
    }
  }

  // ------------------------------------------------------------ node location

  /** The tokens of a structure block. */
  function BlockToks(top: seq<Item>): seq<Token> {
    Toks(top) + [End]
  }

  predicate NodeAt(top: seq<Item>, path: seq<nat>, k: nat) {
    ValidPath(top, path) && k < |Sub(top, path)| && Sub(top, path)[k].Node?
  }

  /** Token index of item k of the list at path. */
  function Index(top: seq<Item>, path: seq<nat>, k: nat): nat
    requires ValidPath(top, path) && k <= |Sub(top, path)|
  {
    |Before(top, path, k)|
  }

  /** Offset of item k of the list at path. */
  function OffsetOf(top: seq<Item>, path: seq<nat>, k: nat): nat
    requires ValidPath(top, path) && k <= |Sub(top, path)|
  {
    |EncAll(Before(top, path, k))|
  }

  lemma Located(top: seq<Item>, path: seq<nat>, k: nat)
    requires ValidPath(top, path) && k < |Sub(top, path)|
    ensures HasAt(BlockToks(top), Index(top, path, k), ItemToks(Sub(top, path)[k]))
    ensures Index(top, path, k) + |ItemToks(Sub(top, path)[k])| < |BlockToks(top)|
    ensures BlockToks(top)[..Index(top, path, k)] == Before(top, path, k)
    ensures Off(BlockToks(top), Index(top, path, k)) == OffsetOf(top, path, k)
  {
    hide Toks, Sub, Before, After, ItemToks, EncAll;
    var i, it := Index(top, path, k), Sub(top, path)[k];
    SplitToks(top, path, k, k + 1);
    assert Sub(top, path)[k..k + 1] == [it];
    ToksOne(it);
    Parts(Before(top, path, k), ItemToks(it), After(top, path, k + 1), [End]);
  }

  lemma Parts<T>(a: seq<T>, b: seq<T>, c: seq<T>, d: seq<T>)
    ensures (a + b + c + d)[..|a|] == a && (a + b + c + d)[|a|..|a| + |b|] == b
  {
  }
}
