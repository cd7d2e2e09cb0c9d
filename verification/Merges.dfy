/**
 * Overlay merge on trees: the step-by-step merge that overlay_apply_node performs, and
 * the order-free merge of nested maps that it amounts to.
 */
module Merges {
  import opened Bytes
  import opened Views
  import opened Scan
  import opened Lookup

  // --------------------------------------------------------------- step by step

  /** Set the properties of o one after the other. */
  function MergeProps(props: seq<PropVal>, o: seq<PropVal>): seq<PropVal> {
    if o == [] then props else
    var last := o[|o| - 1];
    PutProp(MergeProps(props, o[..|o| - 1]), last.name, last.val)
  }

  /** The first child that answers to a name, or the length of the list. */
  function KidPos(kids: seq<Tree>, name: seq<byte>): (j: nat)
    ensures j <= |kids| && (j < |kids| ==> NameEq(kids[j].name, name))
    ensures forall m :: 0 <= m < j ==> !NameEq(kids[m].name, name)
  {
    if kids == [] || NameEq(kids[0].name, name) then 0 else 1 + KidPos(kids[1..], name)
  }

  /** Merge into the child that answers to the name, or into a new first child. */
  function MergeKid(kids: seq<Tree>, o: Tree): seq<Tree>
    decreases o, 1
  {
    var j := KidPos(kids, o.name);
    if j < |kids| then kids[j := Merge(kids[j], o)]
    else [Merge(Tree(o.name, [], []), o)] + kids
  }

  function MergeKids(kids: seq<Tree>, os: seq<Tree>): seq<Tree>
    decreases os, 0
  {
    if os == [] then kids else MergeKid(MergeKids(kids, os[..|os| - 1]), os[|os| - 1])
  }

  /** The tree that merging the overlay node o into b leaves. */
  function Merge(b: Tree, o: Tree): Tree
    decreases o, 0
  {
    Tree(b.name, MergeProps(b.props, o.props), MergeKids(b.kids, o.kids))
  }

  // ------------------------------------------------------------------- as maps

  /** A tree without order: what a lookup by name can see. */
  datatype MapTree = MapTree(props: map<seq<byte>, seq<byte>>, kids: map<seq<byte>, MapTree>)

  const EMPTY := MapTree(map[], map[])

  function PropMap(props: seq<PropVal>): map<seq<byte>, seq<byte>> {
    if props == [] then map[] else PropMap(props[1..])[props[0].name := props[0].val]
  }

  function KidMap(kids: seq<Tree>): map<seq<byte>, MapTree>
    decreases kids
  {
    if kids == [] then map[] else KidMap(kids[1..])[kids[0].name := MapOf(kids[0])]
  }

  function MapOf(t: Tree): MapTree
    decreases t
  {
    MapTree(PropMap(t.props), KidMap(t.kids))
  }

  /** Recursive merge: the overlay's properties win, children with the same name merge. */
  function MapMerge(b: MapTree, o: MapTree): MapTree
    decreases o
  {
    MapTree(b.props + o.props,
            map n | n in b.kids.Keys + o.kids.Keys ::
              if n in o.kids then MapMerge(if n in b.kids then b.kids[n] else EMPTY, o.kids[n]) else b.kids[n])
  }

  // -------------------------------------------------------------- they agree

  lemma {:induction false} PropMapPut(props: seq<PropVal>, name: seq<byte>, val: seq<byte>)
    ensures PropMap(PutProp(props, name, val)) == PropMap(props)[name := val]
  {
    if props != [] && props[0].name != name {
      PropMapPut(props[1..], name, val);
      var p := PropPos(props, name);
      if p < |props| {
        assert PutProp(props, name, val)[1..] == PutProp(props[1..], name, val);
      }
    }
  }

  predicate DistinctProps(props: seq<PropVal>) {
    forall i, j :: 0 <= i < j < |props| ==> props[i].name != props[j].name
  }

  predicate DistinctKids(kids: seq<Tree>) {
    forall i, j :: 0 <= i < j < |kids| ==> kids[i].name != kids[j].name
  }

  /** No node of the tree has two properties or two children of one name. */
  predicate Distinct(t: Tree)
    decreases t
  {
    DistinctProps(t.props) && DistinctKids(t.kids) && forall i :: 0 <= i < |t.kids| ==> Distinct(t.kids[i])
  }

  lemma {:induction false} PropMapAppend(props: seq<PropVal>, p: PropVal)
    requires DistinctProps(props + [p])
    ensures PropMap(props + [p]) == PropMap(props)[p.name := p.val]
    ensures p.name !in PropMap(props)
  {
    if props != [] {
      assert (props + [p])[0] == props[0] && (props + [p])[1..] == props[1..] + [p];
      assert (props + [p])[|props|] == p;
      PropMapAppend(props[1..], p);
    } else {
      assert [p][1..] == [];
    }
  }

  lemma {:induction false} MergePropsMap(props: seq<PropVal>, o: seq<PropVal>)
    requires DistinctProps(o)
    ensures PropMap(MergeProps(props, o)) == PropMap(props) + PropMap(o)
  {
    hide PropMap, PutProp, DistinctProps;
    if o == [] {
      NoPropMap(props);
    } else {
      var pre, last := o[..|o| - 1], o[|o| - 1];
      assert o == pre + [last];
      DistinctPrefix(pre, last);
      MergePropsMap(props, pre);
      PropMapPut(MergeProps(props, pre), last.name, last.val);
      PropMapAppend(pre, last);
      MapSumPut(PropMap(props), PropMap(pre), last.name, last.val);
    }
  }

  lemma NoPropMap(props: seq<PropVal>)
    ensures PropMap(props) + PropMap([]) == PropMap(props)
  {
  }

  lemma DistinctPrefix(pre: seq<PropVal>, last: PropVal)
    requires DistinctProps(pre + [last])
    ensures DistinctProps(pre)
  {
    var o := pre + [last];
    assert forall i :: 0 <= i < |pre| ==> pre[i] == o[i];
  }

  lemma MapSumPut<K, V>(a: map<K, V>, b: map<K, V>, k: K, v: V)
    ensures (a + b)[k := v] == a + b[k := v]
  {
  }

  /** The first child of exactly that name, or an empty one. */
  function KidNamed(kids: seq<Tree>, name: seq<byte>): Tree {
    if kids == [] then Tree(name, [], [])
    else if kids[0].name == name then kids[0]
    else KidNamed(kids[1..], name)
  }

  /** Wherever an overlay name is looked up, only the very same name answers. */
  predicate Exact(b: Tree, o: Tree)
    decreases o
  {
    forall i :: 0 <= i < |o.kids| ==>
      && (forall j :: 0 <= j < |b.kids| && NameEq(b.kids[j].name, o.kids[i].name) ==> b.kids[j].name == o.kids[i].name)
      && (forall j :: 0 <= j < |o.kids| && NameEq(o.kids[j].name, o.kids[i].name) ==> o.kids[j].name == o.kids[i].name)
      && Exact(KidNamed(b.kids, o.kids[i].name), o.kids[i])
  }

  lemma {:induction false} KidMapNamed(kids: seq<Tree>, name: seq<byte>)
    ensures name in KidMap(kids) <==> exists j :: 0 <= j < |kids| && kids[j].name == name
    ensures MapOf(KidNamed(kids, name)) == if name in KidMap(kids) then KidMap(kids)[name] else EMPTY
  {
    if kids == [] {
    } else {
      KidMapNamed(kids[1..], name);
      if kids[0].name != name && name in KidMap(kids) {
        var j :| 0 <= j < |kids[1..]| && kids[1..][j].name == name;
        assert kids[j + 1].name == name;
      }
      if exists j :: 0 <= j < |kids| && kids[j].name == name {
        var j :| 0 <= j < |kids| && kids[j].name == name;
        assert j > 0 ==> kids[1..][j - 1].name == name;
      }
    }
  }

  /** Replacing the child at the first position of its name. */
  lemma {:induction false} KidMapPut(kids: seq<Tree>, j: nat, t: Tree)
    requires j < |kids| && kids[j].name == t.name && forall m :: 0 <= m < j ==> kids[m].name != t.name
    ensures KidMap(kids[j := t]) == KidMap(kids)[t.name := MapOf(t)]
    ensures forall n :: n != t.name ==> KidNamed(kids[j := t], n) == KidNamed(kids, n)
    ensures KidNamed(kids, t.name) == kids[j]
  {
    if j == 0 {
    } else {
      assert kids[j := t][1..] == kids[1..][j - 1 := t];
      KidMapPut(kids[1..], j - 1, t);
    }
  }

  lemma {:induction false} KidMapAppend(kids: seq<Tree>, t: Tree)
    requires DistinctKids(kids + [t])
    ensures KidMap(kids + [t]) == KidMap(kids)[t.name := MapOf(t)]
    ensures t.name !in KidMap(kids)
  {
    if kids != [] {
      assert (kids + [t])[0] == kids[0] && (kids + [t])[1..] == kids[1..] + [t];
      assert (kids + [t])[|kids|] == t;
      KidMapAppend(kids[1..], t);
    } else {
      assert [t][1..] == [];
    }
  }

  /** The kids part of MapMerge. */
  function MapMergeKids(b: map<seq<byte>, MapTree>, o: map<seq<byte>, MapTree>): map<seq<byte>, MapTree> {
    map n | n in b.Keys + o.Keys ::
      if n in o then MapMerge(if n in b then b[n] else EMPTY, o[n]) else b[n]
  }

  /** One overlay child: merged by name into a list of kids where only its own name answers to it. */
  lemma MergeKidMap(kids: seq<Tree>, o: Tree)
    requires forall j :: 0 <= j < |kids| && NameEq(kids[j].name, o.name) ==> kids[j].name == o.name
    requires MapOf(Merge(KidNamed(kids, o.name), o)) == MapMerge(MapOf(KidNamed(kids, o.name)), MapOf(o))
    ensures KidMap(MergeKid(kids, o)) == KidMap(kids)[o.name := MapMerge(MapOf(KidNamed(kids, o.name)), MapOf(o))]
    ensures forall n :: n != o.name ==> KidNamed(MergeKid(kids, o), n) == KidNamed(kids, n)
    ensures forall j :: 0 <= j < |MergeKid(kids, o)| ==>
      MergeKid(kids, o)[j].name == o.name || exists m :: 0 <= m < |kids| && kids[m].name == MergeKid(kids, o)[j].name
  {
    var j := KidPos(kids, o.name);
    if j < |kids| {
      forall m | 0 <= m < j ensures kids[m].name != o.name {
        assert NameEq(o.name, o.name);
      }
      KidMapPut(kids, j, Merge(kids[j], o));
    } else {
      assert NameEq(o.name, o.name);
      NotNamed(kids, o.name);
      var upd := [Merge(Tree(o.name, [], []), o)] + kids;
      assert upd[1..] == kids;
    }
  }

  lemma {:induction false} NotNamed(kids: seq<Tree>, name: seq<byte>)
    requires forall j :: 0 <= j < |kids| ==> kids[j].name != name
    ensures KidNamed(kids, name) == Tree(name, [], [])
  {
    if kids == [] {
    } else {
      NotNamed(kids[1..], name);
    }
  }

  predicate NamesFrom(kids: seq<Tree>, a: seq<Tree>, b: seq<Tree>) {
    forall j :: 0 <= j < |kids| ==>
      (exists m :: 0 <= m < |a| && a[m].name == kids[j].name) || (exists m :: 0 <= m < |b| && b[m].name == kids[j].name)
  }

  lemma {:induction false} MergeKidsMap(b: Tree, o: Tree, os: seq<Tree>)
    requires Exact(b, o) && Distinct(o) && os <= o.kids
    ensures KidMap(MergeKids(b.kids, os)) == MapMergeKids(KidMap(b.kids), KidMap(os))
    ensures forall n :: n !in KidMap(os) ==> KidNamed(MergeKids(b.kids, os), n) == KidNamed(b.kids, n)
    ensures NamesFrom(MergeKids(b.kids, os), b.kids, os)
    decreases o, 0, |os|
  {
    if os == [] {
    } else {
      var i := |os| - 1;
      var pre, x := os[..i], os[i];
      assert os == pre + [x] && x == o.kids[i];
      MergeKidsMap(b, o, pre);
      var kids := MergeKids(b.kids, pre);
      KidMapAppend(pre, x);
      forall j | 0 <= j < |kids| && NameEq(kids[j].name, x.name) ensures kids[j].name == x.name {
        OnlyExact(b, o, pre, i, kids, j);
      }
      MergeMeans(KidNamed(b.kids, x.name), x);
      MergeKidMap(kids, x);
      MapMergeStep(b.kids, pre, x, kids);
      NamesStep(kids, b.kids, pre, x, MergeKid(kids, x));
    }
  }

  lemma OnlyExact(b: Tree, o: Tree, pre: seq<Tree>, i: nat, kids: seq<Tree>, j: nat)
    requires Exact(b, o) && i < |o.kids| && pre <= o.kids && NamesFrom(kids, b.kids, pre)
    requires j < |kids| && NameEq(kids[j].name, o.kids[i].name)
    ensures kids[j].name == o.kids[i].name
  {
    if m :| 0 <= m < |b.kids| && b.kids[m].name == kids[j].name {
    } else {
      var m :| 0 <= m < |pre| && pre[m].name == kids[j].name;
      assert o.kids[m].name == kids[j].name;
    }
  }

  lemma MapMergeStep(b: seq<Tree>, pre: seq<Tree>, x: Tree, kids: seq<Tree>)
    requires x.name !in KidMap(pre) && KidMap(kids) == MapMergeKids(KidMap(b), KidMap(pre))
    requires KidNamed(kids, x.name) == KidNamed(b, x.name)
    ensures KidMap(kids)[x.name := MapMerge(MapOf(KidNamed(kids, x.name)), MapOf(x))]
         == MapMergeKids(KidMap(b), KidMap(pre)[x.name := MapOf(x)])
  {
    hide KidMap, MapMerge, MapOf, MapMergeKids;
    KidMapNamed(b, x.name);
    MapStep(KidMap(b), KidMap(pre), x.name, MapOf(x));
  }

  lemma MapStep(b: map<seq<byte>, MapTree>, o: map<seq<byte>, MapTree>, n: seq<byte>, t: MapTree)
    requires n !in o
    ensures MapMergeKids(b, o)[n := MapMerge(if n in b then b[n] else EMPTY, t)] == MapMergeKids(b, o[n := t])
  {
    hide MapMerge;
  }

  lemma NamesStep(kids: seq<Tree>, b: seq<Tree>, pre: seq<Tree>, x: Tree, r: seq<Tree>)
    requires NamesFrom(kids, b, pre)
    requires forall j :: 0 <= j < |r| ==>
      r[j].name == x.name || exists m :: 0 <= m < |kids| && kids[m].name == r[j].name
    ensures NamesFrom(r, b, pre + [x])
  {
    var os := pre + [x];
    forall j | 0 <= j < |r|
      ensures (exists m :: 0 <= m < |b| && b[m].name == r[j].name)
        || (exists m :: 0 <= m < |os| && os[m].name == r[j].name)
    {
      if r[j].name == x.name {
        assert os[|pre|].name == r[j].name;
      } else {
        var m :| 0 <= m < |kids| && kids[m].name == r[j].name;
        if p :| 0 <= p < |pre| && pre[p].name == kids[m].name {
          assert os[p].name == r[j].name;
        } else {
          var q :| 0 <= q < |b| && b[q].name == kids[m].name;
          assert b[q].name == r[j].name;
        }
      }
    }
    assert forall j :: 0 <= j < |r| ==>
      (exists m :: 0 <= m < |b| && b[m].name == r[j].name) || (exists m :: 0 <= m < |os| && os[m].name == r[j].name);
    assert NamesFrom(r, b, os);
  }

  /** Merging node by node is the recursive merge by name. */
  lemma {:induction false} MergeMeans(b: Tree, o: Tree)
    requires Exact(b, o) && Distinct(o)
    ensures MapOf(Merge(b, o)) == MapMerge(MapOf(b), MapOf(o))
    decreases o, 1
  {
    MergePropsMap(b.props, o.props);
    MergeKidsMap(b, o, o.kids);
    assert MapMerge(MapOf(b), MapOf(o)).kids == MapMergeKids(KidMap(b.kids), KidMap(o.kids));
  }
}
