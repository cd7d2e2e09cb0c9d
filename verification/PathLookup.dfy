/** fdt_path_offset_namelen, and the round trip with fdt_get_path. */
module PathLookup {
  import opened Bytes
  import opened Tokens
  import opened Trees
  import opened Views
  import opened Walks
  import opened Scan
  import opened Lookup
  import opened Splices
  import opened NodeEdits
  import opened Ancestry
  import opened Paths

  function SkipSlashes(path: seq<byte>, p: nat): (q: nat)
    requires p <= |path|
    ensures p <= q <= |path| && (q < |path| ==> path[q] != SLASH)
    decreases |path| - p
  {
    if p < |path| && path[p] == SLASH then SkipSlashes(path, p + 1) else p
  }

  function NextSlash(path: seq<byte>, p: nat): (q: nat)
    requires p <= |path|
    ensures p <= q <= |path| && (q < |path| ==> path[q] == SLASH)
    ensures forall m :: p <= m < q ==> path[m] != SLASH
    decreases |path| - p
  {
    if p < |path| && path[p] != SLASH then NextSlash(path, p + 1) else p
  }

  /** The components of a path: the runs between slashes. */
  function Components(path: seq<byte>, p: nat): seq<seq<byte>>
    requires p <= |path|
    decreases |path| - p
  {
    var a := SkipSlashes(path, p);
    if a == |path| then [] else [path[a..NextSlash(path, a)]] + Components(path, NextSlash(path, a))
  }

  lemma ComponentsAt(path: seq<byte>, p: nat)
    requires p <= |path|
    ensures var a := SkipSlashes(path, p);
      Components(path, p) ==
      if a == |path| then [] else [path[a..NextSlash(path, a)]] + Components(path, NextSlash(path, a))
  {
    hide SkipSlashes, NextSlash;
  }

  /** Going down from a list along components, each time to the first child that answers. */
  function Descend(items: seq<Item>, comps: seq<seq<byte>>): Option<seq<nat>>
    decreases |comps|
  {
    if comps == [] then Some([]) else
    match KidIndex(items, comps[0])
    case Found(m) =>
      var rest := Descend(items[m].items, comps[1..]);
      if rest.None? then None else Some([m] + rest.value)
    case _ => None
  }

  /** The node at address g, then down along components. */
  function Resolve(top: seq<Item>, g: seq<nat>, comps: seq<seq<byte>>): Option<seq<nat>>
    requires ValidPath(top, g)
  {
    var rest := Descend(Sub(top, g), comps);
    if rest.None? then None else Some(g + rest.value)
  }

  lemma {:induction false} DescendAddr(items: seq<Item>, comps: seq<seq<byte>>)
    requires comps != [] && Descend(items, comps).Some?
    ensures Addr(items, Descend(items, comps).value)
    decreases |comps|
  {
    var m := KidIndex(items, comps[0]).index;
    var g := Descend(items[m].items, comps[1..]).value;
    assert ([m] + g)[1..] == g;
    if |comps| <= 1 {
    } else {
      DescendAddr(items[m].items, comps[1..]);
    }
  }

  lemma {:induction false} AddrPath(items: seq<Item>, g: seq<nat>, h: seq<nat>)
    requires Addr(items, g) && Addr(ItemsOf(items, g), h)
    ensures Addr(items, g + h)
    decreases |g|
  {
    assert (g + h)[1..] == g[1..] + h;
    if |g| <= 1 {
    } else {
      AddrPath(items[g[0]].items, g[1..], h);
    }
  }

  /** The items of the node at an address. */
  function ItemsOf(items: seq<Item>, g: seq<nat>): (r: seq<Item>)
    requires Addr(items, g)
    ensures ValidPath(items, g) && r == Sub(items, g)
  {
    if |g| == 1 then
      assert g[1..] == [];
      items[g[0]].items
    else ItemsOf(items[g[0]].items, g[1..])
  }

  /** One step down keeps the rest of the resolution. */
  lemma ResolveStep(top: seq<Item>, g: seq<nat>, comps: seq<seq<byte>>)
    requires Addr(top, g) && ValidPath(top, g) && comps != []
    ensures var f := KidIndex(Sub(top, g), comps[0]);
      if f.Found? then
        && Addr(top, g + [f.index]) && ValidPath(top, g + [f.index])
        && Resolve(top, g, comps) == Resolve(top, g + [f.index], comps[1..])
      else Resolve(top, g, comps) == None
  {
    var items := ItemsOf(top, g);
    var f := KidIndex(items, comps[0]);
    if f.Found? {
      var m := f.index;
      AddrPath(top, g, [m]);
      assert ItemsOf(top, g + [m]) == items[m].items by { SubStep(top, g, m); }
      var rest := Descend(items[m].items, comps[1..]);
      if rest.Some? {
        assert g + ([m] + rest.value) == g + [m] + rest.value;
      }
    }
  }

  lemma {:induction false} SubStep(items: seq<Item>, g: seq<nat>, m: nat)
    requires Addr(items, g) && Addr(items, g + [m])
    ensures m < |ItemsOf(items, g)| && ItemsOf(items, g)[m].Node?
    ensures ItemsOf(items, g + [m]) == ItemsOf(items, g)[m].items
    decreases |g|
  {
    assert (g + [m])[1..] == g[1..] + [m];
    if |g| <= 1 {
    } else {
      SubStep(items[g[0]].items, g[1..], m);
    }
  }

  /** fdt_subnode_offset_namelen from the node at an address. */
  lemma StepOffset(top: seq<Item>, g: seq<nat>, name: seq<byte>)
    requires Addr(top, g) && ValidPath(top, g)
    ensures var ts, i := BlockToks(top), Idx(top, g);
      && i < |ts| && ts[i].Begin? && OffAt(top, g) == Off(ts, i)
    ensures var ts, i, f := BlockToks(top), Idx(top, g), KidIndex(Sub(top, g), name);
      if f.Found? then
        && Addr(top, g + [f.index]) && ChildFrom(ts, i + 1, 0, name) == Found(Idx(top, g + [f.index]))
        && OffAt(top, g + [f.index]) == Off(ts, Idx(top, g + [f.index]))
      else ChildFrom(ts, i + 1, 0, name) == Missing
  {
    hide Before, Toks, TreeWalk, HasAt, Off, EncAll, Walk, WalkEnd, ChildFrom, BlockToks, Sub, FirstAnswer;
    AddrInBlock(top, g);
    AddrNode(top, g);
    var path, k := g[..|g| - 1], g[|g| - 1];
    assert path + [k] == g;
    ChildOffset(top, path, k, name);
    var f := KidIndex(Sub(top, g), name);
    if f.Found? {
      assert ItemsOf(top, g) == Sub(top, g);
      AddrPath(top, g, [f.index]);
      AddrNode(top, g + [f.index]);
      assert (g + [f.index])[..|g|] == g;
    }
  }

  /** Where a path leads: the offset of a node, or an error. */
  ghost predicate LeadsTo(top: seq<Item>, f: Option<seq<nat>>, offset: int) {
    match f
    case Some(g) => Addr(top, g) && offset == OffAt(top, g)
    case None => offset == -ERR_NOTFOUND
  }

  /** The loop of fdt_path_offset_namelen: down from a node along the components from p on. */
  method Follow(s: seq<byte>, path: seq<byte>, start: nat, first: int, ghost strtab: seq<byte>, ghost top: seq<Item>,
                ghost f: seq<nat>)
    returns (offset: int)
    requires Represents(s, strtab, top) && start <= |path|
    requires first >= 0 ==> Addr(top, f) && ValidPath(top, f) && first == OffAt(top, f)
    ensures first < 0 ==> offset == first
    ensures first >= 0 ==> LeadsTo(top, Resolve(top, f, Components(path, start)), offset)
  {
    hide TagAt, EncAll, Off, Ordered, Named, Toks, Idx, Addr, ValidPath, KidIndex, BlockToks, ChildFrom, Resolve, Sub,
      ChildAnswers;
    ghost var g := f;
    var p := start;
    offset := first;
    while p < |path|
      invariant 0 <= p <= |path|
      invariant first < 0 ==> offset == first
      invariant first >= 0 ==> Addr(top, g) && ValidPath(top, g) && offset == OffAt(top, g)
      invariant first >= 0 ==> Resolve(top, f, Components(path, start)) == Resolve(top, g, Components(path, p))
      decreases |path| - p
    {
      ghost var p0 := p;
      while path[p] == SLASH
        invariant p0 <= p < |path| && SkipSlashes(path, p) == SkipSlashes(path, p0)
        decreases |path| - p
      {
        p := p + 1;
        if p == |path| {
          if first >= 0 {
            ResolveEnd(top, g);
          }
          return;
        }
      }
      var q := p;
      while q < |path| && path[q] != SLASH
        invariant p <= q <= |path| && NextSlash(path, q) == NextSlash(path, p) && (q > p || path[p] != SLASH)
      {
        q := q + 1;
      }
      var name := path[p..q];
      ghost var comps := Components(path, p0);
      assert comps == [name] + Components(path, q) && comps[1..] == Components(path, q);
      if first >= 0 {
        StepOffset(top, g, name);
        ResolveStep(top, g, comps);
      }
      offset := SubnodeOffset(s, offset, name, BlockToks(top), if first < 0 then -1 else Idx(top, g));
      if offset < 0 {
        return;
      }
      g := g + [KidIndex(Sub(top, g), name).index];
      p := q;
    }
    if first >= 0 {
      ResolveEnd(top, g);
    }
  }

  /** fdt_path_offset of an absolute path. */
  method AbsoluteOffset(s: seq<byte>, path: seq<byte>, ghost strtab: seq<byte>, ghost top: seq<Item>)
    returns (offset: int)
    requires Represents(s, strtab, top) && SingleRoot(top)
    ensures Addr(top, [0]) && ValidPath(top, [0])
    ensures LeadsTo(top, Resolve(top, [0], Components(path, 0)), offset)
  {
    hide Addr, ValidPath, Resolve, Components;
    RootAddr(top);
    offset := Follow(s, path, 0, 0, strtab, top, [0]);
  }

  lemma ResolveEnd(top: seq<Item>, g: seq<nat>)
    requires ValidPath(top, g)
    ensures Resolve(top, g, []) == Some(g)
  {
    assert g + [] == g;
  }

  lemma RootAddr(top: seq<Item>)
    requires SingleRoot(top)
    ensures Addr(top, [0]) && ValidPath(top, [0]) && OffAt(top, [0]) == 0
  {
    RootOffset(top, [0]);
    assert [0][..1] == [0] && [0][1..] == [];
  }

  // ----------------------------------------------------------- the round trip

  /** A slash and a name, for each name. */
  function Slashed(names: seq<seq<byte>>): seq<byte> {
    if names == [] then [] else [SLASH] + names[0] + Slashed(names[1..])
  }

  lemma {:induction false} SlashedSnoc(names: seq<seq<byte>>, n: seq<byte>)
    ensures Slashed(names + [n]) == Slashed(names) + [SLASH] + n
  {
    if names == [] {
      assert ([] + [n])[1..] == [] && ([] + [n])[0] == n;
      assert [SLASH] + n + [] == [] + [SLASH] + n;
    } else {
      assert (names + [n])[1..] == names[1..] + [n];
      SlashedSnoc(names[1..], n);
      assert [SLASH] + names[0] + (Slashed(names[1..]) + [SLASH] + n)
        == [SLASH] + names[0] + Slashed(names[1..]) + [SLASH] + n;
    }
  }

  /** The path of a node below a root with no name. */
  lemma {:induction false} PathSlashed(names: seq<seq<byte>>)
    requires names != [] && names[0] == []
    ensures Join(names) == Slashed(names[1..]) + [SLASH]
    decreases |names|
  {
    var a, n := names[..|names| - 1], names[|names| - 1];
    if |names| == 1 {
      assert a == [] && names[1..] == [];
      assert [] + n + [SLASH] == [] + [SLASH];
    } else {
      PathSlashed(a);
      assert names[1..] == a[1..] + [n];
      SlashedSnoc(a[1..], n);
    }
  }

  lemma NextSlashIs(path: seq<byte>, p: nat, q: nat)
    requires p <= q <= |path| && (q < |path| ==> path[q] == SLASH)
    requires forall m :: p <= m < q ==> path[m] != SLASH
    ensures NextSlash(path, p) == q
    decreases q - p
  {
    if p >= q {
    } else {
      NextSlashIs(path, p + 1, q);
    }
  }

  predicate Proper(names: seq<seq<byte>>) {
    forall m :: 0 <= m < |names| ==> names[m] != [] && SLASH !in names[m]
  }

  lemma SlashFree(path: seq<byte>, a: nat, n: seq<byte>, rest: seq<byte>)
    requires SLASH !in n && a <= |path| && path[a..] == n + rest
    ensures a + |n| <= |path| && path[a..a + |n|] == n && (rest != [] ==> a + |n| < |path| && path[a + |n|] == rest[0])
    ensures rest == [] ==> a + |n| == |path|
    ensures forall m :: a <= m < a + |n| ==> path[m] != SLASH
  {
    var w := path[a..];
    assert w[..|n|] == n && forall m :: a <= m < |path| ==> path[m] == w[m - a];
  }

  /** The component behind a slash. */
  lemma FirstComponent(path: seq<byte>, p: nat, n: seq<byte>, rest: seq<byte>)
    requires n != [] && SLASH !in n && (rest != [] ==> rest[0] == SLASH)
    requires p < |path| && path[p] == SLASH && path[p + 1..] == n + rest
    ensures var a := p + 1;
      SkipSlashes(path, p) == a && NextSlash(path, a) == a + |n| <= |path| && path[a..a + |n|] == n
  {
    var a := p + 1;
    SlashFree(path, a, n, rest);
    assert SkipSlashes(path, a) == a;
    NextSlashIs(path, a, a + |n|);
  }

  lemma SkipEnd(path: seq<byte>)
    ensures SkipSlashes(path, |path|) == |path|
  {
  }

  lemma {:induction false} ComponentsOf(before: seq<byte>, names: seq<seq<byte>>)
    requires Proper(names)
    ensures Components(before + Slashed(names), |before|) == names
    decreases |names|
  {
    hide SkipSlashes, NextSlash, Components;
    var path := before + Slashed(names);
    ComponentsAt(path, |before|);
    if names == [] {
      SkipEnd(path);
    } else {
      var n, rest := names[0], Slashed(names[1..]);
      assert path == before + [SLASH] + n + rest;
      assert path[|before| + 1..] == n + rest;
      FirstComponent(path, |before|, n, rest);
      ComponentsOf(before + [SLASH] + n, names[1..]);
      assert [n] + names[1..] == names;
    }
  }

  /** The components of the path that fdt_get_path writes are the names below the root. */
  lemma PathComponents(names: seq<seq<byte>>)
    requires names != [] && names[0] == [] && Proper(names[1..])
    ensures PathStr(names) != [] && PathStr(names)[0] == SLASH
    ensures Components(PathStr(names), 0) == names[1..]
  {
    PathSlashed(names);
    if |names| == 1 {
      assert PathStr(names) == [SLASH];
      assert SkipSlashes([SLASH], 0) == SkipSlashes([SLASH], 1) == 1;
    } else {
      assert PathStr(names) == Slashed(names[1..]) == [] + Slashed(names[1..]);
      ComponentsOf([], names[1..]);
    }
  }

  /** No earlier sibling answers to the name of a component. */
  predicate Unshadowed(items: seq<Item>, f: seq<nat>)
    requires Addr(items, f)
  {
    && (forall m :: 0 <= m < f[0] ==> !IsKid(items[m], items[f[0]].name))
    && (|f| > 1 ==> Unshadowed(items[f[0]].items, f[1..]))
  }

  /** Descending along a node's names leads to the node exactly when none is shadowed. */
  lemma {:induction false} DescendNames(items: seq<Item>, f: seq<nat>)
    requires Addr(items, f)
    ensures Descend(items, PathNames(items, f)) == Some(f) <==> Unshadowed(items, f)
    decreases |f|
  {
    var names, n := PathNames(items, f), items[f[0]];
    var k := KidIndex(items, n.name);
    assert IsKid(n, n.name);
    assert k.Found? && k.index <= f[0];
    var inner := names[1..];
    assert inner == if |f| == 1 then [] else PathNames(n.items, f[1..]);
    assert f == [f[0]] + f[1..];
    if k.index == f[0] {
      if |f| > 1 {
        DescendNames(n.items, f[1..]);
      }
    }
    var rest := Descend(items[k.index].items, inner);
    assert rest.Some? ==> ([k.index] + rest.value)[1..] == rest.value;
  }

  /**
   * The path round trip: looking up the path that fdt_get_path writes for a node gives that
   * node back exactly when no component of the path matches an earlier sibling.
   */
  lemma RoundTrip(top: seq<Item>, f: seq<nat>)
    requires SingleRoot(top) && Addr(top, f) && top[0].name == [] && Proper(PathNames(top, f)[1..])
    ensures PathStr(PathNames(top, f)) != [] && PathStr(PathNames(top, f))[0] == SLASH
    ensures ValidPath(top, [0])
    ensures Resolve(top, [0], Components(PathStr(PathNames(top, f)), 0)) == Some(f)
       <==> |f| == 1 || Unshadowed(top[0].items, f[1..])
  {
    hide Components, PathStr;
    RootAddr(top);
    InRoot(top, f);
    var names := PathNames(top, f);
    assert names[0] == [];
    PathComponents(names);
    assert Sub(top, [0]) == top[0].items by { assert [0][1..] == []; }
    if |f| == 1 {
      assert f == [0] && names[1..] == [];
      ResolveEnd(top, [0]);
    } else {
      assert names[1..] == PathNames(top[0].items, f[1..]);
      DescendNames(top[0].items, f[1..]);
      assert f == [0] + f[1..];
      var rest := Descend(top[0].items, names[1..]);
      assert rest.Some? ==> ([0] + rest.value)[1..] == rest.value;
    }
  }

  /**
   * A root with the children "a@0" and "a".  The path of the second is "/a", the first answers to that, and
   * looking the path up gives the first.
   */
  lemma ShadowedPath() returns (top: seq<Item>)
    ensures SingleRoot(top) && Addr(top, [0, 1]) && PathNames(top, [0, 1]) == [[], [97]] && ValidPath(top, [0])
    ensures Resolve(top, [0], Components(PathStr(PathNames(top, [0, 1])), 0)) == Some([0, 0])
  {
    hide Components, PathStr;
    var first, second := Node([97, 64, 48], [], []), Node([97], [0, 0], []);
    top := [Node([], [0, 0, 0], [first, second])];
    var f: seq<nat> := [0, 1];
    assert f[1..] == [1];
    PathComponents([[], [97]]);
    assert [[], [97]][1..] == [[97]] && [[97]][1..] == [];
    assert Sub(top, [0]) == [first, second] by { assert [0][1..] == []; }
    assert IsKid(first, [97]);
    assert KidIndex([first, second], [97]) == Found(0);
    assert Descend([], []) == Some([]) && Descend([first, second], [[97]]) == Some([0] + []);
    assert [0] + ([0] + []) == [0, 0];
  }
}
