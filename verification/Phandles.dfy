/**
 * Renumbering the phandles of an overlay: what overlay_adjust_node_phandles does to a tree,
 * and why the new phandles cannot meet those of the base tree.
 */
module Phandles {
  import opened Bytes
  import opened Tokens
  import opened Views
  import opened Lookup

  const ERR_BADPHANDLE := 6
  const ERR_NOPHANDLES := 17
  const NO_PHANDLE := 0xFFFF_FFFF

  /** "phandle" */
  const PHANDLE: seq<byte> := [112, 104, 97, 110, 100, 108, 101]

  /** "linux,phandle" */
  const LINUX_PHANDLE: seq<byte> := [108, 105, 110, 117, 120, 44, 112, 104, 97, 110, 100, 108, 101]

  /** The value of the first property of a name, if it is a single cell. */
  function CellOf(props: seq<PropVal>, name: seq<byte>): Option<u32> {
    var p := PropPos(props, name);
    if p < |props| && |props[p].val| == 4 then Some(Word(props[p].val, 0)) else None
  }

  predicate Holder(t: Tree) {
    CellOf(t.props, PHANDLE).Some? || CellOf(t.props, LINUX_PHANDLE).Some?
  }

  /** fdt_get_phandle */
  function Phandle(t: Tree): u32 {
    if CellOf(t.props, PHANDLE).Some? then CellOf(t.props, PHANDLE).value
    else if CellOf(t.props, LINUX_PHANDLE).Some? then CellOf(t.props, LINUX_PHANDLE).value
    else 0
  }

  function Max(a: u32, b: u32): u32 {
    if a >= b then a else b
  }

  /** The largest phandle of a tree; nodes without one count as 0. */
  function MaxPhandle(t: Tree): u32
    decreases t, 0
  {
    Max(Phandle(t), MaxKids(t.kids))
  }

  function MaxKids(kids: seq<Tree>): u32
    decreases kids, 1
  {
    if kids == [] then 0 else Max(MaxPhandle(kids[0]), MaxKids(kids[1..]))
  }

  lemma {:induction false} KidBelowMax(kids: seq<Tree>, k: nat)
    requires k < |kids|
    ensures MaxPhandle(kids[k]) <= MaxKids(kids)
  {
    if k == 0 {
    } else {
      KidBelowMax(kids[1..], k - 1);
    }
  }

  /** No node has a larger phandle. */
  lemma {:induction false} MaxIsBound(t: Tree, path: seq<nat>)
    requires ValidKidPath(t, path)
    ensures Phandle(Subtree(t, path)) <= MaxPhandle(t)
  {
    if path == [] {
    } else {
      KidBelowMax(t.kids, path[0]);
      MaxIsBound(t.kids[path[0]], path[1..]);
    }
  }

  /** Some node has it. */
  lemma {:induction false} MaxIsTaken(t: Tree) returns (path: seq<nat>)
    ensures ValidKidPath(t, path) && Phandle(Subtree(t, path)) == MaxPhandle(t)
    decreases t, 0
  {
    if Phandle(t) == MaxPhandle(t) {
      return [];
    }
    assert MaxPhandle(t) == Max(Phandle(t), MaxKids(t.kids));
    assert t.kids == [] ==> MaxKids(t.kids) == 0;
    var k, rest := MaxKidTaken(t.kids);
    path := [k] + rest;
    assert path[1..] == rest;
  }

  lemma {:induction false} MaxKidTaken(kids: seq<Tree>) returns (k: nat, path: seq<nat>)
    requires kids != [] && MaxKids(kids) > 0
    ensures k < |kids| && ValidKidPath(kids[k], path) && Phandle(Subtree(kids[k], path)) == MaxKids(kids)
    decreases kids, 1
  {
    if MaxPhandle(kids[0]) == MaxKids(kids) {
      path := MaxIsTaken(kids[0]);
      k := 0;
    } else {
      k, path := MaxKidTaken(kids[1..]);
      k := k + 1;
    }
  }

  // ------------------------------------------------------------- the shift

  /** overlay_phandle_add_offset: the answer, and the properties afterwards. */
  function ShiftProp(props: seq<PropVal>, name: seq<byte>, delta: u32): (int, seq<PropVal>) {
    var p := PropPos(props, name);
    if p == |props| then (-ERR_NOTFOUND, props)
    else if |props[p].val| != 4 then (-ERR_BADPHANDLE, props)
    else
      var w: nat := Word(props[p].val, 0);
      if w + delta >= NO_PHANDLE then (-ERR_NOPHANDLES, props)
      else (0, PutProp(props, name, Be32(w + delta)))
  }

  /** Both phandle properties of a node; either may be missing. */
  function ShiftProps(props: seq<PropVal>, delta: u32): (int, seq<PropVal>) {
    var a := ShiftProp(props, PHANDLE, delta);
    if a.0 != 0 && a.0 != -ERR_NOTFOUND then a else
    var b := ShiftProp(a.1, LINUX_PHANDLE, delta);
    if b.0 == -ERR_NOTFOUND then (0, b.1) else b
  }

  /** overlay_adjust_node_phandles: the answer, and the tree as far as it has been shifted. */
  function Shift(t: Tree, delta: u32): (int, Tree)
    decreases t, 0
  {
    var p := ShiftProps(t.props, delta);
    if p.0 != 0 then (p.0, Tree(t.name, p.1, t.kids)) else
    var k := ShiftKids(t.kids, delta);
    (k.0, Tree(t.name, p.1, k.1))
  }

  function ShiftKids(kids: seq<Tree>, delta: u32): (r: (int, seq<Tree>))
    ensures |r.1| == |kids|
    decreases kids, 1
  {
    if kids == [] then (0, []) else
    var k := Shift(kids[0], delta);
    if k.0 != 0 then (k.0, [k.1] + kids[1..]) else
    var rest := ShiftKids(kids[1..], delta);
    (rest.0, [k.1] + rest.1)
  }

  /** Shifting goes from child to child. */
  lemma {:induction false} ShiftKidsSplit(a: seq<Tree>, b: seq<Tree>, delta: u32)
    requires ShiftKids(a, delta).0 == 0
    ensures ShiftKids(a + b, delta) == (ShiftKids(b, delta).0, ShiftKids(a, delta).1 + ShiftKids(b, delta).1)
  {
    hide Shift;
    if a == [] {
      assert a + b == b && [] + ShiftKids(b, delta).1 == ShiftKids(b, delta).1;
    } else {
      ShiftKidsSplit(a[1..], b, delta);
      assert (a + b)[0] == a[0] && (a + b)[1..] == a[1..] + b;
      Assoc([Shift(a[0], delta).1], ShiftKids(a[1..], delta).1, ShiftKids(b, delta).1);
    }
  }

  lemma WordOfBe32(w: u32)
    ensures Word(Be32(w), 0) == w
  {
    hide Be32;
    assert Be32(w)[0..4] == Be32(w);
    WordBe32(Be32(w), 0, w);
  }

  /** Setting a property that is there changes what is found under its own name only. */
  lemma PutThere(props: seq<PropVal>, name: seq<byte>, val: seq<byte>, other: seq<byte>)
    requires PropPos(props, name) < |props|
    ensures var q, r := PropPos(props, other), PutProp(props, name, val);
      && |r| == |props| && PropPos(r, other) == q
      && (q < |props| ==> r[q] == if other == name then PropVal(name, val) else props[q])
  {
    PropPosAt(PutProp(props, name, val), other, PropPos(props, other));
  }

  /** A node's phandle property, shifted: it holds the sum, which is a proper phandle. */
  lemma ShiftPropIs(props: seq<PropVal>, name: seq<byte>, delta: u32)
    ensures var s := ShiftProp(props, name, delta);
      && (s.0 == 0 ==>
            && CellOf(props, name).Some? && CellOf(props, name).value + delta < NO_PHANDLE
            && CellOf(s.1, name) == Some(CellOf(props, name).value + delta))
      && (s.0 == -ERR_NOTFOUND ==> CellOf(s.1, name).None? && s.1 == props)
  {
    hide Be32, Word, PutProp;
    if ShiftProp(props, name, delta).0 == 0 {
      var w := Word(props[PropPos(props, name)].val, 0) + delta;
      PutThere(props, name, Be32(w), name);
      WordOfBe32(w);
    }
  }

  /** It leaves every property of another name alone. */
  lemma ShiftPropOther(props: seq<PropVal>, name: seq<byte>, delta: u32, other: seq<byte>)
    requires other != name
    ensures var r, p := ShiftProp(props, name, delta).1, PropPos(props, other);
      |r| == |props| && PropPos(r, other) == p && (p < |props| ==> r[p] == props[p])
  {
    hide Be32, Word, PutProp;
    var p := PropPos(props, name);
    if p < |props| && |props[p].val| == 4 && Word(props[p].val, 0) + delta < NO_PHANDLE {
      PutThere(props, name, Be32(Word(props[p].val, 0) + delta), other);
    }
  }

  /** A node that has been shifted without error: a holder's phandle is the sum, another node has none. */
  lemma NodeShifted(t: Tree, n: Tree, delta: u32)
    requires ShiftProps(t.props, delta).0 == 0 && n.props == ShiftProps(t.props, delta).1
    ensures Holder(n) == Holder(t)
    ensures Phandle(n) == if Holder(t) then Phandle(t) + delta else 0
    ensures Phandle(n) < NO_PHANDLE
  {
    hide ShiftProp, CellOf;
    var a := ShiftProp(t.props, PHANDLE, delta);
    ShiftPropIs(t.props, PHANDLE, delta);
    ShiftPropIs(a.1, LINUX_PHANDLE, delta);
    ShiftPropOther(t.props, PHANDLE, delta, LINUX_PHANDLE);
    ShiftPropOther(a.1, LINUX_PHANDLE, delta, PHANDLE);
    SameCell(t.props, a.1, LINUX_PHANDLE);
    SameCell(a.1, ShiftProp(a.1, LINUX_PHANDLE, delta).1, PHANDLE);
    assert CellOf(t.props, LINUX_PHANDLE) == CellOf(a.1, LINUX_PHANDLE);
  }

  lemma SameCell(p: seq<PropVal>, q: seq<PropVal>, name: seq<byte>)
    requires PropPos(q, name) == PropPos(p, name) && |q| == |p|
    requires PropPos(p, name) < |p| ==> q[PropPos(p, name)] == p[PropPos(p, name)]
    ensures CellOf(q, name) == CellOf(p, name)
  {
  }

  lemma {:induction false} KidShifted(kids: seq<Tree>, delta: u32, k: nat)
    requires ShiftKids(kids, delta).0 == 0 && k < |kids|
    ensures Shift(kids[k], delta).0 == 0 && ShiftKids(kids, delta).1[k] == Shift(kids[k], delta).1
  {
    hide Shift;
    if k == 0 {
    } else {
      KidShifted(kids[1..], delta, k - 1);
    }
  }

  /** A successful shift shifts every node in its place. */
  lemma {:induction false} ShiftedAt(t: Tree, delta: u32, path: seq<nat>)
    requires Shift(t, delta).0 == 0 && ValidKidPath(t, path)
    ensures ValidKidPath(Shift(t, delta).1, path)
    ensures Shift(Subtree(t, path), delta) == (0, Subtree(Shift(t, delta).1, path))
    decreases |path|
  {
    hide ShiftProps;
    if path == [] {
    } else {
      KidShifted(t.kids, delta, path[0]);
      ShiftedAt(t.kids[path[0]], delta, path[1..]);
    }
  }

  // -------------------------------------------------------------- when it fails

  /** A phandle property that can be shifted: absent, or a cell with room for the sum. */
  predicate Fits(props: seq<PropVal>, name: seq<byte>, delta: u32) {
    PropPos(props, name) < |props| ==> CellOf(props, name).Some? && CellOf(props, name).value + delta < NO_PHANDLE
  }

  predicate AllFit(t: Tree, delta: u32)
    decreases t
  {
    && Fits(t.props, PHANDLE, delta) && Fits(t.props, LINUX_PHANDLE, delta)
    && forall k :: 0 <= k < |t.kids| ==> AllFit(t.kids[k], delta)
  }

  lemma PropsFit(props: seq<PropVal>, delta: u32)
    ensures ShiftProps(props, delta).0 == 0 <==> Fits(props, PHANDLE, delta) && Fits(props, LINUX_PHANDLE, delta)
  {
    hide Be32, Word;
    var a := ShiftProp(props, PHANDLE, delta);
    ShiftPropOther(props, PHANDLE, delta, LINUX_PHANDLE);
  }

  /** The shift succeeds exactly when every phandle property of the overlay fits. */
  lemma {:induction false} ShiftSucceeds(t: Tree, delta: u32)
    ensures Shift(t, delta).0 == 0 <==> AllFit(t, delta)
    decreases t, 0
  {
    hide ShiftProps, Fits;
    PropsFit(t.props, delta);
    KidsSucceed(t.kids, delta);
  }

  lemma {:induction false} KidsSucceed(kids: seq<Tree>, delta: u32)
    ensures ShiftKids(kids, delta).0 == 0 <==> forall k :: 0 <= k < |kids| ==> AllFit(kids[k], delta)
    decreases kids, 1
  {
    hide Shift, AllFit;
    if kids == [] {
    } else {
      ShiftSucceeds(kids[0], delta);
      KidsSucceed(kids[1..], delta);
    }
  }

  // ----------------------------------------------------------------- the theorem

  /**
   * After shifting the overlay o by the largest phandle of the base b: a node that had a phandle of at
   * least 1 has one above every phandle of the base and below 2^32 - 1, it is the old one plus the
   * shift, and two of them are equal exactly when they were.
   */
  lemma Renumbered(b: Tree, o: Tree, bp: seq<nat>, p: seq<nat>, q: seq<nat>)
    requires Shift(o, MaxPhandle(b)).0 == 0
    requires ValidKidPath(b, bp) && ValidKidPath(o, p) && ValidKidPath(o, q)
    requires Phandle(Subtree(o, p)) >= 1
    ensures var n := Shift(o, MaxPhandle(b)).1;
      && ValidKidPath(n, p) && ValidKidPath(n, q)
      && Phandle(Subtree(b, bp)) < Phandle(Subtree(n, p)) < NO_PHANDLE
      && Phandle(Subtree(n, p)) == Phandle(Subtree(o, p)) + MaxPhandle(b)
      && (Phandle(Subtree(o, q)) >= 1 ==>
            (Phandle(Subtree(n, p)) == Phandle(Subtree(n, q)) <==> Phandle(Subtree(o, p)) == Phandle(Subtree(o, q))))
  {
    hide ShiftProps, Holder, MaxPhandle;
    var d, n := MaxPhandle(b), Shift(o, MaxPhandle(b)).1;
    MaxIsBound(b, bp);
    ShiftedAt(o, d, p);
    ShiftedAt(o, d, q);
    NodeShifted(Subtree(o, p), Subtree(n, p), d);
    NodeShifted(Subtree(o, q), Subtree(n, q), d);
    HolderAtLeast(Subtree(o, p));
    if Phandle(Subtree(o, q)) >= 1 {
      HolderAtLeast(Subtree(o, q));
    }
  }

  lemma HolderAtLeast(t: Tree)
    requires Phandle(t) >= 1
    ensures Holder(t)
  {
  }

  /** The bound is sharp: a phandle property of value 0 becomes the phandle that a node of the base holds. */
  lemma ZeroCollides(b: Tree, o: Tree, p: seq<nat>) returns (bp: seq<nat>)
    requires Shift(o, MaxPhandle(b)).0 == 0 && ValidKidPath(o, p)
    requires Holder(Subtree(o, p)) && Phandle(Subtree(o, p)) == 0 && MaxPhandle(b) >= 1
    ensures ValidKidPath(b, bp) && ValidKidPath(Shift(o, MaxPhandle(b)).1, p)
    ensures Holder(Subtree(b, bp)) && Holder(Subtree(Shift(o, MaxPhandle(b)).1, p))
    ensures Phandle(Subtree(b, bp)) == Phandle(Subtree(Shift(o, MaxPhandle(b)).1, p))
  {
    hide ShiftProps, Holder, MaxPhandle;
    ShiftedAt(o, MaxPhandle(b), p);
    NodeShifted(Subtree(o, p), Subtree(Shift(o, MaxPhandle(b)).1, p), MaxPhandle(b));
    bp := MaxIsTaken(b);
    HolderAtLeast(Subtree(b, bp));
  }
}
