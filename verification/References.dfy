/**
 * Local references of an overlay (overlay_update_local_node_references): every cell listed under
 * __local_fixups__ is shifted like the phandles are, so that it names the same node afterwards.
 */
module References {
  import opened Bytes
  import opened Views
  import opened Lookup
  import opened Merges
  import opened PropEdits
  import opened Phandles

  const ERR_BADOVERLAY := 16

  // ---------------------------------------------------------------- one value

  /** Entry i of a list of offsets. */
  function Entry(list: seq<byte>, i: nat): u32
    requires 4 * i + 4 <= |list|
  {
    Word(list, 4 * i)
  }

  /** A value with the cell at x increased by delta, modulo 2^32; there is no cell to change behind its end. */
  function AddAt(val: seq<byte>, x: nat, delta: u32): (r: seq<byte>)
    ensures |r| == |val|
  {
    if x + 4 <= |val| then Put(val, x, Be32((Word(val, x) + delta) % U32)) else val
  }

  /** The loop over a list of offsets, from entry i on. */
  function FixWords(val: seq<byte>, list: seq<byte>, i: nat, delta: u32): (r: (int, seq<byte>))
    requires |list| % 4 == 0 && 4 * i <= |list|
    ensures |r.1| == |val|
    decreases |list| - 4 * i
  {
    if 4 * i == |list| then (0, val)
    else if !SaysFits(|val|, 4, Entry(list, i)) then (-ERR_BADOVERLAY, val)
    else FixWords(AddAt(val, Entry(list, i), delta), list, i + 1, delta)
  }

  /** Cells at these two offsets have no byte in common. */
  predicate Clear(x: nat, y: nat) {
    x + 4 <= y || y + 4 <= x
  }

  /** No cell is listed twice, nor do listed cells overlap. */
  predicate EachOnce(list: seq<byte>)
    requires |list| % 4 == 0
  {
    forall i, j :: 0 <= i < j < |list| / 4 ==> Clear(Entry(list, i), Entry(list, j))
  }

  lemma AddAtIs(val: seq<byte>, x: nat, delta: u32, y: nat)
    requires y + 4 <= |val|
    ensures x + 4 <= |val| ==> Word(AddAt(val, x, delta), x) == (Word(val, x) + delta) % U32
    ensures Clear(x, y) ==> Word(AddAt(val, x, delta), y) == Word(val, y)
  {
    hide Put, Be32, Word;
    if x + 4 > |val| {
      return;
    }
    var b := Be32((Word(val, x) + delta) % U32);
    PutSlice(val, x, b, x, x + 4);
    assert val[x..x] + b + val[x + 4..x + 4] == b;
    WordBe32(Put(val, x, b), x, (Word(val, x) + delta) % U32);
    if Clear(x, y) {
      PutSlice(val, x, b, y, y + 4);
      SameWord(Put(val, x, b), y, val, y);
    }
  }

  /**
   * The 32-bit check lets an entry that leads out of the value pass exactly when 4 added to it wraps around to little
   * enough.
   */
  predicate Stray(n: nat, x: u32) {
    x + 4 > n && SaysFits(n, 4, x)
  }

  /**
   * The answer is 0 exactly when every entry passes the check.  It is then right about all the
   * entries below 2^32 - 4, and no entry that it takes wrongly changes the value.
   */
  lemma {:induction false} AnswerIs(val: seq<byte>, list: seq<byte>, i: nat, delta: u32)
    requires |list| % 4 == 0 && 4 * i <= |list|
    ensures FixWords(val, list, i, delta).0 == 0 || FixWords(val, list, i, delta).0 == -ERR_BADOVERLAY
    ensures FixWords(val, list, i, delta).0 == 0
      <==> forall j :: i <= j < |list| / 4 ==> SaysFits(|val|, 4, Entry(list, j))
    ensures FixWords(val, list, i, delta).0 == 0 ==>
      forall j :: i <= j < |list| / 4 ==> Entry(list, j) + 4 <= |val| || Stray(|val|, Entry(list, j))
    decreases |list| - 4 * i
  {
    hide Word, AddAt;
    if 4 * i >= |list| {
    } else {
      AnswerIs(AddAt(val, Entry(list, i), delta), list, i + 1, delta);
    }
  }

  /**
   * A value of n bytes can be left by the four entries from 2^32 - 4 on, as far as what they wrap to is not more than
   * n.
   */
  lemma StrayIs(n: nat, x: u32)
    requires n <= INT_MAX
    ensures Stray(n, x) <==> U32 - 4 <= x <= U32 - 4 + n
  {
    FitsExact(n, 4, x);
  }

  /** The fixups of a cell with an entry 2^32 - 4 are reported as done, and the cell is as it was. */
  lemma StrayTaken(delta: u32)
    ensures FixWords([0, 0, 0, 1], Be32(U32 - 4), 0, delta) == (0, [0, 0, 0, 1])
  {
    WordBe32(Be32(U32 - 4), 0, U32 - 4);
    StrayIs(4, U32 - 4);
  }

  /** A cell clear of every entry from i on keeps its value. */
  lemma {:induction false} ClearKept(val: seq<byte>, list: seq<byte>, i: nat, delta: u32, y: nat)
    requires |list| % 4 == 0 && 4 * i <= |list| && FixWords(val, list, i, delta).0 == 0 && y + 4 <= |val|
    requires forall j :: i <= j < |list| / 4 ==> Clear(Entry(list, j), y)
    ensures Word(FixWords(val, list, i, delta).1, y) == Word(val, y)
    decreases |list| - 4 * i
  {
    hide Word, AddAt;
    if 4 * i >= |list| {
    } else {
      AddAtIs(val, Entry(list, i), delta, y);
      ClearKept(AddAt(val, Entry(list, i), delta), list, i + 1, delta, y);
    }
  }

  /** A listed cell gets delta added exactly once. */
  lemma {:induction false} ListedFixed(val: seq<byte>, list: seq<byte>, i: nat, delta: u32, k: nat)
    requires |list| % 4 == 0 && 4 * i <= |list| && FixWords(val, list, i, delta).0 == 0 && EachOnce(list)
    requires i <= k < |list| / 4 && Entry(list, k) + 4 <= |val|
    ensures Word(FixWords(val, list, i, delta).1, Entry(list, k)) == (Word(val, Entry(list, k)) + delta) % U32
    decreases |list| - 4 * i
  {
    hide Word, AddAt;
    var next := AddAt(val, Entry(list, i), delta);
    if i == k {
      AddAtIs(val, Entry(list, i), delta, Entry(list, i));
      ClearKept(next, list, i + 1, delta, Entry(list, i));
    } else {
      ListedFixed(next, list, i + 1, delta, k);
      AddAtIs(val, Entry(list, i), delta, Entry(list, k));
    }
  }

  // ---------------------------------------------------------------- one node

  /** One property of a fixup node. */
  function FixProp(props: seq<PropVal>, f: PropVal, delta: u32): (r: (int, seq<PropVal>))
    ensures |r.1| == |props|
  {
    var p := PropPos(props, f.name);
    if |f.val| % 4 != 0 || p == |props| then (-ERR_BADOVERLAY, props) else
    var w := FixWords(props[p].val, f.val, 0, delta);
    (w.0, PutProp(props, f.name, w.1))
  }

  /** Some entry leads out of the value.  Its word is read before the check, from an address outside of the value. */
  predicate Strays(props: seq<PropVal>, f: PropVal) {
    var p := PropPos(props, f.name);
    && |f.val| % 4 == 0 && p < |props|
    && exists j :: 0 <= j < |f.val| / 4 && Entry(f.val, j) + 4 > |props[p].val|
  }

  /** When every entry leads into the value the fixups succeed; a refused entry has been read outside of the value. */
  lemma RefusedTooLate(props: seq<PropVal>, f: PropVal, delta: u32)
    requires |f.val| % 4 == 0 && PropPos(props, f.name) < |props|
    ensures !Strays(props, f) ==> FixProp(props, f, delta).0 == 0
    ensures FixProp(props, f, delta).0 == 0 && |props[PropPos(props, f.name)].val| <= INT_MAX ==>
      (Strays(props, f) <==> exists j :: 0 <= j < |f.val| / 4 && Entry(f.val, j) >= U32 - 4)
  {
    hide Word, FixWords;
    var val := props[PropPos(props, f.name)].val;
    AnswerIs(val, f.val, 0, delta);
    forall j | 0 <= j < |f.val| / 4 && |val| <= INT_MAX
      ensures Stray(|val|, Entry(f.val, j)) <==> U32 - 4 <= Entry(f.val, j) <= U32 - 4 + |val|
    {
      StrayIs(|val|, Entry(f.val, j));
    }
  }

  function FixProps(props: seq<PropVal>, fs: seq<PropVal>, delta: u32): (r: (int, seq<PropVal>))
    ensures |r.1| == |props|
    decreases |fs|
  {
    if fs == [] then (0, props) else
    var one := FixProp(props, fs[0], delta);
    if one.0 != 0 then one else FixProps(one.1, fs[1..], delta)
  }

  lemma {:induction false} FixPropsSplit(props: seq<PropVal>, a: seq<PropVal>, b: seq<PropVal>, delta: u32)
    requires FixProps(props, a, delta).0 == 0
    ensures FixProps(props, a + b, delta) == FixProps(FixProps(props, a, delta).1, b, delta)
    decreases |a|
  {
    hide FixProp;
    if a == [] {
      assert a + b == b;
    } else {
      assert (a + b)[0] == a[0] && (a + b)[1..] == a[1..] + b;
      FixPropsSplit(FixProp(props, a[0], delta).1, a[1..], b, delta);
    }
  }

  /** No two properties of a fixup node have one name, and no list names a cell twice. */
  predicate ListsOnce(fs: seq<PropVal>) {
    && (forall i, j :: 0 <= i < j < |fs| ==> fs[i].name != fs[j].name)
    && (forall i :: 0 <= i < |fs| ==> |fs[i].val| % 4 == 0 && EachOnce(fs[i].val))
  }

  lemma FixPropOne(props: seq<PropVal>, f: PropVal, delta: u32, name: seq<byte>)
    requires FixProp(props, f, delta).0 == 0
    ensures var r, p := FixProp(props, f, delta).1, PropPos(props, name);
      && PropPos(r, name) == p
      && (p < |props| && f.name != name ==> r[p] == props[p])
      && (f.name == name ==>
            && p < |props| && |f.val| % 4 == 0 && FixWords(props[p].val, f.val, 0, delta).0 == 0
            && r[p] == PropVal(name, FixWords(props[p].val, f.val, 0, delta).1))
  {
    hide PutProp;
    var w := FixWords(props[PropPos(props, f.name)].val, f.val, 0, delta);
    PutThere(props, f.name, w.1, name);
  }

  /** The property that a name finds, after the fixups of its node. */
  lemma {:induction false} FixedProp(props: seq<PropVal>, fs: seq<PropVal>, delta: u32, name: seq<byte>)
    requires FixProps(props, fs, delta).0 == 0 && ListsOnce(fs)
    ensures var r, p, q := FixProps(props, fs, delta).1, PropPos(props, name), PropPos(fs, name);
      && PropPos(r, name) == p
      && (q == |fs| && p < |props| ==> r[p] == props[p])
      && (q < |fs| ==>
            && p < |props| && FixWords(props[p].val, fs[q].val, 0, delta).0 == 0
            && r[p] == PropVal(name, FixWords(props[p].val, fs[q].val, 0, delta).1))
    decreases |fs|
  {
    hide FixProp, EachOnce, FixWords;
    if fs == [] {
    } else {
      FixPropOne(props, fs[0], delta, name);
      FixedProp(FixProp(props, fs[0], delta).1, fs[1..], delta, name);
      if fs[0].name == name {
        PropPosAt(fs[1..], name, |fs| - 1);
      }
    }
  }

  // ------------------------------------------------------------- the recursion

  /** One child of a fixup node, applied to the child of the same name. */
  function FixKid(kids: seq<Tree>, f: Tree, delta: u32): (r: (int, seq<Tree>))
    ensures |r.1| == |kids|
    decreases f, 1
  {
    var j := KidPos(kids, f.name);
    if j == |kids| then (-ERR_BADOVERLAY, kids) else
    var k := Fix(kids[j], f, delta);
    (k.0, kids[j := k.1])
  }

  function FixKids(kids: seq<Tree>, fs: seq<Tree>, delta: u32): (r: (int, seq<Tree>))
    ensures |r.1| == |kids|
    decreases fs, 2
  {
    if fs == [] then (0, kids) else
    var one := FixKid(kids, fs[0], delta);
    if one.0 != 0 then one else FixKids(one.1, fs[1..], delta)
  }

  /**
   * overlay_update_local_node_references on a node and its fixup node: the answer, and the node as far as it was fixed.
   */
  function Fix(t: Tree, f: Tree, delta: u32): (r: (int, Tree))
    ensures r.1.name == t.name
    decreases f, 0
  {
    var p := FixProps(t.props, f.props, delta);
    if p.0 != 0 then (p.0, Tree(t.name, p.1, t.kids)) else
    var k := FixKids(t.kids, f.kids, delta);
    (k.0, Tree(t.name, p.1, k.1))
  }

  lemma {:induction false} FixKidsSplit(kids: seq<Tree>, a: seq<Tree>, b: seq<Tree>, delta: u32)
    requires FixKids(kids, a, delta).0 == 0
    ensures FixKids(kids, a + b, delta) == FixKids(FixKids(kids, a, delta).1, b, delta)
    decreases |a|
  {
    hide FixKid;
    if a == [] {
      assert a + b == b;
    } else {
      assert (a + b)[0] == a[0] && (a + b)[1..] == a[1..] + b;
      FixKidsSplit(FixKid(kids, a[0], delta).1, a[1..], b, delta);
    }
  }

  /** The fixup child for child j, or the number of fixup children. */
  function FixFor(kids: seq<Tree>, fs: seq<Tree>, j: nat): (m: nat)
    ensures m <= |fs| && (m < |fs| ==> KidPos(kids, fs[m].name) == j)
    ensures forall i :: 0 <= i < m ==> KidPos(kids, fs[i].name) != j
  {
    if fs == [] || KidPos(kids, fs[0].name) == j then 0 else 1 + FixFor(kids, fs[1..], j)
  }

  /** Every cell of the tree is listed at most once, down to the leaves. */
  predicate Once(t: Tree, f: Tree)
    decreases f
  {
    && ListsOnce(f.props)
    && (forall i, j :: 0 <= i < j < |f.kids| ==> KidPos(t.kids, f.kids[i].name) != KidPos(t.kids, f.kids[j].name))
    && (forall i :: 0 <= i < |f.kids| && KidPos(t.kids, f.kids[i].name) < |t.kids| ==>
          Once(t.kids[KidPos(t.kids, f.kids[i].name)], f.kids[i]))
  }

  /** The fixup node for the node at a path. */
  function FixNode(t: Tree, f: Tree, path: seq<nat>): Option<Tree>
    requires ValidKidPath(t, path)
  {
    if path == [] then Some(f) else
    var m := FixFor(t.kids, f.kids, path[0]);
    if m == |f.kids| then None else FixNode(t.kids[path[0]], f.kids[m], path[1..])
  }

  lemma {:induction false} KidPosNames(a: seq<Tree>, b: seq<Tree>, name: seq<byte>)
    requires |a| == |b| && forall i :: 0 <= i < |a| ==> a[i].name == b[i].name
    ensures KidPos(a, name) == KidPos(b, name)
  {
    if a == [] {
    } else {
      KidPosNames(a[1..], b[1..], name);
    }
  }

  /** Distinct fixup children change distinct children. */
  lemma {:induction false} FixedKid(kids: seq<Tree>, fs: seq<Tree>, delta: u32, j: nat)
    requires FixKids(kids, fs, delta).0 == 0 && j < |kids|
    requires forall i, k :: 0 <= i < k < |fs| ==> KidPos(kids, fs[i].name) != KidPos(kids, fs[k].name)
    ensures var r, m := FixKids(kids, fs, delta).1, FixFor(kids, fs, j);
      if m == |fs| then r[j] == kids[j] else Fix(kids[j], fs[m], delta) == (0, r[j])
    decreases |fs|
  {
    hide Fix;
    if fs == [] {
    } else {
      var j0, next := KidPos(kids, fs[0].name), FixKid(kids, fs[0], delta).1;
      assert next == kids[j0 := Fix(kids[j0], fs[0], delta).1];
      forall i | 0 <= i < |fs| ensures KidPos(next, fs[i].name) == KidPos(kids, fs[i].name) {
        KidPosNames(next, kids, fs[i].name);
      }
      FixForNames(next, kids, fs[1..], j);
      FixedKid(next, fs[1..], delta, j);
    }
  }

  lemma {:induction false} FixForNames(a: seq<Tree>, b: seq<Tree>, fs: seq<Tree>, j: nat)
    requires forall i :: 0 <= i < |fs| ==> KidPos(a, fs[i].name) == KidPos(b, fs[i].name)
    ensures FixFor(a, fs, j) == FixFor(b, fs, j)
  {
    if fs == [] {
    } else {
      FixForNames(a, b, fs[1..], j);
    }
  }

  /** A node after the fixups: its properties changed by its own fixup node, if it has one. */
  lemma {:induction false} FixedAt(t: Tree, f: Tree, delta: u32, path: seq<nat>)
    requires Fix(t, f, delta).0 == 0 && Once(t, f) && ValidKidPath(t, path)
    ensures ValidKidPath(Fix(t, f, delta).1, path)
    ensures var n, m, g := Subtree(t, path), Subtree(Fix(t, f, delta).1, path), FixNode(t, f, path);
      if g.None? then m == n
      else ListsOnce(g.value.props) && FixProps(n.props, g.value.props, delta) == (0, m.props)
    decreases |path|
  {
    hide ListsOnce, FixProps;
    if path == [] {
    } else {
      FixedKid(t.kids, f.kids, delta, path[0]);
      var m := FixFor(t.kids, f.kids, path[0]);
      if m < |f.kids| {
        FixedAt(t.kids[path[0]], f.kids[m], delta, path[1..]);
      }
    }
  }

  // ---------------------------------------------------------------- references

  /** The cell at x of the property of a name. */
  predicate HasCell(t: Tree, name: seq<byte>, x: nat) {
    PropPos(t.props, name) < |t.props| && x + 4 <= |t.props[PropPos(t.props, name)].val|
  }

  function Cell(t: Tree, name: seq<byte>, x: nat): u32
    requires HasCell(t, name, x)
  {
    Word(t.props[PropPos(t.props, name)].val, x)
  }

  /** The fixups list the cell at x of that property of the node at a path. */
  predicate Lists(t: Tree, f: Tree, path: seq<nat>, name: seq<byte>, x: nat)
    requires ValidKidPath(t, path)
  {
    var g := FixNode(t, f, path);
    g.Some? &&
    var q := PropPos(g.value.props, name);
    q < |g.value.props| && |g.value.props[q].val| % 4 == 0
    && exists k :: 0 <= k < |g.value.props[q].val| / 4 && Entry(g.value.props[q].val, k) == x
  }

  /** The fixups list no cell of that property of the node at a path. */
  predicate Spares(t: Tree, f: Tree, path: seq<nat>, name: seq<byte>)
    requires ValidKidPath(t, path)
  {
    var g := FixNode(t, f, path);
    g.Some? ==> PropPos(g.value.props, name) == |g.value.props|
  }

  /** A listed cell gets delta added. */
  lemma CellFixed(t: Tree, f: Tree, delta: u32, path: seq<nat>, name: seq<byte>, x: nat)
    requires Fix(t, f, delta).0 == 0 && Once(t, f) && ValidKidPath(t, path) && Lists(t, f, path, name, x)
    requires HasCell(Subtree(t, path), name, x)
    ensures ValidKidPath(Fix(t, f, delta).1, path)
    ensures var n, m := Subtree(t, path), Subtree(Fix(t, f, delta).1, path);
      HasCell(m, name, x) && Cell(m, name, x) == (Cell(n, name, x) + delta) % U32
  {
    hide Fix, FixProps, FixWords, Once, Word;
    FixedAt(t, f, delta, path);
    var g, n := FixNode(t, f, path).value, Subtree(t, path);
    FixedProp(n.props, g.props, delta, name);
    var list, val := g.props[PropPos(g.props, name)].val, n.props[PropPos(n.props, name)].val;
    var k :| 0 <= k < |list| / 4 && Entry(list, k) == x;
    ListedFixed(val, list, 0, delta, k);
  }

  lemma PropSpared(t: Tree, f: Tree, delta: u32, path: seq<nat>, name: seq<byte>)
    requires Fix(t, f, delta).0 == 0 && Once(t, f) && ValidKidPath(t, path) && Spares(t, f, path, name)
    ensures ValidKidPath(Fix(t, f, delta).1, path)
    ensures CellOf(Subtree(Fix(t, f, delta).1, path).props, name) == CellOf(Subtree(t, path).props, name)
  {
    hide Fix, FixProps, FixWords, Once, Word, ListsOnce;
    FixedAt(t, f, delta, path);
    var g := FixNode(t, f, path);
    if g.Some? {
      FixedProp(Subtree(t, path).props, g.value.props, delta, name);
    }
  }

  predicate SparesPhandle(t: Tree, f: Tree, path: seq<nat>)
    requires ValidKidPath(t, path)
  {
    Spares(t, f, path, PHANDLE) && Spares(t, f, path, LINUX_PHANDLE)
  }

  /** The shift of the phandles leaves every other property alone. */
  lemma OtherCell(o: Tree, delta: u32, path: seq<nat>, name: seq<byte>, x: nat)
    requires Shift(o, delta).0 == 0 && ValidKidPath(o, path) && name != PHANDLE && name != LINUX_PHANDLE
    ensures ValidKidPath(Shift(o, delta).1, path)
    ensures var n, m := Subtree(o, path), Subtree(Shift(o, delta).1, path);
      (HasCell(m, name, x) <==> HasCell(n, name, x)) && (HasCell(n, name, x) ==> Cell(m, name, x) == Cell(n, name, x))
  {
    hide Word;
    ShiftedAt(o, delta, path);
    var n := Subtree(o, path);
    ShiftPropOther(n.props, PHANDLE, delta, name);
    ShiftPropOther(ShiftProp(n.props, PHANDLE, delta).1, LINUX_PHANDLE, delta, name);
  }

  /**
   * The renumbering keeps references.  After the phandles of the overlay o have been shifted past those
   * of the base b, and the cells listed in the fixups f have been shifted too, a listed cell that named
   * the node at q names the node at q, and it names no node with a phandle that it did not name before.
   */
  lemma ReferenceKept(b: Tree, o: Tree, f: Tree, path: seq<nat>, name: seq<byte>, x: nat, q: seq<nat>)
    requires Shift(o, MaxPhandle(b)).0 == 0 && name != PHANDLE && name != LINUX_PHANDLE
    requires var o1 := Shift(o, MaxPhandle(b)).1;
      && Fix(o1, f, MaxPhandle(b)).0 == 0 && Once(o1, f)
      && ValidKidPath(o1, path) && Lists(o1, f, path, name, x) && ValidKidPath(o1, q) && SparesPhandle(o1, f, q)
    requires ValidKidPath(o, path) && ValidKidPath(o, q)
    requires Phandle(Subtree(o, q)) >= 1 && HasCell(Subtree(o, path), name, x)
    ensures var o2 := Fix(Shift(o, MaxPhandle(b)).1, f, MaxPhandle(b)).1;
      && ValidKidPath(o2, path) && ValidKidPath(o2, q) && HasCell(Subtree(o2, path), name, x)
      && (Cell(Subtree(o2, path), name, x) == Phandle(Subtree(o2, q))
          <==> Cell(Subtree(o, path), name, x) == Phandle(Subtree(o, q)))
  {
    hide Shift, Fix, Once, Lists, Spares, HasCell, Cell, CellOf, MaxPhandle;
    var d := MaxPhandle(b);
    var o1 := Shift(o, d).1;
    OtherCell(o, d, path, name, x);
    CellFixed(o1, f, d, path, name, x);
    PropSpared(o1, f, d, q, PHANDLE);
    PropSpared(o1, f, d, q, LINUX_PHANDLE);
    Renumbered(b, o, [], q, q);
  }
}
