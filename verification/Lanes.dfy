/**
 * The unordered reduction (reduction_op.cc): elements spread over lanes, rotating
 * accumulators and sub-word parts, merged linearly or by trees, and folded.  Whatever
 * the shape, every input is used exactly once.
 */
module Lanes {
  import opened Bytes
  import opened Bits
  import opened ReductionOps
  import opened Expressions
  import opened ReductionLaws

  datatype Lane = Lane(accums: seq<seq<Part>>, act: nat)

  // ---------------------------------------------------------------- folding

  /** operate_accums: part by part. */
  method OperateAccums(o: Op, a: seq<Part>, b: seq<Part>) returns (r: seq<Part>)
    requires ValidOp(o) && |a| == |b| == 64 / ResultSew(o)
    ensures |r| == |a| && forall k :: 0 <= k < |a| ==> r[k] == Both(o, a[k], b[k])
  {
    hide Operation;
    r := a;
    for i := 0 to 64 / ResultSew(o)
      invariant |r| == |a|
      invariant forall k :: 0 <= k < |a| ==> r[k] == if k < i then Both(o, a[k], b[k]) else a[k]
    {
      if r[i].init && b[i].init {
        r := r[i := Part(true, Operation(o, r[i].val, b[i].val, true, true))];
      } else if r[i].init && !b[i].init {
        r := r[i := Part(true, r[i].val)];
      } else if !r[i].init && b[i].init {
        r := r[i := Part(true, b[i].val)];
      }
    }
  }

  lemma {:induction false} SumZip(ms: seq<Inputs>, ns: seq<Inputs>)
    requires |ms| == |ns|
    ensures Sum(seq(|ms|, k requires 0 <= k < |ms| => ms[k] + ns[k])) == Sum(ms) + Sum(ns)
  {
    var z := seq(|ms|, k requires 0 <= k < |ms| => ms[k] + ns[k]);
    if ms == [] {
    } else {
      SumZip(ms[1..], ns[1..]);
      assert z[1..] == seq(|ms| - 1, k requires 0 <= k < |ms| - 1 => ms[1..][k] + ns[1..][k]);
    }
  }

  lemma OperateFrom(p: Problem, a: seq<Part>, m: Inputs, b: seq<Part>, n: Inputs, r: seq<Part>)
    requires ValidOp(p.op) && AccumFrom(p, a, m) && AccumFrom(p, b, n) && |a| == |b| == |r|
    requires forall k :: 0 <= k < |a| ==> r[k] == Both(p.op, a[k], b[k])
    ensures AccumFrom(p, r, m + n)
  {
    hide Both, PartFrom;
    var ms: seq<Inputs> :| PartsFrom(p, a, ms) && Sum(ms) == m;
    var ns: seq<Inputs> :| PartsFrom(p, b, ns) && Sum(ns) == n;
    var z := seq(|ms|, k requires 0 <= k < |ms| => ms[k] + ns[k]);
    SumZip(ms, ns);
    forall k | 0 <= k < |r| ensures PartFrom(p, r[k], z[k]) {
      BothFrom(p, a[k], ms[k], b[k], ns[k]);
    }
    assert PartsFrom(p, r, z);
  }

  /** During a fold: the parts from size on are spent, and the others hold all inputs. */
  ghost predicate Folding(p: Problem, a: seq<Part>, ms: seq<Inputs>, size: nat, half: nat, i: nat)
    requires ValidOp(p.op)
  {
    && |a| == |ms| && half + i <= size <= |a| && i <= half
    && (forall k :: 0 <= k < half ==> PartFrom(p, a[k], ms[k]))
    && (forall k :: half + i <= k < size ==> PartFrom(p, a[k], ms[k]))
    && (forall k :: half <= k < half + i ==> ms[k] == multiset{})
    && (forall k :: size <= k < |a| ==> ms[k] == multiset{})
  }

  /** Combining part i with part i + half. */
  lemma FoldOne(p: Problem, a: seq<Part>, ms: seq<Inputs>, size: nat, half: nat, i: nat, q: Part)
    requires ValidOp(p.op) && Folding(p, a, ms, size, half, i) && i < half && half + i < size
    requires q == Both(p.op, a[i], a[i + half])
    ensures var ns := ms[i := ms[i] + ms[i + half]][i + half := multiset{}];
      Folding(p, a[i := q], ns, size, half, i + 1) && Sum(ns) == Sum(ms)
  {
    hide Both, PartFrom;
    BothFrom(p, a[i], ms[i], a[i + half], ms[i + half]);
    SumMove(ms, i, i + half);
  }

  /** fold: everything ends up in part 0. */
  method Fold(o: Op, a: seq<Part>, ghost p: Problem, ghost m: Inputs) returns (r: seq<Part>)
    requires ValidOp(o) && p.op == o && |a| == 64 / ResultSew(o) && AccumFrom(p, a, m)
    ensures |r| == |a| && PartFrom(p, r[0], m)
  {
    hide Operation, PartFrom, Both, Sum;
    ghost var ms: seq<Inputs> :| PartsFrom(p, a, ms) && Sum(ms) == m;
    r := a;
    var size := 64 / ResultSew(o);
    assert size in {1, 2, 4, 8};
    while size > 1
      invariant size in {1, 2, 4, 8} && |r| == |a| && size <= |a|
      invariant Folding(p, r, ms, size, 0, 0) && Sum(ms) == m
      decreases size
    {
      var half := size / 2;
      for i := 0 to half
        invariant |r| == |a| && Folding(p, r, ms, size, half, i) && Sum(ms) == m
      {
        ghost var q := Both(o, r[i], r[i + half]);
        FoldOne(p, r, ms, size, half, i, q);
        ms := ms[i := ms[i] + ms[i + half]][i + half := multiset{}];
        r := FoldPart(o, r, i, half);
      }
      size := half;
    }
    FoldDone(p, r, ms);
  }

  /** The branches of fold for one pair of parts. */
  method FoldPart(o: Op, a: seq<Part>, i: nat, half: nat) returns (r: seq<Part>)
    requires ValidOp(o) && i < half && i + half < |a|
    ensures r == a[i := Both(o, a[i], a[i + half])]
  {
    hide Operation;
    r := a;
    if r[i].init && r[i + half].init {
      r := r[i := Part(true, Operation(o, r[i].val, r[i + half].val, true, true))];
    } else if !r[i].init && r[i + half].init {
      r := r[i := Part(true, r[i + half].val)];
    }
  }

  lemma FoldDone(p: Problem, a: seq<Part>, ms: seq<Inputs>)
    requires ValidOp(p.op) && a != [] && Folding(p, a, ms, 1, 0, 0)
    ensures PartFrom(p, a[0], Sum(ms))
  {
    hide PartFrom;
    SumAt(ms, 0);
    SumEmpty(ms[1..]);
    assert ms[..0] == [] && Sum(ms) == ms[0];
  }

  // ----------------------------------------------------- merging accumulators

  predicate Shaped(o: Op, as_: seq<seq<Part>>, accumNum: nat)
    requires ValidOp(o)
  {
    |as_| == accumNum && forall j :: 0 <= j < |as_| ==> |as_[j]| == 64 / ResultSew(o)
  }

  /** Accumulators b..e have gone into accumulator b, and the others are as before. */
  ghost predicate Merged(p: Problem, was: seq<seq<Part>>, now: seq<seq<Part>>, ns: seq<Inputs>, b: nat, e: nat)
    requires ValidOp(p.op)
  {
    && b <= e < |was| == |now| == |ns|
    && (forall j :: 0 <= j < b || e < j < |was| ==> now[j] == was[j])
    && AccumFrom(p, now[b], Sum(ns[b..e + 1]))
  }

  lemma SumRange(ns: seq<Inputs>, b: nat, c: nat, e: nat)
    requires b <= c <= e <= |ns|
    ensures Sum(ns[b..c]) + Sum(ns[c..e]) == Sum(ns[b..e])
  {
    assert ns[b..e] == ns[b..c] + ns[c..e];
    SumConcat(ns[b..c], ns[c..e]);
  }

  lemma SumOne(ns: seq<Inputs>, b: nat)
    requires b < |ns|
    ensures Sum(ns[b..b + 1]) == ns[b]
  {
    assert ns[b..b + 1] == [ns[b]] && [ns[b]][1..] == [];
  }

  /** Two neighbouring merges and the operation on their results. */
  lemma MergeTwo(p: Problem, was: seq<seq<Part>>, mid: seq<seq<Part>>, now: seq<seq<Part>>, ns: seq<Inputs>,
                 b: nat, c: nat, e: nat, r: seq<Part>)
    requires ValidOp(p.op) && Merged(p, was, mid, ns, b, c) && Merged(p, mid, now, ns, c + 1, e)
    requires |now[b]| == |now[c + 1]| == |r|
    requires forall k :: 0 <= k < |r| ==> r[k] == Both(p.op, now[b][k], now[c + 1][k])
    ensures Merged(p, was, now[b := r], ns, b, e)
  {
    hide AccumFrom, Both, Sum;
    SumRange(ns, b, c + 1, e + 1);
    OperateFrom(p, now[b], Sum(ns[b..c + 1]), now[c + 1], Sum(ns[c + 1..e + 1]), r);
  }

  /** A lane whose first part holds all that it stands for. */
  ghost predicate Collapsed(p: Problem, l: Lane, m: Inputs)
    requires ValidOp(p.op)
  {
    |l.accums| > 0 && |l.accums[0]| > 0 && PartFrom(p, l.accums[0][0], m)
  }

  function SetFirst(l: Lane, q: Part): Lane
    requires |l.accums| > 0 && |l.accums[0]| > 0
  {
    l.(accums := l.accums[0 := l.accums[0][0 := q]])
  }

  /** Accumulators that hold nothing. */
  function Blank(accumNum: nat, parts: nat): (r: seq<seq<Part>>)
    ensures |r| == accumNum
    ensures forall j :: 0 <= j < accumNum ==>
      |r[j]| == parts && forall k :: 0 <= k < parts ==> r[j][k] == Part(false, 0)
  {
    seq(accumNum, j => seq(parts, k => Part(false, 0)))
  }

  /** Element n of a byte buffer, low byte first. */
  function ElemOf(vs: seq<byte>, n: nat, b: nat): u64
    requires b in {1, 2, 4, 8} && n * b + b <= |vs|
  {
    LittleEndianFits(vs, n * b, b);
    Pow2Most(8 * b);
    LittleEndian(vs, n * b, b)
  }

  lemma ElemsFit(b: nat, vl: nat, n: nat)
    requires n < vl
    ensures n * b + b <= vl * b
  {
    Dist(b, n, 1);
    Dist(b, n + 1, vl - n - 1);
  }

  function Elements(vs: seq<byte>, b: nat, vl: nat): (r: seq<u64>)
    requires b in {1, 2, 4, 8} && |vs| == vl * b
    ensures |r| == vl
  {
    seq(vl, n requires 0 <= n < vl => ElemsFit(b, vl, n); ElemOf(vs, n, b))
  }

  function StartInputs(laneNum: nat): (ms: seq<Inputs>)
    requires laneNum >= 1
    ensures |ms| == laneNum
  {
    seq(laneNum, i => if i == 0 then multiset{Scalar} else multiset{})
  }

  /** Every lane with its inputs. */
  ghost predicate AllFrom(p: Problem, lanes: seq<Lane>, ms: seq<Inputs>, accumNum: nat)
    requires ValidOp(p.op)
  {
    |ms| == |lanes| > 0 &&
    forall i :: 0 <= i < |lanes| ==> Shaped(p.op, lanes[i].accums, accumNum) && LaneFrom(p, lanes[i].accums, ms[i])
  }

  lemma {:induction false} StartSum(laneNum: nat)
    requires laneNum >= 1
    ensures Sum(StartInputs(laneNum)) == multiset{Scalar} && StartInputs(laneNum)[0] == multiset{Scalar}
  {
    var ms := StartInputs(laneNum);
    SumEmpty(ms[1..]);
  }

  lemma NoneActive(masking: bool, vmask: seq<byte>)
    ensures multiset{Scalar} + Active(masking, vmask, 0) == multiset{Scalar}
  {
  }

  /** The lanes hold the scalar and the active ones of the first n elements. */
  ghost predicate Spread(p: Problem, masking: bool, vmask: seq<byte>, accumNum: nat, lanes: seq<Lane>, ms: seq<Inputs>,
                         n: nat)
    requires ValidOp(p.op)
  {
    && n <= |p.elems| <= 8 * |vmask| && AllFrom(p, lanes, ms, accumNum)
    && Scalar in ms[0] && Sum(ms) == multiset{Scalar} + Active(masking, vmask, n)
    && forall i :: 0 <= i < |lanes| ==> lanes[i].act < accumNum
  }

  /** A masked element is passed over. */
  lemma SpreadSkip(p: Problem, masking: bool, vmask: seq<byte>, accumNum: nat, lanes: seq<Lane>, ms: seq<Inputs>,
                   n: nat)
    requires ValidOp(p.op) && Spread(p, masking, vmask, accumNum, lanes, ms, n) && n < |p.elems|
    requires masking && !MaskBit(vmask, n)
    ensures Spread(p, masking, vmask, accumNum, lanes, ms, n + 1)
  {
    hide AllFrom, Sum;
    assert Active(masking, vmask, n) + multiset{} == Active(masking, vmask, n);
  }

  function AbsorbAt(o: Op, l: Lane, j: nat, k: nat, val: u64): Lane
    requires ValidOp(o) && j < |l.accums| && k < |l.accums[j]|
  {
    l.(accums := l.accums[j := l.accums[j][k := Absorb(o, l.accums[j][k], val)]])
  }

  /** An active element goes into one part of one lane. */
  lemma SpreadTake(p: Problem, masking: bool, vmask: seq<byte>, accumNum: nat, lanes: seq<Lane>, ms: seq<Inputs>,
                   n: nat, i: nat, j: nat, k: nat)
    requires ValidOp(p.op) && Spread(p, masking, vmask, accumNum, lanes, ms, n) && n < |p.elems|
    requires !masking || MaskBit(vmask, n)
    requires i < |lanes| && j < accumNum && k < 64 / ResultSew(p.op)
    ensures i < |ms| && |lanes[i].accums| == accumNum && |lanes[i].accums[j]| == 64 / ResultSew(p.op)
    ensures Spread(p, masking, vmask, accumNum, lanes[i := AbsorbAt(p.op, lanes[i], j, k, p.elems[n])],
                   ms[i := ms[i] + multiset{Elem(n)}], n + 1)
  {
    hide LaneFrom, Absorb, Sum, Operation, Lift;
    AbsorbLane(p, lanes[i].accums, ms[i], j, k, n);
    SumPut(ms, i, ms[i] + multiset{Elem(n)}, multiset{Elem(n)});
    NextActive(masking, vmask, n);
  }

  /** The lane moves on to its next accumulator. */
  lemma SpreadTurn(p: Problem, masking: bool, vmask: seq<byte>, accumNum: nat, lanes: seq<Lane>, ms: seq<Inputs>,
                   n: nat, i: nat, act: nat)
    requires ValidOp(p.op) && Spread(p, masking, vmask, accumNum, lanes, ms, n) && i < |lanes| && act < accumNum
    ensures Spread(p, masking, vmask, accumNum, lanes[i := lanes[i].(act := act)], ms, n)
  {
    hide LaneFrom, Sum;
  }

  lemma SpreadShape(p: Problem, masking: bool, vmask: seq<byte>, accumNum: nat, lanes: seq<Lane>, ms: seq<Inputs>,
                    n: nat)
    requires ValidOp(p.op) && Spread(p, masking, vmask, accumNum, lanes, ms, n)
    ensures n <= |p.elems| && |ms| == |lanes| > 0 && forall i :: 0 <= i < |lanes| ==> lanes[i].act < accumNum
    ensures AllFrom(p, lanes, ms, accumNum) && Scalar in ms[0]
    ensures Sum(ms) == multiset{Scalar} + Active(masking, vmask, n)
  {
  }

  lemma SpreadStart(p: Problem, masking: bool, vmask: seq<byte>, accumNum: nat, lanes: seq<Lane>)
    requires ValidOp(p.op) && lanes != [] && accumNum >= 1 && |p.elems| <= 8 * |vmask|
    requires AllFrom(p, lanes, StartInputs(|lanes|), accumNum) && forall i :: 0 <= i < |lanes| ==> lanes[i].act == 0
    ensures Spread(p, masking, vmask, accumNum, lanes, StartInputs(|lanes|), 0)
  {
    hide AllFrom, Sum;
    StartSum(|lanes|);
    NoneActive(masking, vmask);
  }

  /** Two narrow elements share a part of a widening accumulator. */
  lemma PartOf(o: Op, k: nat)
    requires ValidOp(o)
    ensures 64 / o.vsew >= 1
    ensures k < 64 / o.vsew ==> (if o.ins.isWidening then k / 2 else k) < 64 / ResultSew(o)
  {
  }

  lemma CounterLess(n: nat, vl: nat, b: nat)
    requires b > 0
    ensures n * b < vl * b <==> n < vl
    ensures n * b / b == n && (n + 1) * b == n * b + b
  {
    Dist(b, n, 1);
    ModIs(n * b, b, n, 0);
    if n < vl {
      MulStep(b, n, vl);
    } else {
      Dist(b, vl, n - vl);
      assert b * (n - vl) >= 0;
    }
  }

  lemma MaskFits(vl: nat, b: nat, size: nat)
    requires b > 0 && size == vl * b
    ensures vl <= 8 * size
  {
    Dist(vl, 1, b - 1);
    assert vl * (b - 1) >= 0;
  }

  lemma ElementIs(vs: seq<byte>, b: nat, vl: nat, n: nat)
    requires b in {1, 2, 4, 8} && |vs| == vl * b && n < vl
    ensures n * b + b <= |vs| && Elements(vs, b, vl)[n] == LittleEndian(vs, n * b, b)
  {
    ElemsFit(b, vl, n);
  }

  lemma CollapsedFrom(p: Problem, l: Lane, m: Inputs)
    requires ValidOp(p.op) && Collapsed(p, l, m) && Scalar in m
    ensures exists e: Expr :: Leaves(e) == m && Eval(p, e) == l.accums[0][0].val
  {
    HasScalar(p, l.accums[0][0], m);
  }

  lemma HasScalar(p: Problem, a: Part, m: Inputs)
    requires ValidOp(p.op) && PartFrom(p, a, m) && Scalar in m
    ensures a.init
  {
  }

  class ReductionOp {
    var op: Op
    var vl: nat
    var scalar: u64
    var vs: seq<byte>
    var vmask: seq<byte>
    var laneNum: nat
    var accumNumFp: nat
    var accumNumInt: nat
    var accumNum: nat
    var treeIntra: bool
    var treeInter: bool

    constructor (op: Op)
      ensures this.op == op
    {
      this.op := op;
    }

    /** intralane_branch_op; the result is the accumulator that holds the merge. */
    method IntralaneBranchOp(b: nat, e: nat, lanes: array<Lane>, l: nat, ghost p: Problem, ghost ns: seq<Inputs>)
      returns (at: nat)
      requires ValidOp(op) && p.op == op && l < lanes.Length && b <= e < |lanes[l].accums|
      requires Shaped(op, lanes[l].accums, |lanes[l].accums|) && |ns| == |lanes[l].accums|
      requires forall j :: b <= j <= e ==> AccumFrom(p, lanes[l].accums[j], ns[j])
      modifies lanes
      ensures at == b && forall i :: 0 <= i < lanes.Length && i != l ==> lanes[i] == old(lanes[i])
      ensures lanes[l].act == old(lanes[l].act) && Shaped(op, lanes[l].accums, |ns|)
      ensures Merged(p, old(lanes[l].accums), lanes[l].accums, ns, b, e)
      decreases e - b
    {
      hide AccumFrom, Both, Sum;
      ghost var was := lanes[l].accums;
      SumOne(ns, b);
      SumOne(ns, e);
      if b == e {
        return b;
      } else if b == e - 1 {
        var r := OperateAccums(op, lanes[l].accums[b], lanes[l].accums[e]);
        MergeTwo(p, was, was, was, ns, b, b, e, r);
        lanes[l] := lanes[l].(accums := lanes[l].accums[b := r]);
        return b;
      } else {
        var mid := b + (e - b) / 2;
        var a1 := IntralaneBranchOp(b, mid, lanes, l, p, ns);
        ghost var half := lanes[l].accums;
        assert forall j :: mid < j <= e ==> half[j] == was[j];
        var a2 := IntralaneBranchOp(mid + 1, e, lanes, l, p, ns);
        var r := OperateAccums(op, lanes[l].accums[a1], lanes[l].accums[a2]);
        MergeTwo(p, was, half, lanes[l].accums, ns, b, mid, e, r);
        lanes[l] := lanes[l].(accums := lanes[l].accums[a1 := r]);
        return a1;
      }
    }

    /** intralane_merge: accumulator 0 ends up with all that the lane has absorbed. */
    method IntralaneMerge(lanes: array<Lane>, l: nat, ghost p: Problem, ghost m: Inputs)
      requires ValidOp(op) && p.op == op && l < lanes.Length && accumNum >= 1
      requires Shaped(op, lanes[l].accums, accumNum) && LaneFrom(p, lanes[l].accums, m)
      modifies lanes
      ensures forall i :: 0 <= i < lanes.Length && i != l ==> lanes[i] == old(lanes[i])
      ensures Shaped(op, lanes[l].accums, accumNum) && AccumFrom(p, lanes[l].accums[0], m)
    {
      hide AccumFrom, Both, Sum;
      ghost var ns: seq<Inputs> :| AccumsFrom(p, lanes[l].accums, ns) && Sum(ns) == m;
      ghost var was := lanes[l].accums;
      assert ns[0..accumNum] == ns;
      if treeIntra {
        var at := IntralaneBranchOp(0, accumNum - 1, lanes, l, p, ns);
        lanes[l] := lanes[l].(accums := lanes[l].accums[0 := lanes[l].accums[at]]);
      } else {
        SumOne(ns, 0);
        for i := 1 to accumNum
          invariant forall k :: 0 <= k < lanes.Length && k != l ==> lanes[k] == old(lanes[k])
          invariant Shaped(op, lanes[l].accums, accumNum) && Merged(p, was, lanes[l].accums, ns, 0, i - 1)
        {
          var r := OperateAccums(op, lanes[l].accums[0], lanes[l].accums[i]);
          SumOne(ns, i);
          MergeTwo(p, was, lanes[l].accums, lanes[l].accums, ns, 0, i - 1, i, r);
          lanes[l] := lanes[l].(accums := lanes[l].accums[0 := r]);
        }
      }
    }

    // ------------------------------------------------------- merging lanes

    /** A lane brought down to its first part. */
    method Collapse(lanes: array<Lane>, l: nat, ghost p: Problem, ghost m: Inputs)
      requires ValidOp(op) && p.op == op && l < lanes.Length && accumNum >= 1
      requires Shaped(op, lanes[l].accums, accumNum) && LaneFrom(p, lanes[l].accums, m)
      modifies lanes
      ensures forall i :: 0 <= i < lanes.Length && i != l ==> lanes[i] == old(lanes[i])
      ensures Collapsed(p, lanes[l], m)
    {
      hide LaneFrom, AccumFrom, PartFrom;
      IntralaneMerge(lanes, l, p, m);
      var r := Fold(op, lanes[l].accums[0], p, m);
      lanes[l] := lanes[l].(accums := lanes[l].accums[0 := r]);
    }

    /** interlane_merge */
    method InterlaneMerge(lanes: array<Lane>, ghost p: Problem, ghost ms: seq<Inputs>)
      requires ValidOp(op) && p.op == op && lanes.Length == laneNum >= 1 && accumNum >= 1
      requires AllFrom(p, lanes[..], ms, accumNum) && Scalar in ms[0]
      modifies lanes
      ensures Collapsed(p, lanes[0], Sum(ms))
    {
      hide LaneFrom, PartFrom, Sum, Shaped, Operation;
      assert ms[0..laneNum] == ms;
      for i := 0 to laneNum
        invariant forall k :: i <= k < laneNum ==> lanes[k] == old(lanes[k])
        invariant i > 0 ==> Collapsed(p, lanes[0], Sum(ms[0..i])) && Scalar in Sum(ms[0..i])
      {
        assert Shaped(op, lanes[i].accums, accumNum) && LaneFrom(p, lanes[i].accums, ms[i]);
        Collapse(lanes, i, p, ms[i]);
        SumOne(ms, i);
        if i != 0 {
          SumRange(ms, 0, i, i + 1);
          ghost var a, b := lanes[0].accums[0][0], lanes[i].accums[0][0];
          BothFrom(p, a, Sum(ms[0..i]), b, ms[i]);
          HasScalar(p, a, Sum(ms[0..i]));
          if lanes[i].accums[0][0].init {
            if lanes[0].accums[0][0].init {
              lanes[0] := SetFirst(lanes[0],
                lanes[0].accums[0][0].(
                  val := Operation(op, lanes[0].accums[0][0].val, lanes[i].accums[0][0].val, true, true)));
            }
          }
          assert lanes[0].accums[0][0] == Both(op, a, b);
        }
      }
    }

    /** The merge of two lanes in tree_merge. */
    method JoinLanes(lanes: array<Lane>, a: nat, b: nat, ghost p: Problem, ghost m: Inputs, ghost n: Inputs)
      requires ValidOp(op) && p.op == op && a < lanes.Length && b < lanes.Length && a != b
      requires Collapsed(p, lanes[a], m) && Collapsed(p, lanes[b], n)
      modifies lanes
      ensures forall i :: 0 <= i < lanes.Length && i != a ==> lanes[i] == old(lanes[i])
      ensures Collapsed(p, lanes[a], m + n)
    {
      hide PartFrom, Operation;
      BothFrom(p, lanes[a].accums[0][0], m, lanes[b].accums[0][0], n);
      var first, second := lanes[a].accums[0][0], lanes[b].accums[0][0];
      if first.init {
        if second.init {
          lanes[a] := SetFirst(lanes[a], first.(val := Operation(op, first.val, second.val, true, true)));
        }
      } else {
        if second.init {
          lanes[a] := SetFirst(lanes[a], Part(true, second.val));
        }
      }
    }

    /** tree_merge; the result is the lane that holds the merge. */
    method TreeMerge(b: nat, e: nat, lanes: array<Lane>, ghost p: Problem, ghost ms: seq<Inputs>) returns (at: nat)
      requires ValidOp(op) && p.op == op && b <= e < lanes.Length == |ms| && accumNum >= 1
      requires forall i :: b <= i <= e ==> Shaped(op, lanes[i].accums, accumNum) && LaneFrom(p, lanes[i].accums, ms[i])
      modifies lanes
      ensures at == b && Collapsed(p, lanes[b], Sum(ms[b..e + 1]))
      ensures forall i :: 0 <= i < lanes.Length && !(b <= i <= e) ==> lanes[i] == old(lanes[i])
      decreases e - b
    {
      hide LaneFrom, PartFrom, Sum, Shaped, Operation;
      SumOne(ms, b);
      SumOne(ms, e);
      if b == e {
        Collapse(lanes, b, p, ms[b]);
        return b;
      } else if b == e - 1 {
        Collapse(lanes, b, p, ms[b]);
        Collapse(lanes, e, p, ms[e]);
        JoinLanes(lanes, b, e, p, ms[b], ms[e]);
        SumRange(ms, b, e, e + 1);
        return b;
      } else {
        var mid := b + (e - b) / 2;
        var lane1 := TreeMerge(b, mid, lanes, p, ms);
        var lane2 := TreeMerge(mid + 1, e, lanes, p, ms);
        JoinLanes(lanes, lane1, lane2, p, Sum(ms[b..mid + 1]), Sum(ms[mid + 1..e + 1]));
        SumRange(ms, b, mid + 1, e + 1);
        return lane1;
      }
    }

    /** merge_accums */
    method MergeAccums(lanes: array<Lane>, ghost p: Problem, ghost ms: seq<Inputs>)
      requires ValidOp(op) && p.op == op && lanes.Length == laneNum >= 1 && accumNum >= 1
      requires AllFrom(p, lanes[..], ms, accumNum) && Scalar in ms[0]
      modifies lanes
      ensures Collapsed(p, lanes[0], Sum(ms))
    {
      hide LaneFrom, PartFrom, Sum, Shaped;
      if !treeInter {
        InterlaneMerge(lanes, p, ms);
      } else {
        var per := 64 / op.vsew;
        var necessaryLanes := vl / per + if vl % per != 0 then 1 else 0;
        if necessaryLanes < laneNum {
          InterlaneMerge(lanes, p, ms);
        } else {
          assert forall i :: 0 <= i < laneNum ==> lanes[..][i] == lanes[i];
          var at := TreeMerge(0, laneNum - 1, lanes, p, ms);
          assert ms[0..laneNum] == ms;
          lanes[0] := SetFirst(lanes[0], lanes[0].accums[0][0].(val := lanes[at].accums[0][0].val));
        }
      }
    }

    // ------------------------------------------------------- whole reductions

    /** reduction_setup: the fields of one reduction; bits 0 and 1 of trees ask for tree merges. */
    method ReductionSetup(vsew: nat, vl: nat, scalar: u64, vs: seq<byte>, mask: seq<byte>, ins: u32, trees: nat)
      requires vsew in {8, 16, 32, 64} && (ins / 0x4000_0000 == 3 ==> vsew <= 32)
      requires |vs| == |mask| == vl * (vsew / 8)
      modifies this`op, this`vl, this`scalar, this`vs, this`vmask, this`treeIntra, this`treeInter
      ensures op == old(op).(vsew := vsew, ins := Decode(ins)) && ValidOp(op)
      ensures this.vl == vl && this.vs == vs && vmask == mask
      ensures InRange(op, this.scalar) && this.scalar == scalar % Pow2(ResultSew(op))
      ensures treeIntra == (trees % 2 == 1 && ins / 0x4000_0000 != 3)
      ensures treeInter == (trees / 2 % 2 == 1 && ins / 0x200_0000 % 2 == 1)
    {
      hide Pow2;
      Powers();
      op := op.(vsew := vsew, ins := Decode(ins));
      this.vl, this.vs, vmask := vl, vs, mask;
      if op.ins.isWidening {
        this.scalar := if vsew == 32 then scalar else scalar % Pow2(vsew * 2);
      } else {
        this.scalar := if vsew == 64 then scalar else scalar % Pow2(vsew);
      }
      treeIntra := trees % 2 == 1 && !op.ins.isWidening;
      treeInter := trees / 2 % 2 == 1 && !op.ins.isMasking;
    }

    /** The buffers hold vl elements, and there is at least one lane and one accumulator. */
    predicate Ready()
      reads this
    {
      && ValidOp(op) && laneNum >= 1 && accumNum >= 1
      && |vs| == vl * (op.vsew / 8) && |vmask| == vl * (op.vsew / 8)
    }

    /** The reduction problem that the fields describe. */
    function TheProblem(): (p: Problem)
      requires Ready()
      reads this
      ensures p.op == op && p.scalar == scalar && |p.elems| == vl
    {
      Problem(op, scalar, Elements(vs, op.vsew / 8, vl))
    }

    /** init_lanes */
    method InitLanes(lanes: array<Lane>)
      requires Ready() && lanes.Length == laneNum
      modifies lanes
      ensures AllFrom(TheProblem(), lanes[..], StartInputs(laneNum), accumNum)
      ensures forall i :: 0 <= i < laneNum ==> lanes[i].act == 0
    {
      hide LaneFrom, Elements;
      ghost var p := TheProblem();
      var sew := ResultSew(op);
      for i := 0 to laneNum
        invariant forall k :: 0 <= k < i ==> lanes[k] == Lane(Blank(accumNum, 64 / sew), 0)
      {
        lanes[i] := Lane(Blank(accumNum, 64 / sew), 0);
      }
      lanes[0] := SetFirst(lanes[0], Part(true, scalar));
      ScalarLane(p, lanes[0].accums);
      EmptyLane(p, Blank(accumNum, 64 / sew));
    }

    /** One element meets its part of an accumulator. */
    method AbsorbElem(lanes: array<Lane>, i: nat, j: nat, k: nat, val: u64)
      requires ValidOp(op) && i < lanes.Length && j < |lanes[i].accums| && k < |lanes[i].accums[j]|
      modifies lanes
      ensures forall m :: 0 <= m < lanes.Length && m != i ==> lanes[m] == old(lanes[m])
      ensures lanes[i] == AbsorbAt(op, old(lanes[i]), j, k, val)
    {
      hide Operation, Lift;
      var part := lanes[i].accums[j][k];
      if part.init {
        part := part.(val := Operation(op, part.val, val, true, false));
      } else {
        part := Part(true, Lift(op, val));
      }
      lanes[i] := lanes[i].(accums := lanes[i].accums[j := lanes[i].accums[j][k := part]]);
    }

    /** Every input that the instruction names: the scalar and the active elements. */
    function AllInputs(): Inputs
      requires Ready()
      reads this
    {
      MaskFits(vl, op.vsew / 8, |vmask|);
      multiset{Scalar} + Active(op.ins.isMasking, vmask, vl)
    }

    /** Spread, for the lanes in memory. */
    ghost predicate SpreadIn(lanes: array<Lane>, ms: seq<Inputs>, n: nat)
      requires Ready()
      reads this, lanes
    {
      lanes.Length == laneNum && Spread(TheProblem(), op.ins.isMasking, vmask, accumNum, lanes[..], ms, n)
    }

    /** Offer the element at counter to a part of an accumulator: the mask decides. */
    method Offer(lanes: array<Lane>, i: nat, j: nat, k: nat, counter: nat, ghost n: nat, ghost ms0: seq<Inputs>)
      returns (ghost ms: seq<Inputs>)
      requires Ready() && SpreadIn(lanes, ms0, n) && i < laneNum && j < accumNum && k < 64 / ResultSew(op)
      requires counter == n * (op.vsew / 8) && counter / (op.vsew / 8) == n < vl
      modifies lanes
      ensures SpreadIn(lanes, ms, n + 1)
    {
      hide Spread, Active, Elements, Absorb, LittleEndian, MaskBit;
      ms := ms0;
      ghost var p, masking := TheProblem(), op.ins.isMasking;
      var bVsew := op.vsew / 8;
      MaskFits(vl, bVsew, |vmask|);
      if !op.ins.isMasking || MaskBit(vmask, counter / bVsew) {
        ElemsFit(bVsew, vl, n);
        var val := GetElem(counter, vs, bVsew);
        ElementIs(vs, bVsew, vl, n);
        SpreadTake(p, masking, vmask, accumNum, lanes[..], ms, n, i, j, k);
        ghost var was := lanes[..];
        AbsorbElem(lanes, i, j, k, val);
        assert lanes[..] == was[i := AbsorbAt(op, was[i], j, k, val)];
        ms := ms[i := ms[i] + multiset{Elem(n)}];
      } else {
        SpreadSkip(p, masking, vmask, accumNum, lanes[..], ms, n);
      }
    }

    /** The innermost loop of reduction_unord: one visit of a lane. */
    method FillLane(lanes: array<Lane>, i: nat, counter0: nat, ghost n0: nat, ghost ms0: seq<Inputs>)
      returns (ghost n: nat, ghost ms: seq<Inputs>, counter: nat)
      requires Ready() && SpreadIn(lanes, ms0, n0) && i < laneNum
      requires counter0 == n0 * (op.vsew / 8) && counter0 < vl * (op.vsew / 8)
      modifies lanes
      ensures SpreadIn(lanes, ms, n) && counter == n * (op.vsew / 8) && n0 < n <= vl
    {
      hide Spread, Active, Elements, Absorb, LittleEndian, MaskBit;
      n, ms, counter := n0, ms0, counter0;
      ghost var p, masking := TheProblem(), op.ins.isMasking;
      SpreadShape(p, masking, vmask, accumNum, lanes[..], ms, n);
      var bVsew, j, k := op.vsew / 8, lanes[i].act, 0;
      MaskFits(vl, bVsew, |vmask|);
      PartOf(op, 0);
      while k < 64 / op.vsew && counter < vl * bVsew
        invariant 0 <= k && SpreadIn(lanes, ms, n) && counter == n * bVsew && j < accumNum
        invariant if k == 0 then n == n0 && counter == counter0 else n > n0
        decreases 64 / op.vsew - k
      {
        CounterLess(n, vl, bVsew);
        PartOf(op, k);
        var aux := if op.ins.isWidening then k / 2 else k;
        ms := Offer(lanes, i, j, aux, counter, n, ms);
        n := n + 1;
        counter := counter + bVsew;
        k := k + 1;
      }
      SpreadShape(p, masking, vmask, accumNum, lanes[..], ms, n);
    }

    /** One round over the lanes. */
    method FillRound(lanes: array<Lane>, counter0: nat, ghost n0: nat, ghost ms0: seq<Inputs>)
      returns (ghost n: nat, ghost ms: seq<Inputs>, counter: nat)
      requires Ready() && SpreadIn(lanes, ms0, n0)
      requires counter0 == n0 * (op.vsew / 8) && counter0 < vl * (op.vsew / 8) && n0 <= vl
      modifies lanes
      ensures SpreadIn(lanes, ms, n) && counter == n * (op.vsew / 8) && n0 < n <= vl
    {
      hide AllFrom, Adjust, Sum, From, Active, Elements, Spread;
      var bVsew, i := op.vsew / 8, 0;
      n, ms, counter := n0, ms0, counter0;
      while i < laneNum && counter < vl * bVsew
        invariant 0 <= i <= laneNum && SpreadIn(lanes, ms, n) && counter == n * bVsew && n <= vl
        invariant if i == 0 then n == n0 else n > n0
        decreases laneNum - i
      {
        n, ms, counter := FillLane(lanes, i, counter, n, ms);
        SpreadTurn(TheProblem(), op.ins.isMasking, vmask, accumNum, lanes[..], ms, n, i, (lanes[i].act + 1) % accumNum);
        ghost var was := lanes[..];
        lanes[i] := lanes[i].(act := (lanes[i].act + 1) % accumNum);
        assert lanes[..] == was[i := lanes[i]];
        i := i + 1;
      }
    }

    /** reduction_unord: the result is an expression over the scalar and the active elements, each used once. */
    method ReductionUnord() returns (ret: u64)
      requires Ready()
      ensures exists e: Expr :: Leaves(e) == AllInputs() && ret == Adjust(op, Eval(TheProblem(), e))
    {
      hide AllFrom, Adjust, Sum, From, Active, Elements, Spread;
      var lanes := new Lane[laneNum](_ => Lane([], 0));
      InitLanes(lanes);
      ghost var ms, p, masking := StartInputs(laneNum), TheProblem(), op.ins.isMasking;
      ghost var n := 0;
      var bVsew, counter := op.vsew / 8, 0;
      MaskFits(vl, bVsew, |vmask|);
      SpreadStart(p, masking, vmask, accumNum, lanes[..]);
      while counter < vl * bVsew
        invariant SpreadIn(lanes, ms, n) && counter == n * bVsew && n <= vl
        decreases vl - n
      {
        n, ms, counter := FillRound(lanes, counter, n, ms);
      }
      CounterLess(n, vl, bVsew);
      SpreadShape(p, masking, vmask, accumNum, lanes[..], ms, n);
      MergeAccums(lanes, p, ms);
      CollapsedFrom(p, lanes[0], Sum(ms));
      ret := Adjust(op, lanes[0].accums[0][0].val);
    }

    /** The scalar and the active elements, in order. */
    function Order(): (xs: seq<Input>)
      requires Ready()
      reads this
      ensures xs != [] && multiset(xs) == AllInputs()
    {
      MaskFits(vl, op.vsew / 8, |vmask|);
      InOrder(op.ins.isMasking, vmask, vl)
    }

    /** reduction_ord: the left fold over the scalar and the active elements. */
    method ReductionOrd() returns (ret: u64)
      requires Ready()
      ensures ret == FoldLeft(TheProblem(), Order())
    {
      hide Elements, LittleEndian, Operation, MaskBit, Active, InOrder, FoldLeft;
      ghost var p, masking := TheProblem(), op.ins.isMasking;
      ret := scalar;
      ghost var n := 0;
      var bVsew, i := op.vsew / 8, 0;
      MaskFits(vl, bVsew, |vmask|);
      OrderStart(p, masking, vmask);
      while i < vl * bVsew
        invariant n <= vl && i == n * bVsew && ret == FoldLeft(p, InOrder(masking, vmask, n))
        decreases vl - n
      {
        CounterLess(n, vl, bVsew);
        OrderNext(p, masking, vmask, n);
        if !op.ins.isMasking || MaskBit(vmask, i / bVsew) {
          ElemsFit(bVsew, vl, n);
          var val := GetElem(i, vs, bVsew);
          ElementIs(vs, bVsew, vl, n);
          OperationLift(op, ret, val);
          ret := Operation(op, ret, val, true, false);
        }
        n := n + 1;
        i := i + bVsew;
      }
      CounterLess(n, vl, bVsew);
    }

    lemma ResultFits(ret: u64)
      requires Ready()
      requires exists e: Expr :: Leaves(e) == AllInputs() && ret == Adjust(op, Eval(TheProblem(), e))
      ensures ret < Pow2(ResultSew(op))
    {
      hide Elements, Adjust, Eval, InOrder, Active, IsReduction, Pow2, MaskBit, Leaves;
      var e: Expr :| Leaves(e) == AllInputs() && ret == Adjust(op, Eval(TheProblem(), e));
      AdjustIs(op, Eval(TheProblem(), e));
      SmallMod(Eval(TheProblem(), e), Pow2(ResultSew(op)));
    }

    lemma AnyShapeMeans(ret: u64)
      requires Ready() && IntegerOp(op) && InRange(op, scalar)
      requires exists e: Expr :: Leaves(e) == AllInputs() && ret == Adjust(op, Eval(TheProblem(), e))
      ensures IsReduction(TheProblem(), Order(), ret)
    {
      hide Elements, Adjust, Eval, InOrder, Active, IsReduction, Pow2, MaskBit;
      var e: Expr :| Leaves(e) == AllInputs() && ret == Adjust(op, Eval(TheProblem(), e));
      ElementsSane(vs, op.vsew / 8, vl);
      assert 8 * (op.vsew / 8) == op.vsew;
      ExpressionMeans(TheProblem(), e, Order());
    }

    /** do_reduction */
    method DoReduction() returns (ret: u64)
      requires Ready() && accumNumFp >= 1 && accumNumInt >= 1
      modifies this`accumNum
      ensures Ready()
      ensures op.ins.isUnordered ==> ret < Pow2(ResultSew(op))
      ensures op.ins.isUnordered ==>
        exists e: Expr :: Leaves(e) == AllInputs() && ret == Adjust(op, Eval(TheProblem(), e))
      ensures !op.ins.isUnordered ==> ret == FoldLeft(TheProblem(), Order())
      ensures IntegerOp(op) && InRange(op, scalar) && op.ins.isUnordered ==> IsReduction(TheProblem(), Order(), ret)
    {
      hide Elements, Adjust, Eval, FoldLeft, InOrder, Active, IsReduction, MaskBit, Pow2, Leaves;
      if op.ins.isWidening {
        accumNum := 1;
      } else {
        accumNum := if op.ins.isFp then accumNumFp else accumNumInt;
      }
      if op.ins.isUnordered {
        ret := ReductionUnord();
        ResultFits(ret);
        if IntegerOp(op) && InRange(op, scalar) {
          AnyShapeMeans(ret);
        }
      } else {
        ret := ReductionOrd();
      }
    }
  }

  lemma ElementsSane(vs: seq<byte>, b: nat, vl: nat)
    requires b in {1, 2, 4, 8} && |vs| == vl * b
    ensures forall n :: 0 <= n < vl ==> Elements(vs, b, vl)[n] < Pow2(8 * b)
  {
    forall n | 0 <= n < vl ensures Elements(vs, b, vl)[n] < Pow2(8 * b) {
      ElementIs(vs, b, vl, n);
      LittleEndianFits(vs, n * b, b);
    }
  }

  lemma OrderStart(p: Problem, masking: bool, vmask: seq<byte>)
    requires ValidOp(p.op)
    ensures FoldLeft(p, InOrder(masking, vmask, 0)) == p.scalar
  {
  }

  /** One more element of the ordered fold. */
  lemma OrderNext(p: Problem, masking: bool, vmask: seq<byte>, n: nat)
    requires ValidOp(p.op) && (masking ==> n < 8 * |vmask|) && n < |p.elems|
    ensures var acc := FoldLeft(p, InOrder(masking, vmask, n));
      FoldLeft(p, InOrder(masking, vmask, n + 1)) ==
      if !masking || MaskBit(vmask, n) then Operation(p.op, acc, Lift(p.op, p.elems[n]), true, true) else acc
  {
    hide Operation, Lift, MaskBit;
    var xs := InOrder(masking, vmask, n);
    if !masking || MaskBit(vmask, n) {
      FoldLast(p, xs, Elem(n));
    } else {
      assert xs + [] == xs;
    }
  }
}
