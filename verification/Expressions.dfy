/**
 * What a reduction computes: binary expressions over the scalar and the elements.
 * An accumulator part stands for the multiset of inputs that went into it.
 */
module Expressions {
  import opened Bytes
  import opened ReductionOps

  datatype Input = Scalar | Elem(index: nat)

  datatype Expr = Leaf(input: Input) | Pair(left: Expr, right: Expr)

  type Inputs = multiset<Input>

  /** The operator and the values of the inputs. */
  datatype Problem = Problem(op: Op, scalar: u64, elems: seq<u64>)

  function Value(p: Problem, x: Input): u64
    requires ValidOp(p.op)
  {
    match x
    case Scalar => p.scalar
    case Elem(i) => if i < |p.elems| then Lift(p.op, p.elems[i]) else 0
  }

  function Eval(p: Problem, e: Expr): u64
    requires ValidOp(p.op)
  {
    match e
    case Leaf(x) => Value(p, x)
    case Pair(l, r) => Operation(p.op, Eval(p, l), Eval(p, r), true, true)
  }

  function Leaves(e: Expr): Inputs {
    match e
    case Leaf(x) => multiset{x}
    case Pair(l, r) => Leaves(l) + Leaves(r)
  }

  /** v is the value of an expression that uses exactly the inputs m. */
  ghost predicate From(p: Problem, m: Inputs, v: u64)
    requires ValidOp(p.op)
  {
    exists e: Expr :: Leaves(e) == m && Eval(p, e) == v
  }

  lemma Combine(p: Problem, m: Inputs, v: u64, n: Inputs, w: u64)
    requires ValidOp(p.op) && From(p, m, v) && From(p, n, w)
    ensures From(p, m + n, Operation(p.op, v, w, true, true))
  {
    hide Operation;
    var d: Expr :| Leaves(d) == m && Eval(p, d) == v;
    var e: Expr :| Leaves(e) == n && Eval(p, e) == w;
    assert Leaves(Pair(d, e)) == m + n && Eval(p, Pair(d, e)) == Operation(p.op, v, w, true, true);
  }

  lemma Single(p: Problem, x: Input)
    requires ValidOp(p.op)
    ensures From(p, multiset{x}, Value(p, x))
  {
    assert Leaves(Leaf(x)) == multiset{x} && Eval(p, Leaf(x)) == Value(p, x);
  }

  // ------------------------------------------------------- sums of multisets

  function Sum(ms: seq<Inputs>): Inputs {
    if ms == [] then multiset{} else ms[0] + Sum(ms[1..])
  }

  lemma {:induction false} SumConcat(a: seq<Inputs>, b: seq<Inputs>)
    ensures Sum(a + b) == Sum(a) + Sum(b)
  {
    if a == [] {
      assert a + b == b;
    } else {
      SumConcat(a[1..], b);
      assert (a + b)[1..] == a[1..] + b && (a + b)[0] == a[0];
    }
  }

  lemma SumAt(ms: seq<Inputs>, j: nat)
    requires j < |ms|
    ensures Sum(ms) == ms[j] + (Sum(ms[..j]) + Sum(ms[j + 1..]))
  {
    assert ms == ms[..j] + ([ms[j]] + ms[j + 1..]);
    SumConcat(ms[..j], [ms[j]] + ms[j + 1..]);
    assert ([ms[j]] + ms[j + 1..])[1..] == ms[j + 1..];
  }

  /** Changing one summand. */
  lemma SumPut(ms: seq<Inputs>, j: nat, x: Inputs, d: Inputs)
    requires j < |ms| && x == ms[j] + d
    ensures Sum(ms[j := x]) == Sum(ms) + d
  {
    SumAt(ms, j);
    SumAt(ms[j := x], j);
    assert ms[j := x][..j] == ms[..j] && ms[j := x][j + 1..] == ms[j + 1..];
  }

  /** Moving one summand to another. */
  lemma SumMove(ms: seq<Inputs>, i: nat, j: nat)
    requires i < |ms| && j < |ms| && i != j
    ensures Sum(ms[i := ms[i] + ms[j]][j := multiset{}]) == Sum(ms)
  {
    var up := ms[i := ms[i] + ms[j]];
    SumPut(ms, i, ms[i] + ms[j], ms[j]);
    SumPut(up[j := multiset{}], j, ms[j], ms[j]);
    assert up[j := multiset{}][j := ms[j]] == up;
    Cancel(Sum(up[j := multiset{}]), Sum(ms), ms[j]);
  }

  lemma Cancel(a: Inputs, b: Inputs, c: Inputs)
    requires a + c == b + c
    ensures a == b
  {
    assert a == (a + c) - c && b == (b + c) - c;
  }

  lemma {:induction false} SumEmpty(ms: seq<Inputs>)
    requires forall j :: 0 <= j < |ms| ==> ms[j] == multiset{}
    ensures Sum(ms) == multiset{}
  {
    if ms == [] {
    } else {
      SumEmpty(ms[1..]);
    }
  }

  // ------------------------------------------------------ accumulator parts

  datatype Part = Part(init: bool, val: u64)

  ghost predicate PartFrom(p: Problem, a: Part, m: Inputs)
    requires ValidOp(p.op)
  {
    if a.init then From(p, m, a.val) else m == multiset{}
  }

  /** The parts of an accumulator, each with its inputs. */
  ghost predicate PartsFrom(p: Problem, a: seq<Part>, ms: seq<Inputs>)
    requires ValidOp(p.op)
  {
    |a| == |ms| && forall k :: 0 <= k < |a| ==> PartFrom(p, a[k], ms[k])
  }

  ghost predicate AccumFrom(p: Problem, a: seq<Part>, m: Inputs)
    requires ValidOp(p.op)
  {
    exists ms: seq<Inputs> :: PartsFrom(p, a, ms) && Sum(ms) == m
  }

  /** The accumulators of a lane, each with its inputs. */
  ghost predicate AccumsFrom(p: Problem, as_: seq<seq<Part>>, ms: seq<Inputs>)
    requires ValidOp(p.op)
  {
    |as_| == |ms| && forall j :: 0 <= j < |as_| ==> AccumFrom(p, as_[j], ms[j])
  }

  ghost predicate LaneFrom(p: Problem, as_: seq<seq<Part>>, m: Inputs)
    requires ValidOp(p.op)
  {
    exists ms: seq<Inputs> :: AccumsFrom(p, as_, ms) && Sum(ms) == m
  }

  /** Two parts that may or may not hold a value, as every merge combines them. */
  function Both(o: Op, a: Part, b: Part): Part
    requires ValidOp(o)
  {
    if a.init && b.init then Part(true, Operation(o, a.val, b.val, true, true))
    else if b.init then b else a
  }

  lemma BothFrom(p: Problem, a: Part, m: Inputs, b: Part, n: Inputs)
    requires ValidOp(p.op) && PartFrom(p, a, m) && PartFrom(p, b, n)
    ensures PartFrom(p, Both(p.op, a, b), m + n)
  {
    hide Operation, From;
    if a.init && b.init {
      Combine(p, m, a.val, n, b.val);
    } else {
      assert m + multiset{} == m && multiset{} + n == n;
    }
  }

  // ---------------------------------------------------- absorbing an element

  /** The active elements among the first n. */
  function Active(masking: bool, vmask: seq<byte>, n: nat): Inputs
    requires masking ==> n <= 8 * |vmask|
  {
    if n == 0 then multiset{} else
    Active(masking, vmask, n - 1) + if !masking || MaskBit(vmask, n - 1) then multiset{Elem(n - 1)} else multiset{}
  }

  lemma NextActive(masking: bool, vmask: seq<byte>, n: nat)
    requires masking ==> n < 8 * |vmask|
    ensures Active(masking, vmask, n + 1)
         == Active(masking, vmask, n) + if !masking || MaskBit(vmask, n) then multiset{Elem(n)} else multiset{}
  {
  }

  /** What happens to the part that meets an element. */
  function Absorb(o: Op, a: Part, val: u64): Part
    requires ValidOp(o)
  {
    Part(true, if a.init then Operation(o, a.val, val, true, false) else Lift(o, val))
  }

  lemma AbsorbPart(p: Problem, a: Part, m: Inputs, n: nat)
    requires ValidOp(p.op) && PartFrom(p, a, m) && n < |p.elems|
    ensures PartFrom(p, Absorb(p.op, a, p.elems[n]), m + multiset{Elem(n)})
  {
    hide Operation, Lift, From;
    Single(p, Elem(n));
    if a.init {
      OperationLift(p.op, a.val, p.elems[n]);
      Combine(p, m, a.val, multiset{Elem(n)}, Lift(p.op, p.elems[n]));
    } else {
      assert multiset{} + multiset{Elem(n)} == multiset{Elem(n)};
    }
  }

  lemma AbsorbAccum(p: Problem, a: seq<Part>, m: Inputs, k: nat, n: nat)
    requires ValidOp(p.op) && AccumFrom(p, a, m) && k < |a| && n < |p.elems|
    ensures AccumFrom(p, a[k := Absorb(p.op, a[k], p.elems[n])], m + multiset{Elem(n)})
  {
    hide PartFrom, Absorb, Sum;
    var ms: seq<Inputs> :| PartsFrom(p, a, ms) && Sum(ms) == m;
    AbsorbPart(p, a[k], ms[k], n);
    SumPut(ms, k, ms[k] + multiset{Elem(n)}, multiset{Elem(n)});
    assert PartsFrom(p, a[k := Absorb(p.op, a[k], p.elems[n])], ms[k := ms[k] + multiset{Elem(n)}]);
  }

  lemma AbsorbLane(p: Problem, as_: seq<seq<Part>>, m: Inputs, j: nat, k: nat, n: nat)
    requires ValidOp(p.op) && LaneFrom(p, as_, m) && j < |as_| && k < |as_[j]| && n < |p.elems|
    ensures LaneFrom(p, as_[j := as_[j][k := Absorb(p.op, as_[j][k], p.elems[n])]], m + multiset{Elem(n)})
  {
    hide AccumFrom, Absorb, Sum;
    var ms: seq<Inputs> :| AccumsFrom(p, as_, ms) && Sum(ms) == m;
    AbsorbAccum(p, as_[j], ms[j], k, n);
    SumPut(ms, j, ms[j] + multiset{Elem(n)}, multiset{Elem(n)});
    assert AccumsFrom(p, as_[j := as_[j][k := Absorb(p.op, as_[j][k], p.elems[n])]],
                      ms[j := ms[j] + multiset{Elem(n)}]);
  }

  /** A lane that has absorbed nothing. */
  lemma EmptyLane(p: Problem, as_: seq<seq<Part>>)
    requires ValidOp(p.op) && forall j, k :: 0 <= j < |as_| && 0 <= k < |as_[j]| ==> !as_[j][k].init
    ensures LaneFrom(p, as_, multiset{})
  {
    var none := seq(|as_|, j => multiset{});
    forall j | 0 <= j < |as_| ensures AccumFrom(p, as_[j], none[j]) {
      var zero := seq(|as_[j]|, k => multiset{});
      SumEmpty(zero);
      assert PartsFrom(p, as_[j], zero);
    }
    SumEmpty(none);
    assert AccumsFrom(p, as_, none);
  }

  /** The lane that holds the scalar and nothing else. */
  lemma ScalarLane(p: Problem, as_: seq<seq<Part>>)
    requires ValidOp(p.op) && as_ != [] && as_[0] != [] && as_[0][0] == Part(true, p.scalar)
    requires forall j, k :: 0 <= j < |as_| && 0 <= k < |as_[j]| && (j != 0 || k != 0) ==> !as_[j][k].init
    ensures LaneFrom(p, as_, multiset{Scalar})
  {
    hide Operation, Lift, AccumFrom, Sum;
    var none := as_[0 := as_[0][0 := Part(false, 0)]];
    EmptyLane(p, none);
    var ms: seq<Inputs> :| AccumsFrom(p, none, ms) && Sum(ms) == multiset{};
    ScalarAccum(p, as_[0], ms[0]);
    SumPut(ms, 0, ms[0] + multiset{Scalar}, multiset{Scalar});
    var ns := ms[0 := ms[0] + multiset{Scalar}];
    forall j | 0 <= j < |as_| ensures AccumFrom(p, as_[j], ns[j]) {
      assert j > 0 ==> as_[j] == none[j];
    }
    assert AccumsFrom(p, as_, ns);
  }

  lemma ScalarAccum(p: Problem, a: seq<Part>, m: Inputs)
    requires ValidOp(p.op) && a != [] && a[0] == Part(true, p.scalar) && AccumFrom(p, a[0 := Part(false, 0)], m)
    ensures AccumFrom(p, a, m + multiset{Scalar})
  {
    hide Operation, Lift, From;
    var none := a[0 := Part(false, 0)];
    var ms: seq<Inputs> :| PartsFrom(p, none, ms) && Sum(ms) == m;
    Single(p, Scalar);
    SumPut(ms, 0, ms[0] + multiset{Scalar}, multiset{Scalar});
    var ns := ms[0 := ms[0] + multiset{Scalar}];
    forall k | 0 <= k < |a| ensures PartFrom(p, a[k], ns[k]) {
      assert PartFrom(p, none[k], ms[k]);
      assert k > 0 ==> a[k] == none[k];
      assert multiset{} + multiset{Scalar} == multiset{Scalar};
    }
    assert PartsFrom(p, a, ns);
  }
}
