/**
 * Integer reductions do not depend on the shape of the hardware: any expression over
 * the inputs has the value of the plain left fold.
 */
module ReductionLaws {
  import opened Bytes
  import opened Bits
  import opened ReductionOps
  import opened Expressions

  /** The integer reductions of the instruction set. */
  predicate IntegerOp(o: Op) {
    && ValidOp(o) && !o.ins.isFp
    && if o.ins.isWidening then o.ins.funct6 == VWREDSUM || o.ins.funct6 == VWREDSUMU else o.ins.funct6 <= VREDMAX
  }

  /** The values that accumulators hold: SEW bits, or a whole word in a widening sum. */
  predicate InRange(o: Op, v: u64)
    requires ValidOp(o)
  {
    o.ins.isWidening || v < Pow2(o.vsew)
  }

  /** The sign-extended value of an element of n bits. */
  function Signed(v: nat, n: nat): int
    requires n >= 1
  {
    if v >= Pow2(n - 1) then v - Pow2(n) else v
  }

  lemma HalfRange(o: Op)
    requires ValidOp(o)
    ensures Pow2(o.vsew) == 2 * Pow2(o.vsew - 1) && 2 <= Pow2(o.vsew) <= U64
    ensures o.vsew < 64 ==> 2 * Pow2(o.vsew) <= U64
    ensures o.vsew == 64 ==> Pow2(o.vsew) == U64
  {
    Powers();
  }

  /** The comparison key of the signed minimum and maximum. */
  lemma KeyIs(o: Op, a: u64)
    requires ValidOp(o) && a < Pow2(o.vsew)
    ensures Signed64(SignExtend(o, a)) == Signed(a, o.vsew)
  {
    hide SignExtend, Pow2;
    HalfRange(o);
    SignExtendIs(o, a);
    Powers();
  }

  lemma AdjustSmall(o: Op, a: u64)
    requires ValidOp(o) && !o.ins.isWidening
    ensures a < Pow2(o.vsew) ==> Adjust(o, a) == a
    ensures Adjust(o, a) < Pow2(o.vsew)
    ensures Pow2(o.vsew) <= a < 2 * Pow2(o.vsew) ==> Adjust(o, a) == a - Pow2(o.vsew)
  {
    hide Adjust, Pow2;
    AdjustIs(o, a);
    SmallMod(a, Pow2(o.vsew));
  }

  lemma SmallMod(a: nat, m: nat)
    requires m > 0
    ensures a % m < m && (a < m ==> a % m == a) && (m <= a < 2 * m ==> a % m == a - m)
  {
    if a < m {
      ModIs(a, m, 0, a);
    } else if a < 2 * m {
      ModIs(a, m, 1, a - m);
    }
  }

  /** The operator on values in range, without the steps that change nothing there. */
  function Plain(o: Op, a: u64, b: u64): int
    requires IntegerOp(o)
  {
    var m := Pow2(o.vsew);
    if o.ins.isWidening then (if a + b < U64 then a + b else a + b - U64) else
    match o.ins.funct6
    case 0 => if a + b < m then a + b else a + b - m
    case 1 => And(a, b)
    case 2 => Or(a, b)
    case 3 => Xor(a, b)
    case 4 => if a <= b then a else b
    case 5 => if Signed(a, o.vsew) <= Signed(b, o.vsew) then a else b
    case 6 => if a <= b then b else a
    case _ => if Signed(a, o.vsew) <= Signed(b, o.vsew) then b else a
  }

  lemma PlainIs(o: Op, a: u64, b: u64)
    requires IntegerOp(o) && InRange(o, a) && InRange(o, b)
    ensures Operation(o, a, b, true, true) == Plain(o, a, b) && InRange(o, Operation(o, a, b, true, true))
  {
    hide SignExtend, Pow2, Adjust, And, Or, Xor;
    HalfRange(o);
    if !o.ins.isWidening {
      InBits(a, b, o.vsew);
      AdjustSmall(o, a);
      AdjustSmall(o, b);
      AdjustSmall(o, Wrap(a + b));
      KeyIs(o, a);
      KeyIs(o, b);
    }
  }

  lemma Commutes(o: Op, a: u64, b: u64)
    requires IntegerOp(o) && InRange(o, a) && InRange(o, b)
    ensures Operation(o, a, b, true, true) == Operation(o, b, a, true, true)
  {
    hide Pow2, And, Or, Xor, Operation;
    PlainIs(o, a, b);
    PlainIs(o, b, a);
    HalfRange(o);
    AndComm(a, b);
    OrComm(a, b);
    XorComm(a, b);
  }

  lemma Associates(o: Op, a: u64, b: u64, c: u64)
    requires IntegerOp(o) && InRange(o, a) && InRange(o, b) && InRange(o, c)
    ensures InRange(o, Operation(o, a, b, true, true)) && InRange(o, Operation(o, b, c, true, true))
    ensures Operation(o, Operation(o, a, b, true, true), c, true, true)
         == Operation(o, a, Operation(o, b, c, true, true), true, true)
  {
    hide Pow2, And, Or, Xor, Operation;
    PlainIs(o, a, b);
    PlainIs(o, b, c);
    PlainIs(o, Operation(o, a, b, true, true), c);
    PlainIs(o, a, Operation(o, b, c, true, true));
    HalfRange(o);
    AndAssoc(a, b, c);
    OrAssoc(a, b, c);
    XorAssoc(a, b, c);
  }

  // -------------------------------------------------------- order of the inputs

  /** Scalar and elements as the instruction reads them. */
  ghost predicate Sane(p: Problem) {
    && IntegerOp(p.op) && InRange(p.op, p.scalar)
    && forall n :: 0 <= n < |p.elems| ==> p.elems[n] < Pow2(p.op.vsew)
  }

  lemma ValueInRange(p: Problem, x: Input)
    requires Sane(p)
    ensures InRange(p.op, Value(p, x))
  {
    hide SignExtend;
    HalfRange(p.op);
  }

  /** The left fold over inputs. */
  function FoldLeft(p: Problem, xs: seq<Input>): u64
    requires ValidOp(p.op) && xs != []
  {
    if |xs| == 1 then Value(p, xs[0])
    else Operation(p.op, FoldLeft(p, xs[..|xs| - 1]), Value(p, xs[|xs| - 1]), true, true)
  }

  lemma {:induction false} FoldInRange(p: Problem, xs: seq<Input>)
    requires Sane(p) && xs != []
    ensures InRange(p.op, FoldLeft(p, xs))
  {
    hide Operation, InRange;
    ValueInRange(p, xs[|xs| - 1]);
    if |xs| <= 1 {
    } else {
      FoldInRange(p, xs[..|xs| - 1]);
      PlainIs(p.op, FoldLeft(p, xs[..|xs| - 1]), Value(p, xs[|xs| - 1]));
    }
  }

  lemma {:induction false} FoldConcat(p: Problem, xs: seq<Input>, ys: seq<Input>)
    requires Sane(p) && xs != [] && ys != []
    ensures FoldLeft(p, xs + ys) == Operation(p.op, FoldLeft(p, xs), FoldLeft(p, ys), true, true)
    decreases |ys|
  {
    hide Operation, InRange, Value;
    var zs, last := xs + ys, ys[|ys| - 1];
    assert zs[|zs| - 1] == last;
    if |ys| == 1 {
      assert zs[..|zs| - 1] == xs;
    } else {
      var init := ys[..|ys| - 1];
      assert zs[..|zs| - 1] == xs + init;
      FoldConcat(p, xs, init);
      FoldInRange(p, xs);
      FoldInRange(p, init);
      ValueInRange(p, last);
      Associates(p.op, FoldLeft(p, xs), FoldLeft(p, init), Value(p, last));
    }
  }

  /** Two neighbouring blocks may change places. */
  lemma FoldSwap(p: Problem, xs: seq<Input>, ys: seq<Input>)
    requires Sane(p) && xs != [] && ys != []
    ensures FoldLeft(p, xs + ys) == FoldLeft(p, ys + xs)
  {
    hide Operation, InRange, Value, FoldLeft;
    FoldConcat(p, xs, ys);
    FoldConcat(p, ys, xs);
    FoldInRange(p, xs);
    FoldInRange(p, ys);
    Commutes(p.op, FoldLeft(p, xs), FoldLeft(p, ys));
  }

  /** An input may move to the end. */
  lemma FoldToEnd(p: Problem, a: seq<Input>, x: Input, b: seq<Input>)
    requires Sane(p)
    ensures FoldLeft(p, a + [x] + b) == FoldLeft(p, a + b + [x])
  {
    hide Operation, InRange, Value, FoldLeft;
    if b == [] {
      assert a + [x] + b == a + b + [x];
    } else if a == [] {
      FoldSwap(p, [x], b);
      assert a + [x] + b == [x] + b && a + b + [x] == b + [x];
    } else {
      FoldSwap(p, [x], b);
      FoldConcat(p, a, [x] + b);
      FoldConcat(p, a, b + [x]);
      assert a + [x] + b == a + ([x] + b) && a + b + [x] == a + (b + [x]);
    }
  }

  /** The fold depends on which inputs there are, not on their order. */
  lemma {:induction false} FoldPermutes(p: Problem, xs: seq<Input>, ys: seq<Input>)
    requires Sane(p) && xs != [] && multiset(xs) == multiset(ys)
    ensures ys != [] && FoldLeft(p, xs) == FoldLeft(p, ys)
    decreases |ys|
  {
    hide Operation, InRange, Value, FoldLeft;
    assert |xs| == |multiset(xs)| == |ys|;
    var x, init := ys[|ys| - 1], ys[..|ys| - 1];
    assert ys == init + [x];
    var i := TakeOut(xs, init, x);
    var rest := xs[..i] + xs[i + 1..];
    assert xs == xs[..i] + [x] + xs[i + 1..];
    FoldToEnd(p, xs[..i], x, xs[i + 1..]);
    FoldLast(p, rest, x);
    FoldLast(p, init, x);
    if rest != [] {
      FoldPermutes(p, rest, init);
    } else {
      assert |init| == |multiset(init)| == 0;
    }
  }

  lemma FoldLast(p: Problem, xs: seq<Input>, x: Input)
    requires ValidOp(p.op)
    ensures FoldLeft(p, xs + [x])
         == if xs == [] then Value(p, x) else Operation(p.op, FoldLeft(p, xs), Value(p, x), true, true)
  {
    hide Operation, Value;
    assert (xs + [x])[..|xs|] == xs;
  }

  /** An occurrence of x whose removal leaves the other inputs. */
  lemma TakeOut(xs: seq<Input>, init: seq<Input>, x: Input) returns (i: nat)
    requires multiset(xs) == multiset(init + [x])
    ensures i < |xs| && xs[i] == x && multiset(xs[..i] + xs[i + 1..]) == multiset(init)
  {
    assert multiset(init + [x]) == multiset(init) + multiset{x};
    assert x in multiset(xs);
    i :| 0 <= i < |xs| && xs[i] == x;
    assert xs == xs[..i] + [x] + xs[i + 1..];
    assert multiset(xs) == multiset(xs[..i]) + multiset{x} + multiset(xs[i + 1..]);
    assert multiset(xs[..i] + xs[i + 1..]) == multiset(xs) - multiset{x};
  }

  // ------------------------------------------------------------- expressions

  function Flat(e: Expr): (xs: seq<Input>)
    ensures xs != [] && multiset(xs) == Leaves(e)
  {
    match e
    case Leaf(x) => [x]
    case Pair(l, r) => Flat(l) + Flat(r)
  }

  lemma {:induction false} EvalFold(p: Problem, e: Expr)
    requires Sane(p)
    ensures Eval(p, e) == FoldLeft(p, Flat(e))
  {
    hide Operation, Value, Sane;
    match e
    case Leaf(x) =>
    case Pair(l, r) =>
      EvalFold(p, l);
      EvalFold(p, r);
      FoldConcat(p, Flat(l), Flat(r));
  }

  /** Any expression over the inputs has the value of the left fold over them, in any order. */
  lemma ShapeDoesNotMatter(p: Problem, e: Expr, xs: seq<Input>)
    requires Sane(p) && xs != [] && multiset(xs) == Leaves(e)
    ensures Eval(p, e) == FoldLeft(p, xs)
  {
    hide Operation, Value, Sane, Eval, FoldLeft, Leaves;
    EvalFold(p, e);
    FoldPermutes(p, Flat(e), xs);
  }

  /** The scalar and the active ones of the first n elements, in order. */
  function InOrder(masking: bool, vmask: seq<byte>, n: nat): (xs: seq<Input>)
    requires masking ==> n <= 8 * |vmask|
    ensures xs != [] && multiset(xs) == multiset{Scalar} + Active(masking, vmask, n)
  {
    if n == 0 then [Scalar] else
    var front, last := InOrder(masking, vmask, n - 1), if !masking || MaskBit(vmask, n - 1) then [Elem(n - 1)] else [];
    front + last
  }

  lemma InOrderStart(masking: bool, vmask: seq<byte>)
    ensures InOrder(masking, vmask, 0) == [Scalar]
  {
  }

  lemma InOrderStep(masking: bool, vmask: seq<byte>, n: nat)
    requires masking ==> n < 8 * |vmask|
    ensures InOrder(masking, vmask, n + 1)
         == InOrder(masking, vmask, n) + if !masking || MaskBit(vmask, n) then [Elem(n)] else []
  {
    hide MaskBit, Active;
  }

  // ---------------------------------------------------- what the folds mean

  /** The number that an input contributes to a sum. */
  function Weight(p: Problem, x: Input): int
    requires ValidOp(p.op)
  {
    if x.Elem? && x.index < |p.elems| && p.op.ins.isWidening && !p.op.ins.isUnsigned
    then Signed(p.elems[x.index], p.op.vsew) else Value(p, x)
  }

  function Total(p: Problem, xs: seq<Input>): int
    requires ValidOp(p.op)
  {
    if xs == [] then 0 else Total(p, xs[..|xs| - 1]) + Weight(p, xs[|xs| - 1])
  }

  predicate IsSum(o: Op) {
    if o.ins.isWidening then o.ins.funct6 == VWREDSUM || o.ins.funct6 == VWREDSUMU else o.ins.funct6 == VREDSUM
  }

  /** The wrap-around of a sum in an accumulator. */
  function Modulus(o: Op): nat {
    if o.ins.isWidening then U64 else Pow2(o.vsew)
  }

  lemma WeightIs(p: Problem, x: Input) returns (k: int)
    requires Sane(p)
    ensures Value(p, x) == Weight(p, x) + (if k == 0 then 0 else Modulus(p.op)) && k in {0, 1}
  {
    hide SignExtend, Pow2;
    k := 0;
    if x.Elem? && x.index < |p.elems| && p.op.ins.isWidening && !p.op.ins.isUnsigned {
      HalfRange(p.op);
      SignExtendIs(p.op, p.elems[x.index]);
      k := if p.elems[x.index] >= Pow2(p.op.vsew - 1) then 1 else 0;
    }
  }

  /** A sum of accumulators is the sum of the numbers up to a multiple of the modulus. */
  lemma {:induction false} SumWraps(p: Problem, xs: seq<Input>) returns (k: int)
    requires Sane(p) && IsSum(p.op) && xs != []
    ensures FoldLeft(p, xs) == Total(p, xs) + k * Modulus(p.op)
  {
    hide Operation, Value, Pow2, InRange;
    var m, last := Modulus(p.op), xs[|xs| - 1];
    var j := WeightIs(p, last);
    ValueInRange(p, last);
    if |xs| == 1 {
      assert xs[..0] == [];
      k := j;
    } else {
      var init := xs[..|xs| - 1];
      k := SumWraps(p, init);
      FoldInRange(p, init);
      PlainIs(p.op, FoldLeft(p, init), Value(p, last));
      var carry := if FoldLeft(p, init) + Value(p, last) < m then 0 else 1;
      k := k + j - carry;
      Dist(m, k, carry - j);
      Dist(m, j, -carry);
    }
  }

  /** An odd number of the inputs have bit j. */
  predicate OddBit(p: Problem, xs: seq<Input>, j: nat)
    requires ValidOp(p.op)
  {
    if xs == [] then false else OddBit(p, xs[..|xs| - 1], j) != HasBit(Value(p, xs[|xs| - 1]), j)
  }

  /** r is one of the inputs, and the others compare as the test says. */
  ghost predicate Extreme(p: Problem, xs: seq<Input>, r: u64, signed: bool, least: bool)
    requires ValidOp(p.op)
  {
    && (exists i :: 0 <= i < |xs| && Value(p, xs[i]) == r)
    && forall i :: 0 <= i < |xs| ==> Precedes(p.op, r, Value(p, xs[i]), signed, least)
  }

  predicate Precedes(o: Op, a: u64, b: u64, signed: bool, least: bool)
    requires ValidOp(o)
  {
    var x, y := if signed then Signed(a, o.vsew) else a, if signed then Signed(b, o.vsew) else b;
    if least then x <= y else y <= x
  }

  /** What an integer reduction of the inputs xs has to return. */
  ghost predicate IsReduction(p: Problem, xs: seq<Input>, r: u64)
    requires IntegerOp(p.op)
  {
    if IsSum(p.op) then r == Total(p, xs) % Pow2(ResultSew(p.op))
    else
      match p.op.ins.funct6
      case 1 => forall j :: HasBit(r, j) <==> forall i :: 0 <= i < |xs| ==> HasBit(Value(p, xs[i]), j)
      case 2 => forall j :: HasBit(r, j) <==> exists i :: 0 <= i < |xs| && HasBit(Value(p, xs[i]), j)
      case 3 => forall j :: HasBit(r, j) <==> OddBit(p, xs, j)
      case 4 => Extreme(p, xs, r, false, true)
      case 5 => Extreme(p, xs, r, true, true)
      case 6 => Extreme(p, xs, r, false, false)
      case _ => Extreme(p, xs, r, true, false)
  }

  lemma ModInt(a: int, m: nat, q: int, r: nat)
    requires m > 0 && a == m * q + r && r < m
    ensures a % m == r
  {
    var p := a / m;
    assert a == m * p + a % m;
    if p > q {
      Dist(m, q, p - q);
      Dist(m, 1, p - q - 1);
    } else if p < q {
      Dist(m, p, q - p);
      Dist(m, 1, q - p - 1);
    }
  }

  /** Multiples of the modulus do not matter. */
  lemma ModShift(x: int, n: int, m: nat)
    requires m > 0
    ensures (x + m * n) % m == x % m
  {
    var q, r := x / m, x % m;
    assert x == m * q + r;
    Dist(m, q, n);
    ModInt(x + m * n, m, q + n, r);
  }

  /** The accumulator's modulus is a multiple of that of the result. */
  lemma Divides(o: Op) returns (c: nat)
    requires IntegerOp(o)
    ensures Modulus(o) == Pow2(ResultSew(o)) * c
  {
    Powers();
    if !o.ins.isWidening {
      c := 1;
    } else if o.vsew == 8 {
      c := 0x1_0000_0000_0000;
    } else if o.vsew == 16 {
      c := 0x1_0000_0000;
    } else {
      c := 1;
    }
  }

  lemma SumMeans(p: Problem, xs: seq<Input>)
    requires Sane(p) && IsSum(p.op) && xs != []
    ensures Adjust(p.op, FoldLeft(p, xs)) == Total(p, xs) % Pow2(ResultSew(p.op))
  {
    hide Operation, Value, Pow2, InRange, FoldLeft, Adjust, Total;
    var k := SumWraps(p, xs);
    var c := Divides(p.op);
    AdjustIs(p.op, FoldLeft(p, xs));
    var m := Pow2(ResultSew(p.op));
    Reorder(k, m, c);
    ModShift(Total(p, xs), k * c, m);
  }

  lemma Reorder(k: int, m: nat, c: nat)
    ensures k * (m * c) == m * (k * c)
  {
  }

  /** The last step of a fold, in plain terms. */
  lemma LastStep(p: Problem, xs: seq<Input>)
    requires Sane(p) && |xs| > 1
    ensures var init, last := xs[..|xs| - 1], xs[|xs| - 1];
      InRange(p.op, FoldLeft(p, init)) && FoldLeft(p, xs) == Plain(p.op, FoldLeft(p, init), Value(p, last))
  {
    hide Operation, Value, InRange, Plain;
    FoldInRange(p, xs[..|xs| - 1]);
    ValueInRange(p, xs[|xs| - 1]);
    PlainIs(p.op, FoldLeft(p, xs[..|xs| - 1]), Value(p, xs[|xs| - 1]));
  }

  lemma {:induction false} BitsMean(p: Problem, xs: seq<Input>, j: nat)
    requires Sane(p) && !p.op.ins.isWidening && 1 <= p.op.ins.funct6 <= 3 && xs != []
    ensures HasBit(FoldLeft(p, xs), j) <==>
      if p.op.ins.funct6 == VREDAND then forall i :: 0 <= i < |xs| ==> HasBit(Value(p, xs[i]), j)
      else if p.op.ins.funct6 == VREDOR then exists i :: 0 <= i < |xs| && HasBit(Value(p, xs[i]), j)
      else OddBit(p, xs, j)
  {
    hide Operation, Value, And, Or, Xor, HasBit, InRange;
    var init, last := xs[..|xs| - 1], xs[|xs| - 1];
    if |xs| == 1 {
      assert init == [] && last == xs[0];
      assert !OddBit(p, [], j);
    } else {
      BitsMean(p, init, j);
      LastStep(p, xs);
      OpBit(FoldLeft(p, init), Value(p, last), j);
      assert xs == init + [last];
    }
  }

  lemma {:induction false} ExtremeMeans(p: Problem, xs: seq<Input>)
    requires Sane(p) && !p.op.ins.isWidening && p.op.ins.funct6 >= VREDMINU && xs != []
    ensures Extreme(p, xs, FoldLeft(p, xs),
                    p.op.ins.funct6 == VREDMIN || p.op.ins.funct6 == VREDMAX, p.op.ins.funct6 <= VREDMIN)
  {
    hide Operation, Value, And, Or, Xor, InRange, Pow2;
    var init, last := xs[..|xs| - 1], xs[|xs| - 1];
    if |xs| <= 1 {
    } else {
      ExtremeMeans(p, init);
      LastStep(p, xs);
      assert xs == init + [last];
      var r, w := FoldLeft(p, init), Value(p, last);
      var i :| 0 <= i < |init| && Value(p, init[i]) == r;
      assert xs[i] == init[i] && xs[|xs| - 1] == last;
    }
  }

  /** The left fold, cut to the result width, is the reduction. */
  lemma FoldMeans(p: Problem, xs: seq<Input>)
    requires Sane(p) && xs != []
    ensures IsReduction(p, xs, Adjust(p.op, FoldLeft(p, xs)))
  {
    hide Operation, Value, And, Or, Xor, Adjust, FoldLeft, Total, HasBit, OddBit, Extreme, Pow2;
    if IsSum(p.op) {
      SumMeans(p, xs);
    } else {
      FoldInRange(p, xs);
      AdjustSmall(p.op, FoldLeft(p, xs));
      if p.op.ins.funct6 <= VREDXOR {
        forall j: nat {
          BitsMean(p, xs, j);
        }
      } else {
        ExtremeMeans(p, xs);
      }
    }
  }

  /** Whatever the shape of the expression, its value is the reduction of its inputs. */
  lemma ExpressionMeans(p: Problem, e: Expr, xs: seq<Input>)
    requires Sane(p) && xs != [] && multiset(xs) == Leaves(e)
    ensures IsReduction(p, xs, Adjust(p.op, Eval(p, e)))
  {
    hide Sane, Adjust, IsReduction, Eval, FoldLeft;
    ShapeDoesNotMatter(p, e, xs);
    FoldMeans(p, xs);
  }
}
