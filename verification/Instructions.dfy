/**
 * The entry point of the reduction model (reduction.cc), by instruction word: registers in, and out a
 * register that holds what the instruction of that word computes, with its tail.
 */
module Instructions {
  import opened Bytes
  import opened Bits
  import opened ReductionOps
  import opened Expressions
  import opened ReductionLaws
  import opened Lanes
  import opened Reductions

  // ------------------------------------------------- the reductions, by funct6

  function SumOf(vals: seq<int>): int {
    if vals == [] then 0 else SumOf(vals[..|vals| - 1]) + vals[|vals| - 1]
  }

  /** How many of the values have bit j. */
  function OnesAt(vals: seq<nat>, j: nat): nat {
    if vals == [] then 0 else OnesAt(vals[..|vals| - 1], j) + if HasOne(vals[|vals| - 1], j) then 1 else 0
  }

  /** The number that n bits stand for in two's complement. */
  function TwosComplement(v: nat, n: nat): int
    requires n >= 1
  {
    if v / Pow2(n - 1) % 2 == 1 then v - Pow2(n) else v
  }

  /** The order of numbers of n bits, with or without a sign. */
  predicate AtMost(a: nat, b: nat, n: nat, signed: bool)
    requires n >= 1
  {
    if signed then TwosComplement(a, n) <= TwosComplement(b, n) else a <= b
  }

  /** r is among the values, and the least of them, or the greatest. */
  ghost predicate Least(vals: seq<nat>, r: nat, n: nat, signed: bool)
    requires n >= 1
  {
    (exists i :: 0 <= i < |vals| && vals[i] == r) && forall i :: 0 <= i < |vals| ==> AtMost(r, vals[i], n, signed)
  }

  ghost predicate Greatest(vals: seq<nat>, r: nat, n: nat, signed: bool)
    requires n >= 1
  {
    (exists i :: 0 <= i < |vals| && vals[i] == r) && forall i :: 0 <= i < |vals| ==> AtMost(vals[i], r, n, signed)
  }

  /** Bit j of a number. */
  predicate HasOne(v: nat, j: nat) {
    v / Pow2(j) % 2 == 1
  }

  function Signs(elems: seq<nat>, n: nat): (s: seq<int>)
    requires n >= 1
    ensures |s| == |elems|
  {
    seq(|elems|, i requires 0 <= i < |elems| => TwosComplement(elems[i], n))
  }

  /** What the integer reductions of the vector extension compute from the scalar and the active elements of n bits. */
  ghost predicate IntegerResult(funct6: nat, n: nat, scalar: nat, elems: seq<nat>, r: nat)
    requires n >= 1
  {
    var vals := [scalar] + elems;
    match funct6
    case 0 => r == SumOf(vals) % Pow2(n)
    case 1 => forall j: nat :: HasOne(r, j) <==> forall i :: 0 <= i < |vals| ==> HasOne(vals[i], j)
    case 2 => forall j: nat :: HasOne(r, j) <==> exists i :: 0 <= i < |vals| && HasOne(vals[i], j)
    case 3 => forall j: nat :: HasOne(r, j) <==> OnesAt(vals, j) % 2 == 1
    case 4 => Least(vals, r, n, false)
    case 5 => Least(vals, r, n, true)
    case 6 => Greatest(vals, r, n, false)
    case 7 => Greatest(vals, r, n, true)
    case 48 => r == SumOf(vals) % Pow2(2 * n)
    case 49 => r == (scalar + SumOf(Signs(elems, n))) % Pow2(2 * n)
    case _ => true
  }

  lemma {:induction false} HasBitIs(a: nat, j: nat)
    ensures HasBit(a, j) <==> HasOne(a, j)
    decreases j
  {
    if j == 0 {
      assert Pow2(0) == 1 && a / 1 == a;
    } else {
      HasBitIs(a / 2, j - 1);
      assert Pow2(j) == 2 * Pow2(j - 1);
      hide Pow2;
      DivDiv(a, 2, Pow2(j - 1));
    }
  }

  lemma SignedIs(v: nat, n: nat)
    requires n >= 1 && v < Pow2(n)
    ensures TwosComplement(v, n) == Signed(v, n)
  {
    PowStep(n - 1);
    hide Pow2;
    var h := Pow2(n - 1);
    if v >= h {
      ModIs(v, h, 1, v - h);
    } else {
      ModIs(v, h, 0, v);
    }
  }

  lemma {:induction false} TotalIs(p: Problem, xs: seq<Input>, ws: seq<int>)
    requires ValidOp(p.op) && |ws| == |xs| && forall i :: 0 <= i < |xs| ==> ws[i] == Weight(p, xs[i])
    ensures Total(p, xs) == SumOf(ws)
  {
    hide Weight;
    if xs == [] {
    } else {
      TotalIs(p, xs[..|xs| - 1], ws[..|xs| - 1]);
    }
  }

  lemma {:induction false} SumFirst(a: int, s: seq<int>)
    ensures SumOf([a] + s) == a + SumOf(s)
  {
    var all := [a] + s;
    if s == [] {
      assert all[..0] == [];
    } else {
      assert all[..|all| - 1] == [a] + s[..|s| - 1];
      SumFirst(a, s[..|s| - 1]);
    }
  }

  lemma {:induction false} OddIs(p: Problem, xs: seq<Input>, vals: seq<nat>, j: nat)
    requires ValidOp(p.op) && |vals| == |xs| && forall i :: 0 <= i < |xs| ==> vals[i] == Value(p, xs[i])
    ensures OddBit(p, xs, j) <==> OnesAt(vals, j) % 2 == 1
  {
    hide Value, HasBit, HasOne;
    if xs == [] {
    } else {
      OddIs(p, xs[..|xs| - 1], vals[..|xs| - 1], j);
      HasBitIs(vals[|xs| - 1], j);
    }
  }

  /** The inputs of a problem: the scalar, then elements. */
  ghost predicate Reads(p: Problem, xs: seq<Input>, elems: seq<nat>) {
    |xs| == 1 + |elems| && xs[0] == Scalar && forall i :: 0 <= i < |elems| ==> IsElem(p, xs[i + 1], elems[i])
  }

  predicate IsElem(p: Problem, x: Input, v: nat) {
    x.Elem? && x.index < |p.elems| && v == p.elems[x.index]
  }

  lemma ValuesAre(p: Problem, xs: seq<Input>, elems: seq<nat>)
    requires Sane(p) && Reads(p, xs, elems) && (p.op.ins.isWidening ==> p.op.ins.isUnsigned)
    ensures var vals: seq<nat> := [p.scalar as nat] + elems;
      |vals| == |xs| && forall i :: 0 <= i < |xs| ==> vals[i] == Value(p, xs[i])
  {
    var vals: seq<nat> := [p.scalar as nat] + elems;
    forall i | 0 <= i < |xs| ensures vals[i] == Value(p, xs[i]) {
      if i > 0 {
        assert IsElem(p, xs[i - 1 + 1], elems[i - 1]);
      }
    }
  }

  lemma ElemsSmall(p: Problem, xs: seq<Input>, elems: seq<nat>)
    requires Sane(p) && Reads(p, xs, elems)
    ensures forall i :: 0 <= i < |elems| ==> elems[i] < Pow2(p.op.vsew)
  {
    hide Pow2;
    forall i | 0 <= i < |elems| ensures elems[i] < Pow2(p.op.vsew) {
      assert IsElem(p, xs[i + 1], elems[i]);
    }
  }

  /** The extrema, in terms of the numbers. */
  lemma ExtremeIs(p: Problem, xs: seq<Input>, vals: seq<nat>, r: u64, signed: bool)
    requires ValidOp(p.op) && |vals| == |xs| && forall i :: 0 <= i < |xs| ==> vals[i] == Value(p, xs[i])
    requires forall i :: 0 <= i < |vals| ==> vals[i] < Pow2(p.op.vsew)
    ensures Extreme(p, xs, r, signed, true) ==> Least(vals, r, p.op.vsew, signed)
    ensures Extreme(p, xs, r, signed, false) ==> Greatest(vals, r, p.op.vsew, signed)
  {
    hide Value, Pow2, TwosComplement, Signed;
    forall i | 0 <= i < |vals| ensures TwosComplement(vals[i], p.op.vsew) == Signed(vals[i], p.op.vsew) {
      SignedIs(vals[i], p.op.vsew);
    }
    if i :| 0 <= i < |xs| && Value(p, xs[i]) == r {
      assert vals[i] == r;
    }
  }

  lemma SignsAre(p: Problem, xs: seq<Input>, elems: seq<nat>)
    requires Sane(p) && Reads(p, xs, elems) && p.op.ins.isWidening && !p.op.ins.isUnsigned
    ensures var ws: seq<int> := [p.scalar as int] + Signs(elems, p.op.vsew);
      |ws| == |xs| && forall i :: 0 <= i < |xs| ==> ws[i] == Weight(p, xs[i])
  {
    hide TwosComplement, Signed, Pow2;
    ElemsSmall(p, xs, elems);
    var ws: seq<int> := [p.scalar as int] + Signs(elems, p.op.vsew);
    forall i | 0 <= i < |xs| ensures ws[i] == Weight(p, xs[i]) {
      if i > 0 {
        assert IsElem(p, xs[i - 1 + 1], elems[i - 1]);
        SignedIs(elems[i - 1], p.op.vsew);
      }
    }
  }

  /** Sums, with and without widening. */
  lemma SumResult(p: Problem, xs: seq<Input>, elems: seq<nat>, r: u64)
    requires Sane(p) && Reads(p, xs, elems) && IsReduction(p, xs, r) && IsSum(p.op)
    ensures IntegerResult(p.op.ins.funct6, p.op.vsew, p.scalar, elems, r)
  {
    hide Value, Weight, Total, SumOf, Signs, Pow2, Sane, Reads;
    SaneOp(p);
    if p.op.ins.funct6 == VWREDSUM {
      var ws: seq<int> := [p.scalar as int] + Signs(elems, p.op.vsew);
      SignsAre(p, xs, elems);
      TotalIs(p, xs, ws);
      SumFirst(p.scalar, Signs(elems, p.op.vsew));
    } else {
      var vals: seq<nat> := [p.scalar as nat] + elems;
      ValuesAre(p, xs, elems);
      forall i | 0 <= i < |xs| ensures vals[i] == Weight(p, xs[i]) {
        PlainWeight(p, xs[i]);
      }
      TotalIs(p, xs, vals);
    }
  }

  lemma SaneOp(p: Problem)
    requires Sane(p)
    ensures IntegerOp(p.op)
    ensures p.op.ins.isWidening ==> (p.op.ins.isUnsigned <==> p.op.ins.funct6 == VWREDSUMU)
  {
  }

  lemma PlainWeight(p: Problem, x: Input)
    requires ValidOp(p.op) && (p.op.ins.isWidening ==> p.op.ins.isUnsigned)
    ensures Weight(p, x) == Value(p, x)
  {
    hide Value, Signed;
  }

  /** What an integer reduction returns, by funct6 and in terms of the numbers read. */
  lemma ResultIs(p: Problem, xs: seq<Input>, elems: seq<nat>, r: u64)
    requires Sane(p) && Reads(p, xs, elems) && IsReduction(p, xs, r)
    ensures IntegerResult(p.op.ins.funct6, p.op.vsew, p.scalar, elems, r)
  {
    hide Value, Total, SumOf, Pow2, HasBit, HasOne, OddBit, OnesAt, Extreme, Least, Greatest, Reads, Sane;
    SaneOp(p);
    if IsSum(p.op) {
      SumResult(p, xs, elems, r);
    } else {
      var vals: seq<nat> := [p.scalar as nat] + elems;
      ValuesAre(p, xs, elems);
      if p.op.ins.funct6 <= VREDXOR {
        BitsResult(p, xs, vals, r);
      } else {
        ValsSmall(p, xs, elems);
        ExtremeIs(p, xs, vals, r, true);
        ExtremeIs(p, xs, vals, r, false);
      }
    }
  }

  lemma ValsSmall(p: Problem, xs: seq<Input>, elems: seq<nat>)
    requires Sane(p) && Reads(p, xs, elems) && !p.op.ins.isWidening
    ensures var vals: seq<nat> := [p.scalar as nat] + elems;
      forall i :: 0 <= i < |vals| ==> vals[i] < Pow2(p.op.vsew)
  {
    hide Pow2;
    ElemsSmall(p, xs, elems);
  }

  lemma BitsResult(p: Problem, xs: seq<Input>, vals: seq<nat>, r: u64)
    requires IntegerOp(p.op) && !p.op.ins.isWidening && 1 <= p.op.ins.funct6 <= 3 && IsReduction(p, xs, r)
    requires |vals| == |xs| && forall i :: 0 <= i < |xs| ==> vals[i] == Value(p, xs[i])
    ensures p.op.ins.funct6 == 1 ==>
      forall j: nat :: HasOne(r, j) <==> forall i :: 0 <= i < |vals| ==> HasOne(vals[i], j)
    ensures p.op.ins.funct6 == 2 ==>
      forall j: nat :: HasOne(r, j) <==> exists i :: 0 <= i < |vals| && HasOne(vals[i], j)
    ensures p.op.ins.funct6 == 3 ==> forall j: nat :: HasOne(r, j) <==> OnesAt(vals, j) % 2 == 1
  {
    hide Value, HasBit, HasOne, OddBit, OnesAt;
    forall a: nat, j: nat ensures HasBit(a, j) <==> HasOne(a, j) {
      HasBitIs(a, j);
    }
    forall j: nat ensures OddBit(p, xs, j) <==> OnesAt(vals, j) % 2 == 1 {
      OddIs(p, xs, vals, j);
    }
  }

  // ------------------------------------------------------ floating point

  /** An element as an operand of a floating-point reduction, converted when the result is wider. */
  function Operand(cvt: u64 -> u64, wide: bool, v: u64): u64 {
    if wide then cvt(v) else v
  }

  /** The fold that the ordered sums prescribe. */
  function FpFold(cvt: u64 -> u64, fp: (nat, u64, u64) -> u64, funct6: nat, wide: bool, scalar: u64,
                  vals: seq<u64>): u64
  {
    if vals == [] then scalar
    else
      var init := FpFold(cvt, fp, funct6, wide, scalar, vals[..|vals| - 1]);
      fp(funct6, init, Operand(cvt, wide, vals[|vals| - 1]))
  }

  /** The value of an expression over the scalar and the elements. */
  function FpEval(cvt: u64 -> u64, fp: (nat, u64, u64) -> u64, funct6: nat, wide: bool, scalar: u64, elems: seq<u64>,
                  e: Expr): u64
  {
    match e
    case Leaf(Scalar) => scalar
    case Leaf(Elem(i)) => if i < |elems| then Operand(cvt, wide, elems[i]) else 0
    case Pair(l, r) =>
      var a := FpEval(cvt, fp, funct6, wide, scalar, elems, l);
      fp(funct6, a, FpEval(cvt, fp, funct6, wide, scalar, elems, r))
  }

  lemma {:induction false} EvalIs(p: Problem, e: Expr)
    requires ValidOp(p.op) && p.op.ins.isFp && (forall x :: Leaves(e)[x] > 0 && x.Elem? ==> x.index < |p.elems|)
    ensures Eval(p, e) == FpEval(p.op.cvt, p.op.fp, p.op.ins.funct6, p.op.ins.isWidening, p.scalar, p.elems, e)
    decreases e
  {
    match e
    case Leaf(x) =>
      assert Leaves(e)[x] > 0;
    case Pair(l, r) =>
      EvalIs(p, l);
      EvalIs(p, r);
  }

  lemma {:induction false} FoldIs(p: Problem, xs: seq<Input>, vals: seq<u64>)
    requires ValidOp(p.op) && p.op.ins.isFp && Reads(p, xs, vals)
    ensures FoldLeft(p, xs) == FpFold(p.op.cvt, p.op.fp, p.op.ins.funct6, p.op.ins.isWidening, p.scalar, vals)
    decreases |vals|
  {
    if vals == [] {
    } else {
      var n := |vals| - 1;
      assert IsElem(p, xs[n + 1], vals[n]);
      forall i | 0 <= i < n ensures IsElem(p, xs[..n + 1][i + 1], vals[..n][i]) {
        assert IsElem(p, xs[i + 1], vals[i]);
      }
      FoldIs(p, xs[..n + 1], vals[..n]);
    }
  }

  // ------------------------------------------------- the instruction word

  /** The elements of a register. */
  function RegElems(vs2: seq<u64>, b: nat, vl: nat): (r: seq<u64>)
    requires b in {1, 2, 4, 8} && vl * b <= 8 * |vs2|
    ensures |r| == vl
  {
    seq(vl, n requires 0 <= n < vl => ElemAt(vs2, b, vl, n))
  }

  function ElemAt(vs2: seq<u64>, b: nat, vl: nat, n: nat): u64
    requires b in {1, 2, 4, 8} && vl * b <= 8 * |vs2| && n < vl
  {
    ElemIn(vs2, b, vl, n);
    RegElem(vs2, n, b)
  }

  lemma ElemIn(vs2: seq<u64>, b: nat, vl: nat, n: nat)
    requires b in {1, 2, 4, 8} && vl * b <= 8 * |vs2| && n < vl
    ensures n * b / 8 < |vs2| && RegElem(vs2, n, b) < U64
  {
    MulStep(b, n, vl);
    WordBelow(n * b, |vs2|);
    hide Pow2;
    PartSmall(vs2[n * b / 8], Pow2(8 * (n * b % 8)), Pow2(8 * b));
  }

  lemma WordBelow(a: nat, size: nat)
    requires a < 8 * size
    ensures a / 8 < size
  {
  }

  lemma PartSmall(w: u64, p: nat, q: nat)
    requires p > 0 && q > 0
    ensures w / p % q <= w
  {
    DivMod(w, p);
    NotNegative(p - 1, w / p);
    Dist(w / p, p - 1, 1);
    ModLess(w / p, q);
  }

  /** The values of the active elements among the first n, in order: all of them, or those whose mask bit is set. */
  function ActiveValues(elems: seq<u64>, vmask: seq<u64>, n: nat, masked: bool): seq<u64>
    requires n <= |elems| && n <= 64 * |vmask|
  {
    if n == 0 then []
    else if masked && vmask[(n - 1) / 64] / Pow2((n - 1) % 64) % 2 == 0 then ActiveValues(elems, vmask, n - 1, masked)
    else ActiveValues(elems, vmask, n - 1, masked) + [elems[n - 1]]
  }

  lemma {:induction false} ActiveRead(p: Problem, vmask: seq<u64>, n: nat, masked: bool)
    requires n <= |p.elems| && n <= 64 * |vmask|
    ensures Reads(p, [Scalar] + ActiveElems(vmask, n, masked), ActiveValues(p.elems, vmask, n, masked))
  {
    hide Pow2;
    if n > 0 {
      ActiveRead(p, vmask, n - 1, masked);
      var xs, vals := [Scalar] + ActiveElems(vmask, n - 1, masked), ActiveValues(p.elems, vmask, n - 1, masked);
      if !masked || RegBit(vmask, n - 1) {
        assert [Scalar] + ActiveElems(vmask, n, masked) == xs + [Elem(n - 1)];
        assert IsElem(p, Elem(n - 1), p.elems[n - 1]);
        ReadMore(p, xs, vals, Elem(n - 1), p.elems[n - 1]);
      } else {
        assert [Scalar] + ActiveElems(vmask, n, masked) == xs;
      }
    }
  }

  lemma ReadMore(p: Problem, xs: seq<Input>, vals: seq<nat>, x: Input, v: nat)
    requires Reads(p, xs, vals) && IsElem(p, x, v)
    ensures Reads(p, xs + [x], vals + [v])
  {
    var ys, ws := xs + [x], vals + [v];
    forall i | 0 <= i < |ws| ensures IsElem(p, ys[i + 1], ws[i]) {
      if i < |vals| {
        assert IsElem(p, xs[i + 1], vals[i]);
      }
    }
  }

  /** The low bits of a word. */
  function Low(v: u64, width: nat): u64 {
    LowSmall(v, Pow2(width));
    v % Pow2(width)
  }

  lemma LowSmall(v: nat, m: nat)
    requires m > 0
    ensures v % m <= v
  {
    ModLess(v, m);
  }

  /** What a floating-point reduction returns: the left fold if ordered, or any expression that uses each input once. */
  ghost predicate FpResult(funct6: nat, cvt: u64 -> u64, fp: (nat, u64, u64) -> u64, width: nat, scalar: u64,
                           elems: seq<u64>, active: seq<u64>, inputs: Inputs, r: nat)
  {
    if funct6 == 3 || funct6 == 51 then r == Low(FpFold(cvt, fp, funct6, funct6 == 51, scalar, active), width)
    else exists e: Expr ::
      && Leaves(e) == inputs
      && r == Low(FpEval(cvt, fp, funct6, funct6 / 16 == 3, scalar, elems, e), width)
  }

  /** What the word of an instruction asks for: bits 31..26 are funct6, bit 25 is vm, and bits 14..12 are funct3. */
  ghost predicate Asked(ins: u32, vsew: nat, cvt: u64 -> u64, fp: (nat, u64, u64) -> u64, scalar: u64, vs2: seq<u64>,
                        vmask: seq<u64>, vl: nat, r: nat)
    requires vsew in {8, 16, 32, 64} && vl * (vsew / 8) <= 8 * |vs2| && vl <= 64 * |vmask|
  {
    var funct6, vm, funct3 := ins / 0x400_0000, ins / 0x200_0000 % 2, ins / 0x1000 % 8;
    var width := Width(ins, vsew);
    var elems := RegElems(vs2, vsew / 8, vl);
    var active := ActiveValues(elems, vmask, vl, vm == 0);
    var inputs := multiset{Scalar} + multiset(ActiveElems(vmask, vl, vm == 0));
    if funct3 == 1 then FpResult(funct6, cvt, fp, width, Low(scalar, width), elems, active, inputs, r)
    else funct6 <= 7 || funct6 == 48 || funct6 == 49 ==> IntegerResult(funct6, vsew, Low(scalar, width), active, r)
  }

  /** The width of the result: the instructions with both top bits of funct6 set double it. */
  function Width(ins: u32, vsew: nat): nat {
    if ins / 0x4000_0000 == 3 then 2 * vsew else vsew
  }

  /** The result takes the low bits of vd, and the others are ones. */
  ghost predicate Executed(ins: u32, vsew: nat, cvt: u64 -> u64, fp: (nat, u64, u64) -> u64, scalar: u64,
                           vs2: seq<u64>, vmask: seq<u64>, vl: nat, vd: u64)
    requires vsew in {8, 16, 32, 64} && vl * (vsew / 8) <= 8 * |vs2| && vl <= 64 * |vmask|
  {
    exists r: nat ::
      && Asked(ins, vsew, cvt, fp, scalar, vs2, vmask, vl, r)
      && r < Pow2(Width(ins, vsew)) && vd == U64 - Pow2(Width(ins, vsew)) + r
  }

  /** What the decoded instruction says of its word. */
  lemma DecodedIs(o: Op, ins: u32)
    requires ValidOp(o) && o.ins == Decode(ins)
    ensures o.ins.funct6 == ins / 0x400_0000 && o.ins.isMasking == (ins / 0x200_0000 % 2 == 0)
    ensures o.ins.isFp == (ins / 0x1000 % 8 == 1)
    ensures o.ins.isWidening == (ins / 0x4000_0000 == 3) == (o.ins.funct6 / 16 == 3)
    ensures o.ins.isUnordered == !(o.ins.isFp && (o.ins.funct6 == 3 || o.ins.funct6 == 51))
    ensures !o.ins.isFp && (o.ins.funct6 <= 7 || o.ins.funct6 == 48 || o.ins.funct6 == 49) <==> IntegerOp(o)
    ensures o.ins.funct6 == 51 ==> o.ins.isWidening
    ensures o.ins.funct6 == 3 ==> !o.ins.isWidening
  {
  }

  /** The problem in the buffers is that in the registers. */
  lemma InRegisters(r: ReductionOp, vs2: seq<u64>, vmask: seq<u64>)
    requires r.Ready() && Packed(vs2, r.vs) && Packed(vmask, r.vmask)
    ensures var b := r.op.vsew / 8;
      && b in {1, 2, 4, 8} && r.vl * b <= 8 * |vs2| && r.vl <= 64 * |vmask|
      && r.TheProblem().elems == RegElems(vs2, b, r.vl)
      && r.Order() == [Scalar] + ActiveElems(vmask, r.vl, r.op.ins.isMasking)
  {
    hide Pow2, ByteOf, Elements, InOrder, RegElem, RegBit, MaskBit, ActiveElems, Packed;
    var b := r.op.vsew / 8;
    PackedSize(vs2, r.vs);
    PackedSize(vmask, r.vmask);
    MaskFits(r.vl, b, |r.vmask|);
    OrderIs(vmask, r.vmask, r.vl, r.op.ins.isMasking);
    forall n | 0 <= n < r.vl ensures r.TheProblem().elems[n] == RegElems(vs2, b, r.vl)[n] {
      PackedElem(vs2, r.vs, r.vl, b, n);
    }
  }

  /** A result of do_reduction is what the word asks for. */
  lemma FpDone(p: Problem, vmask: seq<u64>, vl: nat, ret: u64)
    requires ValidOp(p.op) && p.op.ins.isFp && |p.elems| == vl <= 64 * |vmask|
    requires p.op.ins.isUnordered <==> !(p.op.ins.funct6 == 3 || p.op.ins.funct6 == 51)
    requires p.op.ins.isWidening == (p.op.ins.funct6 / 16 == 3)
    requires var xs := [Scalar] + ActiveElems(vmask, vl, p.op.ins.isMasking);
      if p.op.ins.isUnordered then exists e: Expr :: Leaves(e) == multiset(xs) && ret == Adjust(p.op, Eval(p, e))
      else ret == FoldLeft(p, xs)
    ensures var width := ResultSew(p.op);
      FpResult(p.op.ins.funct6, p.op.cvt, p.op.fp, width, p.scalar, p.elems,
               ActiveValues(p.elems, vmask, vl, p.op.ins.isMasking),
               multiset{Scalar} + multiset(ActiveElems(vmask, vl, p.op.ins.isMasking)), Low(ret, width))
  {
    hide Pow2, Adjust, Eval, FpEval, FoldLeft, FpFold, Reads, ActiveElems, ActiveValues, ValidOp, Low;
    var masked := p.op.ins.isMasking;
    var active := ActiveElems(vmask, vl, masked);
    ActiveRead(p, vmask, vl, masked);
    assert multiset([Scalar] + active) == multiset{Scalar} + multiset(active);
    if p.op.ins.isUnordered {
      var e: Expr :| Leaves(e) == multiset([Scalar] + active) && ret == Adjust(p.op, Eval(p, e));
      ActiveIn(vmask, vl, masked);
      EvalIs(p, e);
      LowTwice(p.op, Eval(p, e));
    } else {
      FoldIs(p, [Scalar] + active, ActiveValues(p.elems, vmask, vl, masked));
    }
  }

  lemma {:induction false} ActiveIn(vmask: seq<u64>, n: nat, masked: bool)
    requires n <= 64 * |vmask|
    ensures forall x: Input :: multiset(ActiveElems(vmask, n, masked))[x] > 0 ==> x.Elem? && x.index < n
  {
    hide RegBit;
    if n > 0 {
      ActiveIn(vmask, n - 1, masked);
    }
  }

  lemma LowTwice(o: Op, v: u64)
    requires ValidOp(o)
    ensures Low(Adjust(o, v), ResultSew(o)) == Low(v, ResultSew(o)) == Adjust(o, v)
  {
    hide Pow2, Adjust, Low;
    AdjustIs(o, v);
    LowIs(Adjust(o, v), v, ResultSew(o));
    LowBelow(v, ResultSew(o));
    LowKeeps(Low(v, ResultSew(o)), ResultSew(o));
  }

  lemma LowKeeps(v: u64, width: nat)
    requires v < Pow2(width)
    ensures Low(v, width) == v
  {
    SmallModulus(v, Pow2(width));
  }

  /** The tail of vd around a result. */
  lemma Done(o: Op, ins: u32, scalar: u64, vs2: seq<u64>, vmask: seq<u64>, vl: nat, ret: u64, vd: u64)
    requires ValidOp(o) && o.ins == Decode(ins) && vl * (o.vsew / 8) <= 8 * |vs2| && vl <= 64 * |vmask|
    requires var width := ResultSew(o);
      && vd == U64 - Pow2(width) + Low(ret, width)
      && var p := Problem(o, Low(scalar, width), RegElems(vs2, o.vsew / 8, vl));
         var active, xs := ActiveValues(p.elems, vmask, vl, o.ins.isMasking), ActiveElems(vmask, vl, o.ins.isMasking);
         && (o.ins.isFp ==> FpResult(o.ins.funct6, o.cvt, o.fp, width, p.scalar, p.elems, active,
                                     multiset{Scalar} + multiset(xs), Low(ret, width)))
         && (IntegerOp(o) ==> IntegerResult(o.ins.funct6, o.vsew, p.scalar, active, Low(ret, width)))
    ensures Executed(ins, o.vsew, o.cvt, o.fp, scalar, vs2, vmask, vl, vd)
  {
    hide Pow2, FpResult, IntegerResult, RegElems, ActiveValues, ActiveElems, Decode, IntegerOp;
    DecodedIs(o, ins);
    LowBelow(ret, ResultSew(o));
    assert ResultSew(o) == Width(ins, o.vsew);
    assert Asked(ins, o.vsew, o.cvt, o.fp, scalar, vs2, vmask, vl, Low(ret, Width(ins, o.vsew)));
  }

  lemma LowBelow(v: u64, width: nat)
    ensures Low(v, width) < Pow2(width)
  {
    ModUnder(v, Pow2(width));
  }

  /** do_reduction, on the buffers of the registers. */
  lemma ReductionDone(r: ReductionOp, ins: u32, scalar: u64, vs2: seq<u64>, vmask: seq<u64>, ret: u64, vd: u64)
    requires r.Ready() && r.op.ins == Decode(ins) && Packed(vs2, r.vs) && Packed(vmask, r.vmask)
    requires r.scalar == Low(scalar, ResultSew(r.op)) && InRange(r.op, r.scalar)
    requires if r.op.ins.isUnordered then
               exists e: Expr :: Leaves(e) == r.AllInputs() && ret == Adjust(r.op, Eval(r.TheProblem(), e))
             else ret == FoldLeft(r.TheProblem(), r.Order())
    requires IntegerOp(r.op) ==> IsReduction(r.TheProblem(), r.Order(), ret) && ret < Pow2(ResultSew(r.op))
    requires vd == U64 - Pow2(ResultSew(r.op)) + Low(ret, ResultSew(r.op))
    ensures r.vl * (r.op.vsew / 8) <= 8 * |vs2| && r.vl <= 64 * |vmask|
    ensures Executed(ins, r.op.vsew, r.op.cvt, r.op.fp, scalar, vs2, vmask, r.vl, vd)
  {
    hide Pow2, IsReduction, Elements, InOrder, RegElems, ActiveElems, Packed, Adjust, Eval, FoldLeft, FpResult,
      IntegerResult, ActiveValues, Executed, Decode, Leaves, Active, Low, IntegerOp;
    InRegisters(r, vs2, vmask);
    DecodedIs(r.op, ins);
    var p, masked := r.TheProblem(), r.op.ins.isMasking;
    if r.op.ins.isFp {
      FpDone(p, vmask, r.vl, ret);
    }
    if IntegerOp(r.op) {
      SaneNow(r);
      ActiveRead(p, vmask, r.vl, masked);
      LowKeeps(ret, ResultSew(r.op));
      ResultIs(p, r.Order(), ActiveValues(p.elems, vmask, r.vl, masked), ret);
    }
    Done(r.op, ins, scalar, vs2, vmask, r.vl, ret, vd);
  }

  lemma SaneNow(r: ReductionOp)
    requires r.Ready() && IntegerOp(r.op) && InRange(r.op, r.scalar)
    ensures Sane(r.TheProblem())
  {
    hide Elements, Pow2;
    ElementsSane(r.vs, r.op.vsew / 8, r.vl);
    assert 8 * (r.op.vsew / 8) == r.op.vsew;
  }

  /** The two masks that the entry point applies to the result. */
  lemma WithTail(o: Op, ret: u64)
    requires ValidOp(o)
    ensures var p := Pow2(ResultSew(o));
      && p <= U64 && And(p - 1, ret) == Low(ret, ResultSew(o))
      && Or(U64 - p, Low(ret, ResultSew(o))) == U64 - p + Low(ret, ResultSew(o)) < U64
  {
    var k := ResultSew(o);
    Powers();
    hide And, Or, Pow2;
    LowMask(ret, k);
    SmallMod(ret, Pow2(k));
    Pow2Add(k, 64 - k);
    Double64(k);
    OrDisjoint(ret % Pow2(k), Pow2(64 - k) - 1, k);
    OrComm(ret % Pow2(k), U64 - Pow2(k));
  }

  /** reduction: vd holds what the instruction word asks for, whatever the lanes, accumulators and trees. */
  method Reduction(r: ReductionOp, scalar: u64, ins: u32, vsew: nat, vl: nat, vmask: seq<u64>, vs2: seq<u64>,
                   trees: nat)
    returns (vd: u64)
    requires vsew in {8, 16, 32, 64} && (ins / 0x4000_0000 == 3 ==> vsew <= 32)
    requires |vs2| >= WordCount(vl, vsew / 8) && |vmask| >= WordCount(vl, vsew / 8)
    requires r.laneNum >= 1 && r.accumNumFp >= 1 && r.accumNumInt >= 1
    modifies r
    ensures vl * (vsew / 8) <= 8 * |vs2| && vl <= 64 * |vmask|
    ensures Executed(ins, vsew, old(r.op).cvt, old(r.op).fp, scalar, vs2, vmask, vl, vd)
  {
    hide Pow2, WordCount, IsReduction, Packed, Elements, InOrder, Adjust, Executed, And, Or, LittleEndian, MaskBit,
      Active, Leaves, Low, Eval, FoldLeft;
    Load(r, scalar, ins, vsew, vl, vmask, vs2, trees);
    LowIs(r.scalar, scalar, ResultSew(r.op));
    r.accumNum := 1;
    var ret := r.DoReduction();
    WithTail(r.op, ret);
    vd := Or(U64 - Pow2(ResultSew(r.op)), And(Pow2(ResultSew(r.op)) - 1, ret));
    OnlyOrdered(r.op, ins);
    ReductionDone(r, ins, scalar, vs2, vmask, ret, vd);
  }

  lemma LowIs(a: u64, v: u64, width: nat)
    requires a == v % Pow2(width)
    ensures a == Low(v, width)
  {
  }

  lemma OnlyOrdered(o: Op, ins: u32)
    requires ValidOp(o) && o.ins == Decode(ins)
    ensures IntegerOp(o) ==> o.ins.isUnordered
  {
  }
}
