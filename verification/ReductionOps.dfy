/**
 * The operations of the vector reduction model (reduction_op.cc): one instruction's
 * operator, the widening of its elements, and reading elements and mask bits from bytes.
 * Floating-point operators are parameters.
 */
module ReductionOps {
  import opened Bytes
  import opened Bits

  const VREDSUM := 0
  const VREDAND := 1
  const VREDOR := 2
  const VREDXOR := 3
  const VREDMINU := 4
  const VREDMIN := 5
  const VREDMAXU := 6
  const VREDMAX := 7
  const VFREDOSUM := 3
  const VWREDSUMU := 48
  const VWREDSUM := 49
  const VFWREDOSUM := 51

  datatype Instr = Instr(isMasking: bool, isWidening: bool, isFp: bool, isUnordered: bool, isUnsigned: bool,
                         funct6: nat)

  /** An instruction at an element width, with the conversion and the operators of its floating-point formats. */
  datatype Op = Op(vsew: nat, ins: Instr, cvt: u64 -> u64, fp: (nat, u64, u64) -> u64)

  predicate Unsigned(fp: bool, widening: bool, funct6: nat) {
    !fp && if widening then funct6 == VWREDSUMU else funct6 == VREDMAXU || funct6 == VREDMINU
  }

  /** The element widths in bits; a widening operation doubles them. */
  predicate ValidOp(o: Op) {
    && o.vsew in {8, 16, 32, 64}
    && (o.ins.isWidening ==> o.vsew <= 32)
    && o.ins.isUnsigned == Unsigned(o.ins.isFp, o.ins.isWidening, o.ins.funct6)
  }

  /** The instruction fields that reduction_setup extracts. */
  function Decode(ins: u32): (d: Instr)
    ensures d.isUnsigned == Unsigned(d.isFp, d.isWidening, d.funct6)
  {
    var widening, fp, funct6 := ins / 0x4000_0000 == 3, ins / 0x1000 % 8 == 1, ins / 0x400_0000;
    Instr(ins / 0x200_0000 % 2 == 0, widening, fp, !(fp && (funct6 == VFREDOSUM || funct6 == VFWREDOSUM)),
          Unsigned(fp, widening, funct6), funct6)
  }

  /** Decoding undoes the encoding of an instruction word from its fields; those of the registers do not matter. */
  lemma DecodeFields(funct6: nat, vm: nat, vs2: nat, vs1: nat, funct3: nat, vd: nat)
    requires funct6 < 64 && vm < 2 && vs2 < 32 && vs1 < 32 && funct3 < 8 && vd < 32
    ensures var ins := Encode(funct6, vm, vs2, vs1, funct3, vd);
      var fp, widening := funct3 == 1, funct6 >= 48;
      && ins < U32
      && Decode(ins) == Instr(vm == 0, widening, fp, !(fp && (funct6 == 3 || funct6 == 51)),
                              !fp && (if widening then funct6 == 48 else funct6 == 6 || funct6 == 4), funct6)
  {
    hide Unsigned;
    var ins := Encode(funct6, vm, vs2, vs1, funct3, vd);
    var low := vd * 0x80 + 0x57;
    var mid := vs2 * 0x10_0000 + vs1 * 0x8000 + funct3 * 0x1000 + low;
    ModIs(ins, 0x400_0000, funct6, vm * 0x200_0000 + mid);
    ModIs(ins, 0x200_0000, 2 * funct6 + vm, mid);
    ModIs(2 * funct6 + vm, 2, funct6, vm);
    ModIs(ins, 0x4000_0000, funct6 / 16, funct6 % 16 * 0x400_0000 + vm * 0x200_0000 + mid);
    var above := funct6 * 0x800 + vm * 0x400 + vs2 * 0x20 + vs1;
    ModIs(ins, 0x1000, 8 * above + funct3, low);
    ModIs(8 * above + funct3, 8, above, funct3);
    UnsignedIs(funct3 == 1, funct6 >= 48, funct6);
  }

  lemma UnsignedIs(fp: bool, widening: bool, funct6: nat)
    ensures Unsigned(fp, widening, funct6) ==
      (!fp && (if widening then funct6 == 48 else funct6 == 6 || funct6 == 4))
  {
  }

  /** An instruction word: the major opcode 0x57 and six fields. */
  function Encode(funct6: nat, vm: nat, vs2: nat, vs1: nat, funct3: nat, vd: nat): nat {
    funct6 * 0x400_0000 + vm * 0x200_0000 + vs2 * 0x10_0000 + vs1 * 0x8000 + funct3 * 0x1000 + vd * 0x80 + 0x57
  }

  /** Result width in bits. */
  function ResultSew(o: Op): nat {
    if o.ins.isWidening then 2 * o.vsew else o.vsew
  }

  /** adjust_to_sew: and with ResultSew ones. */
  function Adjust(o: Op, e: u64): (r: u64)
    requires ValidOp(o)
  {
    AndSmall(Pow2(ResultSew(o)) - 1, e);
    And(Pow2(ResultSew(o)) - 1, e)
  }

  lemma {:induction false} AndSmall(a: nat, b: nat)
    ensures And(a, b) <= b
  {
    if a == 0 || b == 0 {
    } else {
      AndSmall(a / 2, b / 2);
    }
  }

  /** adjust_to_sew keeps the value modulo the result width. */
  lemma AdjustIs(o: Op, e: u64)
    requires ValidOp(o)
    ensures Adjust(o, e) == e % Pow2(ResultSew(o))
  {
    hide And, Pow2;
    LowMask(e, ResultSew(o));
  }

  /** The bits above an element of n bits: -1 << n in 64 bits. */
  function HighOnes(n: nat): u64
    requires n in {8, 16, 32}
  {
    match n
    case 8 => U64 - 0x100
    case 16 => U64 - 0x1_0000
    case _ => U64 - 0x1_0000_0000
  }

  /** sign_extend: set all bits above the sign bit when it is set. */
  function SignExtend(o: Op, a: u64): (r: u64)
    requires ValidOp(o)
  {
    if o.vsew < 64 && And(a, Pow2(o.vsew - 1)) != 0 then
      OrFits(a, HighOnes(o.vsew));
      Or(a, HighOnes(o.vsew))
    else a
  }

  lemma OrFits(a: u64, b: u64)
    ensures Or(a, b) < U64
  {
    Powers();
    InBits(a, b, 64);
  }

  lemma SignExtendIs(o: Op, a: u64)
    requires ValidOp(o) && a < Pow2(o.vsew)
    ensures o.vsew < 64 ==> SignExtend(o, a) == if a >= Pow2(o.vsew - 1) then a + U64 - Pow2(o.vsew) else a
    ensures o.vsew == 64 ==> SignExtend(o, a) == a
  {
    hide And, Or, Pow2, HighOnes;
    if o.vsew < 64 {
      TopBit(a, o.vsew - 1);
      OrHigh(a, o.vsew);
    }
  }

  lemma OrHigh(a: nat, n: nat)
    requires n in {8, 16, 32} && a < Pow2(n)
    ensures HighOnes(n) == U64 - Pow2(n) && Or(a, HighOnes(n)) == a + HighOnes(n)
  {
    Powers();
    hide And, Or, Pow2;
    Pow2Add(n, 64 - n);
    Double64(n);
    OrDisjoint(a, Pow2(64 - n) - 1, n);
  }

  lemma Double64(n: nat)
    requires n <= 64 && Pow2(64) == Pow2(n) * Pow2(64 - n)
    ensures Pow2(n) * (Pow2(64 - n) - 1) == Pow2(64) - Pow2(n)
  {
  }

  lemma {:induction false} TopBit(a: nat, k: nat)
    requires a < Pow2(k + 1)
    ensures And(a, Pow2(k)) == if a >= Pow2(k) then Pow2(k) else 0
  {
    if k > 0 {
      TopBit(a / 2, k - 1);
      AndBits(a, Pow2(k));
      assert Pow2(k) / 2 == Pow2(k - 1) && Pow2(k) % 2 == 0;
    } else {
      assert Pow2(1) == 2;
    }
  }

  /** A 64-bit word as a C long. */
  function Signed64(x: u64): int {
    if x >= 0x8000_0000_0000_0000 then x - U64 else x
  }

  /** The sum of two words, wrapping at 64 bits. */
  function Wrap(x: int): u64
    requires 0 <= x < 2 * U64
  {
    if x < U64 then x else x - U64
  }

  /** reduction_operation for the floating-point instructions. */
  function FpOperation(o: Op, e1: u64, e2: u64, accum1: bool, accum2: bool): u64 {
    var a := if o.ins.isWidening && !accum1 then o.cvt(e1) else e1;
    var b := if o.ins.isWidening && !accum2 then o.cvt(e2) else e2;
    o.fp(o.ins.funct6, a, b)
  }

  /** reduction_operation; accum1 and accum2 tell which operands are accumulators rather than elements. */
  function Operation(o: Op, e1: u64, e2: u64, accum1: bool, accum2: bool): u64
    requires ValidOp(o)
  {
    if o.ins.isFp then FpOperation(o, e1, e2, accum1, accum2)
    else if o.ins.isWidening then
      match o.ins.funct6
      case 49 => Wrap((if accum1 then e1 else SignExtend(o, e1)) + (if accum2 then e2 else SignExtend(o, e2)))
      case 48 => Wrap(e1 + e2)
      case _ => U64 - 1
    else
      match o.ins.funct6
      case 0 => Adjust(o, Wrap(e1 + e2))
      case 1 => AndFits(e1, e2); And(e1, e2)
      case 2 => OrFits(e1, e2); Or(e1, e2)
      case 3 => XorFits(e1, e2); Xor(e1, e2)
      case 4 => if e1 <= e2 then e1 else e2
      case 5 => Adjust(o, if Signed64(SignExtend(o, e1)) <= Signed64(SignExtend(o, e2)) then e1 else e2)
      case 6 => if e1 <= e2 then e2 else e1
      case 7 => Adjust(o, if Signed64(SignExtend(o, e1)) <= Signed64(SignExtend(o, e2)) then e2 else e1)
      case _ => U64 - 1
  }

  /** An integer instruction that is no reduction gives all ones. */
  lemma UnknownOp(o: Op, e1: u64, e2: u64, accum1: bool, accum2: bool)
    requires ValidOp(o) && !o.ins.isFp
    requires if o.ins.isWidening then o.ins.funct6 != 48 && o.ins.funct6 != 49 else o.ins.funct6 > 7
    ensures Operation(o, e1, e2, accum1, accum2) == 0xFFFF_FFFF_FFFF_FFFF
  {
  }

  lemma AndFits(a: u64, b: u64)
    ensures And(a, b) < U64
  {
    AndSmall(a, b);
  }

  lemma XorFits(a: u64, b: u64)
    ensures Xor(a, b) < U64
  {
    Powers();
    InBits(a, b, 64);
  }

  /** init_accum_part: the value of an element in an accumulator. */
  function Lift(o: Op, val: u64): u64
    requires ValidOp(o)
  {
    if o.ins.isWidening && !o.ins.isUnsigned then
      if o.ins.isFp then o.cvt(val) else SignExtend(o, val)
    else val
  }

  /** Absorbing an element is combining with what the element would be as an accumulator of its own. */
  lemma OperationLift(o: Op, a: u64, val: u64)
    requires ValidOp(o)
    ensures Operation(o, a, val, true, false) == Operation(o, a, Lift(o, val), true, true)
  {
    hide SignExtend, Adjust, And, Or, Xor;
  }

  // ------------------------------------------------------ elements and masks

  /** The little-endian number in n bytes. */
  function LittleEndian(v: seq<byte>, start: nat, n: nat): nat
    requires start + n <= |v|
    decreases n
  {
    if n == 0 then 0 else
    var b: int := v[start];
    b + 256 * LittleEndian(v, start + 1, n - 1)
  }

  lemma {:induction false} LittleEndianFits(v: seq<byte>, start: nat, n: nat)
    requires start + n <= |v|
    ensures LittleEndian(v, start, n) < Pow2(8 * n)
    decreases n
  {
    if n == 0 {
    } else {
      LittleEndianFits(v, start + 1, n - 1);
      Pow2Eight(8 * n - 8);
    }
  }

  lemma Pow2Eight(k: nat)
    ensures Pow2(k + 8) == 256 * Pow2(k)
  {
    assert Pow2(k + 8) == 2 * Pow2(k + 7) == 4 * Pow2(k + 6) == 8 * Pow2(k + 5) == 16 * Pow2(k + 4);
    assert Pow2(k + 4) == 2 * Pow2(k + 3) == 4 * Pow2(k + 2) == 8 * Pow2(k + 1) == 16 * Pow2(k);
  }

  lemma {:induction false} LittleEndianMore(v: seq<byte>, start: nat, n: nat)
    requires start + n < |v|
    ensures LittleEndian(v, start, n + 1) == LittleEndian(v, start, n) + Pow2(8 * n) * v[start + n]
    decreases n
  {
    if n == 0 {
    } else {
      LittleEndianMore(v, start + 1, n - 1);
      Pow2Eight(8 * n - 8);
      Regroup(Pow2(8 * n - 8), v[start + n]);
    }
  }

  lemma Regroup(p: nat, x: nat)
    ensures 256 * (p * x) == (256 * p) * x
  {
  }

  /** get_elem */
  method GetElem(start: nat, v: seq<byte>, bVsew: nat) returns (elem: u64)
    requires bVsew in {1, 2, 4, 8} && start + bVsew <= |v|
    ensures elem == LittleEndian(v, start, bVsew)
  {
    hide Or, Pow2;
    elem := 0;
    var i := 0;
    while i < bVsew
      invariant 0 <= i <= bVsew && elem == LittleEndian(v, start, i)
    {
      var shifted := Pow2(8 * i) * v[i + start];
      LittleEndianFits(v, start, i);
      LittleEndianFits(v, start, i + 1);
      LittleEndianMore(v, start, i);
      OrDisjoint(elem, v[i + start], 8 * i);
      Pow2Most(8 * (i + 1));
      elem := Or(elem, shifted);
      i := i + 1;
    }
  }

  lemma Pow2Most(k: nat)
    requires k <= 64
    ensures Pow2(k) <= U64
  {
    Powers();
    Pow2Add(k, 64 - k);
    Grow(Pow2(k), Pow2(64 - k));
  }

  lemma Grow(p: nat, q: nat)
    requires q >= 1
    ensures p <= p * q
  {
  }

  /** get_mask_bit */
  predicate MaskBit(v: seq<byte>, i: nat)
    requires i / 8 < |v|
  {
    v[i / 8] / Pow2(i % 8) % 2 == 1
  }
}
