/** Integer helpers (arith.h): high halves of products from 32-bit limbs, and saturating addition. */
module Arith {
  import opened Bytes
  import opened Bits

  const LIMB := 0x1_0000_0000

  type i64 = x: int | -0x8000_0000_0000_0000 <= x < 0x8000_0000_0000_0000

  // ----------------------------------------------------------- high products

  /** The products of limbs never overflow 64 bits. */
  lemma LimbProduct(x: nat, y: nat)
    requires x < LIMB && y < LIMB
    ensures 0 <= x * y <= (LIMB - 1) * (LIMB - 1)
  {
    MulBound(x, LIMB - 1, y);
    MulBound(y, LIMB - 1, LIMB - 1);
  }

  lemma MulBound(x: nat, b: nat, y: nat)
    requires x <= b
    ensures x * y <= b * y && x * y == y * x && x * y >= 0
  {
  }

  lemma Expand(a1: nat, a0: nat, b1: nat, b0: nat)
    ensures (LIMB * a1 + a0) * (LIMB * b1 + b0) == U64 * (a1 * b1) + LIMB * (a1 * b0 + a0 * b1) + a0 * b0
  {
    var b := LIMB * b1 + b0;
    Dist(b, LIMB * a1, a0);
    Dist(LIMB * a1, LIMB * b1, b0);
    Dist(a0, LIMB * b1, b0);
    Scaled(a1, b1);
    Scaled2(a1, b0);
    Scaled2(b1, a0);
  }

  lemma Scaled(x: nat, y: nat)
    ensures LIMB * x * (LIMB * y) == U64 * (x * y)
  {
  }

  lemma Scaled2(x: nat, y: nat)
    ensures LIMB * x * y == LIMB * (x * y) && y * (LIMB * x) == LIMB * (x * y)
  {
  }

  /** mulhu: the true high half of the product. */
  method Mulhu(a: u64, b: u64) returns (r: u64)
    ensures r == a * b / U64
  {
    var a0, a1, b0, b1 := a % LIMB, a / LIMB, b % LIMB, b / LIMB;
    LimbProduct(a1, b0);
    LimbProduct(a0, b0);
    LimbProduct(a0, b1);
    LimbProduct(a1, b1);
    ghost var p00, p01, p10, p11 := a0 * b0, a0 * b1, a1 * b0, a1 * b1;
    var t: u64 := a1 * b0 + a0 * b0 / LIMB;
    var y1, y2 := t % LIMB, t / LIMB;
    t := a0 * b1 + y1;
    t := a1 * b1 + y2 + t / LIMB;
    Expand(a1, a0, b1, b0);
    HighHalf(p00, p01, p10, p11, t);
    ghost var product := a * b;
    assert product == U64 * p11 + LIMB * (p10 + p01) + p00;
    y2 := t % LIMB;
    var y3 := t / LIMB;
    r := y3 * LIMB + y2;
  }

  /** The carries of the limb products, in one division. */
  lemma HighHalf(p00: nat, p01: nat, p10: nat, p11: nat, t: nat)
    requires t == p11 + (p10 + p00 / LIMB) / LIMB + (p01 + (p10 + p00 / LIMB) % LIMB) / LIMB
    ensures (U64 * p11 + LIMB * (p10 + p01) + p00) / U64 == t
  {
  }

  /** A 64-bit pattern as a signed number, and back. */
  function Signed(x: u64): i64 {
    if x >= 0x8000_0000_0000_0000 then x - U64 else x
  }

  function Pattern(x: int): u64 {
    x % U64
  }

  /** a < 0 ? -a : a, where -INT64_MIN wraps to itself and is read as an unsigned number. */
  function Magnitude(a: i64): u64 {
    var v: int := a;
    if v < 0 then 0 - v else v
  }

  /** The floor of a negated quotient. */
  lemma NegatedQuotient(p: int)
    requires p >= 0
    ensures -p / U64 == -(p / U64) - (if p % U64 == 0 then 0 else 1)
    ensures -p % U64 == 0 <==> p % U64 == 0
  {
  }

  lemma SignedProduct(a: int, b: int, x: nat, y: nat)
    requires (x == a || x == -a) && (y == b || y == -b)
    ensures (x == a) == (y == b) ==> a * b == x * y
    ensures x == a && y == -b ==> a * b == -(x * y)
    ensures x == -a && y == b ==> a * b == -(x * y)
    ensures x == -a && y == -b ==> a * b == x * y
  {
  }

  /** mulh: the high half of the signed product. */
  method Mulh(a: i64, b: i64) returns (r: i64)
    ensures r == a * b / U64
  {
    var negate := (a < 0) != (b < 0);
    var x: int, y: int := Magnitude(a), Magnitude(b);
    var res := Mulhu(x, y);
    SignedProduct(a, b, x, y);
    NegatedQuotient(x * y);
    HighRange(x, y);
    if negate {
      var low := Pattern(a * b);
      r := Signed(Pattern(U64 - 1 - res + if low == 0 then 1 else 0));
    } else {
      r := Signed(res);
    }
  }

  lemma HighRange(x: nat, y: nat)
    requires x <= 0x8000_0000_0000_0000 && y <= 0x8000_0000_0000_0000
    ensures 0 <= x * y / U64 <= 0x4000_0000_0000_0000
  {
    MulBound(x, 0x8000_0000_0000_0000, y);
    MulBound(y, 0x8000_0000_0000_0000, 0x8000_0000_0000_0000);
  }

  /** mulhsu: signed times unsigned. */
  method Mulhsu(a: i64, b: u64) returns (r: i64)
    ensures r == a * b / U64
  {
    var negate := a < 0;
    var x: int := Magnitude(a);
    var res := Mulhu(x, b);
    SignedProduct(a, b, x, b);
    NegatedQuotient(x * b);
    HalfRange(x, b);
    if negate {
      var low := Pattern(a * b);
      r := Signed(Pattern(U64 - 1 - res + if low == 0 then 1 else 0));
    } else {
      r := Signed(res);
    }
  }

  lemma HalfRange(x: nat, y: nat)
    requires x <= 0x8000_0000_0000_0000 && y < U64
    ensures 0 <= x * y / U64 <= 0x7FFF_FFFF_FFFF_FFFF
    ensures x * y <= 0x8000_0000_0000_0000 * (U64 - 1)
  {
    MulBound(x, 0x8000_0000_0000_0000, y);
    MulBound(y, U64 - 1, 0x8000_0000_0000_0000);
  }

  // ------------------------------------------------------------- saturation

  /** The range of a signed type of n bits. */
  predicate Fits(n: nat, x: int)
    requires n >= 1
  {
    0 - Pow2(n - 1) <= x < Pow2(n - 1)
  }

  function Clamp(n: nat, x: int): int
    requires n >= 1
  {
    if x < 0 - Pow2(n - 1) then 0 - Pow2(n - 1) else if x >= Pow2(n - 1) then Pow2(n - 1) - 1 else x
  }

  /** A signed number as its unsigned pattern of n bits, and back. */
  function ToUnsigned(n: nat, x: int): nat
    requires n >= 1 && Fits(n, x)
  {
    if x < 0 then x + Pow2(n) else x
  }

  function ToSigned(n: nat, u: nat): int
    requires n >= 1
  {
    if u >= Pow2(n - 1) then u - Pow2(n) else u
  }

  function Not(n: nat, u: nat): int {
    Pow2(n) - 1 - u
  }

  /** The sign bit of an n-bit pattern. */
  lemma {:induction false} SignBit(n: nat, u: nat)
    requires n >= 1 && u < Pow2(n)
    ensures HasBit(u, n - 1) <==> u >= Pow2(n - 1)
  {
    if n <= 1 {
    } else {
      SignBit(n - 1, u / 2);
    }
  }

  /** Or and xor act on the sign bit alone. */
  lemma SignOps(n: nat, a: nat, b: nat)
    requires n >= 1 && a < Pow2(n) && b < Pow2(n)
    ensures And(a, b) < Pow2(n) && Or(a, b) < Pow2(n) && Xor(a, b) < Pow2(n)
    ensures And(a, b) >= Pow2(n - 1) <==> a >= Pow2(n - 1) && b >= Pow2(n - 1)
    ensures Or(a, b) >= Pow2(n - 1) <==> a >= Pow2(n - 1) || b >= Pow2(n - 1)
    ensures Xor(a, b) >= Pow2(n - 1) <==> (a >= Pow2(n - 1)) != (b >= Pow2(n - 1))
  {
    hide And, Or, Xor, HasBit, Pow2;
    InBits(a, b, n);
    OpBit(a, b, n - 1);
    SignBit(n, a);
    SignBit(n, b);
    SignBit(n, And(a, b));
    SignBit(n, Or(a, b));
    SignBit(n, Xor(a, b));
  }

  /** sat_add of two operands. */
  method SatAdd(n: nat, x: int, y: int) returns (r: int, sat: bool)
    requires n >= 1 && Fits(n, x) && Fits(n, y)
    ensures r == Clamp(n, x + y) && (sat <==> !Fits(n, x + y)) && Fits(n, r)
  {
    hide And, Or, Xor, Pow2;
    PowStep(n - 1);
    var ux, uy := ToUnsigned(n, x), ToUnsigned(n, y);
    var res := if ux + uy < Pow2(n) then ux + uy else ux + uy - Pow2(n);
    sat := false;
    ux := (if ux >= Pow2(n - 1) then 1 else 0) + (Pow2(n - 1) - 1);
    SignOps(n, ux, uy);
    SignOps(n, uy, res);
    SignOps(n, Xor(ux, uy), Not(n, Xor(uy, res)));
    if ToSigned(n, Or(Xor(ux, uy), Not(n, Xor(uy, res)))) >= 0 {
      res := ux;
      sat := true;
    }
    r := ToSigned(n, res);
  }

  /** sat_add of three operands: exactly the clamped sum, and the flag exactly when it was clamped. */
  method SatAdd3(n: nat, x: int, y: int, z: int) returns (r: int, sat: bool)
    requires n >= 1 && Fits(n, x) && Fits(n, y) && Fits(n, z)
    ensures r == Clamp(n, x + y + z) && (sat <==> !Fits(n, x + y + z))
  {
    hide And, Or, Xor, Pow2;
    PowStep(n - 1);
    var a, b := y, z;
    var ux, uy, uz := ToUnsigned(n, x), ToUnsigned(n, y), ToUnsigned(n, z);
    SignOps(n, uy, uz);
    SignOps(n, ux, uz);
    SignOps(n, Xor(uy, uz), Xor(ux, uz));
    if ToSigned(n, And(Xor(uy, uz), Xor(ux, uz))) < 0 {
      a, b := z, y;
    }
    var sat1, sat2;
    r, sat1 := SatAdd(n, x, a);
    r, sat2 := SatAdd(n, r, b);
    sat := sat1 || sat2;
  }

  /** sat_sub */
  method SatSub(n: nat, x: int, y: int) returns (r: int, sat: bool)
    requires n >= 1 && Fits(n, x) && Fits(n, y)
    ensures r == Clamp(n, x - y) && (sat <==> !Fits(n, x - y))
  {
    hide And, Or, Xor, Pow2;
    PowStep(n - 1);
    var ux, uy := ToUnsigned(n, x), ToUnsigned(n, y);
    var res := if ux >= uy then ux - uy else ux + Pow2(n) - uy;
    sat := false;
    ux := (if ux >= Pow2(n - 1) then 1 else 0) + (Pow2(n - 1) - 1);
    SignOps(n, ux, uy);
    SignOps(n, ux, res);
    SignOps(n, Xor(ux, uy), Xor(ux, res));
    if ToSigned(n, And(Xor(ux, uy), Xor(ux, res))) < 0 {
      res := ux;
      sat := true;
    }
    r := ToSigned(n, res);
  }
}
