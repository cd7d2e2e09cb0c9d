/**
 * The scalar rounding macros of CPFloat for binary32 storage (cpfloat_template.h), on
 * bit patterns.  A float is compared through its magnitude in units of 2^-149.
 */
module CPFloat {
  import opened Bytes
  import opened Bits
  import opened Formats

  const DEFPREC := 24
  const DEFEMAX := 127
  const FULLMASK: u32 := 0xFFFF_FFFF
  const SIGNMASK: u32 := 0x8000_0000
  const INFINITY: u32 := 0x7F80_0000
  /** One step of the exponent field. */
  const BINADE := 0x80_0000

  function Abs(y: u32): u32 {
    if y >= SIGNMASK then y - SIGNMASK else y
  }

  function Sign(y: u32): u32 {
    if y >= SIGNMASK then SIGNMASK else 0
  }

  predicate Negative(y: u32) {
    y >= SIGNMASK
  }

  predicate IsFinite(y: u32) {
    Abs(y) < INFINITY
  }

  predicate IsNaN(y: u32) {
    Abs(y) > INFINITY
  }

  /** The magnitude of a finite pattern without its sign. */
  function Mag(b: nat): nat {
    var e, frac := b / BINADE, b % BINADE;
    if e == 0 then frac else (BINADE + frac) * Pow2(e - 1)
  }

  /** The pattern of a magnitude that binary32 can hold. */
  function ToBits(v: nat): nat {
    if v < 2 * BINADE then v else BINADE + ToBits(v / 2)
  }

  // ------------------------------------------------------------- parameters

  /** FPPARAMS: the thresholds as magnitudes. */
  datatype Params = Params(precision: nat, emax: nat, emin: int, ftzthreshold: nat, xmin: nat, xmax: nat, xbnd: nat,
                           leadmask: u32, trailmask: u32)

  datatype LocParams = LocParams(precision: nat, leadmask: u32, trailmask: u32)

  function Shl(a: u32, k: nat): u32 {
    a * Pow2(k) % U32
  }

  function Xor32(a: u32, b: u32): u32 {
    XorWord(a, b);
    Xor(a, b)
  }

  lemma Pow32()
    ensures Pow2(32) == U32 && Pow2(31) == SIGNMASK && Pow2(23) == BINADE && Pow2(8) == 256
  {
    assert Pow2(8) == 256;
    Pow2Add(8, 8);
    Pow2Add(16, 16);
    Pow2Add(16, 15);
    Pow2Add(8, 7);
    Pow2Add(16, 7);
  }

  lemma XorWord(a: u32, b: u32)
    ensures Xor(a, b) < U32
  {
    Pow32();
    InBits(a, b, 32);
  }

  function And32(a: u32, b: u32): u32 {
    AndWord(a, b);
    And(a, b)
  }

  lemma AndWord(a: u32, b: u32)
    ensures And(a, b) < U32
  {
    Pow32();
    InBits(a, b, 32);
  }

  function Add32(a: u32, b: u32): u32 {
    (a + b) % U32
  }

  /** compute_global_params with subnormals in use. */
  function GlobalParams(f: Format): Params
    requires ValidFormat(f)
  {
    var emin := 1 - f.emax;
    var leadmask := Shl(FULLMASK, DEFPREC - f.p);
    var xmax := Pow2(149 + f.emax) * 2 - Pow2(150 + f.emax - f.p);
    var xbnd := Pow2(149 + f.emax) * 2 - Pow2(149 + f.emax - f.p);
    Params(f.p, f.emax, emin, Pow2(149 + emin - f.p + 1), Pow2(149 + emin),
           if xmax >= 0 then xmax else 0, if xbnd >= 0 then xbnd else 0, leadmask, Xor32(leadmask, FULLMASK))
  }

  /** update_local_params: fewer digits for a result in the subnormal range of the target. */
  function LocalParams(y: u32, p: Params): LocParams
    requires p.precision <= DEFPREC
  {
    if Mag(Abs(y)) < p.xmin && p.emin > 1 - DEFEMAX then
      var ndigits := p.precision - p.emin - DEFEMAX + Abs(y) / BINADE;
      var precision := if ndigits > 0 then ndigits else 0;
      var ones := if precision <= p.precision then Pow2(p.precision - precision) - 1 else 0;
      var leadmask := Xor32(p.leadmask, ones * Pow2(DEFPREC - p.precision) % U32);
      LocParams(precision, leadmask, Xor32(leadmask, FULLMASK))
    else LocParams(p.precision, p.leadmask, p.trailmask)
  }

  // ------------------------------------------------------------------ rounding

  /** (INTOF(y) >> k) & 1 */
  function BitAt(y: u32, k: nat): (b: u32)
    ensures b <= 1
  {
    y / Pow2(k) % 2
  }

  /** (INTOF(y) + c) & leadmask */
  function Masked(y: u32, c: u32, leadmask: u32): u32 {
    And32(Add32(y, c), leadmask)
  }

  /** y > 0 or y < 0, which no NaN is. */
  predicate NotZero(y: u32) {
    0 < Abs(y) <= INFINITY
  }

  /** The rounding macros that end in SAME_EXP, with subnormals in use. */
  function SameExp(mode: Mode, y: u32, p: Params): u32
    requires 1 <= p.precision < DEFPREC
  {
    match mode
    case NA => Masked(y, Pow2(DEFPREC - 1 - p.precision) % U32, p.leadmask)
    case NZ => Masked(y, p.trailmask / 2, p.leadmask)
    case NE =>
      var lsb := BitAt(y, DEFPREC - p.precision);
      Masked(y, Add32(p.trailmask / 2, lsb), p.leadmask)
    case TP => if !Negative(y) && NotZero(y) then Masked(y, p.trailmask, p.leadmask) else And32(y, p.leadmask)
    case TN => if Negative(y) && NotZero(y) then Masked(y, p.trailmask, p.leadmask) else And32(y, p.leadmask)
    case TZ => And32(y, p.leadmask)
  }

  /** SIGN(y) | INTOFCONST(v) for a pattern without sign. */
  function WithSign(y: u32, bits: nat): u32
    requires bits < SIGNMASK
  {
    Sign(y) + bits
  }

  /** INTOFCONST of a threshold. */
  function Const(v: nat): nat {
    ToBits(v) % SIGNMASK
  }

  /** What they leave of a NaN, for which every comparison fails. */
  function NanExp(mode: Mode, y: u32, p: Params): u32
    requires 1 <= p.precision < DEFPREC
  {
    match mode
    case NA => Masked(y, Pow2(DEFPREC - 1 - p.precision) % U32, p.leadmask)
    case NZ => Masked(y, p.trailmask / 2, p.leadmask)
    case NE =>
      var lsb := if p.precision == 1 && DEFEMAX != p.emax then 1 else BitAt(y, DEFPREC - p.precision);
      Masked(y, Add32(p.trailmask / 2, lsb), p.leadmask)
    case TP => if !Negative(y) then Masked(y, p.trailmask, p.leadmask) else And32(y, p.leadmask)
    case TN => if Negative(y) then Masked(y, p.trailmask, p.leadmask) else And32(y, p.leadmask)
    case TZ => And32(y, p.leadmask)
  }

  /** The rounding macros that end in OTHER_EXP. */
  function OtherExp(mode: Mode, y: u32, p: Params): u32
    requires 1 <= p.precision < DEFPREC
  {
    if IsNaN(y) then NanExp(mode, y, p) else
    var x := Mag(Abs(y));
    var lp := LocalParams(y, p);
    match mode
    case NA =>
      if x < p.ftzthreshold then if 2 * x < p.ftzthreshold then Sign(y) else WithSign(y, Const(p.ftzthreshold))
      else if x >= p.xbnd then WithSign(y, INFINITY)
      else Masked(y, if lp.precision <= 23 then Pow2(DEFPREC - 1 - lp.precision) % U32 else 0, lp.leadmask)
    case NZ =>
      if x < p.ftzthreshold then if 2 * x > p.ftzthreshold then WithSign(y, Const(p.ftzthreshold)) else Sign(y)
      else if x > p.xbnd then WithSign(y, INFINITY)
      else Masked(y, lp.trailmask / 2, lp.leadmask)
    case NE =>
      if x < p.ftzthreshold then if 2 * x <= p.ftzthreshold then Sign(y) else WithSign(y, Const(p.ftzthreshold))
      else if x >= p.xbnd then WithSign(y, INFINITY)
      else
        var low := if lp.precision <= 24 then BitAt(y, DEFPREC - lp.precision) else 0;
        var lsb := if lp.precision == 1 && DEFEMAX != p.emax then 1 else low;
        Masked(y, Add32(lp.trailmask / 2, lsb), lp.leadmask)
    case TP =>
      if x < p.ftzthreshold then if !Negative(y) && x > 0 then Const(p.ftzthreshold) else 0
      else if x > p.xmax then
        if !Negative(y) then INFINITY else if Abs(y) != INFINITY then SIGNMASK + Const(p.xmax) else SIGNMASK + INFINITY
      else if !Negative(y) then Masked(y, lp.trailmask, lp.leadmask) else And32(y, lp.leadmask)
    case TN =>
      if x < p.ftzthreshold then if !Negative(y) || x == 0 then 0 else SIGNMASK + Const(p.ftzthreshold)
      else if x > p.xmax then
        if Negative(y) then SIGNMASK + INFINITY else if Abs(y) != INFINITY then Const(p.xmax) else INFINITY
      else if Negative(y) then Masked(y, lp.trailmask, lp.leadmask) else And32(y, lp.leadmask)
    case TZ =>
      if x < p.ftzthreshold then Sign(y)
      else if x > p.xmax && Abs(y) != INFINITY then WithSign(y, Const(p.xmax))
      else And32(y, lp.leadmask)
  }
}
