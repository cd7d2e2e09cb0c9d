/**
 * CPFloat on every input: the vector loop, infinities, and NaNs, of which no comparison holds and whose bits
 * are rounded like those of a number.
 */
module Specials {
  import opened Bytes
  import opened Bits
  import opened Formats
  import opened CPFloat
  import opened RoundingProofs
  import opened Roundings

  // ----------------------------------------------------------- adding and masking

  /** The bits from bit k on. */
  function Cut(x: nat, q: nat): nat
    requires q > 0
  {
    ModLess(x, q);
    x - x % q
  }

  lemma CutIs(y: u32, c: u32, k: nat)
    requires k <= 23
    ensures Pow2(k) <= BINADE
    ensures Pow2(k) > 0 && Masked(y, c, U32 - Pow2(k)) == Cut((y + c) % U32, Pow2(k))
    ensures And32(y, U32 - Pow2(k)) == Masked(y, 0, U32 - Pow2(k))
  {
    hide Pow2;
    Pow32();
    TrailIs(k);
    HighMask(32, k, (y + c) % U32);
    SmallModulus(y, U32);
  }

  /** Whole multiples below are kept. */
  lemma CutAbove(v: nat, q: nat, h: nat)
    requires q > 0
    ensures Cut(q * h + v, q) == q * h + Cut(v, q)
  {
    AddMultiple(v, q, h);
  }

  /** The exponent field is a multiple of every mask. */
  lemma Fields(k: nat) returns (h: nat)
    requires k <= 23
    ensures Pow2(k) > 0 && Pow2(k) * h == BINADE
    ensures Pow2(k) * (255 * h) == INFINITY && Pow2(k) * (511 * h) == SIGNMASK + INFINITY
    ensures Pow2(k) * (256 * h) == SIGNMASK
  {
    h := Pow2(23 - k);
    Pow32();
    Pow2Add(k, 23 - k);
    hide Pow2;
    Times(Pow2(k), h, 255);
    Times(Pow2(k), h, 256);
    Times(Pow2(k), h, 511);
    TrailIs(k);
    PowPositive(k);
  }

  lemma PowPositive(k: nat)
    ensures Pow2(k) > 0
  {
  }

  lemma Times(q: nat, h: nat, n: nat)
    ensures q * (n * h) == n * (q * h)
  {
  }

  // --------------------------------------------------------------- infinities

  /** An infinity stays itself when less than a kept unit is added. */
  lemma InfinityMasked(y: u32, c: nat, k: nat)
    requires k <= 23 && Abs(y) == INFINITY && c < Pow2(k)
    ensures Pow2(k) <= BINADE && Masked(y, c, U32 - Pow2(k)) == y
  {
    hide Pow2, Masked;
    var h := Fields(k);
    TrailIs(k);
    CutIs(y, c, k);
    SmallModulus(y + c, U32);
    CutAbove(c, Pow2(k), if Negative(y) then 511 * h else 255 * h);
    SmallModulus(c, Pow2(k));
  }

  lemma InfinityLarge(f: Format)
    requires ValidFormat(f)
    ensures var p := GlobalParams(f);
      p.ftzthreshold <= p.xmax < Mag(INFINITY) && p.xbnd < Mag(INFINITY) && p.xmin <= Mag(INFINITY)
  {
    hide Pow2, Mag, GlobalParams, XMax, XBnd;
    Thresholds(f);
    MagInfinity();
    PowMono(150 + f.emax, 277);
    PowMono(150 - f.emax, 277);
    BelowBound(f);
  }

  lemma MagInfinity()
    ensures Mag(INFINITY) == Pow2(277)
  {
    hide Pow2;
    Pow32();
    Pow2Add(23, 254);
  }

  /** Infinities are kept, in every mode and on both paths. */
  lemma InfinityKept(f: Format, mode: Mode, y: u32)
    requires ValidFormat(f) && Abs(y) == INFINITY
    ensures GlobalParams(f).precision == f.p
    ensures OtherExp(mode, y, GlobalParams(f)) == y && SameExp(mode, y, GlobalParams(f)) == y
  {
    hide Pow2, Mag, Masked, And32, GlobalParams, LocalParams, SameExp, OtherExp, XMax, XBnd;
    var p, k := GlobalParams(f), 24 - f.p;
    Thresholds(f);
    GlobalMasks(f);
    InfinityLarge(f);
    HalfMask(k);
    KeptMasks(y, k, p.leadmask);
    GlobalDigits(y, p);
    SameInfinity(mode, y, p, k);
    OtherInfinity(mode, y, p, k);
  }

  lemma SameInfinity(mode: Mode, y: u32, p: Params, k: nat)
    requires 1 <= k <= 22 && Abs(y) == INFINITY && p.precision == 24 - k && p.trailmask == Pow2(k) - 1
    requires Pow2(k) == 2 * Pow2(k - 1) <= BINADE && Pow2(k - 1) >= 1 && And32(y, p.leadmask) == y
    requires forall c: u32 :: c < Pow2(k) ==> Masked(y, c, p.leadmask) == y
    ensures SameExp(mode, y, p) == y
  {
    hide Pow2, Masked, And32, BitAt;
  }

  lemma OtherInfinity(mode: Mode, y: u32, p: Params, k: nat)
    requires 1 <= k <= 22 && Abs(y) == INFINITY && p.precision == 24 - k && p.trailmask == Pow2(k) - 1
    requires p.ftzthreshold <= p.xmax < Mag(INFINITY) && p.xbnd < Mag(INFINITY) && And32(y, p.leadmask) == y
    requires LocalParams(y, p) == LocParams(p.precision, p.leadmask, p.trailmask)
    ensures OtherExp(mode, y, p) == y
  {
    hide Pow2, Mag, Masked, And32, BitAt, Const, LocalParams;
  }

  lemma KeptMasks(y: u32, k: nat, lead: u32)
    requires 1 <= k <= 23 && Abs(y) == INFINITY && lead == U32 - Pow2(k)
    ensures And32(y, lead) == y && forall c: u32 :: c < Pow2(k) ==> Masked(y, c, lead) == y
  {
    hide Pow2, Masked, And32;
    TrailIs(k);
    PowPositive(k);
    InfinityMasked(y, 0, k);
    CutIs(y, 0, k);
    forall c: u32 | c < Pow2(k) ensures Masked(y, c, lead) == y {
      InfinityMasked(y, c, k);
    }
  }

  /** At infinity no digit is given up. */
  lemma GlobalDigits(y: u32, p: Params)
    requires p.precision <= DEFPREC && p.xmin <= Mag(Abs(y))
    ensures LocalParams(y, p) == LocParams(p.precision, p.leadmask, p.trailmask)
  {
    hide Mag, Pow2;
  }

  // --------------------------------------------------------------------- NaNs

  /** What is added to the bits of a NaN; the paths differ in the directed modes. */
  function NanConst(mode: Mode, y: u32, k: nat, same: bool): int
    requires k >= 1
  {
    match mode
    case TZ => 0
    case TP => if Negative(y) || same then 0 else Pow2(k) - 1
    case TN => if !Negative(y) || same then 0 else Pow2(k) - 1
    case NE => NearestConst(mode, k, BitAt(y, k))
    case _ => NearestConst(mode, k, 0)
  }

  lemma NanIs(f: Format, mode: Mode, y: u32)
    requires ValidFormat(f) && IsNaN(y)
    ensures var p, k := GlobalParams(f), 24 - f.p;
      && p.precision == f.p && p.leadmask == U32 - Pow2(k)
      && 0 <= NanConst(mode, y, k, true) < Pow2(k) <= BINADE && 0 <= NanConst(mode, y, k, false) < Pow2(k)
      && OtherExp(mode, y, p) == Masked(y, NanConst(mode, y, k, false), p.leadmask)
      && SameExp(mode, y, p) == Masked(y, NanConst(mode, y, k, true), p.leadmask)
  {
    hide Pow2, Masked, And32, GlobalParams, XMax, XBnd, NanConst, SameExp, OtherExp;
    var k := 24 - f.p;
    Thresholds(f);
    GlobalMasks(f);
    HalfMask(k);
    CutIs(y, 0, k);
    NanFrom(mode, y, GlobalParams(f), k);
  }

  lemma NanFrom(mode: Mode, y: u32, p: Params, k: nat)
    requires 1 <= k <= 22 && IsNaN(y) && p.precision == 24 - k && p.trailmask == Pow2(k) - 1
    requires Pow2(k) == 2 * Pow2(k - 1) <= BINADE && Pow2(k - 1) >= 1
    requires And32(y, p.leadmask) == Masked(y, 0, p.leadmask)
    ensures 0 <= NanConst(mode, y, k, true) < Pow2(k) && 0 <= NanConst(mode, y, k, false) < Pow2(k)
    ensures OtherExp(mode, y, p) == Masked(y, NanConst(mode, y, k, false), p.leadmask)
    ensures SameExp(mode, y, p) == Masked(y, NanConst(mode, y, k, true), p.leadmask)
  {
    hide Pow2, Masked, And32, BitAt, Mag, LocalParams;
  }

  /** What becomes of a NaN whose fraction is as given: it stays one only if the sum keeps bits and does not carry. */
  ghost predicate NanRounded(y: u32, frac: nat, q: nat, r: u32) {
    && (IsNaN(r) <==> q <= frac < BINADE)
    && (frac < q ==> r == Sign(y) + INFINITY)
    && (frac >= BINADE ==> Abs(r) == 0 && Negative(r) != Negative(y))
  }

  lemma NanCut(y: u32, c: nat, k: nat)
    requires k <= 23 && IsNaN(y) && c < Pow2(k)
    ensures Pow2(k) <= BINADE && NanRounded(y, Abs(y) - INFINITY + c, Pow2(k), Masked(y, c, U32 - Pow2(k)))
  {
    hide Pow2, Masked;
    var h := Fields(k);
    var q, v := Pow2(k), Abs(y) - INFINITY + c;
    TrailIs(k);
    CutIs(y, c, k);
    if v < BINADE {
      SmallModulus(y + c, U32);
      CutAbove(v, q, if Negative(y) then 511 * h else 255 * h);
      CutSmall(v, q, h);
    } else if Negative(y) {
      ModIs(y + c, U32, 1, v - BINADE);
      SmallModulus(v - BINADE, q);
    } else {
      SmallModulus(y + c, U32);
      CutAbove(v - BINADE, q, 256 * h);
      SmallModulus(v - BINADE, q);
    }
  }

  lemma CutSmall(v: nat, q: nat, h: nat)
    requires q > 0 && q * h == BINADE && v < BINADE
    ensures Cut(v, q) < BINADE && (Cut(v, q) > 0 <==> v >= q)
  {
    if v < q {
      SmallModulus(v, q);
    } else {
      ModUnder(v, q);
    }
  }

  /** A NaN becomes minus zero, or an infinity: two inputs of bfloat16. */
  lemma NanLost()
    ensures SameExp(NE, 0x7FFF_FFFF, GlobalParams(Format(8, 127))) == SIGNMASK
    ensures SameExp(TZ, 0x7F80_0001, GlobalParams(Format(8, 127))) == INFINITY
  {
    hide Pow2, Masked, GlobalParams, SameExp;
    var f := Format(8, 127);
    Pow16();
    NanIs(f, NE, 0x7FFF_FFFF);
    NanCut(0x7FFF_FFFF, NanConst(NE, 0x7FFF_FFFF, 16, true), 16);
    NanIs(f, TZ, 0x7F80_0001);
    NanCut(0x7F80_0001, 0, 16);
  }

  lemma Pow16()
    ensures Pow2(16) == 0x1_0000 && Pow2(15) == 0x8000
  {
    Pow2Add(8, 8);
    Pow2Add(8, 7);
  }

  // ------------------------------------------------------------------- the loop

  /** What the loop stores for y: a correct rounding, the same infinity, or what becomes of a NaN. */
  ghost predicate Stored(f: Format, mode: Mode, y: u32, r: u32)
    requires ValidFormat(f)
  {
    if IsFinite(y) then Rounded(f, mode, y, r)
    else if Abs(y) == INFINITY then r == y
    else
      var c := NanConst(mode, y, 24 - f.p, f.emax == 127);
      c >= 0 && NanRounded(y, Abs(y) - INFINITY + c, Pow2(24 - f.p), r)
  }

  lemma BothStored(f: Format, mode: Mode, y: u32)
    requires ValidFormat(f)
    ensures GlobalParams(f).precision == f.p && GlobalParams(f).emax == f.emax
    ensures f.emax == 127 ==> Stored(f, mode, y, SameExp(mode, y, GlobalParams(f)))
    ensures f.emax != 127 ==> Stored(f, mode, y, OtherExp(mode, y, GlobalParams(f)))
  {
    hide Pow2, XMax, XBnd, GlobalParams, OtherExp, SameExp, Rounded, NanRounded, NanConst, Masked;
    Thresholds(f);
    if IsFinite(y) {
      if f.emax == 127 {
        FastPath(f, mode, y);
      } else {
        GeneralPath(f, mode, y);
      }
    } else if Abs(y) == INFINITY {
      InfinityKept(f, mode, y);
    } else {
      NanIs(f, mode, y);
      NanCut(y, NanConst(mode, y, 24 - f.p, f.emax == 127), 24 - f.p);
    }
  }

  /** The vector loop, in place or not: the fast path when the exponent ranges agree. */
  method RoundAll(f: Format, mode: Mode, xs: array<u32>, ys: array<u32>, numelem: nat)
    requires ValidFormat(f) && numelem <= xs.Length && numelem <= ys.Length
    modifies xs
    ensures forall i :: 0 <= i < numelem ==> Stored(f, mode, old(ys[i]), xs[i])
    ensures xs[numelem..] == old(xs[numelem..])
  {
    hide Pow2, GlobalParams, OtherExp, SameExp, Stored, XMax, XBnd;
    var p := GlobalParams(f);
    Thresholds(f);
    for i := 0 to numelem
      invariant forall k :: 0 <= k < i ==> Stored(f, mode, old(ys[k]), xs[k])
      invariant forall k :: i <= k < ys.Length ==> ys[k] == old(ys[k])
      invariant xs[numelem..] == old(xs[numelem..])
    {
      BothStored(f, mode, ys[i]);
      xs[i] := if p.emax == DEFEMAX then SameExp(mode, ys[i], p) else OtherExp(mode, ys[i], p);
    }
  }
}
