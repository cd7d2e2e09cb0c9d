/**
 * Main theorems about CPFloat: the general path rounds correctly in all six deterministic
 * modes, and with the exponent range of binary32 the fast path agrees with it.
 */
module Roundings {
  import opened Bytes
  import opened Bits
  import opened Formats
  import opened CPFloat
  import opened RoundingProofs

  /** The magnitude that a pattern stands for. */
  function Value(r: u32): Magnitude {
    if Abs(r) == INFINITY then Infinite else Finite(Mag(Abs(r)))
  }

  /** r is y rounded to the format: magnitude and sign, up to the sign of zero. */
  ghost predicate Rounded(f: Format, mode: Mode, y: u32, r: u32)
    requires ValidFormat(f)
  {
    && Correct(f, mode, Negative(y), Mag(Abs(y)), Value(r))
    && (Negative(r) == Negative(y) || Value(r) == Finite(0))
  }

  lemma SignOf(y: u32, bits: nat)
    requires bits <= INFINITY
    ensures Abs(Sign(y) + bits) == bits && Negative(Sign(y) + bits) == Negative(y)
    ensures Abs(SIGNMASK + bits) == bits && Negative(SIGNMASK + bits) && Abs(bits) == bits && !Negative(bits)
  {
  }

  lemma ZeroValue()
    ensures Value(0) == Finite(0) && Mag(0) == 0
  {
  }

  // ------------------------------------------------------- below and above

  /** Below the smallest subnormal the neighbours are zero and that number. */
  lemma Underflow(f: Format, mode: Mode, neg: bool, x: nat, up: bool)
    requires ValidFormat(f) && x < Pow2(JMin(f))
    requires Picks(mode, neg, 0, Pow2(JMin(f)), x, up)
    ensures Correct(f, mode, neg, x, Finite(if up then Pow2(JMin(f)) else 0))
  {
    hide Pow2, Correct, Picks, Rep;
    Thresholds(f);
    var w := Pow2(JMin(f));
    assert 0 * w == 0 && (0 + 1) * w == w;
    RoundsAt(f, mode, neg, 0, JMin(f), x, up);
  }

  /** The patterns of the smallest and the largest number. */
  lemma Constants(f: Format)
    requires ValidFormat(f)
    ensures var p := GlobalParams(f);
      && Const(p.ftzthreshold) < INFINITY && Mag(Const(p.ftzthreshold)) == Pow2(JMin(f))
      && Const(p.xmax) < INFINITY && Mag(Const(p.xmax)) == XMax(f)
  {
    hide Pow2, Const, Mag, GlobalParams, XMax, XBnd;
    Thresholds(f);
    XMaxIs(f);
    PowLess(JMin(f), 277);
    ConstIs(1, JMin(f));
    ConstIs(Pow2(f.p) - 1, JMax(f));
  }

  lemma XMaxIs(f: Format)
    requires ValidFormat(f)
    ensures XMax(f) == (Pow2(f.p) - 1) * Pow2(JMax(f)) && XMax(f) < Pow2(277) && Pow2(f.p) <= BINADE
  {
    hide Pow2, GlobalParams;
    Thresholds(f);
    Pow32();
    PowMono(150 + f.emax, 277);
    PowMono(f.p, 23);
  }

  // ---------------------------------------------------------- the main branch

  lemma InfinityBounds(m: nat, k: nat, up: bool)
    requires k <= 23 && m < INFINITY
    ensures Neighbour(m, k, up) <= INFINITY
  {
    hide Pow2;
    BinadeSplit(k);
    MulAssoc(Pow2(k), Pow2(23 - k), 255);
    NextMultiple(m, Pow2(k), Pow2(23 - k) * 255, INFINITY);
  }

  lemma NextMultiple(m: nat, q: nat, a: nat, top: nat)
    requires q > 0 && q * a == top && m < top
    ensures m - m % q + q <= top
  {
    DivMod(m, q);
    if m / q >= a {
      MulLe(q, a, m / q);
    }
    MulLe(q, m / q + 1, a);
    Dist(q, m / q, 1);
  }

  lemma InfinityMag(f: Format)
    requires ValidFormat(f)
    ensures Mag(INFINITY) > XMax(f)
  {
    hide Pow2, Mag, XMax, XBnd, GlobalParams;
    XMaxIs(f);
    Parts(INFINITY, 255, 0);
    Pow32();
    Pow2Add(23, 254);
  }

  /** A rounded pattern that is not infinite has its own magnitude as value. */
  lemma FiniteValue(f: Format, y: u32, k: nat, up: bool)
    requires ValidFormat(f) && k <= 23 && IsFinite(y) && Picked(f, Mag(Neighbour(Abs(y), k, up))).Finite?
    ensures Neighbour(Abs(y), k, up) < INFINITY
    ensures Value(Sign(y) + Neighbour(Abs(y), k, up)) == Picked(f, Mag(Neighbour(Abs(y), k, up)))
    ensures Negative(Sign(y) + Neighbour(Abs(y), k, up)) == Negative(y)
  {
    hide Pow2, Mag, XMax, Neighbour;
    InfinityBounds(Abs(y), k, up);
    InfinityMag(f);
    SignOf(y, Neighbour(Abs(y), k, up));
  }

  /** Half of the discarded range, as the masks give it. */
  lemma HalfMask(k: nat)
    requires 1 <= k <= 23
    ensures Pow2(k) == 2 * Pow2(k - 1) && (Pow2(k) - 1) / 2 == Pow2(k - 1) - 1 && Pow2(k - 1) >= 1 && Pow2(k) <= BINADE
  {
    PowStep(k - 1);
    TrailIs(k);
    hide Pow2;
  }

  /** The last kept bit is bit k of the pattern, or the hidden bit when only that one is kept. */
  lemma LastBit(y: u32, k: nat)
    requires 1 <= k <= 23 && IsFinite(y) && (k == 23 ==> Abs(y) >= BINADE)
    ensures Kept(Abs(y), k) % 2 == if k == 23 then 1 else BitAt(y, k)
  {
    var m := Abs(y);
    hide Pow2, Mag, Quotient;
    SignApart(Sign(y), m, k);
    if k == 23 {
      KeptNormal(m, 1);
      assert Pow2(0) == 1 && Pow2(1) == 2 by { PowOne(); }
    } else {
      BinadeSplit(k);
      PowStep(22 - k);
      KeptBit(m, Pow2(k), Pow2(23 - k), Pow2(22 - k));
    }
  }

  lemma PowOne()
    ensures Pow2(0) == 1 && Pow2(1) == 2
  {
  }

  lemma KeptBit(m: nat, q: nat, h: nat, g: nat)
    requires q > 0 && q * h == BINADE && h == 2 * g
    ensures Quotient(Sig(m), q) % 2 == m / q % 2
  {
    hide Mag;
    PartsOf(m);
    var e, f := Exp(m), m % BINADE;
    Parts(m, e, f);
    MulAssoc(q, h, e);
    AddMultiple(f, q, h * e);
    AddMultiple(f, q, h);
    MulAssoc(2, g, e);
    EvenPlus(g * e, f / q);
    EvenPlus(g, f / q);
  }

  /** The main branch with constant c below the kept bits. */
  lemma MainBranch(f: Format, mode: Mode, y: u32, k: nat, c: u32, lead: u32, r: u32)
    requires ValidFormat(f) && IsFinite(y) && 1 <= k <= 23 && lead == U32 - Pow2(k) && c < Pow2(k)
    requires Place(f, Kept(Abs(y), k), Last(Abs(y), k))
    requires r == Masked(y, c, lead) && PatternPicks(mode, Negative(y), Abs(y), k, Abs(y) % Pow2(k) + c >= Pow2(k))
    ensures Correct(f, mode, Negative(y), Mag(Abs(y)),
                    Picked(f, Mag(Neighbour(Abs(y), k, Abs(y) % Pow2(k) + c >= Pow2(k)))))
    ensures r == Sign(y) + Neighbour(Abs(y), k, Abs(y) % Pow2(k) + c >= Pow2(k))
  {
    hide Pow2, Mag, Neighbour, Kept, Last, Place, Correct, Masked, PatternPicks, Picked;
    MaskedIs(y, c, lead, k);
    PatternRounds(f, mode, Negative(y), Abs(y), k, Abs(y) % Pow2(k) + c >= Pow2(k));
  }

  lemma CutBranch(f: Format, mode: Mode, y: u32, k: nat, lead: u32)
    requires ValidFormat(f) && IsFinite(y) && 1 <= k <= 23 && lead == U32 - Pow2(k)
    requires Place(f, Kept(Abs(y), k), Last(Abs(y), k)) && PatternPicks(mode, Negative(y), Abs(y), k, false)
    ensures Correct(f, mode, Negative(y), Mag(Abs(y)), Picked(f, Mag(Neighbour(Abs(y), k, false))))
    ensures And32(y, lead) == Sign(y) + Neighbour(Abs(y), k, false)
  {
    hide Pow2, Mag, Neighbour, Kept, Last, Place, Correct, Masked, PatternPicks, Picked;
    TrailPositive(k);
    MaskedIs(y, 0, lead, k);
    PatternRounds(f, mode, Negative(y), Abs(y), k, false);
  }

  lemma TrailPositive(k: nat)
    ensures Pow2(k) >= 1
  {
  }

  /** The constants that the nearest modes add. */
  function NearestConst(mode: Mode, k: nat, lsb: nat): int
    requires 1 <= k
  {
    match mode
    case NA => Pow2(k - 1)
    case NZ => Pow2(k - 1) - 1
    case _ => Pow2(k - 1) - 1 + lsb
  }

  /** Does adding a constant below the kept bits carry into them? */
  predicate Carries(m: nat, k: nat, c: int)
    requires Pow2(k) > 0
  {
    m % Pow2(k) + c >= Pow2(k)
  }

  /** Adding that constant carries exactly when the mode rounds away. */
  lemma NearestPicks(mode: Mode, neg: bool, m: nat, k: nat, lsb: nat)
    requires 1 <= k <= 23 && (mode.NE? || mode.NA? || mode.NZ?) && lsb <= 1 && (mode.NE? ==> Kept(m, k) % 2 == lsb)
    ensures 0 <= NearestConst(mode, k, lsb) < Pow2(k) <= BINADE
    ensures PatternPicks(mode, neg, m, k, Carries(m, k, NearestConst(mode, k, lsb)))
  {
    hide Pow2, Kept;
    HalfMask(k);
    ModTwice(m, Pow2(k));
  }

  lemma AwayPicks(mode: Mode, neg: bool, m: nat, k: nat)
    requires 1 <= k <= 23 && ((mode == TP && !neg) || (mode == TN && neg))
    ensures PatternPicks(mode, neg, m, k, m % Pow2(k) + (Pow2(k) - 1) >= Pow2(k))
  {
    hide Pow2, Kept;
    ModTwice(m, Pow2(k));
  }

  // ------------------------------------------------------------- main results

  /** Facts about one call that every mode uses. */
  ghost predicate Ready(f: Format, y: u32) {
    ValidFormat(f) && IsFinite(y)
  }

  /** The main branch is reached: between the smallest subnormal and the bound of the mode. */
  predicate Between(f: Format, mode: Mode, x: nat)
    requires ValidFormat(f)
  {
    Pow2(JMin(f)) <= x && if mode.NZ? then x <= XBnd(f) else if mode.NE? || mode.NA? then x < XBnd(f) else x <= XMax(f)
  }

  /** In the main branch correct rounding never asks for infinity. */
  lemma NotInfinite(f: Format, mode: Mode, neg: bool, x: nat, v: nat)
    requires ValidFormat(f) && Between(f, mode, x) && Correct(f, mode, neg, x, Picked(f, v))
    ensures Picked(f, v).Finite?
  {
    hide Pow2, XMax, XBnd, Nearest, Rival, Up, Down;
  }

  /** The least significant kept bit, as the macro reads it. */
  function Lsb(mode: Mode, y: u32, lp: LocParams, emax: nat): (b: nat)
    requires lp.precision <= 24
    ensures b <= 1
  {
    if !mode.NE? then 0
    else if lp.precision == 1 && DEFEMAX != emax then 1
    else BitAt(y, 24 - lp.precision)
  }

  /** What the nearest modes compute in the main branch. */
  ghost predicate NearestCall(mode: Mode, y: u32, p: Params) {
    && 1 <= p.precision < 24
    && var lp := LocalParams(y, p);
       && 1 <= lp.precision <= 23
       && var c := NearestConst(mode, 24 - lp.precision, Lsb(mode, y, lp, p.emax));
          0 <= c < U32 && OtherExp(mode, y, p) == Masked(y, c, lp.leadmask)
  }

  lemma OtherNearest(f: Format, mode: Mode, y: u32)
    requires Ready(f, y) && (mode.NE? || mode.NA? || mode.NZ?) && Between(f, mode, Mag(Abs(y)))
    ensures NearestCall(mode, y, GlobalParams(f)) && GlobalParams(f).emax == f.emax
  {
    hide Pow2, Mag, Kept, Last, Place, XMax, XBnd, Masked, GlobalParams, LocalParams, NearestCall, OtherExp;
    Thresholds(f);
    LocalIs(f, y);
    HalfMask(24 - LocalParams(y, GlobalParams(f)).precision);
    OtherConst(mode, y, GlobalParams(f), LocalParams(y, GlobalParams(f)));
  }

  lemma OtherConst(mode: Mode, y: u32, p: Params, lp: LocParams)
    requires 1 <= p.precision < 24 && lp == LocalParams(y, p) && 1 <= lp.precision <= 23 && !IsNaN(y)
    requires (mode.NE? || mode.NA? || mode.NZ?) && p.ftzthreshold <= Mag(Abs(y))
    requires if mode.NZ? then Mag(Abs(y)) <= p.xbnd else Mag(Abs(y)) < p.xbnd
    requires var k := 24 - lp.precision; lp.trailmask == Pow2(k) - 1 && Pow2(k) == 2 * Pow2(k - 1) <= BINADE
    requires Pow2(23 - lp.precision) >= 1
    ensures NearestCall(mode, y, p)
  {
    hide Pow2, Mag, Masked, LocalParams, BitAt, Const;
    var c := NearestConst(mode, 24 - lp.precision, Lsb(mode, y, lp, p.emax));
    assert lp.trailmask / 2 == Pow2(23 - lp.precision) - 1;
    SmallModulus(if c >= 0 then c else 0, U32);
  }

  /** The nearest modes reach the main branch within the range of the format. */
  lemma NearestRange(f: Format, mode: Mode, x: nat)
    requires ValidFormat(f) && (mode.NE? || mode.NA? || mode.NZ?) && Between(f, mode, x)
    ensures Pow2(JMin(f)) <= x < Pow2(150 + f.emax) && GlobalParams(f).precision == f.p
  {
    hide Pow2, XMax, XBnd, GlobalParams;
    Thresholds(f);
  }

  /** The bit that the macro reads decides ties as the kept units do. */
  lemma LsbIs(f: Format, y: u32, lp: LocParams)
    requires Ready(f, y) && 1 <= lp.precision <= f.p && (f.emax == 127 || Abs(y) >= BINADE)
    requires f.emax == 127 ==> lp.precision == f.p
    ensures Kept(Abs(y), 24 - lp.precision) % 2 == Lsb(NE, y, lp, f.emax)
  {
    hide Pow2, Mag, Kept, BitAt;
    LastBit(y, 24 - lp.precision);
  }

  /** Adding a constant below the kept bits and masking rounds correctly, when it picks the right neighbour. */
  lemma MainRounded(f: Format, mode: Mode, y: u32, k: nat, c: u32, lead: u32)
    requires ValidFormat(f) && IsFinite(y) && 1 <= k <= 23 && lead == U32 - Pow2(k) && c < Pow2(k)
    requires Place(f, Kept(Abs(y), k), Last(Abs(y), k)) && Between(f, mode, Mag(Abs(y)))
    requires PatternPicks(mode, Negative(y), Abs(y), k, Carries(Abs(y), k, c))
    ensures Rounded(f, mode, y, Masked(y, c, lead))
  {
    hide Pow2, Mag, Kept, Last, Place, Neighbour, Correct, Picked, XMax, XBnd, Masked, PatternPicks, Value, Between;
    var up := Carries(Abs(y), k, c);
    MainBranch(f, mode, y, k, c, lead, Masked(y, c, lead));
    NotInfinite(f, mode, Negative(y), Mag(Abs(y)), Mag(Neighbour(Abs(y), k, up)));
    FiniteValue(f, y, k, up);
  }

  lemma NearestMain(f: Format, mode: Mode, y: u32)
    requires Ready(f, y) && (mode.NE? || mode.NA? || mode.NZ?) && Between(f, mode, Mag(Abs(y)))
    ensures Rounded(f, mode, y, OtherExp(mode, y, GlobalParams(f)))
  {
    hide Pow2, Mag, Kept, Last, Place, Neighbour, Correct, Picked, XMax, XBnd, Masked, PatternPicks, GlobalParams,
      LocalParams, NearestConst, OtherExp, Value, Lsb, BitAt, Rounded, Between, Abs, Negative, Carries;
    NearestRange(f, mode, Mag(Abs(y)));
    LocalIs(f, y);
    OtherNearest(f, mode, y);
    var lp := LocalParams(y, GlobalParams(f));
    var k, lsb := 24 - lp.precision, Lsb(mode, y, lp, f.emax);
    if mode.NE? {
      LsbIs(f, y, lp);
    }
    NearestPicks(mode, Negative(y), Abs(y), k, lsb);
    MainRounded(f, mode, y, k, NearestConst(mode, k, lsb), lp.leadmask);
  }

  /** The directed modes in the main branch. */
  lemma DirectedMain(f: Format, mode: Mode, y: u32)
    requires Ready(f, y) && (mode.TP? || mode.TN? || mode.TZ?) && Between(f, mode, Mag(Abs(y)))
    ensures Rounded(f, mode, y, OtherExp(mode, y, GlobalParams(f)))
  {
    hide Pow2, Mag, Kept, Last, Place, Neighbour, Correct, Picked, XMax, XBnd, Masked, PatternPicks, GlobalParams,
      LocalParams, Value;
    Thresholds(f);
    BelowBound(f);
    LocalIs(f, y);
    var lp := LocalParams(y, GlobalParams(f));
    var k := 24 - lp.precision;
    if (mode == TP && !Negative(y)) || (mode == TN && Negative(y)) {
      AwayPicks(mode, Negative(y), Abs(y), k);
      HalfMask(k);
      var up := Abs(y) % Pow2(k) + (Pow2(k) - 1) >= Pow2(k);
      MainBranch(f, mode, y, k, Pow2(k) - 1, lp.leadmask, Masked(y, Pow2(k) - 1, lp.leadmask));
      NotInfinite(f, mode, Negative(y), Mag(Abs(y)), Mag(Neighbour(Abs(y), k, up)));
      FiniteValue(f, y, k, up);
    } else {
      InwardPicks(mode, Negative(y), Abs(y), k);
      CutBranch(f, mode, y, k, lp.leadmask);
      NotInfinite(f, mode, Negative(y), Mag(Abs(y)), Mag(Neighbour(Abs(y), k, false)));
      FiniteValue(f, y, k, false);
    }
  }

  lemma InwardPicks(mode: Mode, neg: bool, m: nat, k: nat)
    requires mode == TZ || (mode == TP && neg) || (mode == TN && !neg)
    ensures PatternPicks(mode, neg, m, k, false)
  {
  }

  lemma BelowBound(f: Format)
    requires ValidFormat(f)
    ensures XMax(f) <= XBnd(f)
  {
  }

  /** Below the smallest subnormal. */
  lemma UnderflowRounds(f: Format, mode: Mode, y: u32)
    requires Ready(f, y) && Mag(Abs(y)) < Pow2(JMin(f))
    ensures Rounded(f, mode, y, OtherExp(mode, y, GlobalParams(f)))
  {
    hide Pow2, Mag, Correct, Const, XMax, XBnd, GlobalParams, LocalParams, Masked, And32, Add32, BitAt;
    Thresholds(f);
    Constants(f);
    ZeroValue();
    var x, q := Mag(Abs(y)), Pow2(JMin(f));
    var up := match mode
      case NE => 2 * x > q
      case NA => 2 * x >= q
      case NZ => 2 * x > q
      case TZ => false
      case TP => !Negative(y) && x > 0
      case TN => Negative(y) && x > 0;
    Underflow(f, mode, Negative(y), x, up);
    SignOf(y, 0);
    SignOf(y, Const(GlobalParams(f).ftzthreshold));
  }

  /** Above the range of the main branch. */
  lemma OverflowRounds(f: Format, mode: Mode, y: u32)
    requires Ready(f, y) && Mag(Abs(y)) >= Pow2(JMin(f)) && !Between(f, mode, Mag(Abs(y)))
    ensures Rounded(f, mode, y, OtherExp(mode, y, GlobalParams(f)))
  {
    hide Pow2, Mag, Const, XMax, XBnd, GlobalParams, LocalParams, Masked, And32, Add32, BitAt, Inward, Outward, Nearest,
      Rival;
    Thresholds(f);
    Constants(f);
    BelowBound(f);
    SignOf(y, INFINITY);
    SignOf(y, Const(GlobalParams(f).xmax));
    if mode.TP? || mode.TN? || mode.TZ? {
      RoundsBeyond(f, Mag(Abs(y)));
    }
  }

  /**
   * The general path is correct rounding: for every format, every deterministic mode and
   * every finite input, subnormal results and overflow included.
   */
  lemma GeneralPath(f: Format, mode: Mode, y: u32)
    requires ValidFormat(f) && IsFinite(y)
    ensures Rounded(f, mode, y, OtherExp(mode, y, GlobalParams(f)))
  {
    hide Pow2, Mag, XMax, XBnd, GlobalParams, OtherExp, Rounded;
    if Mag(Abs(y)) < Pow2(JMin(f)) {
      UnderflowRounds(f, mode, y);
    } else if !Between(f, mode, Mag(Abs(y))) {
      OverflowRounds(f, mode, y);
    } else if mode.NE? || mode.NA? || mode.NZ? {
      NearestMain(f, mode, y);
    } else {
      DirectedMain(f, mode, y);
    }
  }

  // --------------------------------------------------------------- the fast path

  /** Every pattern is a place of a format with the exponent range of binary32. */
  lemma PlaceSame(f: Format, m: nat)
    requires ValidFormat(f) && f.emax == 127 && m < INFINITY
    ensures Place(f, Kept(m, 24 - f.p), Last(m, 24 - f.p))
  {
    hide Pow2, Mag, Kept;
    if m < BINADE {
      PlaceSubnormal(f, m);
    } else {
      NormalRange(m);
      PartsOf(m);
      PowMono(23 + Exp(m), 277);
      PlaceNormal(f, m);
    }
  }

  /** A rounded pattern has the value that the format gives it, also when it is infinity. */
  lemma SameValue(f: Format, y: u32, up: bool)
    requires ValidFormat(f) && f.emax == 127 && IsFinite(y)
    ensures var n := Neighbour(Abs(y), 24 - f.p, up);
      n <= INFINITY && Value(Sign(y) + n) == Picked(f, Mag(n)) && Negative(Sign(y) + n) == Negative(y)
  {
    hide Pow2, Mag, XMax, Kept, Last;
    var k := 24 - f.p;
    var n := Neighbour(Abs(y), k, up);
    InfinityBounds(Abs(y), k, up);
    SignOf(y, n);
    if n == INFINITY {
      InfinityMag(f);
    } else {
      NeighbourRep(f, Abs(y), up);
      RepMax(f, Mag(n));
    }
  }

  /** Rounded patterns below infinity are numbers of the format. */
  lemma NeighbourRep(f: Format, m: nat, up: bool)
    requires ValidFormat(f) && f.emax == 127 && m < INFINITY && Neighbour(m, 24 - f.p, up) < INFINITY
    ensures Rep(f, Mag(Neighbour(m, 24 - f.p, up)))
  {
    hide Pow2, Mag, Kept, Last, Rep;
    var k := 24 - f.p;
    var n := Neighbour(m, k, up);
    PlaceSame(f, n);
    Decompose(n, k);
    MultipleLeft(m, Pow2(k), up);
    RepLow(f, Kept(n, k), Last(n, k));
  }

  lemma MultipleLeft(m: nat, q: nat, up: bool)
    requires q > 0
    ensures (m - m % q + if up then q else 0) % q == 0
  {
    DivMod(m, q);
    var a := m / q;
    Dist(q, a, 1);
    ModIs(m - m % q, q, a, 0);
    ModIs(m - m % q + q, q, a + 1, 0);
  }

  /** The fast path is correct rounding too. */
  lemma FastPath(f: Format, mode: Mode, y: u32)
    requires ValidFormat(f) && f.emax == 127 && IsFinite(y)
    ensures Rounded(f, mode, y, SameExp(mode, y, GlobalParams(f)))
  {
    hide Rounded, SameExp, GlobalParams;
    if mode.NE? || mode.NA? || mode.NZ? {
      SameNearest(f, mode, y);
    } else {
      SameDirected(f, mode, y);
    }
  }

  lemma SameDirected(f: Format, mode: Mode, y: u32)
    requires ValidFormat(f) && f.emax == 127 && IsFinite(y) && (mode.TP? || mode.TN? || mode.TZ?)
    ensures Rounded(f, mode, y, SameExp(mode, y, GlobalParams(f)))
  {
    hide Rounded, GlobalParams, Masked, And32;
    GlobalMasks(f);
    if Away(mode, y) {
      SameAway(f, mode, y);
    } else {
      SameCut(f, mode, y);
    }
  }

  /** The cases in which a directed mode rounds away from zero. */
  predicate Away(mode: Mode, y: u32) {
    (mode == TP && !Negative(y) && Abs(y) > 0) || (mode == TN && Negative(y) && Abs(y) > 0)
  }

  lemma SameAway(f: Format, mode: Mode, y: u32)
    requires ValidFormat(f) && f.emax == 127 && IsFinite(y) && Away(mode, y)
    ensures Rounded(f, mode, y, Masked(y, GlobalParams(f).trailmask, GlobalParams(f).leadmask))
  {
    hide Pow2, Mag, Kept, Last, Place, Neighbour, Correct, Picked, XMax, XBnd, Masked, PatternPicks, Value,
      GlobalParams;
    var p, k := GlobalParams(f), 24 - f.p;
    GlobalMasks(f);
    PlaceSame(f, Abs(y));
    HalfMask(k);
    AwayPicks(mode, Negative(y), Abs(y), k);
    var up := Abs(y) % Pow2(k) + (Pow2(k) - 1) >= Pow2(k);
    MainBranch(f, mode, y, k, Pow2(k) - 1, p.leadmask, Masked(y, Pow2(k) - 1, p.leadmask));
    SameValue(f, y, up);
  }

  lemma SameCut(f: Format, mode: Mode, y: u32)
    requires ValidFormat(f) && f.emax == 127 && IsFinite(y) && (mode.TP? || mode.TN? || mode.TZ?) && !Away(mode, y)
    ensures Rounded(f, mode, y, And32(y, GlobalParams(f).leadmask))
  {
    hide Pow2, Mag, Kept, Last, Place, Neighbour, Correct, Picked, XMax, XBnd, And32, PatternPicks, Value, GlobalParams;
    var p, k := GlobalParams(f), 24 - f.p;
    GlobalMasks(f);
    PlaceSame(f, Abs(y));
    CutPicks(mode, Negative(y), Abs(y), k);
    CutBranch(f, mode, y, k, p.leadmask);
    SameValue(f, y, false);
  }

  lemma CutPicks(mode: Mode, neg: bool, m: nat, k: nat)
    requires mode == TZ || (mode == TP && (neg || m == 0)) || (mode == TN && (!neg || m == 0))
    ensures PatternPicks(mode, neg, m, k, false)
  {
    ModIs(0, Pow2(k), 0, 0);
  }

  /** What the nearest modes compute on the fast path. */
  lemma SameNearestIs(f: Format, mode: Mode, y: u32)
    requires ValidFormat(f) && (mode.NE? || mode.NA? || mode.NZ?)
    ensures var p := GlobalParams(f);
      && p.precision == f.p
      && SameExp(mode, y, p) ==
         Masked(y, NearestConst(mode, 24 - f.p, if mode.NE? then BitAt(y, 24 - f.p) else 0) % U32, p.leadmask)
  {
    hide Pow2, Masked, GlobalParams, BitAt, SameExp, NearestConst;
    GlobalMasks(f);
    Thresholds(f);
    SameConst(mode, y, GlobalParams(f), 24 - f.p);
  }

  lemma SameConst(mode: Mode, y: u32, p: Params, k: nat)
    requires (mode.NE? || mode.NA? || mode.NZ?) && 1 <= k <= 23 && p.precision == 24 - k && p.trailmask == Pow2(k) - 1
    ensures SameExp(mode, y, p)
         == Masked(y, NearestConst(mode, k, if mode.NE? then BitAt(y, k) else 0) % U32, p.leadmask)
  {
    hide Pow2, Masked, BitAt;
    HalfMask(k);
  }

  lemma SameNearest(f: Format, mode: Mode, y: u32)
    requires ValidFormat(f) && f.emax == 127 && IsFinite(y) && (mode.NE? || mode.NA? || mode.NZ?)
    ensures Rounded(f, mode, y, SameExp(mode, y, GlobalParams(f)))
  {
    hide Pow2, Mag, Kept, Last, Place, Neighbour, Correct, Picked, XMax, XBnd, Masked, PatternPicks, Value, BitAt,
      GlobalParams, NearestConst, SameExp;
    var p, k := GlobalParams(f), 24 - f.p;
    GlobalMasks(f);
    PlaceSame(f, Abs(y));
    LastBit(y, k);
    var lsb := if mode.NE? then BitAt(y, k) else 0;
    SameNearestIs(f, mode, y);
    NearestPicks(mode, Negative(y), Abs(y), k, lsb);
    var c := NearestConst(mode, k, lsb);
    var up := Carries(Abs(y), k, c);
    MainBranch(f, mode, y, k, c, p.leadmask, Masked(y, c, p.leadmask));
    SameValue(f, y, up);
  }

  // ------------------------------------------------------------------ agreement

  /** Correct rounding leaves no choice. */
  lemma CorrectUnique(f: Format, mode: Mode, neg: bool, x: nat, r: Magnitude, s: Magnitude)
    requires ValidFormat(f) && Correct(f, mode, neg, x, r) && Correct(f, mode, neg, x, s)
    ensures r == s
  {
    hide Pow2, Rep, XMax, XBnd;
    if r != s && r.Finite? && s.Finite? && (mode.NE? || mode.NA? || mode.NZ?) {
      assert Rival(f, x, r.mag, s.mag) && Rival(f, x, s.mag, r.mag);
      if mode.NE? {
        var g := Gap(r.mag, s.mag);
        OneOdd(r.mag, s.mag, g);
      }
    }
  }

  lemma OneOdd(a: nat, b: nat, g: nat)
    requires g > 0 && (a == b + g || b == a + g)
    ensures a / g % 2 != b / g % 2
  {
    if a == b + g {
      AddMultiple(b, g, 1);
    } else {
      AddMultiple(a, g, 1);
    }
  }

  /** With the exponent range of binary32 the fast path and the general path give the same number. */
  lemma FastRefinesGeneral(f: Format, mode: Mode, y: u32)
    requires ValidFormat(f) && f.emax == 127 && IsFinite(y)
    ensures var a, b := SameExp(mode, y, GlobalParams(f)), OtherExp(mode, y, GlobalParams(f));
      Value(a) == Value(b) && (Negative(a) == Negative(b) || Value(a) == Finite(0))
  {
    hide Pow2, Mag, XMax, XBnd, GlobalParams, OtherExp, SameExp, Correct, Value;
    Thresholds(f);
    FastPath(f, mode, y);
    GeneralPath(f, mode, y);
    CorrectUnique(f, mode, Negative(y), Mag(Abs(y)), Value(SameExp(mode, y, GlobalParams(f))),
                  Value(OtherExp(mode, y, GlobalParams(f))));
  }
}
