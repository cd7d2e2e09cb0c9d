/**
 * The bit tricks of CPFloat round correctly: adding a constant below the kept bits and
 * masking them off moves a pattern to a neighbouring multiple of 2^k, which is a
 * neighbouring number of the target format.
 */
module RoundingProofs {
  import opened Bytes
  import opened Bits
  import opened Formats
  import opened CPFloat

  // ------------------------------------------------------------------- masks

  lemma {:induction false} XorSelf(a: nat)
    ensures Xor(a, a) == 0
  {
    if a == 0 {
    } else {
      XorSelf(a / 2);
    }
  }

  lemma {:induction false} XorFull(n: nat, k: nat)
    requires k <= n
    ensures Pow2(k) <= Pow2(n) && Xor(Pow2(n) - Pow2(k), Pow2(n) - 1) == Pow2(k) - 1
  {
    hide Xor;
    if k == 0 {
      XorSelf(Pow2(n) - 1);
    } else {
      XorFull(n - 1, k - 1);
      MixedXor(Pow2(n - 1) - Pow2(k - 1), Pow2(n - 1) - 1);
    }
  }

  lemma MixedXor(a: nat, b: nat)
    ensures Xor(2 * a, 2 * b + 1) == 2 * Xor(a, b) + 1
  {
    XorBits(2 * a, 2 * b + 1);
    hide Xor;
    assert 2 * a / 2 == a && (2 * b + 1) / 2 == b;
  }

  lemma XorZero(a: nat)
    ensures Xor(a, 0) == a
  {
  }

  /** Clearing the lower ones of a mask. */
  lemma {:induction false} XorOnes(n: nat, a: nat, b: nat)
    requires a <= b <= n
    ensures Pow2(a) <= Pow2(b) <= Pow2(n) && Xor(Pow2(n) - Pow2(a), Pow2(b) - Pow2(a)) == Pow2(n) - Pow2(b)
  {
    hide Xor;
    if a > 0 {
      XorOnes(n - 1, a - 1, b - 1);
      EvenXor(Pow2(n - 1) - Pow2(a - 1), Pow2(b - 1) - Pow2(a - 1));
    } else if b > 0 {
      XorOnes(n - 1, 0, b - 1);
      OddXor(Pow2(n - 1) - 1, Pow2(b - 1) - 1);
    } else {
      XorZero(Pow2(n) - 1);
    }
  }

  lemma EvenXor(a: nat, b: nat)
    ensures Xor(2 * a, 2 * b) == 2 * Xor(a, b)
  {
    XorBits(2 * a, 2 * b);
  }

  lemma OddXor(a: nat, b: nat)
    ensures Xor(2 * a + 1, 2 * b + 1) == 2 * Xor(a, b)
  {
    XorBits(2 * a + 1, 2 * b + 1);
    hide Xor;
    assert (2 * a + 1) / 2 == a && (2 * b + 1) / 2 == b;
  }

  /** The masks for k discarded bits. */
  predicate Masks(lead: u32, trail: u32, k: nat) {
    k <= 23 && lead == U32 - Pow2(k) && trail == Pow2(k) - 1
  }

  lemma TrailIs(k: nat)
    requires k <= 23
    ensures Pow2(k) <= BINADE && Xor32(U32 - Pow2(k), FULLMASK) == Pow2(k) - 1
  {
    Pow32();
    hide Pow2;
    XorFull(32, k);
    if k < 23 {
      PowLess(k, 23);
    }
  }

  lemma LeadIs(k: nat)
    requires k <= 23
    ensures Shl(FULLMASK, k) == U32 - Pow2(k)
  {
    TrailIs(k);
    var p := Pow2(k);
    hide Pow2;
    ShlProduct(p);
    ModIs(FULLMASK * p, U32, p - 1, U32 - p);
  }

  lemma ShlProduct(p: nat)
    ensures 0xFFFF_FFFF * p == 0x1_0000_0000 * (p - 1) + (0x1_0000_0000 - p)
  {
  }

  lemma GlobalMasks(f: Format)
    requires ValidFormat(f)
    ensures Masks(GlobalParams(f).leadmask, GlobalParams(f).trailmask, 24 - f.p)
  {
    hide Pow2;
    LeadIs(24 - f.p);
    TrailIs(24 - f.p);
  }

  /** The masks for nd digits, from those for p digits. */
  lemma LocalMask(p: nat, nd: nat)
    requires 1 <= nd <= p <= 23
    ensures Pow2(24 - p) <= U32
    ensures Xor32(U32 - Pow2(24 - p), (Pow2(p - nd) - 1) * Pow2(24 - p) % U32) == U32 - Pow2(24 - nd)
  {
    hide Pow2, Xor;
    Pow32();
    MaskShifted(p, nd);
    XorOnes(32, 24 - p, 24 - nd);
  }

  lemma MaskShifted(p: nat, nd: nat)
    requires 1 <= nd <= p <= 23
    ensures (Pow2(p - nd) - 1) * Pow2(24 - p) % U32 == Pow2(24 - nd) - Pow2(24 - p) >= 0
  {
    hide Pow2;
    TrailIs(24 - p);
    TrailIs(24 - nd);
    Pow2Add(p - nd, 24 - p);
    PowMono(24 - p, 24 - nd);
    OnesShifted(Pow2(p - nd), Pow2(24 - p), Pow2(24 - nd));
  }

  lemma OnesShifted(a: nat, b: nat, c: nat)
    requires a * b == c && b <= c < U32
    ensures (a - 1) * b == c - b && (c - b) % U32 == c - b
  {
    MinusOne(a, b);
  }

  lemma MinusOne(a: int, b: int)
    ensures (a - 1) * b == a * b - b
  {
  }

  // ----------------------------------------------------- rounding a pattern

  /** The pattern with k bits cleared, or the next one up. */
  function Neighbour(m: nat, k: nat, up: bool): nat {
    ModLess(m, Pow2(k));
    m - m % Pow2(k) + if up then Pow2(k) else 0
  }

  lemma CarryAdd(m: nat, q: nat, c: nat)
    requires c < q
    ensures (m + c) - (m + c) % q == m - m % q + if m % q + c >= q then q else 0
  {
    DivMod(m, q);
    ModPlus(q, m / q, m % q, c);
  }

  /** Adding c carries into the kept bits exactly when the discarded ones reach 2^k - c. */
  lemma AddMask(m: nat, k: nat, c: nat)
    requires c < Pow2(k)
    ensures (m + c) - (m + c) % Pow2(k) == Neighbour(m, k, m % Pow2(k) + c >= Pow2(k))
  {
    hide Pow2;
    CarryAdd(m, Pow2(k), c);
  }

  lemma AddMultiple(v: nat, q: nat, h: nat)
    requires q > 0
    ensures (q * h + v) % q == v % q && (q * h + v) / q == h + v / q
  {
    DivMod(v, q);
    Dist(q, h, v / q);
    ModIs(q * h + v, q, h + v / q, v % q);
  }

  /** The sign bit takes no part. */
  lemma SignApart(s: u32, v: nat, k: nat)
    requires k <= 23 && s in {0, SIGNMASK} && v < SIGNMASK
    ensures (s + v) % Pow2(k) == v % Pow2(k)
    ensures (s + v) / Pow2(k) % 2 == v / Pow2(k) % 2
  {
    hide Pow2;
    Pow32();
    Pow2Add(k, 31 - k);
    PowStep(30 - k);
    SignBitApart(s, v, Pow2(k), Pow2(30 - k), Pow2(31 - k));
  }

  lemma SignBitApart(s: u32, v: nat, q: nat, h: nat, h2: nat)
    requires s in {0, SIGNMASK} && q > 0 && h2 == 2 * h && q * h2 == SIGNMASK
    ensures (s + v) % q == v % q && (s + v) / q % 2 == v / q % 2
  {
    AddMultiple(v, q, h2);
    if s != 0 {
      assert (s + v) / q == h2 + v / q;
      EvenPlus(h, v / q);
    }
  }

  lemma EvenPlus(h: nat, w: nat)
    ensures (2 * h + w) % 2 == w % 2
  {
  }

  lemma MaskedIs(y: u32, c: u32, lead: u32, k: nat)
    requires k <= 23 && lead == U32 - Pow2(k) && c < Pow2(k) && IsFinite(y)
    ensures Masked(y, c, lead) == Sign(y) + Neighbour(Abs(y), k, Abs(y) % Pow2(k) + c >= Pow2(k))
    ensures And32(y, lead) == Sign(y) + Neighbour(Abs(y), k, false)
  {
    hide Pow2, And;
    Pow32();
    TrailIs(k);
    var s, m := Sign(y), Abs(y);
    AddMask(m, k, c);
    SmallModulus(y + c, U32);
    HighMask(32, k, y + c);
    HighMask(32, k, y);
    SignApart(s, m + c, k);
    SignApart(s, m, k);
  }

  // --------------------------------------------------- patterns and magnitudes

  function Exp(m: nat): nat {
    m / BINADE
  }

  /** The significand as an integer, with its hidden bit. */
  function Sig(m: nat): nat {
    if Exp(m) == 0 then m else BINADE + m % BINADE
  }

  /** The exponent of its last place. */
  function UlpExp(m: nat): nat {
    if Exp(m) == 0 then 0 else Exp(m) - 1
  }

  /** 2^k divides a step of the exponent field. */
  lemma BinadeSplit(k: nat)
    requires k <= 23
    ensures BINADE == Pow2(k) * Pow2(23 - k)
  {
    Pow32();
    Pow2Add(k, 23 - k);
  }

  lemma ModDivides(m: nat, q: nat, h: nat)
    requires q > 0 && q * h == BINADE
    ensures m % BINADE % q == m % q && m % BINADE >= m % q && Sig(m) % q == m % q
  {
    var e, f := m / BINADE, m % BINADE;
    DivMod(m, BINADE);
    ThreeWay(q, h, e);
    AddMultiple(f, q, h * e);
    AddMultiple(f, q, h);
    DivMod(f, q);
    assert q * (f / q) >= 0;
  }

  lemma ModTwice(m: nat, q: nat)
    requires q > 0
    ensures m % q < q
  {
  }

  lemma ThreeWay(q: nat, h: nat, e: nat)
    ensures q * h * e == q * (h * e)
  {
  }

  /** A pattern by its exponent field and fraction. */
  lemma Parts(m: nat, e: nat, f: nat)
    requires m == BINADE * e + f && f < BINADE
    ensures Exp(m) == e && m % BINADE == f && Sig(m) == (if e == 0 then f else BINADE + f)
    ensures UlpExp(m) == (if e == 0 then 0 else e - 1) && Mag(m) == Sig(m) * Pow2(UlpExp(m))
  {
    ModIs(m, BINADE, e, f);
  }

  lemma PartsOf(m: nat)
    ensures m == BINADE * Exp(m) + m % BINADE && m % BINADE < BINADE
  {
  }

  /** Rounding down stays in the binade. */
  lemma MagDown(m: nat, k: nat)
    requires k <= 23
    ensures Mag(Neighbour(m, k, false)) == (Sig(m) - Sig(m) % Pow2(k)) * Pow2(UlpExp(m))
    ensures Sig(m) % Pow2(k) == m % Pow2(k)
  {
    hide Pow2, Mag, Sig, UlpExp, Exp;
    BinadeSplit(k);
    ModDivides(m, Pow2(k), Pow2(23 - k));
    PartsOf(m);
    var e, f, r := Exp(m), m % BINADE, m % Pow2(k);
    Parts(m, e, f);
    Parts(m - r, e, f - r);
  }

  /** Rounding up stays in the binade or reaches the start of the next one. */
  lemma MagUp(m: nat, k: nat)
    requires k <= 23
    ensures Mag(Neighbour(m, k, true)) == (Sig(m) - Sig(m) % Pow2(k) + Pow2(k)) * Pow2(UlpExp(m))
  {
    hide Pow2, Mag, Sig, UlpExp, Exp;
    BinadeSplit(k);
    ModDivides(m, Pow2(k), Pow2(23 - k));
    ModTwice(m, Pow2(k));
    PartsOf(m);
    var f, r, q := m % BINADE, m % Pow2(k), Pow2(k);
    UpFits(f, q, Pow2(23 - k), r);
    PartsUp(m, Exp(m), f, r, q);
  }

  lemma PartsUp(m: nat, e: nat, f: nat, r: nat, q: nat)
    requires m == BINADE * e + f && f < BINADE && r <= f && r < q && f - r + q <= BINADE
    ensures m >= r && Sig(m) >= r && Mag(m - r + q) == (Sig(m) - r + q) * Pow2(UlpExp(m))
  {
    hide Pow2, Mag, Sig, UlpExp, Exp;
    Parts(m, e, f);
    if f - r + q < BINADE {
      Parts(m - r + q, e, f - r + q);
    } else {
      Parts(m - r + q, e + 1, 0);
      NextBinade(e);
      if e > 0 {
        Twice(BINADE, Pow2(e - 1));
      }
    }
  }

  lemma Twice(a: nat, b: nat)
    ensures (a + a) * b == a * (2 * b)
  {
  }

  lemma NextBinade(e: nat)
    ensures Pow2(e) == if e == 0 then 1 else 2 * Pow2(e - 1)
  {
  }

  lemma UpFits(f: nat, q: nat, h: nat, r: nat)
    requires q > 0 && q * h == BINADE && f < BINADE && r == f % q
    ensures f - r + q <= BINADE
  {
    DivMod(f, q);
    var a := f / q;
    if a >= h {
      MulLe(q, h, a);
    }
    Dist(q, a, 1);
    MulLe(q, a + 1, h);
  }

  lemma MulLe(q: nat, a: nat, b: nat)
    requires a <= b
    ensures q * a <= q * b
  {
  }

  // ---------------------------------------------------- patterns as places

  /** The significand in units of the last kept bit, and the exponent of that unit. */
  function Kept(m: nat, k: nat): nat {
    Quotient(Sig(m), Pow2(k))
  }

  function Quotient(a: nat, b: nat): nat
    requires b > 0
  {
    a / b
  }

  function Last(m: nat, k: nat): nat {
    k + UlpExp(m)
  }

  /** Which neighbouring pattern the mode asks for. */
  predicate PatternPicks(mode: Mode, neg: bool, m: nat, k: nat, up: bool) {
    var r, q := m % Pow2(k), Pow2(k);
    match mode
    case NE => up <==> 2 * r > q || (2 * r == q && Kept(m, k) % 2 == 1)
    case NA => up <==> 2 * r >= q
    case NZ => up <==> 2 * r > q
    case TZ => !up
    case TP => up <==> !neg && r > 0
    case TN => up <==> neg && r > 0
  }

  /** A magnitude as kept units and a remainder. */
  lemma Decompose(m: nat, k: nat)
    requires k <= 23
    ensures var n, u := Kept(m, k), Pow2(UlpExp(m));
      && Pow2(Last(m, k)) == Pow2(k) * u && u >= 1 && m % Pow2(k) < Pow2(k)
      && Mag(m) == n * Pow2(Last(m, k)) + m % Pow2(k) * u
      && Mag(Neighbour(m, k, false)) == n * Pow2(Last(m, k))
      && Mag(Neighbour(m, k, true)) == (n + 1) * Pow2(Last(m, k))
  {
    hide Pow2, Mag, Sig, UlpExp, Exp, Neighbour;
    MagDown(m, k);
    MagUp(m, k);
    PartsOf(m);
    Parts(m, Exp(m), m % BINADE);
    Pow2Add(k, UlpExp(m));
    ModTwice(m, Pow2(k));
    Spread(Sig(m), Pow2(k), Pow2(UlpExp(m)));
  }

  lemma Spread(s: nat, q: nat, u: nat)
    requires q > 0
    ensures s * u == s / q * (q * u) + s % q * u
    ensures (s - s % q) * u == s / q * (q * u)
    ensures (s - s % q + q) * u == (s / q + 1) * (q * u)
  {
    var n, r := s / q, s % q;
    DivMod(s, q);
    Dist(u, q * n, r);
    MulAssoc(n, q, u);
    Dist(u, q * n, q);
    Dist(q * u, n, 1);
    Commute(n, q);
  }

  lemma Commute(a: nat, b: nat)
    ensures a * b == b * a
  {
  }

  lemma Scale(r: nat, q: nat, u: nat)
    requires u >= 1
    ensures 2 * (r * u) > q * u <==> 2 * r > q
    ensures 2 * (r * u) == q * u <==> 2 * r == q
    ensures r * u > 0 <==> r > 0
    ensures r < q ==> r * u < q * u
  {
    MulAssoc(2, r, u);
    if 2 * r > q {
      MulStrict(q, 2 * r, u);
    } else if 2 * r < q {
      MulStrict(2 * r, q, u);
    }
    if r < q {
      MulStrict(r, q, u);
    }
    if r > 0 {
      MulStrict(0, r, u);
    }
  }

  lemma MulStrict(a: nat, b: nat, u: nat)
    requires a < b && u >= 1
    ensures a * u < b * u
  {
    MulMono(a + 1, b, u);
    MulOne(a, u);
  }

  lemma MulOne(a: nat, u: nat)
    ensures (a + 1) * u == a * u + u
  {
  }

  /**
   * The neighbour that the mode asks for is the correctly rounded number, whenever the kept bits are those of the
   * format.
   */
  lemma PatternRounds(f: Format, mode: Mode, neg: bool, m: nat, k: nat, up: bool)
    requires ValidFormat(f) && k <= 23 && Place(f, Kept(m, k), Last(m, k)) && PatternPicks(mode, neg, m, k, up)
    ensures Correct(f, mode, neg, Mag(m), Picked(f, Mag(Neighbour(m, k, up))))
  {
    hide Pow2, Mag, Neighbour, Kept, Last, UlpExp, Place, Picked, Correct;
    Decompose(m, k);
    var n, q, u, r := Kept(m, k), Pow2(k), Pow2(UlpExp(m)), m % Pow2(k);
    Scale(r, q, u);
    Dist(Pow2(Last(m, k)), n, 1);
    Commute(n, Pow2(Last(m, k)));
    RoundsAt(f, mode, neg, n, Last(m, k), Mag(m), up);
  }

  // ------------------------------------------------------------- thresholds

  /** The thresholds of the parameters are those of the format. */
  lemma Thresholds(f: Format)
    requires ValidFormat(f)
    ensures var p := GlobalParams(f);
      && p.ftzthreshold == Pow2(JMin(f)) && p.xmin == Pow2(150 - f.emax)
      && p.xmax == XMax(f) && p.xbnd == XBnd(f) && XBnd(f) < Pow2(150 + f.emax)
      && p.precision == f.p && p.emin == 1 - f.emax && p.emax == f.emax && p.ftzthreshold <= p.xmax
  {
    hide Pow2, Shl, Xor32;
    Pow2Add(f.p, JMax(f));
    PowStep(149 + f.emax);
    PowStep(JMax(f) - 1);
    MinusOne(Pow2(f.p), Pow2(JMax(f)));
    PowLess(JMax(f), 150 + f.emax);
    PowMono(JMin(f), JMax(f));
    Commute(Pow2(149 + f.emax), 2);
    TopLarge(f);
  }

  lemma PowZero()
    ensures Pow2(0) == 1
  {
  }

  lemma TopLarge(f: Format)
    requires ValidFormat(f)
    ensures Pow2(JMax(f)) <= XMax(f)
  {
    hide Pow2, JMax;
    PowMono(1, f.p);
    PowStep(0);
    PowZero();
    MulMono(1, Pow2(f.p) - 1, Pow2(JMax(f)));
  }

  lemma MagStep(b: nat)
    requires b >= BINADE
    ensures Mag(BINADE + b) == 2 * Mag(b)
  {
    hide Mag, Pow2;
    PartsOf(b);
    Parts(b, Exp(b), b % BINADE);
    assert Exp(b) >= 1;
    Parts(BINADE + b, Exp(b) + 1, b % BINADE);
    PowStep(Exp(b) - 1);
    MulAssoc(Sig(b), 2, Pow2(Exp(b) - 1));
    MulAssoc(2, Sig(b), Pow2(Exp(b) - 1));
  }

  lemma SmallMag(b: nat)
    requires b < 2 * BINADE
    ensures Mag(b) == b
  {
    assert Pow2(0) == 1;
  }

  /** A number with a 24-bit significand has a pattern. */
  lemma {:induction false} ToBitsIs(n: nat, j: nat, t: nat)
    requires n < 2 * BINADE && n * Pow2(j) < 2 * BINADE * Pow2(t)
    ensures Mag(ToBits(n * Pow2(j))) == n * Pow2(j) && ToBits(n * Pow2(j)) < BINADE * (t + 2)
    ensures n * Pow2(j) >= BINADE ==> ToBits(n * Pow2(j)) >= BINADE
    decreases j
  {
    hide Mag;
    var v := n * Pow2(j);
    assert Pow2(0) == 1;
    if v < 2 * BINADE {
      SmallMag(v);
    } else {
      assert j > 0 && t > 0;
      var h := n * Pow2(j - 1);
      DoubleUp(n, j);
      assert 2 * BINADE * Pow2(t) == 2 * (2 * BINADE * Pow2(t - 1));
      hide Pow2;
      ToBitsIs(n, j - 1, t - 1);
      MagStep(ToBits(h));
    }
  }

  lemma DoubleUp(n: nat, j: nat)
    requires j > 0
    ensures n * Pow2(j) == 2 * (n * Pow2(j - 1)) && n * Pow2(j) / 2 == n * Pow2(j - 1)
  {
  }

  /** The constants that the macros return. */
  lemma ConstIs(n: nat, j: nat)
    requires n < 2 * BINADE && n * Pow2(j) < Pow2(277)
    ensures Const(n * Pow2(j)) < INFINITY && Mag(Const(n * Pow2(j))) == n * Pow2(j)
  {
    hide Mag, Pow2, ToBits;
    Pow32();
    PowStep(23);
    Pow2Add(24, 253);
    ToBitsIs(n, j, 253);
    SmallModulus(ToBits(n * Pow2(j)), SIGNMASK);
  }

  // ------------------------------------------- the kept bits are those of the format

  lemma QuotientBounds(s: nat, q: nat, h: nat)
    requires q > 0
    ensures s < q * h ==> Quotient(s, q) < h
    ensures q * h <= s ==> h <= Quotient(s, q)
  {
    var a := s / q;
    DivMod(s, q);
    if a >= h {
      MulLe(q, h, a);
    } else {
      MulLe(q, a + 1, h);
      Dist(q, a, 1);
    }
  }

  /** Where a normal pattern lies between powers of two. */
  lemma NormalRange(m: nat)
    requires m >= BINADE
    ensures Exp(m) >= 1 && BINADE <= Sig(m) < 2 * BINADE && UlpExp(m) == Exp(m) - 1
    ensures Pow2(22 + Exp(m)) <= Mag(m) < Pow2(23 + Exp(m))
  {
    hide Pow2, Mag;
    PartsOf(m);
    var e := Exp(m);
    Parts(m, e, m % BINADE);
    Pow32();
    Pow2Add(23, e - 1);
    PowStep(22 + e);
    MulMono(BINADE, Sig(m), Pow2(e - 1));
    MulStrict(Sig(m), 2 * BINADE, Pow2(e - 1));
    MulAssoc(2, BINADE, Pow2(e - 1));
  }

  /** Keeping nd digits of a normal number. */
  lemma KeptNormal(m: nat, nd: nat)
    requires m >= BINADE && 1 <= nd <= 23
    ensures Pow2(nd - 1) <= Kept(m, 24 - nd) < Pow2(nd)
  {
    hide Pow2, Mag, Quotient;
    NormalRange(m);
    Pow32();
    PowStep(23);
    Pow2Add(24 - nd, nd - 1);
    Pow2Add(24 - nd, nd);
    QuotientBounds(Sig(m), Pow2(24 - nd), Pow2(nd - 1));
    QuotientBounds(Sig(m), Pow2(24 - nd), Pow2(nd));
  }

  /** All p digits: the normal numbers of the target format. */
  lemma PlaceNormal(f: Format, m: nat)
    requires ValidFormat(f) && m >= BINADE && Mag(m) < Pow2(150 + f.emax)
    requires f.emax < 127 ==> Pow2(150 - f.emax) <= Mag(m)
    ensures Place(f, Kept(m, 24 - f.p), Last(m, 24 - f.p))
  {
    hide Pow2, Mag, Kept;
    NormalRange(m);
    KeptNormal(m, f.p);
    PowOrder(22 + Exp(m), 150 + f.emax);
    if f.emax < 127 {
      PowOrder(150 - f.emax, 23 + Exp(m));
    }
  }

  /** Storage subnormals, when the exponent ranges agree. */
  lemma PlaceSubnormal(f: Format, m: nat)
    requires ValidFormat(f) && f.emax == 127 && m < BINADE
    ensures Place(f, Kept(m, 24 - f.p), Last(m, 24 - f.p))
  {
    hide Pow2, Quotient;
    BinadeSplit(24 - f.p);
    QuotientBounds(m, Pow2(24 - f.p), Pow2(f.p - 1));
    PowMono(f.p - 1, f.p);
  }

  /** The number of digits that update_local_params leaves. */
  function Digits(f: Format, m: nat): int {
    f.p + f.emax + Exp(m) - 128
  }

  /** Fewer digits: the subnormal numbers of the target format. */
  lemma PlaceLocal(f: Format, m: nat)
    requires ValidFormat(f) && f.emax < 127 && Pow2(JMin(f)) <= Mag(m) < Pow2(150 - f.emax)
    ensures m >= BINADE && 1 <= Digits(f, m) < f.p
    ensures Place(f, Kept(m, 24 - Digits(f, m)), Last(m, 24 - Digits(f, m)))
  {
    hide Pow2, Mag, Kept;
    Pow32();
    PowMono(23, JMin(f));
    if m < BINADE {
      SmallMag(m);
    }
    NormalRange(m);
    PowOrder(22 + Exp(m), 150 - f.emax);
    PowOrder(JMin(f), 23 + Exp(m));
    KeptNormal(m, Digits(f, m));
    PowMono(Digits(f, m), f.p);
  }

  /** update_local_params in the subnormal range of the target. */
  lemma LocalFew(f: Format, y: u32)
    requires ValidFormat(f) && f.emax < 127 && Pow2(JMin(f)) <= Mag(Abs(y)) < Pow2(150 - f.emax)
    ensures var d, lp := Digits(f, Abs(y)), LocalParams(y, GlobalParams(f));
      1 <= d < f.p && lp.precision == d && Masks(lp.leadmask, lp.trailmask, 24 - d)
  {
    hide Pow2, Mag, Kept, Last, Place, Xor32, Shl;
    Thresholds(f);
    GlobalMasks(f);
    PlaceLocal(f, Abs(y));
    LocalMask(f.p, Digits(f, Abs(y)));
    TrailIs(24 - Digits(f, Abs(y)));
  }

  /** What update_local_params returns. */
  lemma LocalIs(f: Format, y: u32)
    requires ValidFormat(f) && IsFinite(y) && Pow2(JMin(f)) <= Mag(Abs(y)) < Pow2(150 + f.emax)
    ensures var lp := LocalParams(y, GlobalParams(f));
      && 1 <= lp.precision <= f.p && Masks(lp.leadmask, lp.trailmask, 24 - lp.precision)
      && Place(f, Kept(Abs(y), 24 - lp.precision), Last(Abs(y), 24 - lp.precision))
      && (f.emax == 127 || Abs(y) >= BINADE) && (f.emax == 127 ==> lp.precision == f.p)
  {
    hide Pow2, Mag, Kept, Last, Place, Xor32, Shl, GlobalParams;
    var m := Abs(y);
    Thresholds(f);
    GlobalMasks(f);
    if f.emax < 127 && Mag(m) < Pow2(150 - f.emax) {
      LocalFew(f, y);
      PlaceLocal(f, m);
    } else if m >= BINADE {
      PlaceNormal(f, m);
    } else {
      if f.emax < 127 {
        SmallMag(m);
        Pow32();
        PowMono(23, JMin(f));
      }
      PlaceSubnormal(f, m);
    }
  }
}
