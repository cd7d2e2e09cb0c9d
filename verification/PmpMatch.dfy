/**
 * PMP address matching (csrs.cc): the mask arithmetic of match4 and subset_match is
 * interval arithmetic on naturally aligned blocks and ranges.
 */
module PmpMatch {
  import opened Bytes
  import opened Bits
  import opened Pmp

  function Not64(x: u64): u64 {
    U64 - 1 - x
  }

  /** pmp_tor_mask(): minus the granularity in units of four bytes. */
  function TorMask(c: Config): u64
    requires ValidConfig(c)
  {
    Fits64(c.lgGran - 2);
    U64 - Pow2(c.lgGran - 2)
  }

  lemma Fits64(k: nat)
    requires k <= 64
    ensures Pow2(k) <= U64 && Pow2(64) == U64
  {
    Powers();
    hide Pow2;
    PowMono(k, 64);
  }

  function And64(a: u64, b: u64): u64 {
    AndBelow(a, b);
    And(a, b)
  }

  lemma {:induction false} AndBelow(a: nat, b: nat)
    ensures And(a, b) <= a
  {
    if a == 0 || b == 0 {
    } else {
      AndBelow(a / 2, b / 2);
    }
  }

  function Or64(a: u64, b: u64): u64 {
    Word64(a, b);
    Or(a, b)
  }

  function Xor64(a: u64, b: u64): u64 {
    Word64(a, b);
    Xor(a, b)
  }

  lemma Word64(a: u64, b: u64)
    ensures Or(a, b) < U64 && Xor(a, b) < U64
  {
    Fits64(64);
    InBits(a, b, 64);
  }

  /** tor_paddr */
  function TorPaddr(c: Config, val: u64): u64
    requires ValidConfig(c)
  {
    And64(val, TorMask(c)) * 4 % U64
  }

  /** tor_base_paddr */
  function TorBase(c: Config, s: Regs, i: nat): u64
    requires ValidConfig(c) && ValidRegs(s) && i < MAX_PMP
  {
    if i == 0 then 0 else TorPaddr(c, s.addr[i - 1])
  }

  /** napot_mask */
  function NapotMask(c: Config, val: u64, cfg: bv8): u64
    requires ValidConfig(c)
  {
    var na4 := cfg & PMP_A == PMP_NA4;
    var mask := Or64(Or64(val * 2 % U64, if na4 then 0 else 1), Not64(TorMask(c)));
    Not64(And64(mask, Not64((mask + 1) % U64))) * 4 % U64
  }

  /** match4 */
  predicate Match4(c: Config, s: Regs, i: nat, addr: u64)
    requires ValidConfig(c) && ValidRegs(s) && i < MAX_PMP
  {
    if s.cfg[i] & PMP_A == 0 then false
    else if IsTor(s.cfg[i]) then TorBase(c, s, i) <= addr < TorPaddr(c, s.addr[i])
    else And64(Xor64(addr, TorPaddr(c, s.addr[i])), NapotMask(c, s.addr[i], s.cfg[i])) == 0
  }

  /** subset_match on the page [addr, addr + len), for a power of two len. */
  predicate SubsetMatch(c: Config, s: Regs, i: nat, addr: u64, len: u64)
    requires ValidConfig(c) && ValidRegs(s) && i < MAX_PMP && len > 0
  {
    var base, tor := TorBase(c, s, i), TorPaddr(c, s.addr[i]);
    var negLen := U64 - len;
    if s.cfg[i] & PMP_A == 0 then false
    else if IsTor(s.cfg[i]) then
      var endsBeforeLower := And64(addr, negLen) < And64(base, negLen);
      var endsBeforeUpper := And64(addr, negLen) < And64(tor, negLen);
      !(endsBeforeLower || addr >= tor || (addr >= base && endsBeforeUpper))
    else
      var maskHomogeneous := And64(Not64(NapotMask(c, s.addr[i], s.cfg[i]) * 2 % U64), len) != 0;
      !(maskHomogeneous || Xor64(addr, tor) / len != 0)
  }

  // --------------------------------------------------------------- bit lemmas

  /** Trailing ones of a number. */
  function Ones(m: nat): nat {
    if m % 2 == 0 then 0 else 1 + Ones(m / 2)
  }

  lemma {:induction false} AndNot(m: nat, k: nat)
    requires m < Pow2(k)
    ensures And(m, Pow2(k) - 1 - m) == 0
  {
    if k == 0 {
    } else {
      AndNot(m / 2, k - 1);
      AndBits(m, Pow2(k) - 1 - m);
      assert (Pow2(k) - 1 - m) / 2 == Pow2(k - 1) - 1 - m / 2;
      assert (Pow2(k) - 1 - m) % 2 == 1 - m % 2;
    }
  }

  /** The classic mask: m & ~(m + 1) keeps the trailing ones. */
  lemma {:induction false} TrailingOnes(m: nat, k: nat)
    requires m + 1 < Pow2(k)
    ensures And(m, Pow2(k) - 1 - (m + 1)) == Pow2(Ones(m)) - 1
    ensures Ones(m) < k
  {
    var n, p := Pow2(k) - 1 - (m + 1), Pow2(k - 1);
    assert Pow2(k) == 2 * p;
    if m % 2 == 0 {
      AndNot(m / 2, k - 1);
      AndBits(m, n);
      assert n / 2 == p - 1 - m / 2;
    } else {
      TrailingOnes(m / 2, k - 1);
      AndBits(m, n);
      assert n / 2 == p - 1 - (m / 2 + 1) && n % 2 == 1;
    }
  }

  /** Equal above bit k means in the same aligned block of 2^k. */
  lemma {:induction false} SameBlock(a: nat, b: nat, k: nat)
    ensures Xor(a, b) / Pow2(k) == 0 <==> a / Pow2(k) == b / Pow2(k)
  {
    if k == 0 {
      XorZero(a, b);
    } else {
      SameBlock(a / 2, b / 2, k - 1);
      XorBits(a, b);
      HalfDiv(Xor(a, b), Pow2(k - 1));
      HalfDiv(a, Pow2(k - 1));
      HalfDiv(b, Pow2(k - 1));
    }
  }

  lemma {:induction false} XorZero(a: nat, b: nat)
    ensures Xor(a, b) == 0 <==> a == b
  {
    if a == 0 || b == 0 {
    } else {
      XorZero(a / 2, b / 2);
    }
  }

  lemma HalfDiv(a: nat, p: nat)
    requires p > 0
    ensures a / (2 * p) == a / 2 / p
  {
    var q, r := a / 2 / p, a / 2 % p;
    DivMod(a / 2, p);
    DoubleMul(p, q);
    ModIs(a, 2 * p, q, 2 * r + a % 2);
  }

  lemma DoubleMul(p: nat, q: nat)
    ensures 2 * (p * q) == (2 * p) * q
  {
  }

  // ------------------------------------------------------------------ regions

  /** The address bits of a NAPOT entry, with those below the granularity reading as ones. */
  function Effective(c: Config, val: u64): nat
    requires ValidConfig(c)
  {
    if c.lgGran == 2 then val else Or(val, Pow2(c.lgGran - 3) - 1)
  }

  /** The binary logarithm of the size of a naturally aligned region. */
  function LgSize(c: Config, val: u64, cfg: bv8): (l: nat)
    requires ValidConfig(c)
    ensures l >= 2
  {
    if cfg & PMP_A == PMP_NA4 then 2 else 3 + Ones(Effective(c, val))
  }

  /** The end of a top-of-range region: the address register in units of the granularity. */
  function Top(c: Config, val: u64): nat
    requires ValidConfig(c)
  {
    Scaled(val, Pow2(c.lgGran - 2), Pow2(c.lgGran))
  }

  /** The addresses that an entry covers. */
  predicate InRegion(c: Config, s: Regs, i: nat, addr: nat)
    requires ValidConfig(c) && ValidRegs(s) && i < MAX_PMP
  {
    if s.cfg[i] & PMP_A == 0 then false
    else if IsTor(s.cfg[i]) then (if i == 0 then 0 else Top(c, s.addr[i - 1])) <= addr < Top(c, s.addr[i])
    else
      var l := LgSize(c, s.addr[i], s.cfg[i]);
      addr / Pow2(l) == s.addr[i] / Pow2(l - 2)
  }

  lemma ClearLow(a: nat, i: nat)
    ensures a - a % Pow2(i) == a / Pow2(i) * Pow2(i)
  {
    DivMod(a, Pow2(i));
  }

  lemma TorMaskAnd(c: Config, val: u64)
    requires ValidConfig(c)
    ensures And64(val, TorMask(c)) == val - val % Pow2(c.lgGran - 2)
  {
    hide And, Pow2;
    Fits64(c.lgGran - 2);
    HighMask(64, c.lgGran - 2, val);
  }

  lemma TorPaddrIs(c: Config, val: u64)
    requires ValidConfig(c) && val < Pow2(54)
    ensures TorPaddr(c, val) == Top(c, val) == (val - val % Pow2(c.lgGran - 2)) * 4
    ensures val % Pow2(c.lgGran - 2) <= val
  {
    hide And, Pow2, And64;
    TorMaskAnd(c, val);
    ClearLow(val, c.lgGran - 2);
    GranQuads(c);
    Quads(val / Pow2(c.lgGran - 2), Pow2(c.lgGran - 2), Pow2(c.lgGran));
    SmallVal(val);
    ModLess(val, Pow2(c.lgGran - 2));
  }

  lemma GranQuads(c: Config)
    requires ValidConfig(c)
    ensures Pow2(c.lgGran) == 4 * Pow2(c.lgGran - 2)
  {
    hide Pow2;
    PowStep(c.lgGran - 2);
    PowStep(c.lgGran - 1);
  }

  lemma Quads(a: nat, p: nat, q: nat)
    requires q == 4 * p
    ensures a * p * 4 == a * q
  {
  }

  lemma SmallVal(val: u64)
    requires val < Pow2(54)
    ensures val * 4 < U64 / 16 && (val * 2 + 1) < U64 / 16
  {
    Powers();
    hide Pow2;
    PowStep(54);
    PowStep(55);
    PowStep(56);
    PowStep(57);
    PowStep(58);
    PowStep(59);
    PowMono(60, 64);
    PowStep(60);
    PowStep(61);
    PowStep(62);
  }

  lemma {:induction false} OnesBound(m: nat, k: nat)
    requires m < Pow2(k) - 1
    ensures Ones(m) < k
  {
    if m % 2 == 1 {
      OnesBound(m / 2, k - 1);
    }
  }

  lemma OrOdd(a: nat, b: nat)
    ensures Or(2 * a + 1, 2 * b + 1) == 2 * Or(a, b) + 1 && Or(2 * a, 1) == 2 * a + 1 && Or(a, 0) == a
  {
    OrBits(2 * a + 1, 2 * b + 1);
    OrBits(2 * a, 1);
    assert (2 * a + 1) / 2 == a && (2 * b + 1) / 2 == b && Or(a, 0) == a;
  }

  /** The number whose trailing ones napot_mask looks at. */
  lemma NapotInput(c: Config, val: u64)
    requires ValidConfig(c)
    ensures Or(Or(val * 2, 1), Pow2(c.lgGran - 2) - 1) == 2 * Effective(c, val) + 1
  {
    hide Or;
    OrOdd(val, 0);
    assert Pow2(0) == 1;
    if c.lgGran == 2 {
      OrOdd(2 * val + 1, 0);
    } else {
      PowStep(c.lgGran - 3);
      hide Pow2;
      OrOdd(val, Pow2(c.lgGran - 3) - 1);
    }
  }

  lemma EffectiveRange(c: Config, val: u64)
    requires ValidConfig(c) && val < Pow2(54)
    ensures 2 * Effective(c, val) + 2 < U64 / 4
  {
    hide Pow2, Or;
    SmallVal(val);
    Pow60();
    PowMono(54, 60);
    if c.lgGran > 2 {
      PowMono(c.lgGran - 3, 60);
      InBits(val, Pow2(c.lgGran - 3) - 1, 60);
    }
  }

  lemma Pow60()
    ensures 16 * Pow2(60) == U64
  {
    Powers();
    hide Pow2;
    PowStep(60);
    PowStep(61);
    PowStep(62);
    PowStep(63);
  }

  /** napot_mask clears exactly the address bits inside the region. */
  lemma NapotMaskIs(c: Config, val: u64, cfg: bv8)
    requires ValidConfig(c) && val < Pow2(54)
    requires cfg & PMP_A == PMP_NAPOT || (cfg & PMP_A == PMP_NA4 && c.lgGran == 2)
    ensures LgSize(c, val, cfg) <= 63 && Pow2(LgSize(c, val, cfg)) <= U64
    ensures NapotMask(c, val, cfg) == U64 - Pow2(LgSize(c, val, cfg))
  {
    hide And, Or, Pow2;
    SmallVal(val);
    var mask := MaskInput(c, val, cfg);
    MaskInputIs(c, val, cfg);
    Fits64(64);
    TrailingOnes(mask, 64);
    MaskBound(mask);
    Shifted(Ones(mask));
  }

  function MaskInput(c: Config, val: u64, cfg: bv8): nat
    requires ValidConfig(c)
  {
    if cfg & PMP_A == PMP_NA4 then val * 2 else 2 * Effective(c, val) + 1
  }

  lemma MaskInputIs(c: Config, val: u64, cfg: bv8)
    requires ValidConfig(c) && val < Pow2(54)
    requires cfg & PMP_A == PMP_NAPOT || (cfg & PMP_A == PMP_NA4 && c.lgGran == 2)
    ensures var mask := MaskInput(c, val, cfg);
      && mask + 1 < U64 / 4 && 2 + Ones(mask) == LgSize(c, val, cfg)
      && NapotMask(c, val, cfg) == Not64(And64(mask, Not64(mask + 1))) * 4 % U64
  {
    hide And, Or, Pow2, And64, Effective, Ones, Not64, TorMask;
    SmallVal(val);
    NapotInput(c, val);
    EffectiveRange(c, val);
    OrOdd(val, 0);
    OrOdd(val * 2, 0);
    GranMask(c);
    OnesStep(val);
    OnesStep(Effective(c, val));
    SmallModulus(val * 2, U64);
    SmallModulus(MaskInput(c, val, cfg) + 1, U64);
  }

  lemma GranMask(c: Config)
    requires ValidConfig(c)
    ensures Not64(TorMask(c)) == Pow2(c.lgGran - 2) - 1 && (c.lgGran == 2 ==> Not64(TorMask(c)) == 0)
  {
    assert Pow2(0) == 1;
  }

  lemma OnesStep(x: nat)
    ensures Ones(2 * x + 1) == 1 + Ones(x) && Ones(2 * x) == 0 && Ones(x * 2) == 0
  {
  }

  lemma MaskBound(mask: nat)
    requires mask + 1 < U64 / 4
    ensures Ones(mask) <= 61
  {
    Powers();
    PowStep(63);
    PowStep(62);
    OnesBound(mask, 62);
  }

  lemma Shifted(t: nat)
    requires t <= 61
    ensures 4 * Pow2(t) == Pow2(t + 2) <= U64
    ensures (U64 - 1 - (Pow2(t) - 1)) * 4 % U64 == U64 - Pow2(t + 2)
  {
    Powers();
    hide Pow2;
    PowStep(t);
    PowStep(t + 1);
    PowMono(t + 2, 63);
  }

  // ------------------------------------------------------------ main theorems

  /** Entry i is not NA4 below the granularity, which no run of writes from reset can make it. */
  predicate Proper(c: Config, s: Regs, i: nat)
    requires ValidConfig(c) && ValidRegs(s) && i < MAX_PMP
  {
    c.lgGran == 2 || s.cfg[i] & PMP_A != PMP_NA4
  }

  lemma MatchModes(cfg: bv8)
    ensures cfg & PMP_A == 0 || IsTor(cfg) || cfg & PMP_A == PMP_NA4 || cfg & PMP_A == PMP_NAPOT
  {
  }

  lemma {:induction false} OrOnes(a: nat, k: nat)
    ensures Ones(Or(a, Pow2(k) - 1)) >= k
  {
    if k == 0 {
    } else {
      OrOnes(a / 2, k - 1);
      OrBits(a, Pow2(k) - 1);
      assert (Pow2(k) - 1) % 2 == 1 && (Pow2(k) - 1) / 2 == Pow2(k - 1) - 1;
    }
  }

  /** A region is never smaller than the granularity. */
  lemma SizeAtLeast(c: Config, val: u64, cfg: bv8)
    requires ValidConfig(c) && (c.lgGran == 2 || cfg & PMP_A != PMP_NA4)
    ensures c.lgGran <= LgSize(c, val, cfg)
  {
    hide Or, Pow2;
    if c.lgGran > 2 {
      OrOnes(val, c.lgGran - 3);
    }
  }

  lemma DropLow(a: nat, i: nat, j: nat)
    requires i <= j
    ensures a % Pow2(i) <= a && (a - a % Pow2(i)) / Pow2(j) == a / Pow2(j)
  {
    hide Pow2;
    Pow2Add(i, j - i);
    DropRemainder(a, Pow2(i), Pow2(j - i));
  }

  lemma DropRemainder(a: nat, p: nat, q: nat)
    requires p > 0 && q > 0
    ensures p * q > 0 && a % p <= a && (a - a % p) / (p * q) == a / (p * q)
  {
    DivMod(a, p);
    var n := a / p;
    assert p * n >= 0;
    DivDiv(a, p, q);
    DivDiv(p * n, p, q);
    ModIs(p * n, p, n, 0);
  }

  /** The block of the address register, in bytes and in its own units of four bytes. */
  lemma BlockOf(c: Config, val: u64, l: nat)
    requires ValidConfig(c) && val < Pow2(54) && 2 <= c.lgGran <= l
    ensures TorPaddr(c, val) / Pow2(l) == val / Pow2(l - 2)
  {
    hide Pow2;
    TorPaddrIs(c, val);
    DropLow(val, c.lgGran - 2, l - 2);
    PowStep(l - 2);
    PowStep(l - 1);
    var v := val - val % Pow2(c.lgGran - 2);
    FourTimes(v, Pow2(l - 2), Pow2(l));
  }

  lemma FourTimes(v: nat, p: nat, q: nat)
    requires p > 0 && q == 4 * p
    ensures v * 4 / q == v / p
  {
    DivDiv(v * 4, 4, p);
  }

  lemma MaskedZero(x: u64, l: nat)
    requires l <= 63 && Pow2(l) <= U64
    ensures And64(x, U64 - Pow2(l)) == 0 <==> x / Pow2(l) == 0
  {
    hide Pow2, And;
    Fits64(64);
    HighMask(64, l, x);
    DivMod(x, Pow2(l));
    if x / Pow2(l) != 0 {
      MulStep(Pow2(l), 0, x / Pow2(l));
    }
  }

  /** match4 is membership in the region: a top-of-range interval or a naturally aligned block. */
  lemma MatchIsMembership(c: Config, s: Regs, i: nat, addr: u64)
    requires ValidConfig(c) && ValidRegs(s) && i < MAX_PMP && Proper(c, s, i)
    ensures Match4(c, s, i, addr) <==> InRegion(c, s, i, addr)
  {
    hide Pow2, And64, Xor, LgSize, NapotMask, TorPaddr, Top;
    var val, cfg := s.addr[i], s.cfg[i];
    TorPaddrIs(c, val);
    if i > 0 {
      TorPaddrIs(c, s.addr[i - 1]);
    }
    MatchModes(cfg);
    if cfg & PMP_A == PMP_NA4 || cfg & PMP_A == PMP_NAPOT {
      var l := LgSize(c, val, cfg);
      NapotMaskIs(c, val, cfg);
      SizeAtLeast(c, val, cfg);
      BlockOf(c, val, l);
      MaskedZero(Xor64(addr, TorPaddr(c, val)), l);
      SameBlock(addr, TorPaddr(c, val), l);
    }
  }

  /** Locked regions stay put: whatever is written, a locked entry matches the same addresses. */
  lemma LockedRegion(c: Config, s: Regs, ws: seq<Write>, i: nat, addr: u64)
    requires ValidConfig(c) && ValidRegs(s) && forall k :: 0 <= k < |ws| ==> ValidWrite(c, ws[k])
    requires i < c.nPmp && Locked(s.cfg[i]) && !Has(s, RLB)
    ensures Match4(c, Run(c, s, ws), i, addr) == Match4(c, s, i, addr)
  {
    hide Pow2, And64, Xor64, NapotMask, TorPaddr, Run;
    LockSafety(c, s, ws, i);
  }

  // ------------------------------------------------------------------- pages

  /** A naturally aligned power-of-two page. */
  predicate IsPage(addr: u64, len: u64, k: nat) {
    k <= 63 && len == Pow2(k) && addr % len == 0 && addr + len <= U64
  }

  /** The region covers part of the page but not all of it. */
  ghost predicate Partial(c: Config, s: Regs, i: nat, addr: u64, len: u64)
    requires ValidConfig(c) && ValidRegs(s) && i < MAX_PMP
  {
    && (exists a: nat :: addr <= a < addr + len && InRegion(c, s, i, a))
    && (exists b: nat :: addr <= b < addr + len && !InRegion(c, s, i, b))
  }

  /** An empty top-of-range region whose ends both lie in the page, behind its first byte. */
  predicate Phantom(c: Config, s: Regs, i: nat, addr: u64, len: u64)
    requires ValidConfig(c) && ValidRegs(s) && i < MAX_PMP
  {
    s.cfg[i] & PMP_A != 0 && IsTor(s.cfg[i]) && addr < TorPaddr(c, s.addr[i]) <= TorBase(c, s, i) < addr + len
  }

  lemma PageStart(x: u64, len: u64, k: nat)
    requires k <= 63 && len == Pow2(k)
    ensures And64(x, U64 - len) == x - x % len
  {
    hide Pow2, And;
    Fits64(64);
    HighMask(64, k, x);
  }

  /** Whole pages: one begins in front of another if and only if it ends there or earlier. */
  lemma WholePages(len: nat, p: nat, q: nat, y: nat)
    requires y < len
    ensures len * p < len * q <==> len * p + len <= len * q + y
  {
    if p < q {
      MulStep(len, p, q);
    } else if q < p {
      MulStep(len, q, p);
    }
  }

  /** Page order: the page before x's page ends at or before x. */
  lemma PageOrder(addr: u64, len: u64, x: u64)
    requires len > 0 && addr % len == 0
    ensures addr < x - x % len <==> addr + len <= x
  {
    DivMod(addr, len);
    DivMod(x, len);
    WholePages(len, addr / len, x / len, x % len);
  }

  lemma TorSubset(c: Config, s: Regs, i: nat, addr: u64, len: u64, k: nat)
    requires ValidConfig(c) && ValidRegs(s) && i < MAX_PMP && IsPage(addr, len, k) && IsTor(s.cfg[i])
    ensures var base, tor := TorBase(c, s, i), TorPaddr(c, s.addr[i]);
      SubsetMatch(c, s, i, addr, len) <==> base < addr + len && addr < tor && (addr < base || tor < addr + len)
  {
    hide Pow2, And64, TorPaddr, NapotMask, Xor64;
    var base, tor := TorBase(c, s, i), TorPaddr(c, s.addr[i]);
    PageStart(addr, len, k);
    PageStart(base, len, k);
    PageStart(tor, len, k);
    PageOrder(addr, len, base);
    PageOrder(addr, len, tor);
    ModIs(addr, len, addr / len, 0);
  }

  lemma TorPartial(c: Config, s: Regs, i: nat, addr: u64, len: u64)
    requires ValidConfig(c) && ValidRegs(s) && i < MAX_PMP && IsTor(s.cfg[i]) && len > 0
    ensures var base, tor := TorBase(c, s, i), TorPaddr(c, s.addr[i]);
      Partial(c, s, i, addr, len) <==>
        base < tor && base < addr + len && addr < tor && (addr < base || tor < addr + len)
  {
    hide Pow2, TorPaddr, Top;
    var base, tor := TorBase(c, s, i), TorPaddr(c, s.addr[i]);
    TorPaddrIs(c, s.addr[i]);
    if i > 0 {
      TorPaddrIs(c, s.addr[i - 1]);
    }
    assert forall a: nat :: InRegion(c, s, i, a) <==> base <= a < tor;
    if base < tor && base < addr + len && addr < tor && (addr < base || tor < addr + len) {
      var a: nat := if base < addr then addr else base;
      var b: nat := if addr < base then addr else tor;
      assert InRegion(c, s, i, a) && !InRegion(c, s, i, b);
    }
  }

  /** Both powers of two: the smaller divides the larger. */
  lemma WithinBlock(addr: nat, k: nat, l: nat, a: nat)
    requires k <= l && addr % Pow2(k) == 0 && addr <= a < addr + Pow2(k)
    ensures a / Pow2(l) == addr / Pow2(l)
  {
    hide Pow2;
    Pow2Add(k, l - k);
    DivDiv(a, Pow2(k), Pow2(l - k));
    DivDiv(addr, Pow2(k), Pow2(l - k));
    SamePage(addr, Pow2(k), a);
  }

  lemma SamePage(addr: nat, p: nat, a: nat)
    requires p > 0 && addr % p == 0
    ensures addr <= a < addr + p <==> a / p == addr / p
  {
    DivMod(addr, p);
    DivMod(a, p);
    var n := addr / p;
    if addr <= a < addr + p {
      ModIs(a, p, n, a - addr);
    }
  }

  /** A block that is smaller than a page lies inside one page. */
  lemma BlockInPage(l: nat, k: nat, a: nat, b: nat)
    requires l <= k && a / Pow2(l) == b / Pow2(l)
    ensures a / Pow2(k) == b / Pow2(k)
  {
    hide Pow2;
    Pow2Add(l, k - l);
    DivDiv(a, Pow2(l), Pow2(k - l));
    DivDiv(b, Pow2(l), Pow2(k - l));
  }

  /** A naturally aligned region is part of a page exactly when it is smaller and inside it. */
  lemma BlockPartial(c: Config, s: Regs, i: nat, addr: u64, len: u64, k: nat, l: nat)
    requires ValidConfig(c) && ValidRegs(s) && i < MAX_PMP && Proper(c, s, i) && IsPage(addr, len, k)
    requires s.cfg[i] & PMP_A != 0 && !IsTor(s.cfg[i]) && l == LgSize(c, s.addr[i], s.cfg[i])
    ensures Partial(c, s, i, addr, len) <==> l < k && addr / Pow2(k) == TorPaddr(c, s.addr[i]) / Pow2(k)
  {
    hide Pow2, TorPaddr, Top, LgSize;
    var tor := TorPaddr(c, s.addr[i]);
    MatchModes(s.cfg[i]);
    SizeAtLeast(c, s.addr[i], s.cfg[i]);
    BlockOf(c, s.addr[i], l);
    assert forall a: nat :: InRegion(c, s, i, a) <==> a / Pow2(l) == tor / Pow2(l);
    if k <= l {
      forall a: nat | addr <= a < addr + len ensures InRegion(c, s, i, a) == InRegion(c, s, i, addr) {
        WithinBlock(addr, k, l, a);
      }
    } else {
      SmallBlock(addr, k, l, tor);
      if addr / Pow2(k) == tor / Pow2(k) {
        SamePage(addr, Pow2(k), tor);
        var b := Outside(addr, k, l, tor);
        assert InRegion(c, s, i, tor) && !InRegion(c, s, i, b);
      }
    }
  }

  /** No byte of the page is in a block of another page. */
  lemma SmallBlock(addr: nat, k: nat, l: nat, tor: nat)
    requires l < k && addr % Pow2(k) == 0
    ensures addr / Pow2(k) != tor / Pow2(k) ==>
      forall a: nat :: addr <= a < addr + Pow2(k) ==> a / Pow2(l) != tor / Pow2(l)
  {
    hide Pow2;
    forall a: nat | addr <= a < addr + Pow2(k) && a / Pow2(l) == tor / Pow2(l) ensures addr / Pow2(k) == tor / Pow2(k) {
      BlockInPage(l, k, a, tor);
      SamePage(addr, Pow2(k), a);
    }
  }

  /** A page larger than a block has a byte outside it. */
  lemma Outside(addr: nat, k: nat, l: nat, tor: nat) returns (b: nat)
    requires l < k && addr % Pow2(k) == 0
    ensures addr <= b < addr + Pow2(k) && b / Pow2(l) != tor / Pow2(l)
  {
    hide Pow2;
    PowLess(l, k);
    b := addr;
    if addr / Pow2(l) == tor / Pow2(l) {
      b := addr + Pow2(l);
      NextBlock(addr, Pow2(l));
    }
  }

  lemma NextBlock(a: nat, p: nat)
    requires p > 0
    ensures (a + p) / p == a / p + 1
  {
    DivMod(a, p);
    Dist(p, a / p, 1);
    ModIs(a + p, p, a / p + 1, a % p);
  }

  lemma NapotSubset(c: Config, s: Regs, i: nat, addr: u64, len: u64, k: nat, l: nat)
    requires ValidConfig(c) && ValidRegs(s) && i < MAX_PMP && Proper(c, s, i) && IsPage(addr, len, k)
    requires s.cfg[i] & PMP_A != 0 && !IsTor(s.cfg[i]) && l == LgSize(c, s.addr[i], s.cfg[i])
    ensures SubsetMatch(c, s, i, addr, len) <==> l < k && addr / Pow2(k) == TorPaddr(c, s.addr[i]) / Pow2(k)
  {
    hide Pow2, TorPaddr, Top, LgSize, NapotMask, Xor, And;
    MatchModes(s.cfg[i]);
    NapotMaskIs(c, s.addr[i], s.cfg[i]);
    DoubledMask(l, k);
    SameBlock(addr, TorPaddr(c, s.addr[i]), k);
  }

  /** The test whether a page is no larger than the region. */
  lemma DoubledMask(l: nat, k: nat)
    requires l <= 63 && k <= 63 && Pow2(l) <= U64 && Pow2(k) < U64
    ensures And64(Not64((U64 - Pow2(l)) * 2 % U64), Pow2(k)) != 0 <==> k <= l
  {
    Powers();
    hide And, Pow2;
    PowStep(l);
    PowMono(l + 1, 64);
    Wraps(Pow2(l));
    LowMask(Pow2(k), l + 1);
    if k <= l {
      PowLess(k, l + 1);
      SmallModulus(Pow2(k), Pow2(l + 1));
    } else {
      Pow2Add(l + 1, k - l - 1);
      ModIs(Pow2(k), Pow2(l + 1), Pow2(k - l - 1), 0);
    }
  }

  lemma Wraps(p: nat)
    requires 1 <= p <= 0x8000_0000_0000_0000
    ensures (U64 - p) * 2 % U64 == U64 - 2 * p
  {
  }

  /**
   * subset_match on an aligned page: it reports exactly the entries whose region covers part
   * of the page but not all of it, except that it also reports a phantom.
   */
  lemma SubsetExact(c: Config, s: Regs, i: nat, addr: u64, len: u64, k: nat)
    requires ValidConfig(c) && ValidRegs(s) && i < MAX_PMP && Proper(c, s, i) && IsPage(addr, len, k)
    ensures (SubsetMatch(c, s, i, addr, len) <==> Partial(c, s, i, addr, len)) <==> !Phantom(c, s, i, addr, len)
    ensures Partial(c, s, i, addr, len) ==> SubsetMatch(c, s, i, addr, len)
  {
    hide Pow2, TorPaddr, Top, LgSize, NapotMask, Xor64, And64;
    if IsTor(s.cfg[i]) {
      TorSubset(c, s, i, addr, len, k);
      TorPartial(c, s, i, addr, len);
      TorActive(s.cfg[i]);
    } else if s.cfg[i] & PMP_A != 0 {
      var l := LgSize(c, s.addr[i], s.cfg[i]);
      NapotSubset(c, s, i, addr, len, k, l);
      BlockPartial(c, s, i, addr, len, k, l);
    }
  }

  lemma TorActive(cfg: bv8)
    requires IsTor(cfg)
    ensures cfg & PMP_A != 0
  {
  }

  /** What the page-table code relies on: where subset_match says no, the entry treats the whole page alike. */
  lemma Homogeneous(c: Config, s: Regs, i: nat, addr: u64, len: u64, k: nat, a: u64, b: u64)
    requires ValidConfig(c) && ValidRegs(s) && i < MAX_PMP && Proper(c, s, i) && IsPage(addr, len, k)
    requires !SubsetMatch(c, s, i, addr, len) && addr <= a < addr + len && addr <= b < addr + len
    ensures Match4(c, s, i, a) == Match4(c, s, i, b)
  {
    hide Pow2, SubsetMatch, InRegion, Match4, Phantom;
    SubsetExact(c, s, i, addr, len, k);
    MatchIsMembership(c, s, i, a);
    MatchIsMembership(c, s, i, b);
  }

  /** Entry 1 ranges from 12 down to 8 and covers nothing, yet it is reported for the page [0, 16). */
  lemma PhantomExample() returns (c: Config, s: Regs)
    ensures ValidConfig(c) && ValidRegs(s) && Proper(c, s, 1) && IsPage(0, 16, 4)
    ensures SubsetMatch(c, s, 1, 0, 16) && !Partial(c, s, 1, 0, 16)
  {
    hide Pow2, And64, TorPaddr, Top, ValidRegs, Proper, SubsetMatch, Partial, IsPage;
    c, s := PhantomRegs();
    Numbers();
    TorPaddrIs(c, 3);
    TorPaddrIs(c, 2);
    SubsetExact(c, s, 1, 0, 16, 4);
  }

  lemma PhantomRegs() returns (c: Config, s: Regs)
    ensures ValidConfig(c) && ValidRegs(s) && Proper(c, s, 1) && IsPage(0, 16, 4)
    ensures c == Config(2, 2, 64) && s.addr[0] == 3 && s.addr[1] == 2 && s.cfg[1] == PMP_TOR
  {
    hide And64, TorPaddr, Top;
    c := Config(2, 2, 64);
    s := Reset();
    s := s.(addr := s.addr[0 := 3][1 := 2], cfg := s.cfg[1 := PMP_TOR]);
    Numbers();
  }

  lemma Numbers()
    ensures Pow2(0) == 1 && Pow2(2) == 4 && Pow2(4) == 16 && Pow2(54) > 3
  {
    PowMono(2, 54);
  }

  // ------------------------------------------------------------ whole accesses

  datatype Access = Load | Store | Fetch

  /** access_ok; prvm means machine mode. */
  predicate AccessOk(s: Regs, i: nat, t: Access, prvm: bool)
    requires ValidRegs(s) && i < MAX_PMP
  {
    var cfg := s.cfg[i];
    var x, w, r, l := cfg & PMP_X != 0, cfg & PMP_W != 0, cfg & PMP_R != 0, Locked(cfg);
    var normal := (t.Load? && r) || (t.Store? && w) || (t.Fetch? && x);
    if Has(s, MML) then
      if x && w && r && l then t.Load?
      else if !r && w then
        || (!l && x && (t.Load? || t.Store?))
        || (!l && !x && (t.Load? || (t.Store? && prvm)))
        || (l && t.Fetch?)
        || (l && t.Load? && x && prvm)
      else prvm == l && normal
    else (prvm && !l) || normal
  }

  /** The verdict when no entry matches. */
  predicate NoMatchOk(s: Regs, t: Access, prvm: bool) {
    prvm && !Has(s, MMWP) && (!Has(s, MML) || t.Load? || t.Store?)
  }

  // ---------------------------------------------------------- permissions

  /** Without MML: machine mode passes unlocked rules, and everything else needs the right for its kind of access. */
  predicate PlainRights(t: Rights, a: Access, machine: bool) {
    (machine && !t.l) || (a == Load && t.r) || (a == Store && t.w) || (a == Fetch && t.x)
  }

  /** What a rule lets through with MML set, by L, R, W and X: the table of Smepmp 1.0, machine mode first. */
  function MmlRights(t: Rights): (set<Access>, set<Access>) {
    match (t.l, t.r, t.w, t.x)
    case (false, false, false, false) => ({}, {})
    case (false, false, false, true) => ({}, {Fetch})
    case (false, false, true, false) => ({Load, Store}, {Load})
    case (false, false, true, true) => ({Load, Store}, {Load, Store})
    case (false, true, false, false) => ({}, {Load})
    case (false, true, false, true) => ({}, {Load, Fetch})
    case (false, true, true, false) => ({}, {Load, Store})
    case (false, true, true, true) => ({}, {Load, Store, Fetch})
    case (true, false, false, false) => ({}, {})
    case (true, false, false, true) => ({Fetch}, {})
    case (true, false, true, false) => ({Fetch}, {Fetch})
    case (true, false, true, true) => ({Load, Fetch}, {Fetch})
    case (true, true, false, false) => ({Load}, {})
    case (true, true, false, true) => ({Load, Fetch}, {})
    case (true, true, true, false) => ({Load, Store}, {})
    case (true, true, true, true) => ({Load}, {Load})
  }

  /** What rule i allows; bit 0 of mseccfg is MML. */
  predicate Permitted(s: Regs, i: nat, a: Access, machine: bool)
    requires ValidRegs(s) && i < MAX_PMP
  {
    var t := RightsOf(s.cfg[i]);
    if s.mseccfg & 1 == 0 then PlainRights(t, a, machine)
    else a in if machine then MmlRights(t).0 else MmlRights(t).1
  }

  /** Where no rule matches, machine mode alone is let through, not with MMWP, and not to fetch with MML. */
  predicate PermittedByDefault(s: Regs, a: Access, machine: bool) {
    machine && s.mseccfg & 2 == 0 && (s.mseccfg & 1 != 0 ==> a != Fetch)
  }

  /** access_ok is that table. */
  lemma AccessIs(s: Regs, i: nat, a: Access, machine: bool)
    requires ValidRegs(s) && i < MAX_PMP
    ensures AccessOk(s, i, a, machine) <==> Permitted(s, i, a, machine)
  {
    hide Pow2;
  }

  lemma DefaultIs(s: Regs, a: Access, machine: bool)
    ensures NoMatchOk(s, a, machine) <==> PermittedByDefault(s, a, machine)
  {
  }

  /** A four-byte sector of an access. */
  predicate Sector(len: u64, off: nat) {
    off < len && off % 4 == 0
  }

  /** There is one sector at offset, and none between it and the next. */
  lemma SectorsAt(len: u64, offset: nat)
    requires offset < len && offset % 4 == 0
    ensures Sector(len, offset)
    ensures forall off: nat :: Sector(len, off) && off < offset + 4 ==> off <= offset
  {
  }

  predicate AnyMatch(c: Config, s: Regs, i: nat, addr: u64, len: u64)
    requires ValidConfig(c) && ValidRegs(s) && i < MAX_PMP && addr + len <= U64
  {
    exists off: nat :: off < len && Sector(len, off) && Match4(c, s, i, addr + off)
  }

  predicate AllMatch(c: Config, s: Regs, i: nat, addr: u64, len: u64)
    requires ValidConfig(c) && ValidRegs(s) && i < MAX_PMP && addr + len <= U64
  {
    forall off: nat :: off < len && Sector(len, off) ==> Match4(c, s, i, addr + off)
  }

  /** The first entry from i on that matches any sector decides: it must match all of them and allow the access. */
  predicate Verdict(c: Config, s: Regs, i: nat, addr: u64, len: u64, t: Access, prvm: bool)
    requires ValidConfig(c) && ValidRegs(s) && i <= c.nPmp && addr + len <= U64
    decreases c.nPmp - i
  {
    if i == c.nPmp then NoMatchOk(s, t, prvm)
    else if AnyMatch(c, s, i, addr, len) then AllMatch(c, s, i, addr, len) && AccessOk(s, i, t, prvm)
    else Verdict(c, s, i + 1, addr, len, t, prvm)
  }

  /** The inner loop of pmp_ok: does any sector match entry i, do all of them? */
  method MatchSectors(c: Config, s: Regs, i: nat, addr: u64, len: u64) returns (anyMatch: bool, allMatch: bool)
    requires ValidConfig(c) && ValidRegs(s) && i < MAX_PMP && addr + len <= U64
    ensures anyMatch == AnyMatch(c, s, i, addr, len) && allMatch == AllMatch(c, s, i, addr, len)
  {
    hide Pow2, Match4, Sector;
    anyMatch, allMatch := false, true;
    var offset := 0;
    while offset < len
      invariant offset % 4 == 0
      invariant anyMatch <==> exists off: nat ::
        off < len && off < offset && Sector(len, off) && Match4(c, s, i, addr + off)
      invariant allMatch <==> forall off: nat :: off < len && off < offset && Sector(len, off) ==>
        Match4(c, s, i, addr + off)
    {
      var match_ := Match4(c, s, i, addr + offset);
      SectorsAt(len, offset);
      anyMatch := anyMatch || match_;
      allMatch := allMatch && match_;
      offset := offset + 4;
    }
  }

  /** pmp_ok */
  method PmpOk(c: Config, s: Regs, addr: u64, len: u64, t: Access, prvm: bool) returns (ok: bool)
    requires ValidConfig(c) && ValidRegs(s) && addr + len <= U64
    ensures c.nPmp == 0 ==> ok
    ensures c.nPmp > 0 ==> ok == Verdict(c, s, 0, addr, len, t, prvm)
    ensures c.nPmp > 0 && (forall i :: 0 <= i < c.nPmp ==> !AnyMatch(c, s, i, addr, len)) ==>
      ok == PermittedByDefault(s, t, prvm)
    ensures forall i :: 0 <= i < c.nPmp && AnyMatch(c, s, i, addr, len)
                        && (forall j :: 0 <= j < i ==> !AnyMatch(c, s, j, addr, len)) ==>
      ok == (AllMatch(c, s, i, addr, len) && Permitted(s, i, t, prvm))
  {
    hide Pow2, Match4, AnyMatch, AllMatch, AccessOk, NoMatchOk, Permitted, PermittedByDefault;
    if c.nPmp == 0 {
      return true;
    }
    DefaultIs(s, t, prvm);
    for i := 0 to c.nPmp
      invariant Verdict(c, s, 0, addr, len, t, prvm) == Verdict(c, s, i, addr, len, t, prvm)
      invariant forall j :: 0 <= j < i ==> !AnyMatch(c, s, j, addr, len)
    {
      AccessIs(s, i, t, prvm);
      var anyMatch, allMatch := MatchSectors(c, s, i, addr, len);
      if anyMatch {
        if !allMatch {
          return false;
        }
        return AccessOk(s, i, t, prvm);
      }
    }
    ok := NoMatchOk(s, t, prvm);
  }

  /**
   * Caching a page is sound: if no entry is reported for it, every access inside it gets the
   * verdict of any other of the same kind.
   */
  lemma {:induction false} PageVerdict(c: Config, s: Regs, i: nat, page: u64, plen: u64, k: nat,
                                       a: u64, alen: u64, b: u64, blen: u64, t: Access, prvm: bool)
    requires ValidConfig(c) && ValidRegs(s) && i <= c.nPmp && IsPage(page, plen, k)
    requires forall j :: i <= j < c.nPmp ==> Proper(c, s, j) && !SubsetMatch(c, s, j, page, plen)
    requires page <= a < a + alen <= page + plen && page <= b < b + blen <= page + plen
    ensures Verdict(c, s, i, a, alen, t, prvm) == Verdict(c, s, i, b, blen, t, prvm)
    decreases c.nPmp - i
  {
    hide Pow2, Match4, SubsetMatch, AccessOk, Proper;
    if i >= c.nPmp {
    } else {
      PageVerdict(c, s, i + 1, page, plen, k, a, alen, b, blen, t, prvm);
      var yes := Match4(c, s, i, page);
      OneVerdict(c, s, i, page, plen, k, a, alen);
      OneVerdict(c, s, i, page, plen, k, b, blen);
    }
  }

  lemma OneVerdict(c: Config, s: Regs, i: nat, page: u64, plen: u64, k: nat, a: u64, alen: u64)
    requires ValidConfig(c) && ValidRegs(s) && i < c.nPmp && IsPage(page, plen, k)
    requires Proper(c, s, i) && !SubsetMatch(c, s, i, page, plen) && page <= a < a + alen <= page + plen
    ensures AnyMatch(c, s, i, a, alen) <==> Match4(c, s, i, page)
    ensures AllMatch(c, s, i, a, alen) <==> Match4(c, s, i, page)
  {
    hide Pow2, Match4, SubsetMatch, Proper;
    forall off: nat | off < alen && Sector(alen, off) ensures Match4(c, s, i, a + off) == Match4(c, s, i, page) {
      Homogeneous(c, s, i, page, plen, k, a + off, page);
    }
    assert Sector(alen, 0) && Match4(c, s, i, a + 0) == Match4(c, s, i, page);
  }
}
