/**
 * Floating-point formats narrower than binary32 and what correct rounding to them means
 * (section 4.3 of IEEE 754-2019, with CPFloat's own ties-to-zero).  Magnitudes are
 * counted in units of 2^-149, the smallest positive binary32 number.
 */
module Formats {
  import opened Bits

  datatype Mode = NE | NA | NZ | TP | TN | TZ

  /** Precision in bits and largest exponent. */
  datatype Format = Format(p: nat, emax: nat)

  predicate ValidFormat(f: Format) {
    2 <= f.p <= 23 && 1 <= f.emax <= 127 && (f.emax < 127 ==> f.emax + f.p <= 128)
  }

  /** The exponents of the smallest and of the largest unit in the last place. */
  function JMin(f: Format): nat
    requires ValidFormat(f)
  {
    151 - f.emax - f.p
  }

  function JMax(f: Format): nat
    requires ValidFormat(f)
  {
    150 + f.emax - f.p
  }

  /** A number of the format: a significand of p bits at some unit. */
  ghost predicate Rep(f: Format, t: int)
    requires ValidFormat(f)
  {
    exists n: nat, j: nat :: Shape(f, n, j) && t == n * Pow2(j)
  }

  predicate Shape(f: Format, n: nat, j: nat)
    requires ValidFormat(f)
  {
    n < Pow2(f.p) && JMin(f) <= j <= JMax(f)
  }

  /** The largest number, and the point half a unit above it. */
  function XMax(f: Format): nat
    requires ValidFormat(f)
  {
    NotNegative(Pow2(f.p) - 1, Pow2(JMax(f)));
    (Pow2(f.p) - 1) * Pow2(JMax(f))
  }

  function XBnd(f: Format): nat
    requires ValidFormat(f)
  {
    XMax(f) + Pow2(JMax(f) - 1)
  }

  // --------------------------------------------------------- correct rounding

  function Gap(a: nat, b: nat): nat {
    if a <= b then b - a else a - b
  }

  ghost predicate Nearest(f: Format, x: nat, v: nat)
    requires ValidFormat(f)
  {
    Rep(f, v) && forall t: nat :: Rep(f, t) ==> Gap(v, x) <= Gap(t, x)
  }

  /** Another number of the format is as near. */
  ghost predicate Rival(f: Format, x: nat, v: nat, t: nat)
    requires ValidFormat(f)
  {
    Rep(f, t) && t != v && Gap(t, x) == Gap(v, x)
  }

  ghost predicate Down(f: Format, x: nat, v: nat)
    requires ValidFormat(f)
  {
    Rep(f, v) && v <= x && forall t: nat :: Rep(f, t) && t <= x ==> t <= v
  }

  ghost predicate Up(f: Format, x: nat, v: nat)
    requires ValidFormat(f)
  {
    Rep(f, v) && x <= v && forall t: nat :: Rep(f, t) && x <= t ==> v <= t
  }

  datatype Magnitude = Infinite | Finite(mag: nat)

  /** r is the magnitude that the mode prescribes for magnitude x of a number with this sign. */
  ghost predicate Correct(f: Format, mode: Mode, neg: bool, x: nat, r: Magnitude)
    requires ValidFormat(f)
  {
    match mode
    case NE =>
      if x >= XBnd(f) then r == Infinite
      else
        && r.Finite? && Nearest(f, x, r.mag)
        && forall t: nat :: Rival(f, x, r.mag, t) ==> r.mag / Gap(t, r.mag) % 2 == 0
    case NA =>
      if x >= XBnd(f) then r == Infinite
      else r.Finite? && Nearest(f, x, r.mag) && forall t: nat :: Rival(f, x, r.mag, t) ==> t < r.mag
    case NZ =>
      if x > XBnd(f) then r == Infinite
      else r.Finite? && Nearest(f, x, r.mag) && forall t: nat :: Rival(f, x, r.mag, t) ==> r.mag < t
    case TZ => Inward(f, x, r)
    case TP => if neg then Inward(f, x, r) else Outward(f, x, r)
    case TN => if neg then Outward(f, x, r) else Inward(f, x, r)
  }

  ghost predicate Inward(f: Format, x: nat, r: Magnitude)
    requires ValidFormat(f)
  {
    r.Finite? && Down(f, x, r.mag)
  }

  ghost predicate Outward(f: Format, x: nat, r: Magnitude)
    requires ValidFormat(f)
  {
    if x > XMax(f) then r == Infinite else r.Finite? && Up(f, x, r.mag)
  }

  // ---------------------------------------------------------------- neighbours

  /** The last place of the numbers around n units of 2^j: all p bits are used, or the unit is the smallest. */
  predicate Place(f: Format, n: nat, j: nat)
    requires ValidFormat(f)
  {
    Shape(f, n, j) && (j > JMin(f) ==> Pow2(f.p - 1) <= n)
  }

  lemma Pow2Split(i: nat, j: nat)
    requires i <= j
    ensures Pow2(j) == Pow2(j - i) * Pow2(i)
  {
    Pow2Add(j - i, i);
  }

  lemma MulAssoc(a: nat, b: nat, c: nat)
    ensures a * (b * c) == (a * b) * c
  {
  }

  lemma MulMono(a: nat, b: nat, q: nat)
    requires a <= b
    ensures a * q <= b * q
  {
  }

  /** No number of the format lies between two neighbours. */
  lemma NoneBetween(f: Format, n: nat, j: nat, t: nat)
    requires ValidFormat(f) && Place(f, n, j) && Rep(f, t)
    ensures t <= n * Pow2(j) || (n + 1) * Pow2(j) <= t
  {
    var a: nat, i: nat :| Shape(f, a, i) && t == a * Pow2(i);
    hide Pow2;
    if i >= j {
      Pow2Split(j, i);
      AtOrAbove(a, Pow2(i - j), Pow2(j), n);
    } else {
      Pow2Split(i, j - 1);
      BelowBinade(f, a, i, n, j);
    }
  }

  /** A number at a larger unit. */
  lemma AtOrAbove(a: nat, q: nat, u: nat, n: nat)
    ensures a * (q * u) <= n * u || (n + 1) * u <= a * (q * u)
  {
    MulAssoc(a, q, u);
    WholeUnits(a * q, n, u);
  }

  lemma WholeUnits(b: nat, n: nat, u: nat)
    ensures b * u <= n * u || (n + 1) * u <= b * u
  {
    if b <= n {
      MulMono(b, n, u);
    } else {
      MulMono(n + 1, b, u);
    }
  }

  /** Numbers at a smaller unit lie below the binade. */
  lemma BelowBinade(f: Format, a: nat, i: nat, n: nat, j: nat)
    requires ValidFormat(f) && a < Pow2(f.p) && Pow2(f.p - 1) <= n && i < j && Pow2(j - 1) == Pow2(j - 1 - i) * Pow2(i)
    ensures a * Pow2(i) <= n * Pow2(j)
  {
    var u := Pow2(j - 1);
    assert Pow2(j) == 2 * u && Pow2(f.p) == 2 * Pow2(f.p - 1);
    hide Pow2;
    MulMono(1, Pow2(j - 1 - i), Pow2(i));
    MulMono2(a, Pow2(i), u);
    MulMono(a, 2 * n, u);
    TwoN(n, u);
  }

  lemma MulMono2(a: nat, x: nat, y: nat)
    requires x <= y
    ensures a * x <= a * y
  {
  }

  lemma TwoN(n: nat, u: nat)
    ensures 2 * n * u == n * (2 * u)
  {
  }

  lemma RepLow(f: Format, n: nat, j: nat)
    requires ValidFormat(f) && Shape(f, n, j)
    ensures Rep(f, n * Pow2(j))
  {
  }

  /** The next number up is one of the format, unless it lies beyond the largest. */
  lemma RepHigh(f: Format, n: nat, j: nat)
    requires ValidFormat(f) && Shape(f, n, j)
    ensures (n + 1 == Pow2(f.p) && j == JMax(f)) || Rep(f, (n + 1) * Pow2(j))
    ensures n + 1 == Pow2(f.p) && j == JMax(f) ==> n * Pow2(j) == XMax(f)
  {
    hide Pow2;
    if n + 1 < Pow2(f.p) {
      RepLow(f, n + 1, j);
    } else if j < JMax(f) {
      PowStep(f.p - 1);
      PowStep(j);
      TwoN(Pow2(f.p - 1), Pow2(j));
      RepLow(f, Pow2(f.p - 1), j + 1);
    }
  }

  lemma RepMax(f: Format, t: nat)
    requires ValidFormat(f) && Rep(f, t)
    ensures t <= XMax(f)
  {
    hide Pow2;
    var a: nat, i: nat :| Shape(f, a, i) && t == a * Pow2(i);
    PowMono(i, JMax(f));
    MulBoth(a, Pow2(i), Pow2(f.p) - 1, Pow2(JMax(f)));
  }

  lemma MulBoth(a: nat, x: nat, b: nat, y: nat)
    requires a <= b && x <= y
    ensures a * x <= b * y
  {
    MulMono2(a, x, y);
    MulMono(a, b, y);
  }

  lemma XMaxRep(f: Format)
    requires ValidFormat(f)
    ensures Rep(f, XMax(f))
  {
    RepLow(f, Pow2(f.p) - 1, JMax(f));
  }

  // ------------------------------------------------------- rounding at a place

  /** x lies at n units of 2^j or between n and n + 1 units. */
  predicate At(f: Format, n: nat, j: nat, x: nat)
    requires ValidFormat(f)
  {
    Place(f, n, j) && n * Pow2(j) <= x < (n + 1) * Pow2(j)
  }

  /** All numbers of the format are on one side of x. */
  lemma Sides(f: Format, n: nat, j: nat, x: nat)
    requires ValidFormat(f) && At(f, n, j, x)
    ensures forall t: nat :: Rep(f, t) ==> t <= n * Pow2(j) || (n + 1) * Pow2(j) <= t
    ensures Rep(f, n * Pow2(j)) && (n + 1) * Pow2(j) == n * Pow2(j) + Pow2(j)
    ensures (n + 1) * Pow2(j) <= XMax(f) ==> Rep(f, (n + 1) * Pow2(j))
    ensures (n + 1) * Pow2(j) > XMax(f) ==> n * Pow2(j) == XMax(f) && j == JMax(f) && n % 2 == 1
  {
    hide Pow2, Rep, XMax;
    forall t: nat | Rep(f, t) ensures t <= n * Pow2(j) || (n + 1) * Pow2(j) <= t {
      NoneBetween(f, n, j, t);
    }
    BothSides(f, n, j);
  }

  lemma BothSides(f: Format, n: nat, j: nat)
    requires ValidFormat(f) && Shape(f, n, j)
    ensures Rep(f, n * Pow2(j)) && (n + 1) * Pow2(j) == n * Pow2(j) + Pow2(j)
    ensures (n + 1) * Pow2(j) <= XMax(f) ==> Rep(f, (n + 1) * Pow2(j))
    ensures (n + 1) * Pow2(j) > XMax(f) ==> n * Pow2(j) == XMax(f) && j == JMax(f) && n % 2 == 1
  {
    hide Pow2, Rep, XMax;
    TopOdd(f);
    RepLow(f, n, j);
    RepHigh(f, n, j);
    Dist(Pow2(j), n, 1);
    PowStep(j);
    if Rep(f, (n + 1) * Pow2(j)) {
      RepMax(f, (n + 1) * Pow2(j));
    }
  }

  lemma TopOdd(f: Format)
    requires ValidFormat(f)
    ensures (Pow2(f.p) - 1) % 2 == 1
  {
    hide Pow2;
    PowStep(f.p - 1);
    OddBelow(Pow2(f.p - 1));
  }

  lemma OddBelow(h: nat)
    requires h > 0
    ensures (2 * h - 1) % 2 == 1
  {
  }

  /** Which neighbour the mode asks for. */
  predicate Picks(mode: Mode, neg: bool, n: nat, q: nat, x: nat, up: bool)
    requires n * q <= x
  {
    var rem := x - n * q;
    match mode
    case NE => up <==> 2 * rem > q || (2 * rem == q && n % 2 == 1)
    case NA => up <==> 2 * rem >= q
    case NZ => up <==> 2 * rem > q
    case TZ => !up
    case TP => up <==> !neg && rem > 0
    case TN => up <==> neg && rem > 0
  }

  function Picked(f: Format, v: nat): Magnitude
    requires ValidFormat(f)
  {
    if v > XMax(f) then Infinite else Finite(v)
  }

  lemma NearLow(f: Format, n: nat, j: nat, x: nat, v: nat, w: nat)
    requires ValidFormat(f) && At(f, n, j, x) && v == n * Pow2(j) && w == (n + 1) * Pow2(j) && 2 * (x - v) <= Pow2(j)
    ensures Nearest(f, x, v)
    ensures forall t: nat :: Rival(f, x, v, t) ==> t == w && 2 * (x - v) == Pow2(j)
  {
    hide Pow2, Rep, XMax;
    Sides(f, n, j, x);
  }

  lemma NearHigh(f: Format, n: nat, j: nat, x: nat, v: nat, w: nat)
    requires ValidFormat(f) && At(f, n, j, x) && v == n * Pow2(j) && w == (n + 1) * Pow2(j) <= XMax(f)
    requires 2 * (x - v) >= Pow2(j)
    ensures Nearest(f, x, w)
    ensures forall t: nat :: Rival(f, x, w, t) ==> t == v && 2 * (x - v) == Pow2(j)
  {
    hide Pow2, Rep, XMax;
    Sides(f, n, j, x);
  }

  /** The bound for overflow, seen from the last place. */
  lemma BoundAt(f: Format, n: nat, j: nat, x: nat)
    requires ValidFormat(f) && At(f, n, j, x)
    ensures (n + 1) * Pow2(j) <= XMax(f) ==> x < XBnd(f)
    ensures (n + 1) * Pow2(j) > XMax(f) ==>
      (x >= XBnd(f) <==> 2 * (x - n * Pow2(j)) >= Pow2(j)) && (x > XBnd(f) <==> 2 * (x - n * Pow2(j)) > Pow2(j))
  {
    Sides(f, n, j, x);
    assert Pow2(JMax(f)) == 2 * Pow2(JMax(f) - 1);
  }

  lemma EvenUnits(n: nat, q: nat)
    requires q > 0
    ensures n * q / q == n
  {
    ModIs(n * q, q, n, 0);
  }

  /** The upper or the lower of two neighbours, which are n and n + 1 units. */
  function Chosen(n: nat, unit: nat, up: bool): nat {
    NotNegative(n, unit);
    NotNegative(n + 1, unit);
    if up then (n + 1) * unit else n * unit
  }

  lemma NearestAt(f: Format, mode: Mode, neg: bool, n: nat, j: nat, x: nat, up: bool)
    requires ValidFormat(f) && At(f, n, j, x) && (mode.NE? || mode.NA? || mode.NZ?)
    requires Picks(mode, neg, n, Pow2(j), x, up)
    ensures Correct(f, mode, neg, x, Picked(f, Chosen(n, Pow2(j), up)))
  {
    hide Pow2, Rep, XMax, XBnd, Correct, Place;
    if up {
      NearestUp(f, mode, neg, n, j, x);
    } else {
      NearestDown(f, mode, neg, n, j, x);
    }
  }

  lemma NearestDown(f: Format, mode: Mode, neg: bool, n: nat, j: nat, x: nat)
    requires ValidFormat(f) && At(f, n, j, x) && (mode.NE? || mode.NA? || mode.NZ?)
    requires Picks(mode, neg, n, Pow2(j), x, false)
    ensures Correct(f, mode, neg, x, Picked(f, n * Pow2(j)))
  {
    hide Pow2, Rep, XMax, XBnd, Nearest, Rival, Place;
    Sides(f, n, j, x);
    BoundAt(f, n, j, x);
    RepMax(f, n * Pow2(j));
    EvenUnits(n, Pow2(j));
    NearLow(f, n, j, x, n * Pow2(j), (n + 1) * Pow2(j));
  }

  lemma NearestUp(f: Format, mode: Mode, neg: bool, n: nat, j: nat, x: nat)
    requires ValidFormat(f) && At(f, n, j, x) && (mode.NE? || mode.NA? || mode.NZ?)
    requires Picks(mode, neg, n, Pow2(j), x, true)
    ensures Correct(f, mode, neg, x, Picked(f, (n + 1) * Pow2(j)))
  {
    hide Pow2, Rep, XMax, XBnd, Nearest, Rival, At;
    Sides(f, n, j, x);
    BoundAt(f, n, j, x);
    EvenUnits(n + 1, Pow2(j));
    if (n + 1) * Pow2(j) <= XMax(f) {
      NearHigh(f, n, j, x, n * Pow2(j), (n + 1) * Pow2(j));
    }
  }

  lemma DirectedAt(f: Format, mode: Mode, neg: bool, n: nat, j: nat, x: nat, up: bool)
    requires ValidFormat(f) && At(f, n, j, x) && (mode.TP? || mode.TN? || mode.TZ?)
    requires Picks(mode, neg, n, Pow2(j), x, up)
    ensures Correct(f, mode, neg, x, Picked(f, Chosen(n, Pow2(j), up)))
  {
    hide Pow2, Rep, XMax;
    Sides(f, n, j, x);
    RepMax(f, n * Pow2(j));
  }

  /** Picking the right neighbour, with infinity beyond the largest number, is correct rounding. */
  lemma RoundsAt(f: Format, mode: Mode, neg: bool, n: nat, j: nat, x: nat, up: bool)
    requires ValidFormat(f) && At(f, n, j, x) && Picks(mode, neg, n, Pow2(j), x, up)
    ensures Correct(f, mode, neg, x, Picked(f, Chosen(n, Pow2(j), up)))
  {
    hide Pow2, At, Picks, Correct, Picked;
    if mode.NE? || mode.NA? || mode.NZ? {
      NearestAt(f, mode, neg, n, j, x, up);
    } else {
      DirectedAt(f, mode, neg, n, j, x, up);
    }
  }

  /** Beyond the largest number. */
  lemma RoundsBeyond(f: Format, x: nat)
    requires ValidFormat(f) && x > XMax(f)
    ensures Inward(f, x, Finite(XMax(f)))
    ensures Outward(f, x, Infinite)
  {
    hide Pow2, Rep, XMax;
    XMaxRep(f);
    forall t: nat | Rep(f, t) ensures t <= XMax(f) {
      RepMax(f, t);
    }
  }
}
