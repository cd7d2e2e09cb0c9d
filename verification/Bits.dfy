/** Bitwise operations on natural numbers, and what masks do. */
module Bits {
  function Pow2(k: nat): (p: nat)
    ensures p >= 1
  {
    if k == 0 then 1 else 2 * Pow2(k - 1)
  }

  /** Bit 0 of the operations. */
  function Bit(b: bool): nat {
    if b then 1 else 0
  }

  function And(a: nat, b: nat): nat {
    if a == 0 || b == 0 then 0 else Bit(a % 2 == 1 && b % 2 == 1) + 2 * And(a / 2, b / 2)
  }

  function Or(a: nat, b: nat): nat {
    if a == 0 then b else if b == 0 then a else Bit(a % 2 == 1 || b % 2 == 1) + 2 * Or(a / 2, b / 2)
  }

  function Xor(a: nat, b: nat): nat {
    if a == 0 then b else if b == 0 then a else Bit(a % 2 != b % 2) + 2 * Xor(a / 2, b / 2)
  }

  /** The unfolding of the operations, whatever the operands. */
  lemma AndBits(a: nat, b: nat)
    ensures And(a, b) % 2 == Bit(a % 2 == 1 && b % 2 == 1) && And(a, b) / 2 == And(a / 2, b / 2)
  {
  }

  lemma OrBits(a: nat, b: nat)
    ensures Or(a, b) % 2 == Bit(a % 2 == 1 || b % 2 == 1) && Or(a, b) / 2 == Or(a / 2, b / 2)
  {
  }

  lemma XorBits(a: nat, b: nat)
    ensures Xor(a, b) % 2 == Bit(a % 2 != b % 2) && Xor(a, b) / 2 == Xor(a / 2, b / 2)
  {
  }

  lemma {:induction false} AndComm(a: nat, b: nat)
    ensures And(a, b) == And(b, a)
  {
    if a == 0 || b == 0 {
    } else {
      AndComm(a / 2, b / 2);
    }
  }

  lemma {:induction false} OrComm(a: nat, b: nat)
    ensures Or(a, b) == Or(b, a)
  {
    if a == 0 || b == 0 {
    } else {
      OrComm(a / 2, b / 2);
    }
  }

  lemma {:induction false} XorComm(a: nat, b: nat)
    ensures Xor(a, b) == Xor(b, a)
  {
    if a == 0 || b == 0 {
    } else {
      XorComm(a / 2, b / 2);
    }
  }

  lemma {:induction false} AndAssoc(a: nat, b: nat, c: nat)
    ensures And(And(a, b), c) == And(a, And(b, c))
  {
    if a == 0 || b == 0 || c == 0 {
    } else {
      AndAssoc(a / 2, b / 2, c / 2);
      AndBits(a, b);
      AndBits(b, c);
      AndBits(And(a, b), c);
      AndBits(a, And(b, c));
    }
  }

  lemma {:induction false} OrAssoc(a: nat, b: nat, c: nat)
    ensures Or(Or(a, b), c) == Or(a, Or(b, c))
  {
    if a == 0 || b == 0 || c == 0 {
    } else {
      OrAssoc(a / 2, b / 2, c / 2);
      OrBits(a, b);
      OrBits(b, c);
      OrBits(Or(a, b), c);
      OrBits(a, Or(b, c));
    }
  }

  lemma {:induction false} XorAssoc(a: nat, b: nat, c: nat)
    ensures Xor(Xor(a, b), c) == Xor(a, Xor(b, c))
  {
    if a == 0 || b == 0 || c == 0 {
    } else {
      XorAssoc(a / 2, b / 2, c / 2);
      XorBits(a, b);
      XorBits(b, c);
      XorBits(Xor(a, b), c);
      XorBits(a, Xor(b, c));
    }
  }

  /** The operations stay within k bits. */
  lemma {:induction false} InBits(a: nat, b: nat, k: nat)
    requires a < Pow2(k) && b < Pow2(k)
    ensures And(a, b) < Pow2(k) && Or(a, b) < Pow2(k) && Xor(a, b) < Pow2(k)
  {
    if k == 0 {
    } else {
      InBits(a / 2, b / 2, k - 1);
      AndBits(a, b);
      OrBits(a, b);
      XorBits(a, b);
    }
  }

  lemma {:induction false} Pow2Add(j: nat, k: nat)
    ensures Pow2(j + k) == Pow2(j) * Pow2(k)
  {
    if j == 0 {
    } else {
      Pow2Add(j - 1, k);
    }
  }

  /** Masking with k ones keeps the remainder modulo 2^k. */
  lemma {:induction false} LowMask(a: nat, k: nat)
    ensures And(Pow2(k) - 1, a) == a % Pow2(k)
  {
    if k == 0 {
    } else {
      hide And;
      LowMask(a / 2, k - 1);
      LowStep(a, Pow2(k - 1));
    }
  }

  lemma LowStep(a: nat, p: nat)
    requires p > 0 && And(p - 1, a / 2) == a / 2 % p
    ensures And(2 * p - 1, a) == a % (2 * p)
  {
    hide And;
    OddAnd(p, a);
    HalfMod(a, p);
  }

  lemma OddAnd(p: nat, a: nat)
    requires p > 0
    ensures And(2 * p - 1, a) == a % 2 + 2 * And(p - 1, a / 2)
  {
    AndBits(2 * p - 1, a);
    hide And;
    var m := 2 * p - 1;
    assert m % 2 == 1 && m / 2 == p - 1;
  }

  lemma HalfMod(a: nat, p: nat)
    requires p > 0
    ensures a % (2 * p) == a % 2 + 2 * (a / 2 % p)
  {
    var q, r := a / 2 / p, a / 2 % p;
    assert a / 2 == p * q + r;
    assert a == 2 * p * q + (2 * r + a % 2);
    ModIs(a, 2 * p, q, 2 * r + a % 2);
  }

  lemma ModIs(a: nat, m: nat, q: nat, r: nat)
    requires m > 0 && a == m * q + r && r < m
    ensures a % m == r && a / m == q
  {
    var p := a / m;
    DivMod(a, m);
    if p > q {
      MulStep(m, q, p);
    } else if p < q {
      MulStep(m, p, q);
    }
  }

  lemma NotNegative(a: nat, b: nat)
    ensures a * b >= 0
  {
  }

  /** The whole multiples of a in x, each taken as b. */
  function Scaled(x: nat, a: nat, b: nat): nat
    requires a > 0
  {
    NotNegative(x / a, b);
    x / a * b
  }

  lemma DivMod(a: nat, m: nat)
    requires m > 0
    ensures a == m * (a / m) + a % m
  {
  }

  lemma ModUnder(v: nat, q: nat)
    requires q > 0
    ensures v % q < q
  {
  }

  lemma ModLess(a: nat, m: nat)
    requires m > 0
    ensures a % m <= a
  {
    if a < m {
      ModIs(a, m, 0, a);
    }
  }

  /** A remainder after adding less than the modulus. */
  lemma ModPlus(m: nat, q: nat, r: nat, c: nat)
    requires c < m && r < m
    ensures (m * q + r + c) % m == if r + c >= m then r + c - m else r + c
  {
    if r + c >= m {
      Dist(m, q, 1);
      ModIs(m * q + r + c, m, q + 1, r + c - m);
    } else {
      ModIs(m * q + r + c, m, q, r + c);
    }
  }

  lemma MulStep(m: nat, x: nat, y: nat)
    requires x < y
    ensures m * x + m <= m * y
  {
    var d := y - x - 1;
    Dist(m, x + 1, d);
    Dist(m, x, 1);
    assert 0 <= m * d;
  }

  lemma Dist(m: int, x: int, y: int)
    ensures m * (x + y) == m * x + m * y
  {
  }

  /** Numbers without common bits add up. */
  lemma {:induction false} OrDisjoint(a: nat, b: nat, k: nat)
    requires a < Pow2(k)
    ensures Or(a, Pow2(k) * b) == a + Pow2(k) * b
  {
    if k > 0 {
      OrDisjoint(a / 2, b, k - 1);
      var c := Pow2(k - 1) * b;
      Double(Pow2(k - 1), b);
      EvenOr(a, c);
    } else {
      assert Pow2(0) * b == b;
    }
  }

  lemma Double(p: nat, b: nat)
    ensures 2 * p * b == 2 * (p * b)
  {
  }

  lemma EvenOr(a: nat, c: nat)
    ensures Or(a, 2 * c) == a % 2 + 2 * Or(a / 2, c)
  {
    OrBits(a, 2 * c);
  }

  lemma PowStep(k: nat)
    ensures Pow2(k + 1) == 2 * Pow2(k)
  {
  }

  lemma PowLess(a: nat, b: nat)
    requires a < b
    ensures 2 * Pow2(a) <= Pow2(b)
  {
    Pow2Add(a + 1, b - a - 1);
    assert Pow2(a + 1) == 2 * Pow2(a);
    GrowBy(Pow2(a + 1), Pow2(b - a - 1));
  }

  lemma GrowBy(p: nat, q: nat)
    requires q >= 1
    ensures p <= p * q
  {
  }

  lemma PowMono(a: nat, b: nat)
    requires a <= b
    ensures Pow2(a) <= Pow2(b)
  {
    if a < b {
      PowLess(a, b);
    }
  }

  lemma PowOrder(a: nat, b: nat)
    requires Pow2(a) < Pow2(b)
    ensures a < b
  {
    if b <= a {
      PowMono(b, a);
    }
  }

  /** Masking with ones above bit k clears the bits below. */
  lemma {:induction false} HighMask(n: nat, k: nat, x: nat)
    requires k <= n && x < Pow2(n)
    ensures Pow2(k) <= Pow2(n) && And(x, Pow2(n) - Pow2(k)) == x - x % Pow2(k)
  {
    if k == 0 {
      LowMask(x, n);
      AndComm(x, Pow2(n) - 1);
      SmallModulus(x, Pow2(n));
    } else {
      HighMask(n - 1, k - 1, x / 2);
      EvenAnd(x, Pow2(n - 1) - Pow2(k - 1));
      hide And;
      HalfMod(x, Pow2(k - 1));
    }
  }

  lemma SmallModulus(x: nat, m: nat)
    requires x < m
    ensures x % m == x && x % 1 == 0
  {
    ModIs(x, m, 0, x);
  }

  lemma EvenAnd(x: nat, b: nat)
    ensures And(x, 2 * b) == 2 * And(x / 2, b)
  {
    AndBits(x, 2 * b);
  }

  lemma DivDiv(a: nat, b: nat, c: nat)
    requires b > 0 && c > 0
    ensures b * c > 0 && a / (b * c) == a / b / c
  {
    var q, r := a / b / c, a / b % c;
    DivMod(a, b);
    DivMod(a / b, c);
    Dist(b, c * q, r);
    Reassoc(b, c, q);
    var low := b * r + a % b;
    assert a == b * c * q + low;
    MulStep(b, r, c);
    ModIs(a, b * c, q, low);
  }

  lemma Reassoc(b: nat, c: nat, q: nat)
    requires b > 0 && c > 0
    ensures b * (c * q) == b * c * q && b * c > 0
  {
  }

  lemma Powers()
    ensures Pow2(8) == 0x100 && Pow2(16) == 0x1_0000 && Pow2(32) == 0x1_0000_0000 && Pow2(64) == 0x1_0000_0000_0000_0000
    ensures Pow2(7) == 0x80 && Pow2(15) == 0x8000 && Pow2(31) == 0x8000_0000 && Pow2(63) == 0x8000_0000_0000_0000
  {
    assert Pow2(8) == 256;
    Pow2Add(8, 8);
    Pow2Add(16, 16);
    Pow2Add(32, 32);
    Pow2Add(8, 7);
    Pow2Add(16, 15);
    Pow2Add(32, 31);
  }

  /** Bit j of a number. */
  predicate HasBit(a: nat, j: nat) {
    if j == 0 then a % 2 == 1 else HasBit(a / 2, j - 1)
  }

  lemma {:induction false} OpBit(a: nat, b: nat, j: nat)
    ensures HasBit(And(a, b), j) <==> HasBit(a, j) && HasBit(b, j)
    ensures HasBit(Or(a, b), j) <==> HasBit(a, j) || HasBit(b, j)
    ensures HasBit(Xor(a, b), j) <==> HasBit(a, j) != HasBit(b, j)
  {
    AndBits(a, b);
    OrBits(a, b);
    XorBits(a, b);
    if j == 0 {
    } else {
      OpBit(a / 2, b / 2, j - 1);
    }
  }
}
