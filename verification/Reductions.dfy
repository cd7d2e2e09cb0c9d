/** Unpacking the source registers for the reduction model (reduction.cc). */
module Reductions {
  import opened Bytes
  import opened Bits
  import opened ReductionOps
  import opened Expressions
  import opened ReductionLaws
  import opened Lanes

  /** Byte n of a register given as 64-bit words. */
  function ByteOf(v64: seq<u64>, n: nat): byte
    requires n / 8 < |v64|
  {
    v64[n / 8] / Pow2(8 * (n % 8)) % 256
  }

  /** The words that hold vl elements of sew bytes. */
  function WordCount(vl: nat, sew: nat): nat
    requires sew in {1, 2, 4, 8}
  {
    (vl + 8 / sew - 1) / (8 / sew)
  }

  lemma EnoughWords(vl: nat, sew: nat)
    requires sew in {1, 2, 4, 8}
    ensures vl * sew <= 8 * WordCount(vl, sew) < vl * sew + 8
  {
    match sew
    case 1 =>
    case 2 =>
    case 4 =>
    case 8 =>
  }

  /** v64_to_v8 */
  method V64ToV8(v64: seq<u64>, v8: array<byte>, vl: nat, sew: nat)
    requires sew in {1, 2, 4, 8} && |v64| >= WordCount(vl, sew) && v8.Length == vl * sew
    modifies v8
    ensures forall n :: 0 <= n < v8.Length ==> n / 8 < |v64| && v8[n] == ByteOf(v64, n)
  {
    hide Pow2, WordCount;
    EnoughWords(vl, sew);
    var count, i := 0, 0;
    while i < WordCount(vl, sew)
      invariant 0 <= i <= WordCount(vl, sew) && count <= v8.Length
      invariant count == if 8 * i <= v8.Length then 8 * i else v8.Length
      invariant forall n :: 0 <= n < count ==> v8[n] == ByteOf(v64, n)
    {
      var j := 0;
      while j < 8 && count < vl * sew
        invariant 0 <= j <= 8 && count <= v8.Length && count == if 8 * i + j <= v8.Length then 8 * i + j else v8.Length
        invariant forall n :: 0 <= n < count ==> v8[n] == ByteOf(v64, n)
        decreases 8 - j
      {
        assert count / 8 == i && count % 8 == j;
        v8[count] := v64[i] / Pow2(j * 8) % 256;
        count := count + 1;
        j := j + 1;
      }
      i := i + 1;
    }
  }

  // ------------------------------------------------------ reading a packed register

  /** The low end of a number, one factor at a time. */
  lemma ModSplit(a: nat, p: nat)
    requires p > 0
    ensures a % (256 * p) == a % 256 + 256 * (a / 256 % p)
  {
    var q, r := a / 256 / p, a / 256 % p;
    DivMod(a / 256, p);
    assert a == 256 * (p * q + r) + a % 256;
    Reassoc2(p, q);
    ModIs(a, 256 * p, q, 256 * r + a % 256);
  }

  lemma Reassoc2(p: nat, q: nat)
    ensures 256 * (p * q) == (256 * p) * q
  {
  }

  /** The number in k bytes of a word, from byte s on. */
  function WordPart(w: nat, s: nat, k: nat): nat {
    if k == 0 then 0 else w / Pow2(8 * s) % Pow2(8 * k)
  }

  /** Consecutive bytes of one word, read as a little-endian number. */
  lemma {:induction false} WordBytes(v64: seq<u64>, v8: seq<byte>, start: nat, k: nat)
    requires |v8| <= 8 * |v64| && forall n :: 0 <= n < |v8| ==> v8[n] == ByteOf(v64, n)
    requires start + k <= |v8| && start % 8 + k <= 8 && start / 8 < |v64|
    ensures LittleEndian(v8, start, k) == WordPart(v64[start / 8], start % 8, k)
    decreases k
  {
    hide Pow2, ByteOf, LittleEndian, WordPart;
    OneByte(v8, start, k);
    if k == 0 {
      NoPart(v64[start / 8], start % 8);
    } else {
      ByteIs(v64, start);
      if k > 1 {
        NextIndex(start);
        WordBytes(v64, v8, start + 1, k - 1);
        NextPart(v64[start / 8], start % 8, k);
      }
    }
  }

  lemma NoPart(w: nat, s: nat)
    ensures WordPart(w, s, 0) == 0
  {
  }

  lemma NextPart(w: nat, s: nat, k: nat)
    requires k > 1
    ensures WordPart(w, s, k) == WordPart(w, s, 1) + 256 * WordPart(w, s + 1, k - 1)
  {
    assert Pow2(8) == 256;
    hide Pow2;
    Pow2Eight(8 * s);
    Pow2Eight(8 * k - 8);
    NextByte(w, Pow2(8 * s), Pow2(8 * k - 8));
  }

  lemma OneByte(v8: seq<byte>, start: nat, k: nat)
    requires start + k <= |v8|
    ensures k == 0 ==> LittleEndian(v8, start, k) == 0
    ensures k == 1 ==> LittleEndian(v8, start, k) == v8[start]
    ensures k > 1 ==> LittleEndian(v8, start, k) == v8[start] + 256 * LittleEndian(v8, start + 1, k - 1)
    ensures Pow2(0) == 1 && Pow2(8) == 256
  {
  }

  lemma NextIndex(i: nat)
    requires i % 8 < 7
    ensures (i + 1) / 8 == i / 8 && (i + 1) % 8 == i % 8 + 1
  {
  }

  lemma NextByte(w: nat, p: nat, q: nat)
    requires p > 0 && q > 0
    ensures w / p % 256 + 256 * (w / (256 * p) % q) == w / p % (256 * q)
  {
    DivDiv(w, p, 256);
    ModSplit(w / p, q);
  }

  lemma ByteIs(v64: seq<u64>, n: nat)
    requires n / 8 < |v64|
    ensures ByteOf(v64, n) == WordPart(v64[n / 8], n % 8, 1)
  {
  }

  /** Element n of b bytes in a register. */
  function RegElem(v64: seq<u64>, n: nat, b: nat): nat
    requires n * b / 8 < |v64|
  {
    v64[n * b / 8] / Pow2(8 * (n * b % 8)) % Pow2(8 * b)
  }

  predicate RegBit(v64: seq<u64>, i: nat)
    requires i / 64 < |v64|
  {
    v64[i / 64] / Pow2(i % 64) % 2 == 1
  }

  /** A byte buffer filled from a register. */
  ghost predicate Packed(v64: seq<u64>, v8: seq<byte>) {
    |v8| <= 8 * |v64| && forall n :: 0 <= n < |v8| ==> v8[n] == ByteOf(v64, n)
  }

  /** Elements never straddle words. */
  lemma InWord(n: nat, b: nat)
    requires b in {1, 2, 4, 8}
    ensures n * b % 8 + b <= 8
  {
    match b
    case 1 =>
    case 2 =>
    case 4 =>
    case 8 =>
  }

  lemma PackedElem(v64: seq<u64>, v8: seq<byte>, vl: nat, b: nat, n: nat)
    requires b in {1, 2, 4, 8} && Packed(v64, v8) && |v8| == vl * b && n < vl
    ensures n * b / 8 < |v64| && Elements(v8, b, vl)[n] == RegElem(v64, n, b)
  {
    hide Pow2, LittleEndian, ByteOf;
    ElemsFit(b, vl, n);
    ElementIs(v8, b, vl, n);
    InWord(n, b);
    WordBytes(v64, v8, n * b, b);
  }

  /** The low k bits of a number. */
  lemma {:induction false} LowBit(x: nat, k: nat, r: nat)
    requires r < k
    ensures x % Pow2(k) / Pow2(r) % 2 == x / Pow2(r) % 2
  {
    var p := Pow2(k - 1);
    HalfMod(x, p);
    HalfOf(x, p);
    if r == 0 {
      assert Pow2(0) == 1;
    } else {
      LowBit(x / 2, k - 1, r - 1);
      DivDiv(x, 2, Pow2(r - 1));
      DivDiv(x % Pow2(k), 2, Pow2(r - 1));
    }
  }

  lemma HalfOf(x: nat, p: nat)
    requires p > 0 && x % (2 * p) == x % 2 + 2 * (x / 2 % p)
    ensures x % (2 * p) % 2 == x % 2 && x % (2 * p) / 2 == x / 2 % p
  {
  }

  lemma BitIndex(i: nat)
    ensures i / 8 / 8 == i / 64 && i % 64 == 8 * (i / 8 % 8) + i % 8
  {
  }

  lemma PackedBit(v64: seq<u64>, v8: seq<byte>, i: nat)
    requires Packed(v64, v8) && i / 8 < |v8|
    ensures i / 64 < |v64| && (MaskBit(v8, i) <==> RegBit(v64, i))
  {
    hide Pow2, ByteOf, WordPart;
    BitIndex(i);
    ByteIs(v64, i / 8);
    PackedBitOf(v64[i / 64], i / 8 % 8, i % 8);
  }

  lemma PackedBitOf(w: nat, q: nat, r: nat)
    requires r < 8
    ensures WordPart(w, q, 1) / Pow2(r) % 2 == w / Pow2(8 * q + r) % 2
  {
    assert Pow2(8) == 256;
    hide Pow2;
    LowBit(w / Pow2(8 * q), 8, r);
    Pow2Add(8 * q, r);
    DivDiv(w, Pow2(8 * q), Pow2(r));
  }

  /** The elements that the mask register leaves active, in order. */
  function ActiveElems(vmask: seq<u64>, n: nat, masking: bool): seq<Input>
    requires n <= 64 * |vmask|
  {
    if n == 0 then [] else
    ActiveElems(vmask, n - 1, masking) + if !masking || RegBit(vmask, n - 1) then [Elem(n - 1)] else []
  }

  lemma ActiveStep(vmask: seq<u64>, n: nat, masking: bool)
    requires n <= 64 * |vmask|
    ensures n == 0 ==> ActiveElems(vmask, n, masking) == []
    ensures n > 0 ==>
      ActiveElems(vmask, n, masking)
      == ActiveElems(vmask, n - 1, masking) + if !masking || RegBit(vmask, n - 1) then [Elem(n - 1)] else []
  {
  }

  lemma PackedSize(v64: seq<u64>, v8: seq<byte>)
    requires Packed(v64, v8)
    ensures |v8| <= 8 * |v64|
  {
  }

  lemma {:induction false} OrderIs(vmask: seq<u64>, v8: seq<byte>, n: nat, masking: bool)
    requires Packed(vmask, v8) && n <= 8 * |v8|
    ensures n <= 64 * |vmask| && InOrder(masking, v8, n) == [Scalar] + ActiveElems(vmask, n, masking)
  {
    hide RegBit, MaskBit, ByteOf, InOrder, Active, Packed, ActiveElems;
    PackedSize(vmask, v8);
    ActiveStep(vmask, n, masking);
    if n == 0 {
      InOrderStart(masking, v8);
    } else {
      InOrderStep(masking, v8, n - 1);
      OrderIs(vmask, v8, n - 1, masking);
      ByteIndex(n - 1, |v8|);
      PackedBit(vmask, v8, n - 1);
      Assoc([Scalar], ActiveElems(vmask, n - 1, masking),
            if !masking || RegBit(vmask, n - 1) then [Elem(n - 1)] else []);
    }
  }

  lemma ByteIndex(i: nat, size: nat)
    requires i < 8 * size
    ensures i / 8 < size
  {
  }

  /** Unpack the registers and set the reduction up. */
  method Load(r: ReductionOp, scalar: u64, ins: u32, vsew: nat, vl: nat, vmask: seq<u64>, vs2: seq<u64>, trees: nat)
    requires vsew in {8, 16, 32, 64} && (ins / 0x4000_0000 == 3 ==> vsew <= 32)
    requires |vs2| >= WordCount(vl, vsew / 8) && |vmask| >= WordCount(vl, vsew / 8)
    modifies r
    ensures ValidOp(r.op) && r.op.vsew == vsew && r.op.ins == Decode(ins) && r.vl == vl
    ensures |r.vs| == |r.vmask| == vl * (vsew / 8) && Packed(vs2, r.vs) && Packed(vmask, r.vmask)
    ensures InRange(r.op, r.scalar) && r.scalar == scalar % Pow2(ResultSew(r.op))
    ensures r.op.cvt == old(r.op).cvt && r.op.fp == old(r.op).fp
    ensures r.laneNum == old(r.laneNum) && r.accumNumFp == old(r.accumNumFp) && r.accumNumInt == old(r.accumNumInt)
  {
    hide Pow2, WordCount, ByteOf;
    EnoughWords(vl, vsew / 8);
    var vs, mask := new byte[vl * (vsew / 8)], new byte[vl * (vsew / 8)];
    V64ToV8(vs2, vs, vl, vsew / 8);
    V64ToV8(vmask, mask, vl, vsew / 8);
    r.ReductionSetup(vsew, vl, scalar, vs[..], mask[..], ins, trees);
  }
}
