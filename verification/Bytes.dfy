/** Bytes, big-endian words and the alignment arithmetic of the blob format. */
module Bytes {
  const U32 := 0x1_0000_0000
  const U64 := 0x1_0000_0000_0000_0000
  const INT_MAX := 0x7FFF_FFFF

  datatype Option<+T> = None | Some(value: T)

  type byte = x: int | 0 <= x < 256
  type u32 = x: int | 0 <= x < 0x1_0000_0000
  type u64 = x: int | 0 <= x < 0x1_0000_0000_0000_0000

  /** FDT_TAGALIGN: round up to a multiple of four. */
  function Align4(n: nat): nat {
    (n + 3) / 4 * 4
  }

  /** A word taken for a signed number, and a signed number taken for one of 64 bits without a sign. */
  function Int32(w: int): int {
    if w % U32 <= INT_MAX then w % U32 else w % U32 - U32
  }

  function Size64(n: int): u64 {
    n % U64
  }

  lemma Align4Add(o: nat, n: nat)
    requires o % 4 == 0
    ensures Align4(o + n) == o + Align4(n)
  {
  }

  lemma Align4Mono(a: nat, b: nat)
    requires a <= b
    ensures a <= Align4(a) <= Align4(b)
  {
  }

  lemma AlignedSum(a: nat, b: nat)
    requires a % 4 == 0 && b % 4 == 0
    ensures (a + b) % 4 == 0
  {
  }

  function Be32(w: nat): (b: seq<byte>)
    ensures |b| == 4
  {
    [w / 0x100_0000 % 256, w / 0x1_0000 % 256, w / 256 % 256, w % 256]
  }

  function Word(s: seq<byte>, o: nat): u32
    requires o + 4 <= |s|
  {
    var a: int, b: int, c: int, d: int := s[o], s[o + 1], s[o + 2], s[o + 3];
    ((a * 256 + b) * 256 + c) * 256 + d
  }

  /** fdt64_ld: the number in eight bytes, the most significant first. */
  function Word64(s: seq<byte>, o: nat): u64
    requires o + 8 <= |s|
  {
    var a: int, b: int, c: int, d: int := s[o], s[o + 1], s[o + 2], s[o + 3];
    var e: int, f: int, g: int, h: int := s[o + 4], s[o + 5], s[o + 6], s[o + 7];
    a * 0x100_0000_0000_0000 + b * 0x1_0000_0000_0000 + c * 0x100_0000_0000 + d * 0x1_0000_0000
    + e * 0x100_0000 + f * 0x1_0000 + g * 0x100 + h
  }

  /** It is that of two words. */
  lemma TwoWords(s: seq<byte>, o: nat)
    requires o + 8 <= |s|
    ensures Word64(s, o) == Word(s, o) * U32 + Word(s, o + 4)
  {
  }

  lemma WordBe32(s: seq<byte>, o: nat, w: u32)
    requires o + 4 <= |s| && s[o..o + 4] == Be32(w)
    ensures Word(s, o) == w
  {
    var x, y, z: nat := w / 256, w / 0x1_0000, w / 0x100_0000;
    Quotients(w);
    assert s[o..o + 4] == [z % 256, y % 256, x % 256, w % 256];
    assert s[o] == s[o..o + 4][0] && s[o + 1] == s[o..o + 4][1];
    assert s[o + 2] == s[o..o + 4][2] && s[o + 3] == s[o..o + 4][3];
    assert z % 256 == z;
    assert (z * 256 + y % 256) * 256 + x % 256 == x;
  }

  lemma Quotients(w: u32)
    ensures w == w / 256 * 256 + w % 256 && w / 256 == w / 0x1_0000 * 256 + w / 256 % 256
    ensures w / 0x1_0000 == w / 0x100_0000 * 256 + w / 0x1_0000 % 256 && w / 0x100_0000 < 256
  {
  }

  /** A word, written again, is the four bytes that it was read from. */
  lemma BytesOfWord(s: seq<byte>, o: nat)
    requires o + 4 <= |s|
    ensures Be32(Word(s, o)) == s[o..o + 4]
  {
    Bytes4(s[o], s[o + 1], s[o + 2], s[o + 3]);
  }

  lemma Bytes4(a: byte, b: byte, c: byte, d: byte)
    ensures Be32(((a as int * 256 + b) * 256 + c) * 256 + d) == [a, b, c, d]
  {
    var x: nat := a as int * 256 + b;
    var y: nat := x * 256 + c;
    var w: nat := y * 256 + d;
    assert w / 256 == y && w / 0x1_0000 == x && w / 0x100_0000 == a as int;
    assert w % 256 == d && y % 256 == c && x % 256 == b;
  }

  /** A word is determined by its four bytes. */
  lemma SameWord(n: seq<byte>, a: nat, m: seq<byte>, b: nat)
    requires a + 4 <= |n| && b + 4 <= |m| && n[a..a + 4] == m[b..b + 4]
    ensures Word(n, a) == Word(m, b)
  {
    var x, y := n[a..a + 4], m[b..b + 4];
    assert forall k :: 0 <= k < 4 ==> x[k] == n[a + k] && y[k] == m[b + k];
  }

  /** Big-endian words, one after the other. */
  function Words(ws: seq<u32>): (b: seq<byte>)
    ensures |b| == 4 * |ws|
  {
    if ws == [] then [] else Be32(ws[0]) + Words(ws[1..])
  }

  lemma {:induction false} WordsAt(ws: seq<u32>, rest: seq<byte>, i: nat)
    requires i < |ws|
    ensures Word(Words(ws) + rest, 4 * i) == ws[i]
  {
    hide Be32, Word;
    var m, tail := Words(ws) + rest, Words(ws[1..]) + rest;
    assert m == Be32(ws[0]) + tail;
    if i == 0 {
      assert m[0..4] == Be32(ws[0]);
      WordBe32(m, 0, ws[0]);
    } else {
      WordsAt(ws[1..], rest, i - 1);
      assert m[4 * i..4 * i + 4] == tail[4 * (i - 1)..4 * (i - 1) + 4];
      SameWord(m, 4 * i, tail, 4 * (i - 1));
    }
  }

  function Zeros(n: nat): (z: seq<byte>)
    ensures |z| == n && forall i :: 0 <= i < n ==> z[i] == 0
  {
    seq(n, i => 0)
  }

  /** Index of the first NUL at or after o, or |s| when there is none. */
  function Nul(s: seq<byte>, o: nat): (z: nat)
    requires o <= |s|
    ensures o <= z <= |s|
    ensures z < |s| ==> s[z] == 0
    ensures forall k :: o <= k < z ==> s[k] != 0
    decreases |s| - o
  {
    if o == |s| || s[o] == 0 then o else Nul(s, o + 1)
  }

  lemma Assoc<T>(a: seq<T>, b: seq<T>, c: seq<T>)
    ensures a + (b + c) == (a + b) + c
  {
  }

  lemma SubSlice<T>(s: seq<T>, o: nat, e: seq<T>, a: nat, b: nat)
    requires o + |e| <= |s| && s[o..o + |e|] == e && a <= b <= |e|
    ensures s[o + a..o + b] == e[a..b]
  {
    forall k | 0 <= k < b - a ensures s[o + a..o + b][k] == e[a..b][k] {
      assert e[a + k] == s[o..o + |e|][a + k];
    }
  }

  /** m with bytes x stored at `at`. */
  function Put(m: seq<byte>, at: nat, x: seq<byte>): (r: seq<byte>)
    requires at + |x| <= |m|
    ensures |r| == |m|
  {
    m[..at] + x + m[at + |x|..]
  }

  /** memcpy into a buffer. */
  method Store(buf: array<byte>, at: nat, bytes: seq<byte>)
    requires at + |bytes| <= buf.Length
    modifies buf
    ensures buf[..] == Put(old(buf[..]), at, bytes)
  {
    forall i | 0 <= i < |bytes| {
      buf[at + i] := bytes[i];
    }
  }

  /** What a store does to the slices around it. */
  lemma PutSlice(m: seq<byte>, at: nat, x: seq<byte>, a: nat, b: nat)
    requires at + |x| <= |m| && a <= b <= |m|
    ensures b <= at || at + |x| <= a ==> Put(m, at, x)[a..b] == m[a..b]
    ensures a <= at && at + |x| <= b ==> Put(m, at, x)[a..b] == m[a..at] + x + m[at + |x|..b]
  {
    var p := Put(m, at, x);
    if a <= at && at + |x| <= b {
      assert p[a..b] == p[a..at] + p[at..at + |x|] + p[at + |x|..b];
      assert p[a..at] == m[a..at] && p[at..at + |x|] == x && p[at + |x|..b] == m[at + |x|..b];
    }
  }

  /** memmove within a buffer. */
  method Move(buf: array<byte>, to: nat, from: nat, n: nat)
    requires to + n <= buf.Length && from + n <= buf.Length
    modifies buf
    ensures buf[..] == Put(old(buf[..]), to, old(buf[..])[from..from + n])
  {
    forall i | 0 <= i < n {
      buf[to + i] := buf[from + i];
    }
  }
}
