/**
 * Where fdt_pack and fdt_open_into fail: blobs whose list of reservations does not end before the structure
 * block, and blobs with sums of offsets and sizes that 32 bits do not hold.
 */
module PackLimits {
  import opened Bytes
  import Tokens
  import opened Blob
  import opened Parser
  import opened Repack
  import opened Reopen

  /** A memory that begins with words: a header at 0, and what follows it. */
  lemma HeaderRead(m: seq<byte>, ws: seq<u32>, tail: seq<byte>)
    requires |ws| >= 10 && m == Words(ws) + tail
    ensures Field(m, 0, MAGIC) == ws[0] && Field(m, 0, VERSION) == ws[5] && Field(m, 0, LAST_COMP) == ws[6]
    ensures HeaderAt(m, 0) == Header(ws[1], ws[4], ws[2], ws[3], ws[8], ws[9])
    ensures forall i :: 0 <= i < |ws| ==> Word(m, 4 * i) == ws[i]
  {
    hide Words, Word;
    forall i: nat | i < |ws| ensures Word(m, 4 * i) == ws[i] {
      WordsAt(ws, tail, i);
    }
    assert Word(m, 4 * 0) == ws[0] && Word(m, 4 * 1) == ws[1] && Word(m, 4 * 2) == ws[2] && Word(m, 4 * 3) == ws[3];
    assert Word(m, 4 * 4) == ws[4] && Word(m, 4 * 5) == ws[5] && Word(m, 4 * 6) == ws[6];
    assert Word(m, 4 * 8) == ws[8] && Word(m, 4 * 9) == ws[9];
  }

  /** The low word of a size of zero is zero. */
  lemma SizeWord(m: seq<byte>, h: Header, i: nat)
    requires h.totalsize <= |m| && RsvFits(h, i)
    ensures NoSize(m, h, i) ==> Word(m, h.offRsv + 16 * i + 12) == 0
  {
    var o := h.offRsv + 16 * i + 8;
    if m[o..o + 8] == [0, 0, 0, 0, 0, 0, 0, 0] {
      assert m[o + 4..o + 8] == m[o..o + 8][4..8] == Be32(0);
      WordBe32(m, o + 4, 0);
    }
  }

  /** A bare root and one reservation of size 1, with no terminator behind it. */
  function Unterminated(): seq<byte> {
    Words([FDT_MAGIC, 72, 56, 72, 40, 17, 16, 0, 0, 16] + [0, 0, 0, 1] + [1, 0, 2, 9])
  }

  lemma UnterminatedRead(m: seq<byte>)
    requires |m| >= 72 && m[..72] == Unterminated()
    ensures HeaderAt(m, 0) == Header(72, 40, 56, 72, 0, 16)
    ensures RoProbe(m, 0) == 72 && Field(m, 0, TOTALSIZE) == 72 && Field(m, 0, VERSION) == 17
    ensures forall i: nat :: !ListEnds(BlobAt(m, 0), HeaderAt(m, 0), i)
  {
    hide Words, Word, Field, NoSize;
    var ws: seq<u32> := [FDT_MAGIC, 72, 56, 72, 40, 17, 16, 0, 0, 16] + [0, 0, 0, 1] + [1, 0, 2, 9];
    assert m == Words(ws) + m[72..];
    HeaderRead(m, ws, m[72..]);
    var b, h := BlobAt(m, 0), HeaderAt(m, 0);
    SubWord(m, b, 52);
    SubWord(m, b, 68);
    assert Word(m, 4 * 13) == ws[13] == 1 && Word(m, 4 * 17) == ws[17] == 9;
    forall i: nat | RsvFits(h, i) ensures !NoSize(b, h, i) {
      SizeWord(b, h, i);
    }
  }

  /** The probe of fdt_pack finds nothing wrong with it, and the list has no end. */
  lemma UnterminatedEscapes(m: seq<byte>)
    requires m == Unterminated()
    ensures |m| == 72 && Field(m, 0, TOTALSIZE) == |m|
    ensures PackAnswer(m, 0) == 0 && !Misordered(HeaderAt(m, 0), RSV_ENTRY) && forall i: nat :: !Packable(m, 0, i)
  {
    hide Field, ListEnds;
    assert m[..72] == m;
    UnterminatedRead(m);
  }

  /** fdt_open_into takes the blocks to be out of order and, into a buffer apart from the blob, goes on to the moves. */
  lemma UnterminatedReopened(m: seq<byte>, t: nat, bufsize: nat)
    requires |m| >= 72 && m[..72] == Unterminated() && 72 <= t
    ensures Field(m, 0, TOTALSIZE) == 72
    ensures OpenAnswer(m, 0, t, bufsize, ListSize(m, 0)) == 0 && OpenEscapes(m, 0, t, bufsize, ListSize(m, 0))
  {
    hide Field, ListEnds;
    UnterminatedRead(m);
    ListSizeIs(m, 0, -Tokens.ERR_TRUNCATED);
  }

  /** A bare root behind a terminated list, with a size of the strings block so large that its end wraps to 0. */
  function Wrapping(): seq<byte> {
    Words([FDT_MAGIC, 72, 56, 72, 40, 17, 16, 0, U32 - 72, 16] + [0, 0, 0, 0] + [1, 0, 2, 9])
  }

  /** The probe of fdt_pack finds nothing wrong with it, and the list ends: 2^32 - 72 bytes are to be moved. */
  lemma WrappingEscapes(m: seq<byte>)
    requires m == Wrapping()
    ensures |m| == 72 && Field(m, 0, TOTALSIZE) == |m| && PackAnswer(m, 0) == 0
    ensures Misordered(HeaderAt(m, 0), RSV_ENTRY) && ListEnds(BlobAt(m, 0), HeaderAt(m, 0), 0)
  {
    hide Words, Word, Field;
    var ws: seq<u32> := [FDT_MAGIC, 72, 56, 72, 40, 17, 16, 0, U32 - 72, 16] + [0, 0, 0, 0] + [1, 0, 2, 9];
    assert m == Words(ws) + [];
    HeaderRead(m, ws, []);
    assert BlobAt(m, 0) == m && Word(m, 4 * 12) == ws[12] == 0 && Word(m, 4 * 13) == ws[13] == 0;
    BytesOfWord(m, 48);
    BytesOfWord(m, 52);
    Joined(m, 48, 52, 56);
    assert NoSize(m, HeaderAt(m, 0), 0);
  }

  /** Two blocks of 0x60000000 bytes that overlap, in a blob of 0x70000000 bytes with a terminated list. */
  predicate Huge(m: seq<byte>) {
    && |m| == 0x8000_0000
    && HeaderAt(m, 0) == Header(0x7000_0000, 0x1000, 40, 64, 0x6000_0000, 0x6000_0000)
    && Field(m, 0, MAGIC) == FDT_MAGIC && Field(m, 0, VERSION) == 17 && Field(m, 0, LAST_COMP) == 16
    && m[0x1008..0x1010] == [0, 0, 0, 0, 0, 0, 0, 0]
  }

  lemma AHugeBlob() returns (m: seq<byte>)
    ensures Huge(m)
  {
    hide Words, Word, Field;
    var ws: seq<u32> := [FDT_MAGIC, 0x7000_0000, 40, 64, 0x1000, 17, 16, 0, 0x6000_0000, 0x6000_0000];
    m := Words(ws) + seq(0x8000_0000 - 40, _ => 0);
    HeaderRead(m, ws, seq(0x8000_0000 - 40, _ => 0));
  }

  /** The size of the reordered blob is taken for negative, and a buffer of 0x10000000 bytes for large enough. */
  lemma HugeEscapes(m: seq<byte>)
    requires Huge(m)
    ensures ListSize(m, 0) == 16 && Contained(HeaderAt(m, 0), 16) && PackedSize(m, 0, 16) == 0xC000_0038
    ensures NewSize(m, 0, 16) == 0xC000_0038 - U32 && OpenAnswer(m, 0, 0x7000_0000, 0x1000_0000, 16) == 0
    ensures OpenEscapes(m, 0, 0x7000_0000, 0x1000_0000, 16)
  {
    hide Word, Field;
    var b := BlobAt(m, 0);
    SubSlice(m, 0, b, 0x1008, 0x1010);
    assert NoSize(b, HeaderAt(m, 0), 0);
    ListSizeIs(m, 0, 0);
  }

  /**
   * A root with a property "a" of twelve zero bytes, and one reservation of size 1.  The probe finds nothing wrong,
   * and the list is taken to end inside the value of the property.
   */
  function Overlapping(): seq<byte> {
    Words([FDT_MAGIC, 100, 56, 96, 40, 17, 16, 0, 4, 40] + [0, 0, 0, 1] + [1, 0, 3, 12, 0, 0, 0, 0, 2, 9]
      + [0x6100_0000])
    + Zeros(32)
  }

  lemma OverlappingRead(m: seq<byte>)
    requires m == Overlapping()
    ensures |m| == 132 && HeaderAt(m, 0) == Header(100, 40, 56, 96, 4, 40) && PackAnswer(m, 0) == 0
    ensures Field(m, 0, VERSION) == 17 && Word(m, 52) == 1 && Word(m, 64) == 3 && Word(m, 68) == 12
    ensures Word(m, 80) == 0 && Word(m, 84) == 0 && Word(m, 96) == 0x6100_0000
  {
    hide Words, Word, Field;
    var ws: seq<u32> := [FDT_MAGIC, 100, 56, 96, 40, 17, 16, 0, 4, 40] + [0, 0, 0, 1]
      + [1, 0, 3, 12, 0, 0, 0, 0, 2, 9] + [0x6100_0000];
    HeaderRead(m, ws, Zeros(32));
    assert Word(m, 4 * 13) == ws[13] && Word(m, 4 * 16) == ws[16] && Word(m, 4 * 17) == ws[17];
    assert Word(m, 4 * 20) == ws[20] && Word(m, 4 * 21) == ws[21] && Word(m, 4 * 24) == ws[24];
  }

  lemma OverlappingEnds(m: seq<byte>)
    requires m == Overlapping()
    ensures |m| == 132 && Field(m, 0, TOTALSIZE) == 100 && Packable(m, 0, 2)
  {
    hide Word, Field, Overlapping;
    OverlappingRead(m);
    var b, h := BlobAt(m, 0), HeaderAt(m, 0);
    SubWord(m, b, 52);
    SubWord(m, b, 68);
    SizeWord(b, h, 0);
    SizeWord(b, h, 1);
    BytesOfWord(m, 80);
    BytesOfWord(m, 84);
    SubSlice(m, 0, b, 80, 88);
    Joined(m, 80, 84, 88);
    assert NoSize(b, h, 2);
  }

  lemma Joined(m: seq<byte>, a: nat, b: nat, c: nat)
    requires a <= b <= c <= |m|
    ensures m[a..c] == m[a..b] + m[b..c]
  {
  }

  lemma SubWord(m: seq<byte>, b: seq<byte>, o: nat)
    requires |b| <= |m| && b == m[..|b|] && o + 4 <= |b|
    ensures Word(b, o) == Word(m, o)
  {
    assert b[o..o + 4] == m[o..o + 4];
    SameWord(b, o, m, o);
  }

  /** Packing it stores the structure block over the strings before they are moved: the name of the property is lost. */
  lemma OverlappingLoses(m: seq<byte>)
    requires m == Overlapping()
    ensures Bounded(m, 0, 0, 48) && !Safe(m, 0, 0, 48) && ContentAt(m, 0, 48).strings == [0x61, 0, 0, 0]
    ensures Taken(m, 0, 0, 48).strings == [0, 0, 0, 3]
  {
    hide Word, Field, Overlapping, Put, WithReserves;
    OverlappingRead(m);
    BytesOfWord(m, 64);
    BytesOfWord(m, 96);
    NoMove(m);
    var x := m[56..96];
    var p := Put(m, 88, x);
    PutSlice(m, 88, x, 96, 100);
    Lands(m, 88, x);
    SubSlice(p, 88, x, 8, 12);
    SubSlice(m, 56, x, 8, 12);
    Keeps(p, 8, Be32(88), 96, 4);
    Keeps(Put(p, 8, Be32(88)), 36, Be32(40), 96, 4);
  }

  /** Its reservations are where they belong, so the first move changes nothing. */
  lemma NoMove(m: seq<byte>)
    requires |m| == 132 && HeaderAt(m, 0) == Header(100, 40, 56, 96, 4, 40)
    ensures Bounded(m, 0, 0, 48) && WithReserves(m, 0, 0, 48) == m
  {
    hide Word, Be32;
    BytesOfWord(m, 16);
    assert Put(m, 40, m[40..88]) == m && Put(m, 16, m[16..20]) == m;
  }
}
