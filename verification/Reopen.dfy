/**
 * fdt_open_into: a blob is moved, or rebuilt with its blocks in order, into a buffer that may
 * overlap it.
 */
module Reopen {
  import opened Bytes
  import opened Tokens
  import opened Trees
  import opened Views
  import opened Splices
  import opened Blob
  import opened Parser
  import opened Repack

  /** Every block lies inside the total size, in any order. */
  predicate Contained(h: Header, mrs: nat) {
    && HEADER_SIZE <= h.totalsize && h.offRsv + mrs <= h.totalsize
    && h.offStruct + h.sizeStruct <= h.totalsize && h.offStrings + h.sizeStrings <= h.totalsize
  }

  /** The size that fdt_open_into takes for the reservations: that of the list, or what an error code makes of it. */
  ghost function ListSize(m: seq<byte>, o: nat): int
    requires o + HEADER_SIZE <= |m| && o + Field(m, o, TOTALSIZE) <= |m|
  {
    if exists k: nat :: ListEnds(BlobAt(m, o), HeaderAt(m, o), k) then
      var k: nat :| ListEnds(BlobAt(m, o), HeaderAt(m, o), k);
      16 * (k + 1)
    else 16 * (1 - ERR_TRUNCATED)
  }

  lemma ListSizeIs(m: seq<byte>, o: nat, n: int)
    requires o + HEADER_SIZE <= |m| && o + Field(m, o, TOTALSIZE) <= |m|
    requires n >= 0 ==> ListEnds(BlobAt(m, o), HeaderAt(m, o), n)
    requires n < 0 ==> n == -ERR_TRUNCATED && forall k: nat :: !ListEnds(BlobAt(m, o), HeaderAt(m, o), k)
    ensures ListSize(m, o) == 16 * (n + 1)
  {
    hide Field, ListEnds;
    if n >= 0 {
      var k: nat :| ListEnds(BlobAt(m, o), HeaderAt(m, o), k) && ListSize(m, o) == 16 * (k + 1);
      OneEnding(BlobAt(m, o), HeaderAt(m, o), n, k);
    }
  }

  /** The size of the reordered blob, an int. */
  function NewSize(m: seq<byte>, o: nat, mrs: int): int
    requires o + HEADER_SIZE <= |m|
  {
    Int32(HEADER_SIZE + mrs + Field(m, o, SIZE_STRUCT) + Field(m, o, SIZE_STRINGS))
  }

  /** It is the true size exactly when that is an int. */
  lemma SizeExact(m: seq<byte>, o: nat, mrs: nat)
    requires o + HEADER_SIZE <= |m|
    ensures NewSize(m, o, mrs) == PackedSize(m, o, mrs) <==> PackedSize(m, o, mrs) <= INT_MAX
    ensures NewSize(m, o, mrs) <= INT_MAX
  {
    hide Field;
  }

  /** Where the new blob is built: at buf, or behind the old blob when that would overlap it. */
  function BuildAt(o: nat, total: nat, t: nat, newsize: int): nat {
    if t + newsize > o && t < o + total then o + total else t
  }

  /** At buf when the new blob would end before the old one, or begin behind it; otherwise behind the old one. */
  lemma BuildAtIs(o: nat, total: nat, t: nat, newsize: int)
    ensures BuildAt(o, total, t, newsize) == if t + newsize <= o || o + total <= t then t else o + total
  {
  }

  /** What fdt_open_into answers. */
  function OpenAnswer(m: seq<byte>, o: nat, t: nat, bufsize: nat, mrs: int): int
    requires o + HEADER_SIZE <= |m|
  {
    var h, newsize := HeaderAt(m, o), NewSize(m, o, mrs);
    if RoProbe(m, o) < 0 then RoProbe(m, o)
    else if SaysOrdered(h, mrs) then if h.totalsize > bufsize then -ERR_NOSPACE else 0
    else if BuildAt(o, h.totalsize, t, newsize) + newsize > t + bufsize then -ERR_NOSPACE else 0
  }

  /** The answer is right exactly when the new size is an int, or there is no room for what it is taken for. */
  lemma RoomExact(m: seq<byte>, o: nat, t: nat, bufsize: nat, mrs: nat)
    requires o + HEADER_SIZE <= |m| && RoProbe(m, o) >= 0 && !SaysOrdered(HeaderAt(m, o), mrs) && bufsize <= INT_MAX
    ensures var total, size, newsize := Field(m, o, TOTALSIZE), PackedSize(m, o, mrs), NewSize(m, o, mrs);
      (OpenAnswer(m, o, t, bufsize, mrs) == 0 <==> BuildAt(o, total, t, size) + size <= t + bufsize)
      <==> size <= INT_MAX || BuildAt(o, total, t, newsize) + newsize > t + bufsize
  {
    hide Field, SaysOrdered, NewSize, RoProbe;
    SizeExact(m, o, mrs);
  }

  /** What reordering needs: a list that ends, blocks in the blob, and a new blob whose size is an int. */
  predicate Reorderable(m: seq<byte>, o: nat, mrs: int)
    requires o + HEADER_SIZE <= |m|
  {
    mrs > 0 && Contained(HeaderAt(m, o), mrs) && PackedSize(m, o, mrs) <= INT_MAX
  }

  /**
   * When fdt_open_into leaves its buffers: with a total size that cuts the header, or when it reorders a
   * list without an end, a block that is not in the blob, or more bytes than an int counts.
   */
  predicate OpenEscapes(m: seq<byte>, o: nat, t: nat, bufsize: nat, mrs: int)
    requires o + HEADER_SIZE <= |m|
  {
    && RoProbe(m, o) >= 0
    && (|| Field(m, o, TOTALSIZE) < HEADER_SIZE
        || (!SaysOrdered(HeaderAt(m, o), mrs) && OpenAnswer(m, o, t, bufsize, mrs) == 0 && !Reorderable(m, o, mrs)))
  }

  /** It stays inside for every blob that holds its header, its list and its blocks, when the new size is an int. */
  lemma StaysInside(m: seq<byte>, o: nat, t: nat, bufsize: nat, mrs: nat)
    requires o + HEADER_SIZE <= |m| && mrs >= 16 && PackedSize(m, o, mrs) <= 0x7FFF_FFFF
    requires var total := Field(m, o, TOTALSIZE);
      && 40 <= total && Field(m, o, OFF_RSV) + mrs <= total
      && Field(m, o, OFF_STRUCT) + Field(m, o, SIZE_STRUCT) <= total
      && Field(m, o, OFF_STRINGS) + Field(m, o, SIZE_STRINGS) <= total
    ensures !OpenEscapes(m, o, t, bufsize, mrs)
  {
    hide Field;
  }

  /** Memory after fdt_open_into when the blocks are taken to be in order: a copy with a new size. */
  function CopyResult(m: seq<byte>, o: nat, t: nat, bufsize: u32): (r: seq<byte>)
    requires o + HEADER_SIZE <= |m| && o + Field(m, o, TOTALSIZE) <= |m|
    requires t + HEADER_SIZE <= |m| && t + Field(m, o, TOTALSIZE) <= |m|
    ensures |r| == |m|
  {
    var copy := Put(m, t, m[o..o + Field(m, o, TOTALSIZE)]);
    Put(Put(Put(copy, t + VERSION, Be32(17)), t + SIZE_STRUCT, Be32(Field(m, o, SIZE_STRUCT))),
        t + TOTALSIZE, Be32(bufsize))
  }

  /** After fdt_open_into: an ordered blob of the size of the buffer, with the content of the old one. */
  ghost predicate Opened(m: seq<byte>, n: seq<byte>, o: nat, t: nat, bufsize: nat, mrs: nat) {
    && Inside(m, o, mrs) && |n| == |m| && Inside(n, t, mrs) && ContentAt(n, t, mrs) == ContentAt(m, o, mrs)
    && !Misordered(HeaderAt(n, t), mrs) && Field(n, t, TOTALSIZE) == bufsize && Field(n, t, VERSION) == 17
    && Untouched(m, n, t, bufsize)
  }

  /**
   * Byte j of memory when the boot CPU is read from the old header, with the new blob of len bytes in
   * its place at t: a byte of the new blob, save that its own boot CPU is not set yet and still is
   * what lay in memory where the blob was built.
   */
  function OldByte(m: seq<byte>, n: seq<byte>, t: nat, tmp: nat, len: nat, j: nat): byte
    requires j < |m| == |n| && t + HEADER_SIZE <= |m| && tmp + HEADER_SIZE <= |m|
  {
    if t + BOOT_CPU <= j < t + BOOT_CPU + 4 then m[tmp + (j - t)] else if t <= j < t + len then n[j] else m[j]
  }

  /** The boot CPU of the reordered blob: the word at its place in the old header, as memory is by then. */
  function BootRead(m: seq<byte>, n: seq<byte>, o: nat, t: nat, tmp: nat, len: nat): u32
    requires o + HEADER_SIZE <= |m| == |n| && t + HEADER_SIZE <= |m| && tmp + HEADER_SIZE <= |m|
  {
    var j := o + BOOT_CPU;
    Word([OldByte(m, n, t, tmp, len, j), OldByte(m, n, t, tmp, len, j + 1),
          OldByte(m, n, t, tmp, len, j + 2), OldByte(m, n, t, tmp, len, j + 3)], 0)
  }

  /** The boot CPU is kept when the new blob is clear of its four bytes in the old header. */
  lemma BootKept(m: seq<byte>, n: seq<byte>, o: nat, t: nat, tmp: nat, len: nat)
    requires o + HEADER_SIZE <= |m| == |n| && t + HEADER_SIZE <= |m| && tmp + HEADER_SIZE <= |m| && HEADER_SIZE <= len
    requires Apart(t, len, o + BOOT_CPU, 4)
    ensures BootRead(m, n, o, t, tmp, len) == Field(m, o, BOOT_CPU)
  {
  }

  /**
   * Reordered in place, it comes from memory behind the old blob; elsewhere, from the new blob where that covers it.
   */
  lemma BootLost(m: seq<byte>, n: seq<byte>, o: nat, t: nat, tmp: nat, len: nat)
    requires o + HEADER_SIZE <= |m| == |n| && t + HEADER_SIZE <= |m| && tmp + HEADER_SIZE <= |m| && HEADER_SIZE <= len
    ensures t == o ==> BootRead(m, n, o, t, tmp, len) == Field(m, tmp, BOOT_CPU)
    ensures t <= o + BOOT_CPU && o + BOOT_CPU + 4 <= t + len && Apart(t, 4, o, 4) ==>
      BootRead(m, n, o, t, tmp, len) == Word(n, o + BOOT_CPU)
  {
  }

  // ------------------------------------------------- a blob that loses its boot CPU

  /** The structure block of a tree that is a bare root. */
  const BARE_ROOT: seq<Token> := [Begin([], [0, 0, 0]), EndNode, End]

  lemma BareRoot()
    ensures EncAll(BARE_ROOT) == Words([1, 0, 2, 9])
  {
    var ws: seq<u32> := [1, 0, 2, 9];
    assert Enc(Begin([], [0, 0, 0])) == Be32(1) + Be32(0) && Be32(0) == [0, 0, 0, 0];
    assert BARE_ROOT[1..] == [EndNode, End] && [EndNode, End][1..] == [End] && [End][1..] == [];
    assert ws[1..] == [0, 2, 9] && ws[2..] == [2, 9] && ws[3..] == [9] && ws[4..] == [];
    assert EncAll(BARE_ROOT) == Be32(1) + Be32(0) + (Be32(2) + (Be32(9) + []));
  }

  /** The fields that locate no block: copied, or those of a new header. */
  ghost predicate OpenedHeader(m: seq<byte>, n: seq<byte>, o: nat, t: nat, mrs: nat)
    requires o + HEADER_SIZE <= |m| == |n| && t + HEADER_SIZE <= |m|
  {
    var total := Field(m, o, TOTALSIZE);
    if !Misordered(HeaderAt(m, o), mrs) then
      && Field(n, t, MAGIC) == Field(m, o, MAGIC) && Field(n, t, LAST_COMP) == Field(m, o, LAST_COMP)
      && Field(n, t, BOOT_CPU) == Field(m, o, BOOT_CPU)
    else
      var tmp := BuildAt(o, total, t, PackedSize(m, o, mrs));
      && Field(n, t, MAGIC) == FDT_MAGIC && Field(n, t, LAST_COMP) == 16 && tmp + HEADER_SIZE <= |m|
      && Field(n, t, BOOT_CPU) == BootRead(m, n, o, t, tmp, PackedSize(m, o, mrs))
  }

  /** A blob of 72 bytes with a bare root, boot CPU 7 and its reservations last, in a memory of 144 bytes. */
  predicate Reversed(m: seq<byte>) {
    && |m| == 144 && HeaderAt(m, 0) == Header(72, 56, 40, 72, 0, 16) && Field(m, 0, MAGIC) == FDT_MAGIC
    && Field(m, 0, VERSION) == 17 && Field(m, 0, LAST_COMP) == 16 && Field(m, 0, BOOT_CPU) == 7
    && m[40..56] == EncAll(BARE_ROOT) && m[56..144] == Zeros(88)
  }

  lemma AReversedBlob() returns (m: seq<byte>)
    ensures Reversed(m)
  {
    hide Words, Word, EncAll;
    var ws: seq<u32> := [FDT_MAGIC, 72, 40, 72, 56, 17, 16, 7, 0, 16];
    var tail := Words([1, 0, 2, 9]) + Zeros(88);
    m := Words(ws) + tail;
    forall i: nat | i < 10 ensures Word(m, 4 * i) == ws[i] {
      WordsAt(ws, tail, i);
    }
    assert Word(m, 4 * 0) == ws[0] && Word(m, 4 * 1) == ws[1] && Word(m, 4 * 2) == ws[2] && Word(m, 4 * 3) == ws[3];
    assert Word(m, 4 * 4) == ws[4] && Word(m, 4 * 5) == ws[5] && Word(m, 4 * 6) == ws[6] && Word(m, 4 * 7) == ws[7];
    assert Word(m, 4 * 8) == ws[8] && Word(m, 4 * 9) == ws[9];
    BareRoot();
    assert m[40..56] == tail[0..16] == Words([1, 0, 2, 9]) && m[56..144] == tail[16..104] == Zeros(88);
  }

  /** fdt_open_into takes it: it has one terminating reservation, and its tree is a bare root. */
  lemma ReversedOpens(m: seq<byte>)
    requires Reversed(m)
    ensures Inside(m, 0, 16) && ContentAt(m, 0, 16).structure == EncAll(BARE_ROOT) && Contained(HeaderAt(m, 0), 16)
    ensures ListSize(m, 0) == 16 && OpenAnswer(m, 0, 0, 144, 16) == 0 && !OpenEscapes(m, 0, 0, 144, 16)
  {
    hide Field, EncAll, Zeros;
    var b := BlobAt(m, 0);
    assert b == m[0..0 + 72];
    SubSlice(m, 0, b, 64, 72);
    SubSlice(m, 56, Zeros(88), 8, 16);
    assert b[64..72] == Zeros(88)[8..16] == [0, 0, 0, 0, 0, 0, 0, 0];
    assert NoSize(b, HeaderAt(m, 0), 0);
    ListSizeIs(m, 0, 0);
  }

  /** Opened in place it loses its boot CPU. */
  lemma BootExample(m: seq<byte>, n: seq<byte>)
    requires Reversed(m) && |n| == |m| && OpenedHeader(m, n, 0, 0, 16)
    ensures Field(m, 0, BOOT_CPU) == 7 && Field(n, 0, BOOT_CPU) == 0
  {
    hide Word, BootRead, EncAll, Zeros;
    BootLost(m, n, 0, 0, 72, 72);
    assert m[100..104] == m[56..144][44..48] == Zeros(88)[44..48] == Be32(0);
    WordBe32(m, 100, 0);
  }

  /** The header and the blocks lie in the first len bytes. */
  predicate Within(m: seq<byte>, o: nat, mrs: nat, len: nat)
    requires o + HEADER_SIZE <= |m|
  {
    && HEADER_SIZE <= len && Field(m, o, OFF_RSV) + mrs <= len
    && Field(m, o, OFF_STRUCT) + Field(m, o, SIZE_STRUCT) <= len
    && Field(m, o, OFF_STRINGS) + Field(m, o, SIZE_STRINGS) <= len
  }

  /** A stretch with a header and its blocks has been moved from o to t. */
  lemma Copied(m: seq<byte>, n: seq<byte>, o: nat, t: nat, len: nat, mrs: nat)
    requires o + len <= |m| && t + len <= |m| && n == Put(m, t, m[o..o + len]) && Inside(m, o, mrs)
    requires Within(m, o, mrs, len)
    ensures |n| == |m| && Inside(n, t, mrs) && ContentAt(n, t, mrs) == ContentAt(m, o, mrs) && Untouched(m, n, t, len)
    ensures forall g: nat :: IsField(g) ==> Field(n, t, g) == Field(m, o, g)
  {
    hide Put, Word;
    var x := m[o..o + len];
    Lands(m, t, x);
    forall g: nat | IsField(g) ensures Field(n, t, g) == Field(m, o, g) {
      SubSlice(n, t, x, g, g + 4);
      SubSlice(m, o, x, g, g + 4);
      SameWord(n, t + g, m, o + g);
    }
    CopiedBlocks(m, n, o, t, len, mrs);
    forall a: nat, k: nat | a + k <= |m| && Apart(t, len, a, k) ensures Same(m, n, a, k) {
      Keeps(m, t, x, a, k);
    }
  }

  lemma CopiedBlocks(m: seq<byte>, n: seq<byte>, o: nat, t: nat, len: nat, mrs: nat)
    requires |n| == |m| && o + len <= |m| && t + len <= |m| && n[t..t + len] == m[o..o + len] && Inside(m, o, mrs)
    requires Within(m, o, mrs, len)
    requires forall g: nat :: IsField(g) ==> Field(n, t, g) == Field(m, o, g)
    ensures Inside(n, t, mrs) && ContentAt(n, t, mrs) == ContentAt(m, o, mrs)
  {
    hide Field, Part;
    Slid(m, n, o, t, len, Field(m, o, OFF_RSV), mrs);
    Slid(m, n, o, t, len, Field(m, o, OFF_STRUCT), Field(m, o, SIZE_STRUCT));
    Slid(m, n, o, t, len, Field(m, o, OFF_STRINGS), Field(m, o, SIZE_STRINGS));
  }

  lemma Slid(m: seq<byte>, n: seq<byte>, o: nat, t: nat, len: nat, a: nat, k: nat)
    requires o + len <= |m| && t + len <= |n| && n[t..t + len] == m[o..o + len] && a + k <= len
    ensures Part(n, t, a, k) == Part(m, o, a, k)
  {
    var x := m[o..o + len];
    SubSlice(n, t, x, a, a + k);
    SubSlice(m, o, x, a, a + k);
  }

  /** Only fields that locate no block have been set in the header at t. */
  ghost predicate Retitled(m: seq<byte>, n: seq<byte>, t: nat, mrs: nat) {
    && |n| == |m| && Inside(m, t, mrs) && Inside(n, t, mrs) && Behind(n, t)
    && ContentAt(n, t, mrs) == ContentAt(m, t, mrs)
    && (forall g: nat :: IsField(g) && Rank(g) < 5 ==> Field(n, t, g) == Field(m, t, g))
    && Untouched(m, n, t, HEADER_SIZE)
  }

  lemma Retitle(m: seq<byte>, n: seq<byte>, p: seq<byte>, t: nat, mrs: nat, f: nat)
    requires Retitled(m, n, t, mrs) && Keeping(n, p, t, mrs, f)
    requires Rank(f) == 5 || Field(p, t, f) == Field(n, t, f)
    ensures Retitled(m, p, t, mrs)
  {
    hide Field, ContentAt, Same;
    forall a: nat, k: nat | a + k <= |m| && Apart(t, HEADER_SIZE, a, k) ensures Same(m, p, a, k) {
      assert Same(m, n, a, k) && Same(n, p, a, k);
      SameMeans(m, n, a, k);
      SameMeans(n, p, a, k);
      SameMeans(m, p, a, k);
    }
  }

  lemma TitleSet(m: seq<byte>, n: seq<byte>, p: seq<byte>, t: nat, f: nat, v: u32, mrs: nat)
    requires Retitled(m, n, t, mrs) && IsField(f) && (Rank(f) == 5 || v == Field(n, t, f))
    requires p == Put(n, t + f, Be32(v))
    ensures Retitled(m, p, t, mrs) && Field(p, t, f) == v
    ensures forall g: nat :: IsField(g) && g != f ==> Field(p, t, g) == Field(n, t, g)
  {
    hide Put, Be32, Field, ContentAt, Untouched;
    SetOther(n, p, t, f, v, mrs);
    Retitle(m, n, p, t, mrs, f);
  }

  method SetTitle(mem: array<byte>, ghost m: seq<byte>, t: nat, f: nat, v: u32, ghost mrs: nat)
    requires Retitled(m, mem[..], t, mrs) && IsField(f) && (Rank(f) == 5 || v == Field(mem[..], t, f))
    modifies mem
    ensures Retitled(m, mem[..], t, mrs) && Field(mem[..], t, f) == v && mem[..] == Put(old(mem[..]), t + f, Be32(v))
    ensures forall g: nat :: IsField(g) && g != f ==> Field(mem[..], t, g) == Field(old(mem[..]), t, g)
  {
    hide Put, Be32, Field, ContentAt, Untouched;
    ghost var n := mem[..];
    SetField(mem, t, f, v);
    TitleSet(m, n, mem[..], t, f, v, mrs);
  }

  lemma Untitled(m: seq<byte>, t: nat, mrs: nat)
    requires Inside(m, t, mrs) && Behind(m, t)
    ensures Retitled(m, m, t, mrs)
  {
  }

  /** The end of fdt_open_into: a new header in front of reordered blocks. */
  method SetHeader(mem: array<byte>, o: nat, t: nat, bufsize: u32, ghost mrs: nat)
    requires Inside(mem[..], t, mrs) && Behind(mem[..], t) && o + HEADER_SIZE <= mem.Length
    modifies mem
    ensures Retitled(old(mem[..]), mem[..], t, mrs)
    ensures Field(mem[..], t, MAGIC) == FDT_MAGIC && Field(mem[..], t, TOTALSIZE) == bufsize
    ensures Field(mem[..], t, VERSION) == 17 && Field(mem[..], t, LAST_COMP) == 16
    ensures Field(mem[..], t, BOOT_CPU) == Word(Seam(old(mem[..]), mem[..], o, t), 0)
  {
    hide Field, Retitled, Behind, Put, Be32, Seam, Word;
    ghost var m := mem[..];
    Untitled(m, t, mrs);
    SetTitle(mem, m, t, MAGIC, FDT_MAGIC, mrs);
    SetTitle(mem, m, t, TOTALSIZE, bufsize, mrs);
    SetTitle(mem, m, t, VERSION, 17, mrs);
    SetTitle(mem, m, t, LAST_COMP, 16, mrs);
    ghost var p := mem[..];
    SetTitle(mem, m, t, BOOT_CPU, Field(mem[..], o, BOOT_CPU), mrs);
    SeamRead(m, p, mem[..], o, t);
  }

  /** The bytes of the old boot CPU, when every other field of the new header has been set. */
  function Seam(m: seq<byte>, n: seq<byte>, o: nat, t: nat): (r: seq<byte>)
    requires o + HEADER_SIZE <= |m| == |n|
    ensures |r| == 4
  {
    var j := o + BOOT_CPU;
    [SeamByte(m, n, t, j), SeamByte(m, n, t, j + 1), SeamByte(m, n, t, j + 2), SeamByte(m, n, t, j + 3)]
  }

  function SeamByte(m: seq<byte>, n: seq<byte>, t: nat, j: nat): byte
    requires j < |m| == |n|
  {
    if t + BOOT_CPU <= j < t + BOOT_CPU + 4 then m[j] else n[j]
  }

  lemma SeamRead(m: seq<byte>, p: seq<byte>, n: seq<byte>, o: nat, t: nat)
    requires o + HEADER_SIZE <= |m| == |p| && t + HEADER_SIZE <= |m| && Field(p, t, BOOT_CPU) == Field(m, t, BOOT_CPU)
    requires n == Put(p, t + BOOT_CPU, Be32(Field(p, o, BOOT_CPU)))
    ensures Word(Seam(m, n, o, t), 0) == Field(p, o, BOOT_CPU)
  {
    hide Be32, Word, Put, Seam;
    BytesOf(p, t + BOOT_CPU, m, t + BOOT_CPU);
    SeamIs(m, p, n, o, t, Be32(Field(p, o, BOOT_CPU)));
    SameWord(Seam(m, n, o, t), 0, p, o + BOOT_CPU);
  }

  lemma SeamIs(m: seq<byte>, p: seq<byte>, n: seq<byte>, o: nat, t: nat, x: seq<byte>)
    requires o + HEADER_SIZE <= |m| == |p| && t + HEADER_SIZE <= |m| && |x| == 4 && n == Put(p, t + BOOT_CPU, x)
    requires p[t + BOOT_CPU..t + BOOT_CPU + 4] == m[t + BOOT_CPU..t + BOOT_CPU + 4]
    ensures Seam(m, n, o, t)[0..0 + 4] == p[o + BOOT_CPU..o + BOOT_CPU + 4]
  {
    var a, b := t + BOOT_CPU, o + BOOT_CPU;
    forall j | b <= j < b + 4 ensures SeamByte(m, n, t, j) == p[j] {
      if a <= j < a + 4 {
        assert p[a..a + 4][j - a] == m[a..a + 4][j - a];
      }
    }
  }

  /** The bytes of a word are determined by it. */
  lemma BytesOf(n: seq<byte>, a: nat, m: seq<byte>, b: nat)
    requires a + 4 <= |n| && b + 4 <= |m| && Word(n, a) == Word(m, b)
    ensures n[a..a + 4] == m[b..b + 4]
  {
    BytesOfWord(n, a);
    BytesOfWord(m, b);
  }

  /** fdt_open_into when the blocks are taken to be in order: fdt_move, and three fields. */
  method CopyInto(mem: array<byte>, o: nat, t: nat, bufsize: u32)
    requires o + HEADER_SIZE <= mem.Length && o + Field(mem[..], o, TOTALSIZE) <= mem.Length
    requires t + bufsize <= mem.Length && HEADER_SIZE <= Field(mem[..], o, TOTALSIZE) <= bufsize
    modifies mem
    ensures mem[..] == CopyResult(old(mem[..]), o, t, bufsize)
  {
    hide Put, Be32, Field;
    var ss := Field(mem[..], o, SIZE_STRUCT);
    Move(mem, t, o, Field(mem[..], o, TOTALSIZE));
    SetField(mem, t, VERSION, 17);
    SetField(mem, t, SIZE_STRUCT, ss);
    SetField(mem, t, TOTALSIZE, bufsize);
  }

  /** The copy of a blob whose blocks are in order. */
  lemma CopyOpens(m: seq<byte>, o: nat, t: nat, bufsize: nat, mrs: nat)
    requires o + HEADER_SIZE <= |m| && o + Field(m, o, TOTALSIZE) <= |m| && t + bufsize <= |m|
    requires Contained(HeaderAt(m, o), mrs) && !Misordered(HeaderAt(m, o), mrs)
    requires Field(m, o, TOTALSIZE) <= bufsize <= INT_MAX
    ensures t + HEADER_SIZE <= |m|
    ensures Opened(m, CopyResult(m, o, t, bufsize), o, t, bufsize, mrs)
    ensures OpenedHeader(m, CopyResult(m, o, t, bufsize), o, t, mrs)
  {
    hide Put, Be32, Field, Retitled, ContentAt, Untouched, Opened, Behind, Inside, Contained;
    OrderedInside(m, o, mrs);
    var total, ss := Field(m, o, TOTALSIZE), Field(m, o, SIZE_STRUCT);
    var m1 := Put(m, t, m[o..o + total]);
    Copied(m, m1, o, t, total, mrs);
    OrderedBehind(m, m1, o, t, mrs);
    Wider(m, m1, t, total, t, bufsize);
    Untitled(m1, t, mrs);
    var m2 := Put(m1, t + VERSION, Be32(17));
    TitleSet(m1, m1, m2, t, VERSION, 17, mrs);
    var m3 := Put(m2, t + SIZE_STRUCT, Be32(ss));
    TitleSet(m1, m2, m3, t, SIZE_STRUCT, ss, mrs);
    TitleSet(m1, m3, CopyResult(m, o, t, bufsize), t, TOTALSIZE, bufsize, mrs);
    OpenedIs(m, m1, CopyResult(m, o, t, bufsize), o, t, total, bufsize, mrs);
  }

  lemma OrderedInside(m: seq<byte>, o: nat, mrs: nat)
    requires o + HEADER_SIZE <= |m| && o + Field(m, o, TOTALSIZE) <= |m|
    requires Contained(HeaderAt(m, o), mrs)
    ensures Inside(m, o, mrs) && HEADER_SIZE <= Field(m, o, TOTALSIZE)
  {
    hide Field;
  }

  lemma OrderedBehind(m: seq<byte>, n: seq<byte>, o: nat, t: nat, mrs: nat)
    requires o + HEADER_SIZE <= |m| && t + HEADER_SIZE <= |n| && !Misordered(HeaderAt(m, o), mrs)
    requires forall g: nat :: IsField(g) ==> Field(n, t, g) == Field(m, o, g)
    ensures Behind(n, t)
  {
    hide Field;
  }

  lemma OpenedIs(m0: seq<byte>, m1: seq<byte>, n: seq<byte>, o: nat, t: nat, len: nat, bufsize: nat, mrs: nat)
    requires Inside(m0, o, mrs) && |m1| == |m0| && Inside(m1, t, mrs) && ContentAt(m1, t, mrs) == ContentAt(m0, o, mrs)
    requires HEADER_SIZE <= len <= bufsize && Untouched(m0, m1, t, bufsize) && Retitled(m1, n, t, mrs)
    requires !Misordered(HeaderAt(m1, t).(totalsize := bufsize), mrs)
    requires Field(n, t, TOTALSIZE) == bufsize && Field(n, t, VERSION) == 17
    ensures Opened(m0, n, o, t, bufsize, mrs)
  {
    hide Field, ContentAt, Same;
    forall a: nat, k: nat | a + k <= |m0| && Apart(t, bufsize, a, k) ensures Same(m0, n, a, k) {
      assert Same(m0, m1, a, k) && Same(m1, n, a, k);
      SameMeans(m0, m1, a, k);
      SameMeans(m1, n, a, k);
      SameMeans(m0, n, a, k);
    }
  }

  lemma Wider(m: seq<byte>, n: seq<byte>, a: nat, k: nat, b: nat, l: nat)
    requires Untouched(m, n, a, k) && b <= a && a + k <= b + l
    ensures Untouched(m, n, b, l)
  {
    hide Same;
  }

  /** fdt_open_into when the blocks must be reordered. */
  method OpenReordered(mem: array<byte>, o: nat, t: nat, bufsize: nat, mrs: nat)
    requires o + HEADER_SIZE <= mem.Length && o + Field(mem[..], o, TOTALSIZE) <= mem.Length
    requires t + bufsize <= mem.Length
    requires Contained(HeaderAt(mem[..], o), mrs) && Misordered(HeaderAt(mem[..], o), mrs) && bufsize <= INT_MAX
    requires mrs >= RSV_ENTRY
    requires BuildAt(o, Field(mem[..], o, TOTALSIZE), t, PackedSize(mem[..], o, mrs))
      + PackedSize(mem[..], o, mrs) <= t + bufsize
    modifies mem
    ensures Opened(old(mem[..]), mem[..], o, t, bufsize, mrs) && OpenedHeader(old(mem[..]), mem[..], o, t, mrs)
  {
    hide Put, Be32, Field, Retitled, ContentAt, Untouched, Opened, Behind, Inside, Contained, Misordered, PackedAt,
      Safe, OpenedHeader, Stage, PackResult, Bounded;
    ghost var m0 := mem[..];
    OrderedInside(m0, o, mrs);
    var ss := Field(mem[..], o, SIZE_STRUCT);
    var newsize := HEADER_SIZE + mrs + ss + Field(mem[..], o, SIZE_STRINGS);
    var tmp := BuildAt(o, Field(mem[..], o, TOTALSIZE), t, newsize);
    BuildSafe(m0, o, t, bufsize, mrs);
    SafelyPacked(m0, o, tmp, mrs);
    PackBlocks(mem, o, tmp, mrs, ss);
    ghost var m1 := mem[..];
    PackedCopy(m0, m1, o, tmp, mrs);
    Move(mem, t, tmp, newsize);
    ghost var m2 := mem[..];
    Copied(m1, m2, tmp, t, newsize, mrs);
    ReorderedBehind(m0, m1, m2, o, tmp, t, mrs);
    SetHeader(mem, o, t, bufsize, mrs);
    ReorderedFrame(m0, m1, m2, o, tmp, t, bufsize, mrs);
    OpenedIs(m0, m2, mem[..], o, t, newsize, bufsize, mrs);
    BootCpu(m0, m1, m2, mem[..], o, tmp, t, mrs);
  }

  /** The place chosen for the new blob does not overlap the old one. */
  lemma BuildSafe(m: seq<byte>, o: nat, t: nat, bufsize: nat, mrs: nat)
    requires o + HEADER_SIZE <= |m| && o + Field(m, o, TOTALSIZE) <= |m| && t + bufsize <= |m|
    requires Contained(HeaderAt(m, o), mrs) && bufsize <= INT_MAX
    requires BuildAt(o, Field(m, o, TOTALSIZE), t, PackedSize(m, o, mrs)) + PackedSize(m, o, mrs) <= t + bufsize
    ensures var tmp := BuildAt(o, Field(m, o, TOTALSIZE), t, PackedSize(m, o, mrs));
      t <= tmp && tmp + PackedSize(m, o, mrs) <= t + bufsize && Inside(m, o, mrs) && Safe(m, o, tmp, mrs)
  {
    hide Field;
  }

  lemma PackedCopy(m0: seq<byte>, m1: seq<byte>, o: nat, tmp: nat, mrs: nat)
    requires Inside(m0, o, mrs) && PackedAt(m0, m1, o, tmp, mrs)
    ensures |m1| == |m0| && Inside(m1, tmp, mrs) && ContentAt(m1, tmp, mrs) == ContentAt(m0, o, mrs)
    ensures Within(m1, tmp, mrs, PackedSize(m0, o, mrs))
  {
    hide Field, ContentAt;
  }

  lemma ReorderedBehind(m0: seq<byte>, m1: seq<byte>, m2: seq<byte>, o: nat, tmp: nat, t: nat, mrs: nat)
    requires Inside(m0, o, mrs) && PackedAt(m0, m1, o, tmp, mrs) && t + HEADER_SIZE <= |m2|
    requires forall g: nat :: IsField(g) ==> Field(m2, t, g) == Field(m1, tmp, g)
    ensures Behind(m2, t)
    ensures forall size: nat :: size >= PackedSize(m0, o, mrs) ==> !Misordered(HeaderAt(m2, t).(totalsize := size), mrs)
  {
    hide Field, ContentAt;
  }

  lemma ReorderedFrame(m0: seq<byte>, m1: seq<byte>, m2: seq<byte>, o: nat, tmp: nat, t: nat, bufsize: nat, mrs: nat)
    requires Inside(m0, o, mrs) && Stage(m0, m1, tmp, PackedSize(m0, o, mrs), 5)
    requires Untouched(m1, m2, t, PackedSize(m0, o, mrs))
    requires t <= tmp && tmp + PackedSize(m0, o, mrs) <= t + bufsize
    ensures Untouched(m0, m2, t, bufsize)
  {
    hide Field, Same;
    var len := PackedSize(m0, o, mrs);
    Wider(m0, m1, tmp, len, t, bufsize);
    Wider(m1, m2, t, len, t, bufsize);
    forall a: nat, k: nat | a + k <= |m0| && Apart(t, bufsize, a, k) ensures Same(m0, m2, a, k) {
      assert Same(m0, m1, a, k) && Same(m1, m2, a, k);
      SameMeans(m0, m1, a, k);
      SameMeans(m1, m2, a, k);
      SameMeans(m0, m2, a, k);
    }
  }

  lemma OneByte(m: seq<byte>, n: seq<byte>, t: nat, len: nat, j: nat)
    requires Untouched(m, n, t, len) && j < |m| && Apart(t, len, j, 1)
    ensures n[j] == m[j]
  {
    assert Same(m, n, j, 1);
    assert n[j] == n[j..j + 1][0] && m[j] == m[j..j + 1][0];
  }

  /** Every byte that SetHeader takes for the boot CPU, traced back to the memory that was given. */
  lemma ByteTraced(m0: seq<byte>, m1: seq<byte>, m2: seq<byte>, n: seq<byte>, o: nat, tmp: nat, t: nat, len: nat,
                   j: nat)
    requires |m0| == |m1| == |m2| == |n| && t + HEADER_SIZE <= |m0| && tmp + HEADER_SIZE <= |m0| && HEADER_SIZE <= len
    requires Untouched(m0, m1, tmp, len) && Untouched(m1, m2, t, len) && Untouched(m2, n, t, HEADER_SIZE)
    requires j < |m0| && (tmp == t || j < tmp)
    requires m2[t + BOOT_CPU..t + BOOT_CPU + 4] == m0[tmp + BOOT_CPU..tmp + BOOT_CPU + 4]
    ensures SeamByte(m2, n, t, j) == OldByte(m0, n, t, tmp, len, j)
  {
    hide Untouched;
    var a, b := t + BOOT_CPU, tmp + BOOT_CPU;
    if a <= j < a + 4 {
      assert m2[j] == m2[a..a + 4][j - a] && m0[b + (j - a)] == m0[b..b + 4][j - a];
    } else if !(t <= j < t + len) {
      OneByte(m0, m1, tmp, len, j);
      OneByte(m1, m2, t, len, j);
      OneByte(m2, n, t, HEADER_SIZE, j);
    }
  }

  lemma BootCpu(m0: seq<byte>, m1: seq<byte>, m2: seq<byte>, n: seq<byte>, o: nat, tmp: nat, t: nat, mrs: nat)
    requires Inside(m0, o, mrs) && Misordered(HeaderAt(m0, o), mrs) && Retitled(m2, n, t, mrs)
    requires HEADER_SIZE <= Field(m0, o, TOTALSIZE) && tmp + HEADER_SIZE <= |m0| == |m1| == |m2| == |n|
    requires tmp == BuildAt(o, Field(m0, o, TOTALSIZE), t, PackedSize(m0, o, mrs))
    requires Stage(m0, m1, tmp, PackedSize(m0, o, mrs), 5) && Untouched(m1, m2, t, PackedSize(m0, o, mrs))
    requires forall g: nat :: IsField(g) ==> Field(m2, t, g) == Field(m1, tmp, g)
    requires Field(n, t, MAGIC) == FDT_MAGIC && Field(n, t, LAST_COMP) == 16
    requires Field(n, t, BOOT_CPU) == Word(Seam(m2, n, o, t), 0)
    ensures OpenedHeader(m0, n, o, t, mrs)
  {
    hide Word, Untouched, Misordered, OldByte, SeamByte, Same;
    var len, j := PackedSize(m0, o, mrs), o + BOOT_CPU;
    assert Field(m2, t, BOOT_CPU) == Field(m1, tmp, BOOT_CPU) == Field(m0, tmp, BOOT_CPU);
    BytesOf(m2, t + BOOT_CPU, m0, tmp + BOOT_CPU);
    forall i | j <= i < j + 4 ensures SeamByte(m2, n, t, i) == OldByte(m0, n, t, tmp, len, i) {
      ByteTraced(m0, m1, m2, n, o, tmp, t, len, i);
    }
  }

  /** fdt_open_into, for a blob of version 17 or later. */
  method OpenInto(mem: array<byte>, o: nat, t: nat, bufsize: nat) returns (err: int, escapes: bool, ghost mrs: int)
    requires o + HEADER_SIZE <= mem.Length && o + Field(mem[..], o, TOTALSIZE) <= mem.Length
    requires t + bufsize <= mem.Length && bufsize <= INT_MAX
    requires RoProbe(mem[..], o) >= 0 ==> Field(mem[..], o, VERSION) >= 17
    modifies mem
    ensures mrs == ListSize(old(mem[..]), o) && escapes == OpenEscapes(old(mem[..]), o, t, bufsize, mrs)
    ensures !escapes ==> err == OpenAnswer(old(mem[..]), o, t, bufsize, mrs)
    ensures err != 0 ==> mem[..] == old(mem[..])
    ensures err == 0 && !escapes && SaysOrdered(HeaderAt(old(mem[..]), o), mrs) ==>
      t + HEADER_SIZE <= mem.Length && mem[..] == CopyResult(old(mem[..]), o, t, bufsize)
    ensures err == 0 && !escapes && mrs > 0 && Contained(HeaderAt(old(mem[..]), o), mrs) ==>
      && Opened(old(mem[..]), mem[..], o, t, bufsize, mrs)
      && OpenedHeader(old(mem[..]), mem[..], o, t, mrs)
  {
    hide Field, ListEnds, ListSize, Contained, Misordered, SaysOrdered, Opened, OpenedHeader, BuildAt, NewSize,
      PackedSize, CopyResult;
    escapes, mrs := false, ListSize(mem[..], o);
    err := RoProbe(mem[..], o);
    if err < 0 {
      return;
    }
    if Field(mem[..], o, TOTALSIZE) < HEADER_SIZE {
      escapes := true;
      return;
    }
    var n := Reservations(mem, o);
    ListSizeIs(mem[..], o, n);
    var size := (n + 1) * 16;
    OrderKnown(mem[..], o, size);
    if SaysOrdered(HeaderAt(mem[..], o), size) {
      err := if Field(mem[..], o, TOTALSIZE) > bufsize then -ERR_NOSPACE else 0;
      if err == 0 {
        if size > 0 && Contained(HeaderAt(mem[..], o), size) {
          CopyOpens(mem[..], o, t, bufsize, size);
        }
        CopyInto(mem, o, t, bufsize);
      }
      return;
    }
    var newsize := NewSize(mem[..], o, size);
    if bufsize < newsize {
      TooSmall(o, Field(mem[..], o, TOTALSIZE), t, newsize, bufsize);
      return -ERR_NOSPACE, false, mrs;
    }
    if BuildAt(o, Field(mem[..], o, TOTALSIZE), t, newsize) + newsize > t + bufsize {
      return -ERR_NOSPACE, false, mrs;
    }
    err, escapes := 0, !Reorderable(mem[..], o, size);
    if !escapes {
      SizeExact(mem[..], o, size);
      OpenReordered(mem, o, t, bufsize, size);
    }
  }

  /** In a blob that holds its blocks the order is checked rightly. */
  lemma OrderKnown(m: seq<byte>, o: nat, mrs: int)
    requires o + HEADER_SIZE <= |m| && RoProbe(m, o) >= 0
    ensures mrs > 0 && Contained(HeaderAt(m, o), mrs) ==>
      (SaysOrdered(HeaderAt(m, o), mrs) <==> !Misordered(HeaderAt(m, o), mrs))
  {
    hide Field;
  }

  lemma TooSmall(o: nat, total: nat, t: nat, newsize: int, bufsize: nat)
    requires bufsize < newsize
    ensures BuildAt(o, total, t, newsize) + newsize > t + bufsize
  {
  }

  /** fdt_open_into keeps tree and reservations, in whatever order the blocks were. */
  lemma OpenKeeps(m: seq<byte>, n: seq<byte>, o: nat, t: nat, bufsize: nat, k: nat, top: seq<Item>)
    requires Opened(m, n, o, t, bufsize, 16 * (k + 1)) && o + Field(m, o, TOTALSIZE) <= |m| && t + bufsize <= |n|
    requires bufsize < INT_MAX
    requires Contained(HeaderAt(m, o), 16 * (k + 1)) && Field(m, o, TOTALSIZE) < INT_MAX
    requires Represents(ContentAt(m, o, 16 * (k + 1)).structure, ContentAt(m, o, 16 * (k + 1)).strings, top)
    ensures RwProbe(HeaderAt(n, t)) == 0
    ensures Represents(StructOf(BlobAt(n, t), HeaderAt(n, t)), StringsOf(BlobAt(n, t), HeaderAt(n, t)), top)
    ensures TreeOf(top, StringsOf(BlobAt(n, t), HeaderAt(n, t))) == TreeOf(top, ContentAt(m, o, 16 * (k + 1)).strings)
    ensures ListEnds(BlobAt(m, o), HeaderAt(m, o), k) <==> ListEnds(BlobAt(n, t), HeaderAt(n, t), k)
  {
    hide Field, Represents, ContentAt, BlobAt, StructOf, StringsOf, TreeOf, ListEnds, RsvEnds, Untouched;
    BlocksRead(n, t, 16 * (k + 1));
    ListInContent(m, o, k);
    ListInContent(n, t, k);
  }
}
