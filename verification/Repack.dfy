/**
 * Blobs inside one memory, header bytes included, and packing them (fdt_pack): old and new
 * place may overlap, and the order of the moves keeps the content.
 */
module Repack {
  import opened Bytes
  import opened Tokens
  import opened Blob
  import opened Trees
  import opened Views
  import opened Splices
  import opened Parser
  import opened Writer

  // ------------------------------------------------------- headers in memory

  const MAGIC := 0
  const TOTALSIZE := 4
  const OFF_STRUCT := 8
  const OFF_STRINGS := 12
  const OFF_RSV := 16
  const VERSION := 20
  const LAST_COMP := 24
  const BOOT_CPU := 28
  const SIZE_STRINGS := 32
  const SIZE_STRUCT := 36

  predicate IsField(f: nat) {
    f % 4 == 0 && f <= 36
  }

  function Field(m: seq<byte>, base: nat, f: nat): u32
    requires base + HEADER_SIZE <= |m| && IsField(f)
  {
    Word(m, base + f)
  }

  method SetField(mem: array<byte>, base: nat, f: nat, v: u32)
    requires base + HEADER_SIZE <= mem.Length && IsField(f)
    modifies mem
    ensures mem[..] == Put(old(mem[..]), base + f, Be32(v))
  {
    Store(mem, base + f, Be32(v));
  }

  /** A stored field reads back, and no other field changes. */
  lemma FieldSet(m: seq<byte>, base: nat, f: nat, v: u32)
    requires base + HEADER_SIZE <= |m| && IsField(f)
    ensures var n := Put(m, base + f, Be32(v));
      && Field(n, base, f) == v
      && forall g: nat :: IsField(g) && g != f ==> Field(n, base, g) == Field(m, base, g)
  {
    hide Put, Word, Be32;
    var n := Put(m, base + f, Be32(v));
    PutSlice(m, base + f, Be32(v), base + f, base + f + 4);
    assert m[base + f..base + f] + Be32(v) + m[base + f + 4..base + f + 4] == Be32(v);
    WordBe32(n, base + f, v);
    forall g: nat | IsField(g) && g != f ensures Field(n, base, g) == Field(m, base, g) {
      PutSlice(m, base + f, Be32(v), base + g, base + g + 4);
      SameWord(n, base + g, m, base + g);
    }
  }

  /** Two stretches of memory without a common byte. */
  predicate Apart(a: nat, n: nat, b: nat, k: nat) {
    a + n <= b || b + k <= a || n == 0 || k == 0
  }

  /** A stretch keeps its bytes when a store elsewhere happens. */
  lemma Keeps(m: seq<byte>, at: nat, x: seq<byte>, a: nat, n: nat)
    requires at + |x| <= |m| && a + n <= |m| && Apart(at, |x|, a, n)
    ensures Put(m, at, x)[a..a + n] == m[a..a + n]
  {
    if x == [] {
      assert Put(m, at, x) == m;
    } else if n > 0 {
      PutSlice(m, at, x, a, a + n);
    }
  }

  lemma Lands(m: seq<byte>, at: nat, x: seq<byte>)
    requires at + |x| <= |m|
    ensures Put(m, at, x)[at..at + |x|] == x
  {
    PutSlice(m, at, x, at, at + |x|);
    assert m[at..at] + x + m[at + |x|..at + |x|] == x;
  }

  /** A header keeps its fields when a store happens outside it. */
  lemma FieldsKept(m: seq<byte>, at: nat, x: seq<byte>, base: nat)
    requires at + |x| <= |m| && base + HEADER_SIZE <= |m| && Apart(at, |x|, base, HEADER_SIZE)
    ensures forall g: nat :: IsField(g) ==> Field(Put(m, at, x), base, g) == Field(m, base, g)
  {
    hide Put, Word;
    forall g: nat | IsField(g) ensures Field(Put(m, at, x), base, g) == Field(m, base, g) {
      Keeps(m, at, x, base + g, 4);
      SameWord(Put(m, at, x), base + g, m, base + g);
    }
  }

  // ------------------------------------------------------------- the content

  /** Reservations with their terminator, structure block and strings block. */
  datatype Content = Content(rsv: seq<byte>, structure: seq<byte>, strings: seq<byte>)

  /** The blocks of a blob lie inside memory. */
  predicate Inside(m: seq<byte>, base: nat, mrs: nat) {
    && base + HEADER_SIZE <= |m|
    && base + Field(m, base, OFF_RSV) + mrs <= |m|
    && base + Field(m, base, OFF_STRUCT) + Field(m, base, SIZE_STRUCT) <= |m|
    && base + Field(m, base, OFF_STRINGS) + Field(m, base, SIZE_STRINGS) <= |m|
  }

  /** The k bytes at an offset of a blob. */
  function Part(m: seq<byte>, base: nat, off: nat, k: nat): seq<byte>
    requires base + off + k <= |m|
  {
    m[base + off..base + off + k]
  }

  function ContentAt(m: seq<byte>, base: nat, mrs: nat): Content
    requires Inside(m, base, mrs)
  {
    Content(Part(m, base, Field(m, base, OFF_RSV), mrs),
            Part(m, base, Field(m, base, OFF_STRUCT), Field(m, base, SIZE_STRUCT)),
            Part(m, base, Field(m, base, OFF_STRINGS), Field(m, base, SIZE_STRINGS)))
  }

  /** The sizes of a packed blob. */
  function PackedSize(m: seq<byte>, base: nat, mrs: nat): nat
    requires base + HEADER_SIZE <= |m|
  {
    HEADER_SIZE + mrs + Field(m, base, SIZE_STRUCT) + Field(m, base, SIZE_STRINGS)
  }

  /**
   * Where fdt_packblocks_ may write: the new blob does not reach a block before that block has
   * been moved, nor the old header unless it is its own.
   */
  predicate Safe(m: seq<byte>, o: nat, t: nat, mrs: nat)
    requires Inside(m, o, mrs)
  {
    var ss, st := Field(m, o, SIZE_STRUCT), Field(m, o, SIZE_STRINGS);
    var s, g := o + Field(m, o, OFF_STRUCT), o + Field(m, o, OFF_STRINGS);
    && t + PackedSize(m, o, mrs) <= |m| && PackedSize(m, o, mrs) < U32
    && Apart(t, HEADER_SIZE + mrs, s, ss) && Apart(t, HEADER_SIZE + mrs + ss, g, st)
    && (o == t || Apart(t, PackedSize(m, o, mrs), o, HEADER_SIZE))
  }

  /** After packing: the new header describes a content c, right behind it. */
  predicate PackedWith(m: seq<byte>, n: seq<byte>, o: nat, t: nat, mrs: nat, c: Content)
    requires Inside(m, o, mrs)
  {
    && |n| == |m| && Inside(n, t, mrs)
    && Field(n, t, OFF_RSV) == HEADER_SIZE && Field(n, t, OFF_STRUCT) == HEADER_SIZE + mrs
    && Field(n, t, OFF_STRINGS) == HEADER_SIZE + mrs + Field(m, o, SIZE_STRUCT)
    && Field(n, t, SIZE_STRUCT) == Field(m, o, SIZE_STRUCT) && Field(n, t, SIZE_STRINGS) == Field(m, o, SIZE_STRINGS)
    && ContentAt(n, t, mrs) == c
  }

  /** After packing that keeps the content. */
  predicate PackedAt(m: seq<byte>, n: seq<byte>, o: nat, t: nat, mrs: nat)
    requires Inside(m, o, mrs)
  {
    PackedWith(m, n, o, t, mrs, ContentAt(m, o, mrs))
  }

  /** A stretch of memory has not changed. */
  predicate Same(m: seq<byte>, n: seq<byte>, a: nat, k: nat)
    requires |n| == |m| && a + k <= |m|
  {
    n[a..a + k] == m[a..a + k]
  }

  lemma SameMeans(m: seq<byte>, n: seq<byte>, a: nat, k: nat)
    requires |n| == |m| && a + k <= |m|
    ensures Same(m, n, a, k) <==> n[a..a + k] == m[a..a + k]
  {
  }

  /** What MoveBlock does to the moved block, to the new header, and to everything else. */
  lemma BlockMoved(m: seq<byte>, n: seq<byte>, t: nat, to: nat, x: seq<byte>, f: nat)
    requires t + HEADER_SIZE <= |m| && HEADER_SIZE <= to < U32 && t + to + |x| <= |m| && IsField(f)
    requires n == Put(Put(m, t + to, x), t + f, Be32(to))
    ensures |n| == |m| && n[t + to..t + to + |x|] == x && Field(n, t, f) == to
    ensures forall g: nat :: IsField(g) && g != f ==> Field(n, t, g) == Field(m, t, g)
    ensures forall a: nat, k: nat :: a + k <= |m| && Apart(t + to, |x|, a, k) && Apart(t, HEADER_SIZE, a, k) ==>
      Same(m, n, a, k)
  {
    hide Put, Be32, Field;
    var p := Put(m, t + to, x);
    Lands(m, t + to, x);
    FieldsKept(m, t + to, x, t);
    FieldSet(p, t, f, to);
    Keeps(p, t + f, Be32(to), t + to, |x|);
    forall a: nat, k: nat | a + k <= |m| && Apart(t + to, |x|, a, k) && Apart(t, HEADER_SIZE, a, k)
      ensures Same(m, n, a, k) {
      Keeps(m, t + to, x, a, k);
      Keeps(p, t + f, Be32(to), a, k);
    }
  }

  lemma HeaderKept(m: seq<byte>, n: seq<byte>, base: nat)
    requires |n| == |m| && base + HEADER_SIZE <= |m| && Same(m, n, base, HEADER_SIZE)
    ensures forall g: nat :: IsField(g) ==> Field(n, base, g) == Field(m, base, g)
  {
    hide Word;
    forall g: nat | IsField(g) ensures Field(n, base, g) == Field(m, base, g) {
      SubSlice(n, base, m[base..base + HEADER_SIZE], g, g + 4);
      SubSlice(m, base, m[base..base + HEADER_SIZE], g, g + 4);
      SameWord(n, base + g, m, base + g);
    }
  }

  /** Setting a field leaves every other stretch alone. */
  lemma FieldStored(m: seq<byte>, n: seq<byte>, t: nat, f: nat, v: u32)
    requires t + HEADER_SIZE <= |m| && IsField(f) && n == Put(m, t + f, Be32(v))
    ensures |n| == |m| && Field(n, t, f) == v
    ensures forall g: nat :: IsField(g) && g != f ==> Field(n, t, g) == Field(m, t, g)
    ensures forall a: nat, k: nat :: a + k <= |m| && Apart(t, HEADER_SIZE, a, k) ==> Same(m, n, a, k)
  {
    hide Put, Be32, Field;
    FieldSet(m, t, f, v);
    forall a: nat, k: nat | a + k <= |m| && Apart(t, HEADER_SIZE, a, k) ensures Same(m, n, a, k) {
      Keeps(m, t + f, Be32(v), a, k);
    }
  }

  /** Memory outside the first len bytes at t is as before. */
  ghost predicate Untouched(m: seq<byte>, n: seq<byte>, t: nat, len: nat) {
    |n| == |m| && forall a: nat, k: nat :: a + k <= |m| && Apart(t, len, a, k) ==> Same(m, n, a, k)
  }

  /** The order in which the fields of the new header are written; 5 for those that are not. */
  function Rank(f: nat): nat {
    if f == OFF_RSV then 0 else if f == OFF_STRUCT then 1 else if f == SIZE_STRUCT then 2
    else if f == OFF_STRINGS then 3 else if f == SIZE_STRINGS then 4 else 5
  }

  /** The first k fields have been written, the others are as before. */
  ghost predicate Fields(m: seq<byte>, n: seq<byte>, t: nat, k: nat) {
    && |n| == |m| && t + HEADER_SIZE <= |m|
    && forall g: nat :: IsField(g) && Rank(g) >= k ==> Field(n, t, g) == Field(m, t, g)
  }

  /** So far k fields and the bytes up to len have been written at t. */
  ghost predicate Stage(m0: seq<byte>, m: seq<byte>, t: nat, len: nat, k: nat) {
    HEADER_SIZE <= len && Untouched(m0, m, t, len) && Fields(m0, m, t, k)
  }

  /** From m to n, the header fields but f and the bytes from the header up to len stay. */
  ghost predicate Stays(m: seq<byte>, n: seq<byte>, t: nat, len: nat, f: nat) {
    && |n| == |m| && t + HEADER_SIZE <= |m|
    && (forall g: nat :: IsField(g) && g != f ==> Field(n, t, g) == Field(m, t, g))
    && forall a: nat, k: nat :: t + HEADER_SIZE <= a && a + k <= t + len && a + k <= |m| ==> Same(m, n, a, k)
  }

  /** Moving the block that comes next. */
  lemma NextBlock(m0: seq<byte>, m: seq<byte>, n: seq<byte>, t: nat, to: nat, x: seq<byte>, f: nat)
    requires t + HEADER_SIZE <= |m| && HEADER_SIZE <= to < U32 && t + to + |x| <= |m| && IsField(f) && |m| == |m0|
    requires n == Put(Put(m, t + to, x), t + f, Be32(to)) && Stage(m0, m, t, to, Rank(f))
    ensures |n| == |m| && n[t + to..t + to + |x|] == x && Field(n, t, f) == to
    ensures Stage(m0, n, t, to + |x|, Rank(f) + 1) && Stays(m, n, t, to, f)
  {
    hide Put, Be32, Field;
    BlockMoved(m, n, t, to, x, f);
    forall a: nat, k: nat | a + k <= |m| && Apart(t, to + |x|, a, k) ensures Same(m0, n, a, k) {
      assert Same(m0, m, a, k) && Same(m, n, a, k);
    }
  }

  /** Setting a size in the new header. */
  lemma NextField(m0: seq<byte>, m: seq<byte>, n: seq<byte>, t: nat, f: nat, v: u32, len: nat)
    requires t + HEADER_SIZE <= |m| && IsField(f) && n == Put(m, t + f, Be32(v)) && Stage(m0, m, t, len, Rank(f))
    ensures |n| == |m| && Field(n, t, f) == v
    ensures Stage(m0, n, t, len, Rank(f) + 1) && Stays(m, n, t, |m|, f)
  {
    hide Put, Be32, Field;
    FieldStored(m, n, t, f, v);
    forall a: nat, k: nat | a + k <= |m| && Apart(t, len, a, k) ensures Same(m0, n, a, k) {
      assert Same(m0, m, a, k) && Same(m, n, a, k);
    }
  }

  /** The old header still reads as before, as far as the rest of the packing needs it. */
  lemma OldField(m0: seq<byte>, m: seq<byte>, o: nat, t: nat, mrs: nat, len: nat, k: nat, f: nat)
    requires Inside(m0, o, mrs) && (o == t || Safe(m0, o, t, mrs)) && Stage(m0, m, t, len, k)
    requires len <= PackedSize(m0, o, mrs) && IsField(f) && Rank(f) >= k
    ensures o + HEADER_SIZE <= |m| && Field(m, o, f) == Field(m0, o, f)
  {
    hide Field, Same;
    if o != t {
      assert Same(m0, m, o, HEADER_SIZE);
      HeaderKept(m0, m, o);
    }
  }

  /** One block has moved to a place behind the header at t, and its offset is stored in that header. */
  function Placed(m: seq<byte>, t: nat, to: nat, from: nat, n: nat, f: nat): (r: seq<byte>)
    requires t + HEADER_SIZE <= |m| && t + to + n <= |m| && from + n <= |m| && IsField(f)
    ensures |r| == |m|
  {
    Put(Put(m, t + to, m[from..from + n]), t + f, Be32(to))
  }

  method MoveBlock(mem: array<byte>, t: nat, to: u32, from: nat, n: nat, f: nat)
    requires t + HEADER_SIZE <= mem.Length && t + to + n <= mem.Length && from + n <= mem.Length && IsField(f)
    modifies mem
    ensures mem[..] == Placed(old(mem[..]), t, to, from, n, f)
  {
    hide Put, Be32, Field;
    Move(mem, t + to, from, n);
    SetField(mem, t, f, to);
  }

  /** The old blob lies in memory, and there is room for the new one. */
  predicate Bounded(m: seq<byte>, o: nat, t: nat, mrs: nat) {
    Inside(m, o, mrs) && t + PackedSize(m, o, mrs) <= |m| && PackedSize(m, o, mrs) < U32
  }

  /** Memory after each of the three moves of fdt_packblocks_. */
  function WithReserves(m: seq<byte>, o: nat, t: nat, mrs: nat): (r: seq<byte>)
    requires Bounded(m, o, t, mrs)
    ensures |r| == |m|
  {
    Placed(m, t, HEADER_SIZE, o + Field(m, o, OFF_RSV), mrs, OFF_RSV)
  }

  function WithStructure(m: seq<byte>, o: nat, t: nat, mrs: nat): (r: seq<byte>)
    requires Bounded(m, o, t, mrs)
    ensures |r| == |m|
  {
    var ss := Field(m, o, SIZE_STRUCT);
    Put(Placed(WithReserves(m, o, t, mrs), t, HEADER_SIZE + mrs, o + Field(m, o, OFF_STRUCT), ss, OFF_STRUCT),
        t + SIZE_STRUCT, Be32(ss))
  }

  function StringsMoved(m: seq<byte>, o: nat, t: nat, mrs: nat): (r: seq<byte>)
    requires Bounded(m, o, t, mrs)
    ensures |r| == |m|
  {
    Placed(WithStructure(m, o, t, mrs), t, HEADER_SIZE + mrs + Field(m, o, SIZE_STRUCT),
           o + Field(m, o, OFF_STRINGS), Field(m, o, SIZE_STRINGS), OFF_STRINGS)
  }

  /** Memory after fdt_packblocks_. */
  function PackResult(m: seq<byte>, o: nat, t: nat, mrs: nat): (r: seq<byte>)
    requires Bounded(m, o, t, mrs)
    ensures |r| == |m|
  {
    Put(StringsMoved(m, o, t, mrs), t + SIZE_STRINGS, Be32(Field(m, o, SIZE_STRINGS)))
  }

  /** The content that the moves take: what lies in the place of each block when its turn comes. */
  function Taken(m: seq<byte>, o: nat, t: nat, mrs: nat): Content
    requires Bounded(m, o, t, mrs)
  {
    Content(Part(m, o, Field(m, o, OFF_RSV), mrs),
            Part(WithReserves(m, o, t, mrs), o, Field(m, o, OFF_STRUCT), Field(m, o, SIZE_STRUCT)),
            Part(WithStructure(m, o, t, mrs), o, Field(m, o, OFF_STRINGS), Field(m, o, SIZE_STRINGS)))
  }

  /** The reservations have been moved. */
  ghost predicate RsvDone(m0: seq<byte>, m: seq<byte>, o: nat, t: nat, mrs: nat)
    requires Bounded(m0, o, t, mrs)
  {
    && Stage(m0, m, t, HEADER_SIZE + mrs, 1) && Field(m, t, OFF_RSV) == HEADER_SIZE
    && Part(m, t, HEADER_SIZE, mrs) == Taken(m0, o, t, mrs).rsv
  }

  /** Reservations and structure block have been moved. */
  ghost predicate HeadDone(m0: seq<byte>, m: seq<byte>, o: nat, t: nat, mrs: nat)
    requires Bounded(m0, o, t, mrs)
  {
    var ss, a := Field(m0, o, SIZE_STRUCT), HEADER_SIZE + mrs;
    && Stage(m0, m, t, a + ss, 3)
    && Field(m, t, OFF_RSV) == HEADER_SIZE && Field(m, t, OFF_STRUCT) == a && Field(m, t, SIZE_STRUCT) == ss
    && Part(m, t, HEADER_SIZE, mrs) == Taken(m0, o, t, mrs).rsv && Part(m, t, a, ss) == Taken(m0, o, t, mrs).structure
  }

  /** The first move. */
  lemma ReservesPacked(m0: seq<byte>, o: nat, t: nat, mrs: nat)
    requires Bounded(m0, o, t, mrs)
    ensures Stage(m0, WithReserves(m0, o, t, mrs), t, HEADER_SIZE + mrs, 1)
    ensures RsvDone(m0, WithReserves(m0, o, t, mrs), o, t, mrs)
  {
    hide Put, Be32, Field, Same, Stage, Stays, WithStructure;
    var r := o + Field(m0, o, OFF_RSV);
    Nothing(m0, t);
    NextBlock(m0, m0, WithReserves(m0, o, t, mrs), t, HEADER_SIZE, m0[r..r + mrs], OFF_RSV);
  }

  /** The second move. */
  lemma StructurePacked(m0: seq<byte>, o: nat, t: nat, mrs: nat)
    requires Bounded(m0, o, t, mrs)
    ensures Stage(m0, WithStructure(m0, o, t, mrs), t, HEADER_SIZE + mrs + Field(m0, o, SIZE_STRUCT), 3)
    ensures HeadDone(m0, WithStructure(m0, o, t, mrs), o, t, mrs)
  {
    hide Put, Be32, Field, Same, Stage, Stays, HeadDone, RsvDone, WithReserves;
    var m1, a, s, ss := WithReserves(m0, o, t, mrs), HEADER_SIZE + mrs, o + Field(m0, o, OFF_STRUCT),
      Field(m0, o, SIZE_STRUCT);
    var m2 := Placed(m1, t, a, s, ss, OFF_STRUCT);
    ReservesPacked(m0, o, t, mrs);
    NextBlock(m0, m1, m2, t, a, m1[s..s + ss], OFF_STRUCT);
    NextField(m0, m2, WithStructure(m0, o, t, mrs), t, SIZE_STRUCT, ss, a + ss);
    HeadPacked(m0, m1, m2, WithStructure(m0, o, t, mrs), o, t, mrs);
  }

  /** What has been written so far has not reached a stretch apart from it. */
  lemma StillThere(m0: seq<byte>, m: seq<byte>, t: nat, len: nat, from: nat, n: nat, k: nat)
    requires Stage(m0, m, t, len, k) && Apart(t, len, from, n) && from + n <= |m0|
    ensures |m| == |m0| && m[from..from + n] == m0[from..from + n]
  {
    assert Same(m0, m, from, n);
  }

  lemma HeadPacked(m0: seq<byte>, m1: seq<byte>, m2: seq<byte>, m3: seq<byte>, o: nat, t: nat, mrs: nat)
    requires |m1| == |m2| == |m3| == |m0| && Bounded(m0, o, t, mrs) && RsvDone(m0, m1, o, t, mrs)
    requires var ss, a := Field(m0, o, SIZE_STRUCT), HEADER_SIZE + mrs;
      && Stays(m1, m2, t, a, OFF_STRUCT) && Stays(m2, m3, t, |m2|, SIZE_STRUCT) && Stage(m0, m3, t, a + ss, 3)
      && Field(m2, t, OFF_STRUCT) == a && Field(m3, t, SIZE_STRUCT) == ss
      && Part(m2, t, a, ss) == Taken(m0, o, t, mrs).structure
    ensures HeadDone(m0, m3, o, t, mrs)
  {
    hide Field, Stays, Stage, Taken;
    var a, ss := HEADER_SIZE + mrs, Field(m0, o, SIZE_STRUCT);
    BlockStays(m1, m2, m3, t, a, OFF_STRUCT, SIZE_STRUCT, HEADER_SIZE, mrs);
    FieldStays(m1, m2, m3, t, a, OFF_STRUCT, SIZE_STRUCT, OFF_RSV);
    BlockStays(m2, m2, m3, t, |m2|, SIZE_STRUCT, SIZE_STRUCT, a, ss);
    FieldStays(m2, m2, m3, t, |m2|, SIZE_STRUCT, SIZE_STRUCT, OFF_STRUCT);
  }

  /** A block that lies before len is not touched by a later move and the later store of a size. */
  lemma BlockStays(m: seq<byte>, n: seq<byte>, p: seq<byte>, t: nat, len: nat, f: nat, g: nat, a: nat, k: nat)
    requires (m == n && t + HEADER_SIZE <= |m|) || Stays(m, n, t, len, f)
    requires Stays(n, p, t, |n|, g) && HEADER_SIZE <= a && a + k <= len && t + a + k <= |m|
    ensures |p| == |m| && p[t + a..t + a + k] == m[t + a..t + a + k]
  {
    if m != n {
      assert Same(m, n, t + a, k);
    }
    assert Same(n, p, t + a, k);
  }

  lemma FieldStays(m: seq<byte>, n: seq<byte>, p: seq<byte>, t: nat, len: nat, f: nat, g: nat, h: nat)
    requires (m == n && t + HEADER_SIZE <= |m|) || Stays(m, n, t, len, f)
    requires Stays(n, p, t, |n|, g) && IsField(h) && h != f && h != g
    ensures |p| == |m| && Field(p, t, h) == Field(m, t, h)
  {
    hide Field;
  }

  /** The third move. */
  lemma StringsPacked(m0: seq<byte>, o: nat, t: nat, mrs: nat)
    requires Bounded(m0, o, t, mrs)
    ensures Stage(m0, StringsMoved(m0, o, t, mrs), t, PackedSize(m0, o, mrs), 4)
    ensures var b, st := HEADER_SIZE + mrs + Field(m0, o, SIZE_STRUCT), Field(m0, o, SIZE_STRINGS);
      var m3, m4 := WithStructure(m0, o, t, mrs), StringsMoved(m0, o, t, mrs);
      && Part(m4, t, b, st) == Taken(m0, o, t, mrs).strings
      && Field(m4, t, OFF_STRINGS) == b && Stays(m3, m4, t, b, OFF_STRINGS)
  {
    hide Put, Be32, Field, Same, Stage, Stays, HeadDone, WithStructure;
    var m3, b := WithStructure(m0, o, t, mrs), HEADER_SIZE + mrs + Field(m0, o, SIZE_STRUCT);
    var g, st := o + Field(m0, o, OFF_STRINGS), Field(m0, o, SIZE_STRINGS);
    StructurePacked(m0, o, t, mrs);
    NextBlock(m0, m3, StringsMoved(m0, o, t, mrs), t, b, m3[g..g + st], OFF_STRINGS);
  }

  /** The blocks are in place, and nothing but the new blob has been written. */
  lemma BlocksPacked(m0: seq<byte>, o: nat, t: nat, mrs: nat)
    requires Bounded(m0, o, t, mrs)
    ensures Stage(m0, PackResult(m0, o, t, mrs), t, PackedSize(m0, o, mrs), 5)
    ensures PackedWith(m0, PackResult(m0, o, t, mrs), o, t, mrs, Taken(m0, o, t, mrs))
  {
    hide Put, Be32, Field, Same, Stage, Stays, HeadDone, PackedWith, WithStructure, StringsMoved, Taken;
    var m4, b := StringsMoved(m0, o, t, mrs), HEADER_SIZE + mrs + Field(m0, o, SIZE_STRUCT);
    var st := Field(m0, o, SIZE_STRINGS);
    StructurePacked(m0, o, t, mrs);
    StringsPacked(m0, o, t, mrs);
    NextField(m0, m4, PackResult(m0, o, t, mrs), t, SIZE_STRINGS, st, b + st);
    AllPacked(m0, WithStructure(m0, o, t, mrs), m4, PackResult(m0, o, t, mrs), o, t, mrs);
  }

  /** In a safe place the moves take the content. */
  lemma TakenWhole(m0: seq<byte>, o: nat, t: nat, mrs: nat)
    requires Inside(m0, o, mrs) && Safe(m0, o, t, mrs)
    ensures Bounded(m0, o, t, mrs) && Taken(m0, o, t, mrs) == ContentAt(m0, o, mrs)
  {
    hide Put, Be32, Field, Same, Stage, WithReserves, WithStructure, HeadDone, RsvDone;
    var ss := Field(m0, o, SIZE_STRUCT);
    ReservesPacked(m0, o, t, mrs);
    StructurePacked(m0, o, t, mrs);
    StillThere(m0, WithReserves(m0, o, t, mrs), t, HEADER_SIZE + mrs, o + Field(m0, o, OFF_STRUCT), ss, 1);
    StillThere(m0, WithStructure(m0, o, t, mrs), t, HEADER_SIZE + mrs + ss,
               o + Field(m0, o, OFF_STRINGS), Field(m0, o, SIZE_STRINGS), 3);
  }

  lemma SafelyPacked(m0: seq<byte>, o: nat, t: nat, mrs: nat)
    requires Inside(m0, o, mrs) && Safe(m0, o, t, mrs)
    ensures Bounded(m0, o, t, mrs) && PackedAt(m0, PackResult(m0, o, t, mrs), o, t, mrs)
    ensures Stage(m0, PackResult(m0, o, t, mrs), t, PackedSize(m0, o, mrs), 5)
  {
    hide PackResult, PackedWith, Taken, ContentAt, Stage, Safe;
    TakenWhole(m0, o, t, mrs);
    BlocksPacked(m0, o, t, mrs);
  }

  /** The first two moves of fdt_packblocks_; the new header is written while the old one is still being read. */
  method PackHead(mem: array<byte>, o: nat, t: nat, mrs: nat, ss: nat)
    requires Bounded(mem[..], o, t, mrs) && ss == Field(mem[..], o, SIZE_STRUCT) && (o == t || Safe(mem[..], o, t, mrs))
    modifies mem
    ensures mem[..] == WithStructure(old(mem[..]), o, t, mrs)
  {
    hide Put, Be32, Field, Word, Same, Stage, Safe, Placed;
    ghost var m0 := mem[..];
    var structOff := HEADER_SIZE + mrs;
    MoveBlock(mem, t, HEADER_SIZE, o + Field(mem[..], o, OFF_RSV), mrs, OFF_RSV);
    ReservesPacked(m0, o, t, mrs);
    OldField(m0, mem[..], o, t, mrs, structOff, 1, OFF_STRUCT);
    MoveBlock(mem, t, structOff, o + Field(mem[..], o, OFF_STRUCT), ss, OFF_STRUCT);
    SetField(mem, t, SIZE_STRUCT, ss);
  }

  /** fdt_packblocks_ */
  method PackBlocks(mem: array<byte>, o: nat, t: nat, mrs: nat, ss: nat)
    requires Bounded(mem[..], o, t, mrs) && ss == Field(mem[..], o, SIZE_STRUCT) && (o == t || Safe(mem[..], o, t, mrs))
    modifies mem
    ensures mem[..] == PackResult(old(mem[..]), o, t, mrs)
  {
    hide Put, Be32, Field, Word, Same, Stage, Safe, Placed, WithStructure, Stays, HeadDone, Taken, Part;
    ghost var m0 := mem[..];
    PackHead(mem, o, t, mrs, ss);
    StructurePacked(m0, o, t, mrs);
    var stringsOff := HEADER_SIZE + mrs + ss;
    OldField(m0, mem[..], o, t, mrs, stringsOff, 3, OFF_STRINGS);
    OldField(m0, mem[..], o, t, mrs, stringsOff, 3, SIZE_STRINGS);
    MoveBlock(mem, t, stringsOff, o + Field(mem[..], o, OFF_STRINGS), Field(mem[..], o, SIZE_STRINGS), OFF_STRINGS);
    StringsPacked(m0, o, t, mrs);
    OldField(m0, mem[..], o, t, mrs, PackedSize(m0, o, mrs), 4, SIZE_STRINGS);
    SetField(mem, t, SIZE_STRINGS, Field(mem[..], o, SIZE_STRINGS));
  }

  lemma Nothing(m: seq<byte>, t: nat)
    requires t + HEADER_SIZE <= |m|
    ensures Stage(m, m, t, HEADER_SIZE, 0)
  {
  }

  /** Blocks and fields already written stay as they are. */
  lemma AllPacked(m0: seq<byte>, m3: seq<byte>, m4: seq<byte>, m5: seq<byte>, o: nat, t: nat, mrs: nat)
    requires |m3| == |m4| == |m5| == |m0| && Bounded(m0, o, t, mrs) && HeadDone(m0, m3, o, t, mrs)
    requires var ss, st := Field(m0, o, SIZE_STRUCT), Field(m0, o, SIZE_STRINGS);
      var b := HEADER_SIZE + mrs + ss;
      && Stays(m3, m4, t, b, OFF_STRINGS) && Stays(m4, m5, t, |m4|, SIZE_STRINGS)
      && Field(m4, t, OFF_STRINGS) == b && Field(m5, t, SIZE_STRINGS) == st
      && Part(m4, t, b, st) == Taken(m0, o, t, mrs).strings
    ensures PackedWith(m0, m5, o, t, mrs, Taken(m0, o, t, mrs))
  {
    hide Field, Stays, Stage, Taken;
    var ss, st := Field(m0, o, SIZE_STRUCT), Field(m0, o, SIZE_STRINGS);
    var a, b := HEADER_SIZE + mrs, HEADER_SIZE + mrs + ss;
    BlockStays(m3, m4, m5, t, b, OFF_STRINGS, SIZE_STRINGS, HEADER_SIZE, mrs);
    BlockStays(m3, m4, m5, t, b, OFF_STRINGS, SIZE_STRINGS, a, ss);
    BlockStays(m4, m4, m5, t, |m4|, SIZE_STRINGS, SIZE_STRINGS, b, st);
    FieldStays(m3, m4, m5, t, b, OFF_STRINGS, SIZE_STRINGS, OFF_RSV);
    FieldStays(m3, m4, m5, t, b, OFF_STRINGS, SIZE_STRINGS, OFF_STRUCT);
    FieldStays(m3, m4, m5, t, b, OFF_STRINGS, SIZE_STRINGS, SIZE_STRUCT);
    FieldStays(m4, m4, m5, t, |m4|, SIZE_STRINGS, SIZE_STRINGS, OFF_STRINGS);
  }

  // ------------------------------------------------------------ fdt_pack

  /** The header fields of a blob in memory. */
  function HeaderAt(m: seq<byte>, o: nat): Header
    requires o + HEADER_SIZE <= |m|
  {
    Header(Field(m, o, TOTALSIZE), Field(m, o, OFF_RSV), Field(m, o, OFF_STRUCT), Field(m, o, OFF_STRINGS),
           Field(m, o, SIZE_STRINGS), Field(m, o, SIZE_STRUCT))
  }

  /** fdt_ro_probe_: the total size, or an error. */
  function RoProbe(m: seq<byte>, o: nat): int
    requires o + HEADER_SIZE <= |m|
  {
    var total := Field(m, o, TOTALSIZE);
    if Field(m, o, MAGIC) != FDT_MAGIC && Field(m, o, MAGIC) != FDT_SW_MAGIC then -ERR_BADMAGIC
    else if Field(m, o, MAGIC) == FDT_MAGIC && (Field(m, o, VERSION) < 2 || Field(m, o, LAST_COMP) > 17) then
      -ERR_BADVERSION
    else if Field(m, o, MAGIC) == FDT_SW_MAGIC && Field(m, o, SIZE_STRUCT) == 0 then -ERR_BADSTATE
    else if total < INT_MAX then total
    else -ERR_TRUNCATED
  }

  /**
   * A blob passes that is complete and can be read by version 17 or is unfinished with a structure block, when its
   * total size is below 2^31 - 1; everything else has its own error.
   */
  lemma RoProbeIs(m: seq<byte>, o: nat)
    requires o + 40 <= |m|
    ensures var magic, total := Word(m, o), Word(m, o + 4);
      var complete, unfinished := magic == 0xD00D_FEED, magic == 0x2FF2_0112;
      RoProbe(m, o) ==
        if !complete && !unfinished then -9
        else if complete && (Word(m, o + 20) < 2 || Word(m, o + 24) > 17) then -10
        else if unfinished && Word(m, o + 36) == 0 then -7
        else if total >= 0x7FFF_FFFF then -8 else total
  {
    hide Word;
  }

  /** Some block starts before the one in front of it ends, or ends behind the blob. */
  predicate Misordered(h: Header, mrs: nat) {
    || h.offRsv < HEADER_SIZE || h.offStruct < h.offRsv + mrs
    || h.offStrings < h.offStruct + h.sizeStruct || h.totalsize < h.offStrings + h.sizeStrings
  }

  /** The probe of the editing functions, where no sum wraps. */
  lemma RwProbeIs(h: Header)
    ensures RwProbe(h) == if h.totalsize >= 0x7FFF_FFFF then -8 else if Misordered(h, 16) then -12 else 0
  {
  }

  /** What fdt_blocks_misordered_ says of it: the sums are taken in 32 bits. */
  predicate SaysOrdered(h: Header, mrs: int) {
    && HEADER_SIZE <= h.offRsv && (h.offRsv + mrs) % U32 <= h.offStruct
    && (h.offStruct + h.sizeStruct) % U32 <= h.offStrings && (h.offStrings + h.sizeStrings) % U32 <= h.totalsize
  }

  /** The fields of a header are words. */
  predicate InWords(h: Header) {
    && h.totalsize < U32 && h.offRsv < U32 && h.offStruct < U32 && h.offStrings < U32
    && h.sizeStrings < U32 && h.sizeStruct < U32
  }

  /** A sum of two words that is above a limit even when it has wrapped. */
  predicate Exceeds(sum: nat, limit: nat) {
    limit < sum < U32 || limit + U32 < sum
  }

  /** The check is right exactly when no sum wraps, or when there is a reason to refuse that wrapping does not hide. */
  lemma OrderExact(h: Header, mrs: nat)
    requires InWords(h) && mrs < U32
    ensures (SaysOrdered(h, mrs) <==> !Misordered(h, mrs)) <==>
      || (h.offRsv + mrs < U32 && h.offStruct + h.sizeStruct < U32 && h.offStrings + h.sizeStrings < U32)
      || h.offRsv < HEADER_SIZE || Exceeds(h.offRsv + mrs, h.offStruct)
      || Exceeds(h.offStruct + h.sizeStruct, h.offStrings) || Exceeds(h.offStrings + h.sizeStrings, h.totalsize)
  {
    Wrapped(h.offRsv, mrs);
    Wrapped(h.offStruct, h.sizeStruct);
    Wrapped(h.offStrings, h.sizeStrings);
  }

  /** After fdt_check_header no sum wraps. */
  lemma CheckedOrder(h: Header, mrs: nat)
    requires CheckHeader(h) == 0 && mrs <= INT_MAX
    ensures SaysOrdered(h, mrs) <==> !Misordered(h, mrs)
  {
    Wrapped(h.offRsv, mrs);
    Wrapped(h.offStruct, h.sizeStruct);
    Wrapped(h.offStrings, h.sizeStrings);
  }

  /** Where the check passes and a sum has wrapped, that block does not end in the blob. */
  lemma WrongOrder(h: Header, mrs: nat)
    requires InWords(h) && mrs < U32 && SaysOrdered(h, mrs) && Misordered(h, mrs)
    ensures h.offRsv + mrs > h.totalsize || h.offStruct + h.sizeStruct > h.totalsize
         || h.offStrings + h.sizeStrings > h.totalsize
  {
    OrderExact(h, mrs);
  }

  /** What fdt_pack answers. */
  function PackAnswer(m: seq<byte>, o: nat): int
    requires o + HEADER_SIZE <= |m|
  {
    if RoProbe(m, o) < 0 then RoProbe(m, o)
    else if Field(m, o, VERSION) < 17 then -ERR_BADVERSION
    else if !SaysOrdered(HeaderAt(m, o), RSV_ENTRY) then -ERR_BADLAYOUT
    else 0
  }

  /** The bytes of the blob, as a reader takes them. */
  function BlobAt(m: seq<byte>, o: nat): seq<byte>
    requires o + HEADER_SIZE <= |m| && o + Field(m, o, TOTALSIZE) <= |m|
  {
    m[o..o + Field(m, o, TOTALSIZE)]
  }

  /** The reservation list ends, inside the blob, with its k-th entry. */
  ghost predicate ListEnds(m: seq<byte>, h: Header, k: nat)
    requires h.totalsize <= |m|
  {
    RsvFits(h, k) && NoSize(m, h, k) && forall i: nat :: i < k ==> !NoSize(m, h, i)
  }

  /** No block starts inside the header. */
  predicate Behind(m: seq<byte>, o: nat)
    requires o + HEADER_SIZE <= |m|
  {
    HEADER_SIZE <= Field(m, o, OFF_RSV) && HEADER_SIZE <= Field(m, o, OFF_STRUCT)
      && HEADER_SIZE <= Field(m, o, OFF_STRINGS)
  }

  /** From m to n, the header at o keeps every field but f, and the content stays. */
  ghost predicate Keeping(m: seq<byte>, n: seq<byte>, o: nat, mrs: nat, f: nat) {
    && Inside(m, o, mrs) && Inside(n, o, mrs) && Behind(n, o) && ContentAt(n, o, mrs) == ContentAt(m, o, mrs)
    && (forall g: nat :: IsField(g) && g != f ==> Field(n, o, g) == Field(m, o, g))
    && Untouched(m, n, o, HEADER_SIZE)
  }

  /** Setting a field that locates no block, or setting it to what it is, keeps the content. */
  lemma SetOther(m: seq<byte>, n: seq<byte>, o: nat, f: nat, v: u32, mrs: nat)
    requires Inside(m, o, mrs) && Behind(m, o) && IsField(f) && (Rank(f) == 5 || v == Field(m, o, f))
    requires n == Put(m, o + f, Be32(v))
    ensures Keeping(m, n, o, mrs, f) && Field(n, o, f) == v
  {
    hide Put, Be32, Field, Same;
    FieldStored(m, n, o, f, v);
    SameMeans(m, n, o + Field(m, o, OFF_RSV), mrs);
    SameMeans(m, n, o + Field(m, o, OFF_STRUCT), Field(m, o, SIZE_STRUCT));
    SameMeans(m, n, o + Field(m, o, OFF_STRINGS), Field(m, o, SIZE_STRINGS));
  }

  /** After fdt_pack: a content c right behind its header, and a total size that says so. */
  ghost predicate PackedInto(m: seq<byte>, n: seq<byte>, o: nat, mrs: nat, c: Content) {
    && Inside(m, o, mrs) && |n| == |m| && PackedWith(m, n, o, o, mrs, c)
    && Field(n, o, TOTALSIZE) == PackedSize(m, o, mrs)
    && Field(n, o, VERSION) == 17 && Field(n, o, MAGIC) == Field(m, o, MAGIC)
    && Field(n, o, LAST_COMP) == Field(m, o, LAST_COMP) && Field(n, o, BOOT_CPU) == Field(m, o, BOOT_CPU)
    && Untouched(m, n, o, PackedSize(m, o, mrs))
  }

  /** ... when the content is that of the old blob, and no more room is needed. */
  ghost predicate Packed(m: seq<byte>, n: seq<byte>, o: nat, mrs: nat) {
    Inside(m, o, mrs) && PackedInto(m, n, o, mrs, ContentAt(m, o, mrs))
      && PackedSize(m, o, mrs) <= Field(m, o, TOTALSIZE)
  }

  lemma AllSteps(m1: seq<byte>, m2: seq<byte>, m3: seq<byte>, o: nat, mrs: nat, c: Content)
    requires Inside(m1, o, mrs) && Field(m1, o, VERSION) == 17
    requires PackedWith(m1, m2, o, o, mrs, c) && Stage(m1, m2, o, PackedSize(m1, o, mrs), 5)
    requires Keeping(m2, m3, o, mrs, TOTALSIZE) && Field(m3, o, TOTALSIZE) == PackedSize(m1, o, mrs)
    ensures PackedInto(m1, m3, o, mrs, c)
  {
    hide Field, Same, ContentAt;
    UntouchedBoth(m1, m2, m3, o, PackedSize(m1, o, mrs), HEADER_SIZE);
  }

  lemma UntouchedBoth(m: seq<byte>, n: seq<byte>, p: seq<byte>, o: nat, len: nat, k: nat)
    requires Untouched(m, n, o, len) && Untouched(n, p, o, k) && k <= len
    ensures Untouched(m, p, o, len)
  {
    forall a: nat, l: nat | a + l <= |m| && Apart(o, len, a, l) ensures Same(m, p, a, l) {
      assert Same(m, n, a, l) && Same(n, p, a, l);
    }
  }

  /** Seen from the memory before the version was set. */
  lemma FromProbe(m0: seq<byte>, m1: seq<byte>, m3: seq<byte>, o: nat, mrs: nat)
    requires (m1 == m0 || Keeping(m0, m1, o, mrs, VERSION)) && Inside(m0, o, mrs) && Inside(m1, o, mrs)
    requires PackedInto(m1, m3, o, mrs, ContentAt(m1, o, mrs)) && PackedSize(m0, o, mrs) <= Field(m0, o, TOTALSIZE)
    ensures Packed(m0, m3, o, mrs)
  {
    hide Field, Same, ContentAt;
    if m1 != m0 {
      forall a: nat, l: nat | a + l <= |m0| && Apart(o, PackedSize(m0, o, mrs), a, l) ensures Same(m0, m3, a, l) {
        assert Same(m0, m1, a, l) && Same(m1, m3, a, l);
        SameMeans(m0, m1, a, l);
        SameMeans(m1, m3, a, l);
        SameMeans(m0, m3, a, l);
      }
    }
  }

  /**
   * What must hold for packing in place to be safe: the reservations end before the structure block and
   * the two of them before the strings block, unless there is nothing in these blocks.  Then the packed
   * blob needs no more room than the old one.
   */
  lemma SafeInPlace(m: seq<byte>, o: nat, mrs: nat)
    requires o + HEADER_SIZE <= |m| && o + Field(m, o, TOTALSIZE) <= |m| && RwProbe(HeaderAt(m, o)) == 0
    requires Field(m, o, OFF_RSV) + mrs <= Field(m, o, TOTALSIZE)
    ensures Inside(m, o, mrs) && Behind(m, o)
    ensures Safe(m, o, o, mrs) <==>
      && (Field(m, o, SIZE_STRUCT) == 0 || HEADER_SIZE + mrs <= Field(m, o, OFF_STRUCT))
      && (Field(m, o, SIZE_STRINGS) == 0 || HEADER_SIZE + mrs + Field(m, o, SIZE_STRUCT) <= Field(m, o, OFF_STRINGS))
    ensures Safe(m, o, o, mrs) ==> PackedSize(m, o, mrs) <= Field(m, o, TOTALSIZE)
  {
    hide Field;
  }

  /** The list of reservations ends with entry k, and the packed blob ends inside memory. */
  ghost predicate Packable(m: seq<byte>, o: nat, k: nat)
    requires o + HEADER_SIZE <= |m| && o + Field(m, o, TOTALSIZE) <= |m|
  {
    && ListEnds(BlobAt(m, o), HeaderAt(m, o), k)
    && o + PackedSize(m, o, 16 * (k + 1)) <= |m| && PackedSize(m, o, 16 * (k + 1)) <= INT_MAX
  }

  lemma PackableBounded(m: seq<byte>, o: nat, k: nat)
    requires o + HEADER_SIZE <= |m| && o + Field(m, o, TOTALSIZE) <= |m|
    requires RwProbe(HeaderAt(m, o)) == 0 && Packable(m, o, k)
    ensures Bounded(m, o, o, 16 * (k + 1)) && Field(m, o, OFF_RSV) + 16 * (k + 1) <= Field(m, o, TOTALSIZE)
  {
    hide Field, NoSize;
  }

  /** fdt_rw_probe_ lowers a newer version to 17. */
  function Probed(m: seq<byte>, o: nat): seq<byte>
    requires o + HEADER_SIZE <= |m|
  {
    if Field(m, o, VERSION) > 17 then Put(m, o + VERSION, Be32(17)) else m
  }

  /** Lowering the version changes nothing else. */
  lemma ProbedIs(m: seq<byte>, o: nat)
    requires o + HEADER_SIZE <= |m| && o + Field(m, o, TOTALSIZE) <= |m|
    requires RwProbe(HeaderAt(m, o)) == 0 && Field(m, o, VERSION) >= 17
    ensures var n := Probed(m, o);
      && |n| == |m| && Field(n, o, VERSION) == 17 && HeaderAt(n, o) == HeaderAt(m, o)
      && o + Field(n, o, TOTALSIZE) <= |n| && Untouched(m, n, o, HEADER_SIZE)
      && forall mrs: nat :: Inside(m, o, mrs) && n != m ==> Keeping(m, n, o, mrs, VERSION)
    ensures forall i: nat :: RsvFits(HeaderAt(m, o), i) ==>
      (NoSize(BlobAt(Probed(m, o), o), HeaderAt(m, o), i) <==> NoSize(BlobAt(m, o), HeaderAt(m, o), i))
  {
    hide Put, Be32, Field, NoSize, Keeping, Same;
    var n, h := Probed(m, o), HeaderAt(m, o);
    if Field(m, o, VERSION) > 17 {
      FieldStored(m, n, o, VERSION, 17);
      forall mrs: nat | Inside(m, o, mrs) ensures Keeping(m, n, o, mrs, VERSION) {
        SetOther(m, n, o, VERSION, 17, mrs);
      }
      forall i: nat | RsvFits(h, i) ensures NoSize(BlobAt(n, o), h, i) <==> NoSize(BlobAt(m, o), h, i) {
        SizeKept(m, n, o, h, i);
      }
    } else {
      SelfUntouched(m, o);
    }
  }

  lemma SelfUntouched(m: seq<byte>, o: nat)
    ensures Untouched(m, m, o, HEADER_SIZE)
  {
  }

  lemma SizeKept(m: seq<byte>, n: seq<byte>, o: nat, h: Header, i: nat)
    requires o + h.totalsize <= |m| && Untouched(m, n, o, HEADER_SIZE) && h.offRsv >= HEADER_SIZE && RsvFits(h, i)
    ensures NoSize(n[o..o + h.totalsize], h, i) <==> NoSize(m[o..o + h.totalsize], h, i)
  {
    var a := h.offRsv + 16 * i + 8;
    assert Same(m, n, o + a, 8);
    SubSlice(m, o, m[o..o + h.totalsize], a, a + 8);
    SubSlice(n, o, n[o..o + h.totalsize], a, a + 8);
  }

  /**
   * fdt_pack.  It escapes when its probe passes and a block does not end in the blob, when the list of
   * reservations does not end in the blob, and the negative size that then stands for the list reaches the
   * moves, or when what it takes for the list makes the packed blob end behind memory; the model stops
   * there.  Otherwise the content is what the moves take.
   */
  method Pack(mem: array<byte>, o: nat) returns (err: int, escapes: bool, ghost k: nat)
    requires o + HEADER_SIZE <= mem.Length && o + Field(mem[..], o, TOTALSIZE) <= mem.Length
    modifies mem
    ensures escapes <==>
      && PackAnswer(old(mem[..]), o) == 0
      && (Misordered(HeaderAt(old(mem[..]), o), RSV_ENTRY) || forall i: nat :: !Packable(old(mem[..]), o, i))
    ensures !escapes ==> err == PackAnswer(old(mem[..]), o)
    ensures err != 0 ==> mem[..] == old(mem[..])
    ensures err == 0 && !escapes ==>
      && Packable(old(mem[..]), o, k) && Bounded(Probed(old(mem[..]), o), o, o, 16 * (k + 1))
      && PackedInto(Probed(old(mem[..]), o), mem[..], o, 16 * (k + 1),
                    Taken(Probed(old(mem[..]), o), o, o, 16 * (k + 1)))
    ensures err == 0 && !escapes && Inside(old(mem[..]), o, 16 * (k + 1)) && Safe(old(mem[..]), o, o, 16 * (k + 1)) ==>
      Packed(old(mem[..]), mem[..], o, 16 * (k + 1))
  {
    hide Put, Be32, Word, Field, NoSize, Packable, Packed, PackedInto, Inside, Bounded, Safe, Behind, Probed, Taken,
      RwProbe, SaysOrdered, Misordered;
    escapes, k := false, 0;
    err := RoProbe(mem[..], o);
    if err < 0 {
      return;
    }
    if Field(mem[..], o, VERSION) < 17 {
      return -ERR_BADVERSION, escapes, k;
    }
    if !SaysOrdered(HeaderAt(mem[..], o), RSV_ENTRY) {
      return -ERR_BADLAYOUT, escapes, k;
    }
    err := 0;
    ProbeMeans(mem[..], o);
    if Misordered(HeaderAt(mem[..], o), RSV_ENTRY) {
      escapes := true;
      return;
    }
    escapes, k := PackValid(mem, o);
  }

  lemma ProbeMeans(m: seq<byte>, o: nat)
    requires o + HEADER_SIZE <= |m| && RoProbe(m, o) >= 0
    ensures RwProbe(HeaderAt(m, o)) == 0 <==> !Misordered(HeaderAt(m, o), RSV_ENTRY)
  {
    hide Field;
  }

  predicate ZeroSize(rsv: seq<byte>, i: nat)
    requires 16 * i + 16 <= |rsv|
  {
    rsv[16 * i + 8..16 * i + 16] == [0, 0, 0, 0, 0, 0, 0, 0]
  }

  /** The k-th entry of a list is its first of size zero. */
  ghost predicate RsvEnds(rsv: seq<byte>, k: nat) {
    |rsv| == 16 * (k + 1) && ZeroSize(rsv, k) && forall i: nat :: i < k ==> !ZeroSize(rsv, i)
  }

  lemma ListInContent(m: seq<byte>, o: nat, k: nat)
    requires Inside(m, o, 16 * (k + 1)) && o + Field(m, o, TOTALSIZE) <= |m|
    requires Field(m, o, OFF_RSV) + 16 * (k + 1) <= Field(m, o, TOTALSIZE) <= INT_MAX
    ensures ListEnds(BlobAt(m, o), HeaderAt(m, o), k) <==> RsvEnds(ContentAt(m, o, 16 * (k + 1)).rsv, k)
  {
    hide Field;
    var b, h, rsv := BlobAt(m, o), HeaderAt(m, o), ContentAt(m, o, 16 * (k + 1)).rsv;
    forall i: nat | i <= k ensures NoSize(b, h, i) <==> ZeroSize(rsv, i) {
      SubSlice(m, o, b, h.offRsv + 16 * i + 8, h.offRsv + 16 * i + 16);
      SubSlice(m, o + h.offRsv, rsv, 16 * i + 8, 16 * i + 16);
    }
  }

  /** Only the first entry of size zero can end the list. */
  lemma OneEnding(m: seq<byte>, h: Header, i: nat, k: nat)
    requires h.totalsize <= |m| && ListEnds(m, h, i) && ListEnds(m, h, k)
    ensures i == k
  {
    hide NoSize;
  }

  /** fdt_num_mem_rsv of a blob in memory. */
  method Reservations(mem: array<byte>, o: nat) returns (n: int)
    requires o + HEADER_SIZE <= mem.Length && o + Field(mem[..], o, TOTALSIZE) <= mem.Length
    requires Field(mem[..], o, TOTALSIZE) >= RSV_ENTRY
    ensures n >= 0 ==> ListEnds(BlobAt(mem[..], o), HeaderAt(mem[..], o), n)
    ensures n < 0 ==> n == -ERR_TRUNCATED && forall k: nat :: !ListEnds(BlobAt(mem[..], o), HeaderAt(mem[..], o), k)
  {
    hide NoSize, Word;
    var escapes;
    n, escapes := NumMemRsv(BlobAt(mem[..], o), HeaderAt(mem[..], o));
  }

  lemma SamePackable(m: seq<byte>, o: nat)
    requires o + HEADER_SIZE <= |m| && o + Field(m, o, TOTALSIZE) <= |m|
    requires RwProbe(HeaderAt(m, o)) == 0 && Field(m, o, VERSION) >= 17
    ensures |Probed(m, o)| == |m| && o + Field(Probed(m, o), o, TOTALSIZE) <= |m|
    ensures forall i: nat :: Packable(Probed(m, o), o, i) <==> Packable(m, o, i)
  {
    hide Put, Be32, Field, NoSize, Probed;
    ProbedIs(m, o);
    assert PackedSize(Probed(m, o), o, 0) == PackedSize(m, o, 0) by { SizesKept(m, Probed(m, o), o); }
  }

  /** Safety is a matter of the header alone. */
  lemma SafeAlike(m: seq<byte>, n: seq<byte>, o: nat, mrs: nat)
    requires o + HEADER_SIZE <= |m| == |n| && HeaderAt(n, o) == HeaderAt(m, o)
    requires o + Field(m, o, TOTALSIZE) <= |m| && RwProbe(HeaderAt(m, o)) == 0
    requires Field(m, o, OFF_RSV) + mrs <= Field(m, o, TOTALSIZE)
    ensures Inside(m, o, mrs) && Inside(n, o, mrs) && (Safe(n, o, o, mrs) <==> Safe(m, o, o, mrs))
    ensures Safe(m, o, o, mrs) ==> PackedSize(m, o, mrs) <= Field(m, o, TOTALSIZE)
  {
    hide Field;
    SafeInPlace(m, o, mrs);
  }

  lemma SizesKept(m: seq<byte>, n: seq<byte>, o: nat)
    requires o + HEADER_SIZE <= |m| == |n| && HeaderAt(n, o) == HeaderAt(m, o)
    ensures forall mrs: nat :: PackedSize(n, o, mrs) == PackedSize(m, o, mrs)
  {
    hide Field;
  }

  /** The two ways to escape. */
  lemma EscapesIs(m: seq<byte>, o: nat, n: int)
    requires o + HEADER_SIZE <= |m| && o + Field(m, o, TOTALSIZE) <= |m|
    requires n >= 0 ==> ListEnds(BlobAt(m, o), HeaderAt(m, o), n)
    requires n < 0 ==> forall k: nat :: !ListEnds(BlobAt(m, o), HeaderAt(m, o), k)
    ensures (n < 0 || o + PackedSize(m, o, 16 * (n + 1)) > |m| || PackedSize(m, o, 16 * (n + 1)) > INT_MAX)
       <==> forall i: nat :: !Packable(m, o, i)
    ensures n >= 0 && o + PackedSize(m, o, 16 * (n + 1)) <= |m| && PackedSize(m, o, 16 * (n + 1)) <= INT_MAX ==>
      Packable(m, o, n)
  {
    hide Field, ListEnds;
    if n >= 0 {
      var size := PackedSize(m, o, 16 * (n + 1));
      assert Packable(m, o, n) <==> o + size <= |m| && size <= INT_MAX;
      forall i: nat | Packable(m, o, i) ensures i == n {
        OneEnding(BlobAt(m, o), HeaderAt(m, o), i, n);
      }
    }
  }

  /** The moves, and the total size. */
  method PackInPlace(mem: array<byte>, o: nat, mrs: nat)
    requires Bounded(mem[..], o, o, mrs) && Field(mem[..], o, VERSION) == 17
    modifies mem
    ensures Bounded(old(mem[..]), o, o, mrs)
    ensures PackedInto(old(mem[..]), mem[..], o, mrs, Taken(old(mem[..]), o, o, mrs))
  {
    hide Put, Be32, Word, Field, PackedWith, Stage, PackedInto, Behind, Keeping, Taken, PackResult;
    ghost var m1 := mem[..];
    PackBlocks(mem, o, o, mrs, Field(mem[..], o, SIZE_STRUCT));
    BlocksPacked(m1, o, o, mrs);
    ghost var m2 := mem[..];
    PackedHeader(m1, m2, o, mrs, Taken(m1, o, o, mrs));
    SetField(mem, o, TOTALSIZE, Field(mem[..], o, OFF_STRINGS) + Field(mem[..], o, SIZE_STRINGS));
    SetOther(m2, mem[..], o, TOTALSIZE, PackedSize(m1, o, mrs), mrs);
    AllSteps(m1, m2, mem[..], o, mrs, Taken(m1, o, o, mrs));
  }

  /** fdt_pack after its probe. */
  method PackValid(mem: array<byte>, o: nat) returns (escapes: bool, ghost k: nat)
    requires o + HEADER_SIZE <= mem.Length && o + Field(mem[..], o, TOTALSIZE) <= mem.Length
    requires RwProbe(HeaderAt(mem[..], o)) == 0 && Field(mem[..], o, VERSION) >= 17
    modifies mem
    ensures escapes <==> forall i: nat :: !Packable(old(mem[..]), o, i)
    ensures !escapes ==>
      && Packable(old(mem[..]), o, k) && Bounded(Probed(old(mem[..]), o), o, o, 16 * (k + 1))
      && PackedInto(Probed(old(mem[..]), o), mem[..], o, 16 * (k + 1),
                    Taken(Probed(old(mem[..]), o), o, o, 16 * (k + 1)))
    ensures !escapes && Inside(old(mem[..]), o, 16 * (k + 1)) && Safe(old(mem[..]), o, o, 16 * (k + 1)) ==>
      Packed(old(mem[..]), mem[..], o, 16 * (k + 1))
  {
    hide Put, Be32, Word, Field, NoSize, PackedInto, Packed, Packable, Inside, Safe, Behind, Bounded, Taken, PackResult,
      ListEnds, BlobAt;
    ghost var m0 := mem[..];
    k := 0;
    SamePackable(m0, o);
    ProbedIs(m0, o);
    if Field(mem[..], o, VERSION) > 17 {
      SetField(mem, o, VERSION, 17);
    }
    ghost var m1 := mem[..];
    assert m1 == Probed(m0, o);
    var n := Reservations(mem, o);
    assert mem[..] == m1;
    escapes := n < 0 || o + PackedSize(mem[..], o, 16 * (n + 1)) > mem.Length
      || PackedSize(mem[..], o, 16 * (n + 1)) > INT_MAX;
    EscapesIs(m1, o, n);
    if escapes {
      return;
    }
    k := n;
    PackableBounded(m1, o, k);
    PackInPlace(mem, o, 16 * (n + 1));
    SafeAlike(m0, m1, o, 16 * (k + 1));
    if Safe(m0, o, o, 16 * (k + 1)) {
      TakenWhole(m1, o, o, 16 * (k + 1));
      FromProbe(m0, m1, mem[..], o, 16 * (k + 1));
    }
  }

  lemma PackedHeader(m1: seq<byte>, m2: seq<byte>, o: nat, mrs: nat, c: Content)
    requires Inside(m1, o, mrs) && PackedWith(m1, m2, o, o, mrs, c)
    ensures |m2| == |m1| && Inside(m2, o, mrs) && Behind(m2, o)
    ensures Field(m2, o, OFF_STRINGS) + Field(m2, o, SIZE_STRINGS) == PackedSize(m1, o, mrs)
  {
    hide Field, ContentAt;
  }

  // --------------------------------------------------- what a reader sees

  lemma BlocksRead(m: seq<byte>, o: nat, mrs: nat)
    requires Inside(m, o, mrs) && o + Field(m, o, TOTALSIZE) <= |m| && RwProbe(HeaderAt(m, o)) == 0
    ensures StructOf(BlobAt(m, o), HeaderAt(m, o)) == ContentAt(m, o, mrs).structure
    ensures StringsOf(BlobAt(m, o), HeaderAt(m, o)) == ContentAt(m, o, mrs).strings
  {
    hide Field;
    var h := HeaderAt(m, o);
    SubSlice(m, o, BlobAt(m, o), h.offStruct, h.offStruct + h.sizeStruct);
    SubSlice(m, o, BlobAt(m, o), h.offStrings, h.offStrings + h.sizeStrings);
  }

  /** The content at t in n is that at o in m, and both can be read. */
  ghost predicate SameContent(m: seq<byte>, n: seq<byte>, o: nat, t: nat, mrs: nat) {
    && Inside(m, o, mrs) && o + Field(m, o, TOTALSIZE) <= |m| && RwProbe(HeaderAt(m, o)) == 0
    && Inside(n, t, mrs) && t + Field(n, t, TOTALSIZE) <= |n| && RwProbe(HeaderAt(n, t)) == 0
    && ContentAt(n, t, mrs) == ContentAt(m, o, mrs)
  }

  /** The same content is the same tree with the same reservations. */
  lemma SameTree(m: seq<byte>, n: seq<byte>, o: nat, t: nat, k: nat, top: seq<Item>)
    requires SameContent(m, n, o, t, 16 * (k + 1))
    requires Field(m, o, OFF_RSV) + 16 * (k + 1) <= Field(m, o, TOTALSIZE)
    requires Field(n, t, OFF_RSV) + 16 * (k + 1) <= Field(n, t, TOTALSIZE)
    requires Represents(StructOf(BlobAt(m, o), HeaderAt(m, o)), StringsOf(BlobAt(m, o), HeaderAt(m, o)), top)
    ensures Represents(StructOf(BlobAt(n, t), HeaderAt(n, t)), StringsOf(BlobAt(n, t), HeaderAt(n, t)), top)
    ensures TreeOf(top, StringsOf(BlobAt(n, t), HeaderAt(n, t))) == TreeOf(top, StringsOf(BlobAt(m, o), HeaderAt(m, o)))
    ensures ListEnds(BlobAt(m, o), HeaderAt(m, o), k) <==> ListEnds(BlobAt(n, t), HeaderAt(n, t), k)
  {
    hide Field, Represents, ContentAt, BlobAt, StructOf, StringsOf, TreeOf, ListEnds, RsvEnds;
    BlocksRead(m, o, 16 * (k + 1));
    BlocksRead(n, t, 16 * (k + 1));
    ListInContent(m, o, k);
    ListInContent(n, t, k);
  }

  /** fdt_pack keeps the tree, answers 0 again, and then finds nothing more to remove. */
  lemma PackKeeps(m: seq<byte>, n: seq<byte>, o: nat, k: nat, top: seq<Item>)
    requires o + HEADER_SIZE <= |m| && o + Field(m, o, TOTALSIZE) <= |m|
    requires PackAnswer(m, o) == 0 && !Misordered(HeaderAt(m, o), RSV_ENTRY)
    requires Field(m, o, OFF_RSV) + 16 * (k + 1) <= Field(m, o, TOTALSIZE) && Packed(m, n, o, 16 * (k + 1))
    requires Represents(StructOf(BlobAt(m, o), HeaderAt(m, o)), StringsOf(BlobAt(m, o), HeaderAt(m, o)), top)
    ensures o + Field(n, o, TOTALSIZE) <= |n| && PackAnswer(n, o) == 0 && !Misordered(HeaderAt(n, o), RSV_ENTRY)
    ensures Represents(StructOf(BlobAt(n, o), HeaderAt(n, o)), StringsOf(BlobAt(n, o), HeaderAt(n, o)), top)
    ensures TreeOf(top, StringsOf(BlobAt(n, o), HeaderAt(n, o))) == TreeOf(top, StringsOf(BlobAt(m, o), HeaderAt(m, o)))
    ensures ListEnds(BlobAt(m, o), HeaderAt(m, o), k) <==> ListEnds(BlobAt(n, o), HeaderAt(n, o), k)
    ensures PackedSize(n, o, 16 * (k + 1)) == Field(n, o, TOTALSIZE)
  {
    hide Field, Represents, ContentAt, BlobAt, StructOf, StringsOf, TreeOf, ListEnds, Untouched;
    SameTree(m, n, o, o, k, top);
  }
}
