/**
 * fdt_resize: an unfinished blob moves to a buffer of another size.  The strings stay at the end
 * of the buffer, so head and tail move by different distances, and the order of the two moves
 * depends on the direction.
 */
module Resizing {
  import opened Bytes
  import opened Tokens
  import opened Blob
  import opened Writer
  import opened Repack

  /** The size of the head as fdt_resize adds it up, in 32 bits. */
  function HeadSize(offStruct: u32, sizeStruct: u32): u32 {
    (offStruct + sizeStruct) % U32
  }

  /** Do head and tail fit into size bytes? */
  predicate SaysInside(offStruct: u32, sizeStruct: u32, tail: nat, size: nat) {
    HeadSize(offStruct, sizeStruct) + tail <= size
  }

  /** The answer is right exactly when the sum does not wrap, or wraps to more than there is room for. */
  lemma InsideExact(offStruct: u32, sizeStruct: u32, tail: nat, size: nat)
    requires size < U32
    ensures (SaysInside(offStruct, sizeStruct, tail, size) <==> offStruct + sizeStruct + tail <= size)
       <==> offStruct + sizeStruct < U32 || offStruct + sizeStruct - U32 + tail > size
  {
    if offStruct + sizeStruct >= U32 {
      assert HeadSize(offStruct, sizeStruct) == offStruct + sizeStruct - U32;
    }
  }

  /** A structure block of almost 2^32 bytes is taken for a head of 40 bytes. */
  lemma HeadWraps()
    ensures SaysInside(48, U32 - 8, 0, 100) && HeadSize(48, U32 - 8) == HEADER_SIZE
  {
  }

  function HeadAt(m: seq<byte>, o: nat): u32
    requires o + HEADER_SIZE <= |m|
  {
    HeadSize(Field(m, o, OFF_STRUCT), Field(m, o, SIZE_STRUCT))
  }

  /** What fdt_resize answers. */
  function ResizeAnswer(m: seq<byte>, o: nat, bufsize: nat): int
    requires o + HEADER_SIZE <= |m|
  {
    var head, tail := HeadAt(m, o), Field(m, o, SIZE_STRINGS);
    if Field(m, o, MAGIC) == FDT_MAGIC then -ERR_BADSTATE
    else if Field(m, o, MAGIC) != FDT_SW_MAGIC then -ERR_BADMAGIC
    else if head + tail > Field(m, o, TOTALSIZE) then -ERR_INTERNAL
    else if head + tail > bufsize then -ERR_NOSPACE
    else 0
  }

  /** The head at t is that at o, except for the two fields that say where the buffer ends. */
  ghost predicate HeadMoved(m: seq<byte>, n: seq<byte>, o: nat, t: nat, head: nat, bufsize: nat) {
    && |n| == |m| && HEADER_SIZE <= head && o + head <= |m| && t + head <= |n|
    && n[t + HEADER_SIZE..t + head] == m[o + HEADER_SIZE..o + head]
    && (forall g: nat :: IsField(g) && g != TOTALSIZE && g != OFF_STRINGS ==> Field(n, t, g) == Field(m, o, g))
    && Field(n, t, TOTALSIZE) == bufsize
    && Field(n, t, OFF_STRINGS) == if Field(m, o, OFF_STRINGS) == 0 then 0 else bufsize
  }

  ghost predicate Resized(m: seq<byte>, n: seq<byte>, o: nat, t: nat, bufsize: nat)
    requires o + HEADER_SIZE <= |m|
  {
    var head, tail, total := HeadAt(m, o), Field(m, o, SIZE_STRINGS), Field(m, o, TOTALSIZE);
    && HeadMoved(m, n, o, t, head, bufsize) && Untouched(m, n, t, bufsize)
    && tail <= total && tail <= bufsize && o + total <= |m| && t + bufsize <= |n|
    && n[t + bufsize - tail..t + bufsize] == m[o + total - tail..o + total]
  }

  /** Two moves, when the first does not reach the source of the second. */
  lemma TwoMoves(m: seq<byte>, p: seq<byte>, n: seq<byte>, to1: nat, from1: nat, n1: nat, to2: nat, from2: nat, n2: nat)
    requires to1 + n1 <= |m| && from1 + n1 <= |m| && to2 + n2 <= |m| && from2 + n2 <= |m|
    requires p == Put(m, to1, m[from1..from1 + n1]) && |p| == |m| && n == Put(p, to2, p[from2..from2 + n2])
    requires Apart(to1, n1, from2, n2) && Apart(to1, n1, to2, n2)
    ensures |n| == |m| && n[to1..to1 + n1] == m[from1..from1 + n1] && n[to2..to2 + n2] == m[from2..from2 + n2]
    ensures forall a: nat, k: nat :: a + k <= |m| && Apart(to1, n1, a, k) && Apart(to2, n2, a, k) ==> Same(m, n, a, k)
  {
    hide Put;
    var x := m[from1..from1 + n1];
    Lands(m, to1, x);
    Keeps(m, to1, x, from2, n2);
    var y := p[from2..from2 + n2];
    Lands(p, to2, y);
    Keeps(p, to2, y, to1, n1);
    forall a: nat, k: nat | a + k <= |m| && Apart(to1, n1, a, k) && Apart(to2, n2, a, k) ensures Same(m, n, a, k) {
      Keeps(m, to1, x, a, k);
      Keeps(p, to2, y, a, k);
    }
  }

  /** The first move, chosen by the direction, does not reach what the second one moves. */
  lemma MovesApart(o: nat, total: nat, t: nat, bufsize: nat, head: nat, tail: nat)
    requires head + tail <= total && head + tail <= bufsize
    ensures var oldTail, newTail := o + total - tail, t + bufsize - tail;
      && Apart(t, head, newTail, tail) && Apart(newTail, tail, t, head)
      && (t <= o ==> Apart(t, head, oldTail, tail)) && (t > o ==> Apart(newTail, tail, o, head))
  {
  }

  lemma MovedInside(m: seq<byte>, n: seq<byte>, t: nat, bufsize: nat, a: nat, x: nat, b: nat, y: nat)
    requires |n| == |m| && t <= a && a + x <= t + bufsize && t <= b && b + y <= t + bufsize
    requires forall i: nat, k: nat :: i + k <= |m| && Apart(a, x, i, k) && Apart(b, y, i, k) ==> Same(m, n, i, k)
    ensures Untouched(m, n, t, bufsize)
  {
    hide Same;
    forall i: nat, k: nat | i + k <= |m| && Apart(t, bufsize, i, k) ensures Same(m, n, i, k) {
      assert Apart(a, x, i, k) && Apart(b, y, i, k);
    }
  }

  /** The moves of fdt_resize: whichever way the buffers overlap, head and tail arrive whole. */
  method MoveBoth(mem: array<byte>, o: nat, total: nat, t: nat, bufsize: nat, head: nat, tail: nat)
    requires o + total <= mem.Length && t + bufsize <= mem.Length && head + tail <= total && head + tail <= bufsize
    modifies mem
    ensures mem[..][t..t + head] == old(mem[..])[o..o + head]
    ensures mem[..][t + bufsize - tail..t + bufsize] == old(mem[..])[o + total - tail..o + total]
    ensures Untouched(old(mem[..]), mem[..], t, bufsize)
  {
    hide Put, Same, Apart, Untouched;
    ghost var m := mem[..];
    MovesApart(o, total, t, bufsize, head, tail);
    var oldTail, newTail := o + total - tail, t + bufsize - tail;
    if t <= o {
      Move(mem, t, o, head);
      ghost var p := mem[..];
      Move(mem, newTail, oldTail, tail);
      TwoMoves(m, p, mem[..], t, o, head, newTail, oldTail, tail);
      MovedInside(m, mem[..], t, bufsize, t, head, newTail, tail);
    } else {
      Move(mem, newTail, oldTail, tail);
      ghost var p := mem[..];
      Move(mem, t, o, head);
      TwoMoves(m, p, mem[..], newTail, oldTail, tail, t, o, head);
      MovedInside(m, mem[..], t, bufsize, newTail, tail, t, head);
    }
  }

  /** The header at t is a copy of that at o. */
  lemma HeaderCopied(m: seq<byte>, n: seq<byte>, o: nat, t: nat, head: nat)
    requires HEADER_SIZE <= head && o + head <= |m| && t + head <= |n| && n[t..t + head] == m[o..o + head]
    ensures forall g: nat :: IsField(g) ==> Field(n, t, g) == Field(m, o, g)
    ensures n[t + HEADER_SIZE..t + head] == m[o + HEADER_SIZE..o + head]
  {
    hide Word;
    var x := m[o..o + head];
    forall g: nat | IsField(g) ensures Field(n, t, g) == Field(m, o, g) {
      SubSlice(n, t, x, g, g + 4);
      SubSlice(m, o, x, g, g + 4);
      SameWord(n, t + g, m, o + g);
    }
    SubSlice(n, t, x, HEADER_SIZE, head);
    SubSlice(m, o, x, HEADER_SIZE, head);
  }

  /** The last steps of fdt_resize: the header learns where its buffer ends. */
  method SetEnd(mem: array<byte>, t: nat, bufsize: u32)
    requires t + HEADER_SIZE <= mem.Length
    modifies mem
    ensures Field(mem[..], t, TOTALSIZE) == bufsize
    ensures Field(mem[..], t, OFF_STRINGS) == if Field(old(mem[..]), t, OFF_STRINGS) == 0 then 0 else bufsize
    ensures forall g: nat :: IsField(g) && g != TOTALSIZE && g != OFF_STRINGS ==>
      Field(mem[..], t, g) == Field(old(mem[..]), t, g)
    ensures Untouched(old(mem[..]), mem[..], t, HEADER_SIZE)
  {
    hide Field, Put, Be32, Same;
    ghost var p := mem[..];
    SetField(mem, t, TOTALSIZE, bufsize);
    ghost var q := mem[..];
    FieldStored(p, q, t, TOTALSIZE, bufsize);
    if Field(mem[..], t, OFF_STRINGS) != 0 {
      SetField(mem, t, OFF_STRINGS, bufsize);
      FieldStored(q, mem[..], t, OFF_STRINGS, bufsize);
      StoredAgain(p, q, mem[..], t);
    }
  }

  /** fdt_resize.  A head too small for the header is cut: only part of the header moves, and the model stops there. */
  method Resize(mem: array<byte>, o: nat, t: nat, bufsize: nat) returns (err: int, cut: bool)
    requires o + HEADER_SIZE <= mem.Length && o + Field(mem[..], o, TOTALSIZE) <= mem.Length
    requires t + bufsize <= mem.Length && bufsize <= INT_MAX
    modifies mem
    ensures err == ResizeAnswer(old(mem[..]), o, bufsize)
    ensures cut == (err == 0 && HeadAt(old(mem[..]), o) < HEADER_SIZE)
    ensures err != 0 ==> mem[..] == old(mem[..])
    ensures err == 0 && !cut ==> Resized(old(mem[..]), mem[..], o, t, bufsize)
  {
    hide Field, Put, Be32, Same, Untouched, HeadSize, Resized;
    if Field(mem[..], o, MAGIC) == FDT_MAGIC {
      return -ERR_BADSTATE, false;
    } else if Field(mem[..], o, MAGIC) != FDT_SW_MAGIC {
      return -ERR_BADMAGIC, false;
    }
    var head := HeadSize(Field(mem[..], o, OFF_STRUCT), Field(mem[..], o, SIZE_STRUCT));
    var tail: nat, total: nat := Field(mem[..], o, SIZE_STRINGS), Field(mem[..], o, TOTALSIZE);
    if head + tail > total {
      return -ERR_INTERNAL, false;
    }
    if head + tail > bufsize {
      return -ERR_NOSPACE, false;
    }
    if head < HEADER_SIZE {
      return 0, true;
    }
    ghost var m := mem[..];
    MoveBoth(mem, o, total, t, bufsize, head, tail);
    ghost var p := mem[..];
    HeaderCopied(m, p, o, t, head);
    SetEnd(mem, t, bufsize);
    ResizedIs(m, p, mem[..], o, t, bufsize);
    err, cut := 0, false;
  }

  lemma StoredAgain(p: seq<byte>, q: seq<byte>, n: seq<byte>, t: nat)
    requires |p| == |q| == |n| && t + HEADER_SIZE <= |p|
    requires forall a: nat, k: nat :: a + k <= |p| && Apart(t, HEADER_SIZE, a, k) ==> Same(p, q, a, k)
    requires forall a: nat, k: nat :: a + k <= |q| && Apart(t, HEADER_SIZE, a, k) ==> Same(q, n, a, k)
    ensures forall a: nat, k: nat :: a + k <= |p| && Apart(t, HEADER_SIZE, a, k) ==> Same(p, n, a, k)
  {
    forall a: nat, k: nat | a + k <= |p| && Apart(t, HEADER_SIZE, a, k) ensures Same(p, n, a, k) {
      assert Same(p, q, a, k) && Same(q, n, a, k);
    }
  }

  lemma ResizedIs(m: seq<byte>, p: seq<byte>, n: seq<byte>, o: nat, t: nat, bufsize: nat)
    requires o + HEADER_SIZE <= |m| && |p| == |m| == |n| && t + bufsize <= |m|
    requires var head, tail, total := HeadAt(m, o), Field(m, o, SIZE_STRINGS), Field(m, o, TOTALSIZE);
      && HEADER_SIZE <= head && head + tail <= total && head + tail <= bufsize && o + total <= |m|
      && p[t + HEADER_SIZE..t + head] == m[o + HEADER_SIZE..o + head]
      && p[t + bufsize - tail..t + bufsize] == m[o + total - tail..o + total]
    requires Untouched(m, p, t, bufsize) && Untouched(p, n, t, HEADER_SIZE)
    requires forall g: nat :: IsField(g) && g != TOTALSIZE && g != OFF_STRINGS ==> Field(n, t, g) == Field(m, o, g)
    requires Field(n, t, TOTALSIZE) == bufsize
    requires Field(n, t, OFF_STRINGS) == if Field(m, o, OFF_STRINGS) == 0 then 0 else bufsize
    ensures Resized(m, n, o, t, bufsize)
  {
    hide Field, Same, HeadAt;
    var head, tail := HeadAt(m, o), Field(m, o, SIZE_STRINGS);
    SameMeans(p, n, t + HEADER_SIZE, head - HEADER_SIZE);
    SameMeans(p, n, t + bufsize - tail, tail);
    assert Same(p, n, t + HEADER_SIZE, head - HEADER_SIZE) && Same(p, n, t + bufsize - tail, tail);
    forall a: nat, k: nat | a + k <= |m| && Apart(t, bufsize, a, k) ensures Same(m, n, a, k) {
      assert Same(m, p, a, k) && Same(p, n, a, k);
      SameMeans(m, p, a, k);
      SameMeans(p, n, a, k);
      SameMeans(m, n, a, k);
    }
  }

  // ---------------------------------------------------- the writer goes on

  /** The writer's header, as its fields stand in memory. */
  predicate HeaderIs(m: seq<byte>, o: nat, h: SwHeader)
    requires o + HEADER_SIZE <= |m|
  {
    && h.complete == (Field(m, o, MAGIC) == FDT_MAGIC) && h.flags == Field(m, o, LAST_COMP)
    && h.totalsize == Field(m, o, TOTALSIZE) && h.offStruct == Field(m, o, OFF_STRUCT)
    && h.offStrings == Field(m, o, OFF_STRINGS)
    && h.sizeStruct == Field(m, o, SIZE_STRUCT) && h.sizeStrings == Field(m, o, SIZE_STRINGS)
  }

  /** The header after fdt_resize. */
  function ResizedHeader(h: SwHeader, bufsize: nat): SwHeader {
    h.(totalsize := bufsize, offStrings := if h.offStrings == 0 then 0 else bufsize)
  }

  /**
   * After a successful fdt_resize the writer stands where it stood: the new buffer holds the
   * calls made so far, and every later call is as if the buffer had always had this size.
   */
  lemma WriterGoesOn(m: seq<byte>, n: seq<byte>, o: nat, t: nat, bufsize: nat, h: SwHeader, log: Log)
    requires o + HEADER_SIZE <= |m| && o + Field(m, o, TOTALSIZE) <= |m| && HeaderIs(m, o, h)
    requires Holds(BlobAt(m, o), h, log) && bufsize <= INT_MAX
    requires ResizeAnswer(m, o, bufsize) == 0 && Resized(m, n, o, t, bufsize)
    ensures HeaderIs(n, t, ResizedHeader(h, bufsize))
    ensures Holds(n[t..t + bufsize], ResizedHeader(h, bufsize), log)
  {
    hide Field, Written, Finished, EncReserves, Untouched;
    var b, c, h' := BlobAt(m, o), n[t..t + bufsize], ResizedHeader(h, bufsize);
    var head, tail := h.offStruct + h.sizeStruct, h.sizeStrings;
    Cut(m, n, o, t, h.totalsize, bufsize, HEADER_SIZE, head, HEADER_SIZE, h.offStruct);
    Cut(m, n, o, t, h.totalsize, bufsize, HEADER_SIZE, head, h.offStruct, head);
    SubSlice(n, t, c, bufsize - tail, bufsize);
    SubSlice(m, o, b, h.totalsize - tail, h.totalsize);
  }

  lemma Cut(m: seq<byte>, n: seq<byte>, o: nat, t: nat, total: nat, bufsize: nat, a: nat, b: nat, x: nat, y: nat)
    requires o + total <= |m| && t + bufsize <= |n| && a <= x <= y <= b <= total && b <= bufsize
    requires n[t + a..t + b] == m[o + a..o + b]
    ensures n[t..t + bufsize][x..y] == m[o..o + total][x..y]
  {
    var z := m[o + a..o + b];
    SubSlice(n, t + a, z, x - a, y - a);
    SubSlice(m, o + a, z, x - a, y - a);
    SubSlice(n, t, n[t..t + bufsize], x, y);
    SubSlice(m, o, m[o..o + total], x, y);
  }
}
