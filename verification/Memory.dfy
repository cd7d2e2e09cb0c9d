/**
 * Byte access over an aligned chunk device (memif.cc), and a sparse paged memory
 * (devices.cc): both behave as flat byte arrays.
 */
module Memory {
  import opened Bytes
  import opened Bits

  /** What an address is beyond the last unit of m bytes. */
  function Excess(a: nat, m: nat): nat
    requires m > 0
  {
    a % m
  }

  predicate Aligned(a: nat, m: nat)
    requires m > 0
  {
    Excess(a, m) == 0
  }

  /** A device that only moves aligned chunks of a bounded size; its contents are a flat array. */
  class ChunkDevice {
    const align: nat
    const maxSize: nat
    var mem: seq<byte>

    constructor (align: nat, maxSize: nat, mem: seq<byte>)
      ensures this.align == align && this.maxSize == maxSize && this.mem == mem
    {
      this.align, this.maxSize, this.mem := align, maxSize, mem;
    }

    /** The maximum chunk and the memory are whole numbers of aligned units. */
    predicate Valid()
      reads this
    {
      0 < align <= maxSize && Aligned(maxSize, align) && Aligned(|mem|, align)
    }

    predicate Chunk(taddr: nat, len: nat)
      reads this
    {
      align > 0 && Aligned(taddr, align) && Aligned(len, align) && len <= maxSize && taddr + len <= |mem|
    }

    method ReadChunk(taddr: nat, len: nat) returns (dst: seq<byte>)
      requires Chunk(taddr, len)
      ensures dst == mem[taddr..taddr + len]
    {
      dst := mem[taddr..taddr + len];
    }

    method WriteChunk(taddr: nat, src: seq<byte>)
      requires Chunk(taddr, |src|)
      modifies this`mem
      ensures mem == Put(old(mem), taddr, src)
    {
      mem := Put(mem, taddr, src);
    }

    /** htif_t::clear_chunk: any length, a maximum chunk at a time. */
    method ClearChunk(taddr: nat, len: nat)
      requires Valid() && Aligned(taddr, align) && Aligned(len, align) && taddr + len <= |mem|
      modifies this`mem
      ensures Valid() && mem == Put(old(mem), taddr, Zeros(len))
    {
      hide Put, Aligned, Excess;
      SelfMultiple(align);
      var pos := 0;
      PutNothing(mem, taddr);
      while pos < len
        invariant 0 <= pos && Aligned(pos, align) && Valid() && |mem| == |old(mem)|
        invariant mem == Put(old(mem), taddr, Zeros(if pos < len then pos else len))
        decreases len - pos
      {
        var n := if len - pos < maxSize then len - pos else maxSize;
        Multiples(taddr, pos, align);
        MultipleRest(len, pos, align);
        PutMore(old(mem), taddr, Zeros(pos), Zeros(n));
        assert Zeros(pos) + Zeros(n) == Zeros(pos + n);
        WriteChunk(taddr + pos, Zeros(n));
        Multiples(pos, maxSize, align);
        pos := pos + maxSize;
      }
    }
  }

  lemma PutNothing(m: seq<byte>, at: nat)
    requires at <= |m|
    ensures Put(m, at, []) == m && Zeros(0) == []
  {
  }

  /** Adjacent stores are one store. */
  lemma PutMore(m: seq<byte>, at: nat, x: seq<byte>, y: seq<byte>)
    requires at + |x| + |y| <= |m|
    ensures Put(Put(m, at, x), at + |x|, y) == Put(m, at, x + y)
  {
  }

  lemma Multiples(a: nat, b: nat, m: nat)
    requires m > 0 && Aligned(a, m) && Aligned(b, m)
    ensures Aligned(a + b, m)
  {
    DivMod(a, m);
    DivMod(b, m);
    Dist(m, a / m, b / m);
    ModIs(a + b, m, a / m + b / m, 0);
  }

  lemma MultipleRest(a: nat, b: nat, m: nat)
    requires m > 0 && b <= a && Aligned(a, m) && Aligned(b, m)
    ensures Aligned(a - b, m)
  {
    DivMod(a, m);
    DivMod(b, m);
    var q, p := a / m, b / m;
    if p > q {
      MulStep(m, q, p);
    }
    Dist(m, q - p, p);
    ModIs(a - b, m, q - p, 0);
  }

  /** The aligned unit around an address. */
  lemma UnitFits(addr: nat, m: nat, size: nat)
    requires m > 0 && addr < size && Aligned(size, m)
    ensures Excess(addr, m) <= addr && Excess(addr, m) < m
    ensures Aligned(addr - Excess(addr, m), m) && addr - Excess(addr, m) + m <= size
  {
    DivMod(addr, m);
    DivMod(size, m);
    var q, p := addr / m, size / m;
    ModIs(m * q, m, q, 0);
    if q < p {
      MulStep(m, q, p);
    } else if p < q {
      MulStep(m, p, q);
    }
  }

  /** Up to the next unit. */
  lemma NextUnit(addr: nat, m: nat)
    requires m > 0 && !Aligned(addr, m)
    ensures Aligned(addr + (m - Excess(addr, m)), m)
  {
    DivMod(addr, m);
    Dist(m, addr / m, 1);
    ModIs(addr + (m - Excess(addr, m)), m, addr / m + 1, 0);
  }

  // ------------------------------------------------------------------- reading

  /** memif_t::read: exactly the addressed bytes. */
  method Read(d: ChunkDevice, addr0: nat, len0: nat) returns (bytes: seq<byte>)
    requires d.Valid() && addr0 + len0 <= |d.mem|
    ensures bytes == d.mem[addr0..addr0 + len0]
  {
    hide Aligned, Excess;
    SelfMultiple(d.align);
    var addr, len, align, front := addr0, len0, d.align, [];
    if len > 0 && !Aligned(addr, align) {
      var off := Excess(addr, align);
      UnitFits(addr, align, |d.mem|);
      var thisLen := if len < align - off then len else align - off;
      NextUnit(addr, align);
      front := ReadPart(d, addr - off, off, thisLen);
      addr, len := addr + thisLen, len - thisLen;
    }
    bytes := ReadAligned(d, addr, len);
    bytes := front + bytes;
  }

  /** Part of an aligned unit. */
  method ReadPart(d: ChunkDevice, at: nat, off: nat, n: nat) returns (part: seq<byte>)
    requires d.Valid() && Aligned(at, d.align) && off + n <= d.align && at + d.align <= |d.mem|
    ensures part == d.mem[at + off..at + off + n]
  {
    hide Aligned, Excess;
    SelfMultiple(d.align);
    var chunk := d.ReadChunk(at, d.align);
    part := chunk[off..off + n];
  }

  /** The last unit of a range, when the range does not fill it. */
  lemma Suffix(addr: nat, len: nat, m: nat, size: nat)
    requires m > 0 && Aligned(addr, m) && !Aligned(len, m) && addr + len <= size && Aligned(size, m)
    ensures Excess(len, m) <= len && Excess(len, m) < m && Aligned(len - Excess(len, m), m)
    ensures Aligned(addr + (len - Excess(len, m)), m) && addr + (len - Excess(len, m)) + m <= size
  {
    Padded(len, m);
    Multiples(addr, len - Excess(len, m), m);
    UnitFits(addr + (len - Excess(len, m)), m, size);
  }

  /** The rest of read, from an aligned address on: the suffix first, then the middle. */
  method ReadAligned(d: ChunkDevice, addr: nat, len0: nat) returns (bytes: seq<byte>)
    requires d.Valid() && addr + len0 <= |d.mem| && (len0 > 0 ==> Aligned(addr, d.align))
    ensures bytes == d.mem[addr..addr + len0]
  {
    hide Aligned, Excess;
    SelfMultiple(d.align);
    var len, back := len0, [];
    if !Aligned(len, d.align) {
      len, back := ReadSuffix(d, addr, len);
    }
    bytes := ReadMiddle(d, addr, len);
    bytes := bytes + back;
  }

  method ReadSuffix(d: ChunkDevice, addr: nat, len: nat) returns (start: nat, back: seq<byte>)
    requires d.Valid() && addr + len <= |d.mem| && Aligned(addr, d.align) && !Aligned(len, d.align)
    ensures start <= len && Aligned(start, d.align) && back == d.mem[addr + start..addr + len]
  {
    hide Aligned, Excess;
    Suffix(addr, len, d.align, |d.mem|);
    SelfMultiple(d.align);
    var thisLen := Excess(len, d.align);
    start := len - thisLen;
    back := ReadPart(d, addr + start, 0, thisLen);
  }

  lemma SelfMultiple(m: nat)
    requires m > 0
    ensures Aligned(m, m) && Aligned(0, m)
  {
    ModIs(m, m, 1, 0);
    ModIs(0, m, 0, 0);
  }

  lemma Padded(len: nat, m: nat)
    requires m > 0
    ensures Excess(len, m) <= len && Excess(len, m) < m
    ensures Aligned(len - Excess(len, m), m) && Aligned(len - Excess(len, m) + m, m)
  {
    DivMod(len, m);
    var q := len / m;
    assert m * q >= 0;
    Dist(m, q, 1);
    ModIs(m * q, m, q, 0);
    ModIs(m * q + m, m, q + 1, 0);
  }

  /** The aligned middle, a maximum chunk at a time. */
  method ReadMiddle(d: ChunkDevice, addr: nat, len: nat) returns (bytes: seq<byte>)
    requires d.Valid() && addr + len <= |d.mem| && Aligned(len, d.align) && (len > 0 ==> Aligned(addr, d.align))
    ensures bytes == d.mem[addr..addr + len]
  {
    hide Aligned, Excess;
    SelfMultiple(d.align);
    bytes := [];
    var pos := 0;
    while pos < len
      invariant 0 <= pos && Aligned(pos, d.align)
      invariant bytes == d.mem[addr..addr + if pos < len then pos else len]
      decreases len - pos
    {
      var n := if len - pos < d.maxSize then len - pos else d.maxSize;
      Multiples(addr, pos, d.align);
      MultipleRest(len, pos, d.align);
      var chunk := d.ReadChunk(addr + pos, n);
      bytes := bytes + chunk;
      Multiples(pos, d.maxSize, d.align);
      pos := pos + d.maxSize;
    }
  }

  // ------------------------------------------------------------------- writing

  /** Read an aligned unit, change part of it, write it back: memory changes there and nowhere else. */
  method Modify(d: ChunkDevice, at: nat, off: nat, bytes: seq<byte>)
    requires d.Valid() && Aligned(at, d.align) && off + |bytes| <= d.align && at + d.align <= |d.mem|
    modifies d`mem
    ensures d.Valid() && d.mem == Put(old(d.mem), at + off, bytes)
  {
    hide Put, Aligned, Excess;
    SelfMultiple(d.align);
    var chunk := d.ReadChunk(at, d.align);
    chunk := Put(chunk, off, bytes);
    PutWithin(d.mem, at, d.align, off, bytes);
    d.WriteChunk(at, chunk);
  }

  lemma PutWithin(m: seq<byte>, at: nat, n: nat, off: nat, bytes: seq<byte>)
    requires at + n <= |m| && off + |bytes| <= n
    ensures Put(m, at, Put(m[at..at + n], off, bytes)) == Put(m, at + off, bytes)
  {
  }

  /** Stores at different places commute. */
  lemma PutApart(m: seq<byte>, a: nat, x: seq<byte>, b: nat, y: seq<byte>)
    requires a + |x| <= b && b + |y| <= |m|
    ensures Put(Put(m, b, y), a, x) == Put(Put(m, a, x), b, y)
  {
  }

  /** memif_t::write: the addressed bytes change, and no others. */
  method Write(d: ChunkDevice, addr0: nat, bytes0: seq<byte>)
    requires d.Valid() && addr0 + |bytes0| <= |d.mem|
    modifies d`mem
    ensures d.Valid() && d.mem == Put(old(d.mem), addr0, bytes0)
  {
    hide Put, Aligned, Excess;
    SelfMultiple(d.align);
    var addr, bytes, align := addr0, bytes0, d.align;
    ghost var m := d.mem;
    PutNothing(m, addr0);
    if |bytes| > 0 && !Aligned(addr, align) {
      var off := Excess(addr, align);
      UnitFits(addr, align, |d.mem|);
      var thisLen := if |bytes| < align - off then |bytes| else align - off;
      NextUnit(addr, align);
      Modify(d, addr - off, off, bytes[..thisLen]);
      addr, bytes := addr + thisLen, bytes[thisLen..];
    }
    assert bytes0 == bytes0[..addr - addr0] + bytes && d.mem == Put(m, addr0, bytes0[..addr - addr0]);
    PutMore(m, addr0, bytes0[..addr - addr0], bytes);
    WriteAligned(d, addr, bytes);
  }

  /** The rest of write, from an aligned address on: the suffix first, then the middle. */
  method WriteAligned(d: ChunkDevice, addr: nat, bytes0: seq<byte>)
    requires d.Valid() && addr + |bytes0| <= |d.mem| && (bytes0 != [] ==> Aligned(addr, d.align))
    modifies d`mem
    ensures d.Valid() && d.mem == Put(old(d.mem), addr, bytes0)
  {
    hide Put, Aligned, Excess;
    SelfMultiple(d.align);
    var bytes, align := bytes0, d.align;
    ghost var m := d.mem;
    ghost var back: seq<byte> := [];
    PutNothing(m, addr + |bytes|);
    if !Aligned(|bytes|, align) {
      var thisLen := Excess(|bytes|, align);
      var start := |bytes| - thisLen;
      Padded(|bytes|, align);
      Multiples(addr, start, align);
      UnitFits(addr + start, align, |d.mem|);
      Modify(d, addr + start, 0, bytes[start..]);
      back := bytes[start..];
      bytes := bytes[..start];
    }
    assert bytes0 == bytes + back && d.mem == Put(m, addr + |bytes|, back);
    PutApart(m, addr, bytes, addr + |bytes|, back);
    PutMore(m, addr, bytes, back);
    WriteMiddle(d, addr, bytes);
  }

  /** The aligned middle: cleared when it is all zero, written chunk by chunk otherwise. */
  method WriteMiddle(d: ChunkDevice, addr: nat, bytes: seq<byte>)
    requires d.Valid() && addr + |bytes| <= |d.mem| && Aligned(|bytes|, d.align)
    requires bytes != [] ==> Aligned(addr, d.align)
    modifies d`mem
    ensures d.Valid() && d.mem == Put(old(d.mem), addr, bytes)
  {
    hide Put, Aligned, Excess;
    SelfMultiple(d.align);
    var len := |bytes|;
    var allZero := len != 0;
    for i := 0 to len
      invariant allZero <==> len != 0 && forall k :: 0 <= k < i ==> bytes[k] == 0
    {
      allZero := allZero && bytes[i] == 0;
    }
    if allZero {
      assert bytes == Zeros(len);
      d.ClearChunk(addr, len);
    } else {
      ghost var m := d.mem;
      var pos := 0;
      PutNothing(m, addr);
      while pos < len
        invariant 0 <= pos && Aligned(pos, d.align) && d.Valid() && |d.mem| == |m|
        invariant d.mem == Put(m, addr, bytes[..if pos < len then pos else len])
        decreases len - pos
      {
        var n := if len - pos < d.maxSize then len - pos else d.maxSize;
        Multiples(addr, pos, d.align);
        MultipleRest(len, pos, d.align);
        PutMore(m, addr, bytes[..pos], bytes[pos..pos + n]);
        assert bytes[..pos] + bytes[pos..pos + n] == bytes[..pos + n];
        d.WriteChunk(addr + pos, bytes[pos..pos + n]);
        Multiples(pos, d.maxSize, d.align);
        pos := pos + d.maxSize;
      }
      assert bytes[..len] == bytes;
    }
  }

  // -------------------------------------------------------------- sparse memory

  const PGSIZE := 4096

  type Page = s: seq<byte> | |s| == PGSIZE witness seq(PGSIZE, i => 0)

  /** mem_t: pages appear when they are first touched. */
  class SparseMemory {
    const sz: nat
    var pages: map<nat, Page>

    constructor (sz: nat)
      requires 0 < sz < U64
      ensures this.sz == sz && forall a: nat :: At(a) == 0
    {
      this.sz := sz;
      pages := map[];
    }

    /** The byte at an address: zero in a page that has not been touched. */
    function At(a: nat): byte
      reads this
    {
      if a / PGSIZE in pages then pages[a / PGSIZE][a % PGSIZE] else 0
    }

    /** contents: the page of an address, allocated on demand. */
    method Contents(addr: nat) returns (page: Page)
      modifies this`pages
      ensures addr / PGSIZE in pages && page == pages[addr / PGSIZE]
      ensures forall a: nat :: At(a) == old(At(a))
    {
      var ppn := addr / PGSIZE;
      if ppn !in pages {
        pages := pages[ppn := seq(PGSIZE, i => 0)];
      }
      page := pages[ppn];
    }

    /** load_store, loading. */
    method Load(addr0: nat, len0: nat) returns (ok: bool, bytes: seq<byte>)
      requires addr0 < U64 && len0 < U64 && sz < U64
      modifies this`pages
      ensures ok == (addr0 + len0 <= sz) && forall a: nat :: At(a) == old(At(a))
      ensures ok ==> |bytes| == len0 && forall k :: 0 <= k < len0 ==> bytes[k] == At(addr0 + k)
    {
      bytes := [];
      if (addr0 + len0) % U64 < addr0 || (addr0 + len0) % U64 > sz {
        return false, bytes;
      }
      var addr, len := addr0, len0;
      while len > 0
        invariant 0 <= len && addr + len == addr0 + len0 && |bytes| == addr - addr0 >= 0
        invariant forall a: nat :: At(a) == old(At(a))
        invariant forall k :: 0 <= k < |bytes| ==> bytes[k] == old(At(addr0 + k))
      {
        var n := if PGSIZE - addr % PGSIZE < len then PGSIZE - addr % PGSIZE else len;
        var page := Contents(addr);
        var off := addr % PGSIZE;
        var part := page[off..off + n];
        forall k | 0 <= k < |part| ensures part[k] == old(At(addr + k)) {
          SamePageOf(addr, k);
          assert At(addr + k) == page[off + k];
        }
        bytes := bytes + part;
        addr, len := addr + n, len - n;
      }
      ok := true;
    }

    /** load_store, storing. */
    method Store(addr0: nat, bytes: seq<byte>) returns (ok: bool)
      requires addr0 < U64 && |bytes| < U64 && sz < U64
      modifies this`pages
      ensures ok == (addr0 + |bytes| <= sz)
      ensures !ok ==> forall a: nat :: At(a) == old(At(a))
      ensures ok ==> forall a: nat :: At(a) == if addr0 <= a < addr0 + |bytes| then bytes[a - addr0] else old(At(a))
    {
      if (addr0 + |bytes|) % U64 < addr0 || (addr0 + |bytes|) % U64 > sz {
        return false;
      }
      var addr, len := addr0, |bytes|;
      while len > 0
        invariant 0 <= len && addr + len == addr0 + |bytes| && addr >= addr0
        invariant forall a: nat :: At(a) == if addr0 <= a < addr then bytes[a - addr0] else old(At(a))
      {
        var off := addr % PGSIZE;
        var n := if PGSIZE - off < len then PGSIZE - off else len;
        var page := Contents(addr);
        var part := bytes[addr - addr0..addr - addr0 + n];
        StorePart(addr, part);
        addr, len := addr + n, len - n;
      }
      ok := true;
    }

    /** memcpy into the page of an address. */
    method StorePart(addr: nat, part: seq<byte>)
      requires addr / PGSIZE in pages && addr % PGSIZE + |part| <= PGSIZE
      modifies this`pages
      ensures forall a: nat :: At(a) == if addr <= a < addr + |part| then part[a - addr] else old(At(a))
    {
      var ppn, off := addr / PGSIZE, addr % PGSIZE;
      var page: seq<byte> := pages[ppn];
      page := Put(page, off, part);
      pages := pages[ppn := page];
      forall a: nat
        ensures At(a) == if addr <= a < addr + |part| then part[a - addr] else old(At(a)) {
        if addr <= a < addr + |part| {
          SamePageOf(addr, a - addr);
        } else if a / PGSIZE == ppn {
          InPage(addr, a);
        }
      }
    }
  }

  lemma SamePageOf(addr: nat, k: nat)
    requires addr % PGSIZE + k < PGSIZE
    ensures (addr + k) / PGSIZE == addr / PGSIZE && (addr + k) % PGSIZE == addr % PGSIZE + k
  {
  }

  lemma InPage(addr: nat, a: nat)
    requires a / PGSIZE == addr / PGSIZE
    ensures a - addr == a % PGSIZE - addr % PGSIZE
  {
  }
}
