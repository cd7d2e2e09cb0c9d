/** A blob in its buffer: the header fields, and the splices that every edit is made of. */
module Blob {
  import opened Bytes
  import opened Tokens
  import opened Views
  import opened Scan

  const HEADER_SIZE := 40
  const RSV_ENTRY := 16
  const FDT_MAGIC: u32 := 0xD00D_FEED
  const FDT_SW_MAGIC: u32 := 0x2FF2_0112
  const ERR_BADMAGIC := 9
  const ERR_BADVERSION := 10
  const ERR_BADLAYOUT := 12

  datatype Header = Header(totalsize: nat, offRsv: nat, offStruct: nat, offStrings: nat,
                           sizeStrings: nat, sizeStruct: nat)

  /** fdt_rw_probe_ for a version 17 blob: the blocks lie in order and inside totalsize. */
  function RwProbe(h: Header): int {
    if h.totalsize >= INT_MAX then -ERR_TRUNCATED
    else if h.offRsv < HEADER_SIZE || h.offStruct < h.offRsv + RSV_ENTRY
         || h.offStrings < h.offStruct + h.sizeStruct || h.totalsize < h.offStrings + h.sizeStrings
    then -ERR_BADLAYOUT
    else 0
  }

  /** The buffer after bytes p+o..end have moved to p+n. */
  function Moved(b: seq<byte>, p: nat, o: nat, n: nat, end: nat): (r: seq<byte>)
    requires p + o <= end <= |b| && end - o + n <= |b|
    ensures |r| == |b|
  {
    b[..p + n] + b[p + o..end] + b[end - o + n..]
  }

  /** Bytes before p keep their place; bytes from p+o on shift. */
  lemma MovedSlice(b: seq<byte>, p: nat, o: nat, n: nat, end: nat, x: nat, y: nat)
    requires p + o <= end <= |b| && end - o + n <= |b| && x <= y
    ensures y <= p + n ==> Moved(b, p, o, n, end)[x..y] == b[x..y]
    ensures p + o <= x && y <= end ==> Moved(b, p, o, n, end)[x - o + n..y - o + n] == b[x..y]
  {
    var m := Moved(b, p, o, n, end);
    if p + o <= x && y <= end {
      forall i | 0 <= i < y - x ensures m[x - o + n..y - o + n][i] == b[x..y][i] {
      }
    }
  }

  function StructOf(m: seq<byte>, h: Header): seq<byte>
    requires h.totalsize <= |m| && RwProbe(h) == 0
  {
    m[h.offStruct..h.offStruct + h.sizeStruct]
  }

  function StringsOf(m: seq<byte>, h: Header): seq<byte>
    requires h.totalsize <= |m| && RwProbe(h) == 0
  {
    m[h.offStrings..h.offStrings + h.sizeStrings]
  }

  /** m', h' are m, h after o bytes at off in the structure block became room for n. */
  predicate IsSplice(m: seq<byte>, h: Header, off: nat, o: nat, n: nat, m': seq<byte>, h': Header) {
    && h.totalsize <= |m| && RwProbe(h) == 0 && off + o <= h.sizeStruct
    && h.offStrings + h.sizeStrings - o + n <= h.totalsize
    && m' == Moved(m, h.offStruct + off, o, n, h.offStrings + h.sizeStrings)
    && h' == h.(sizeStruct := h.sizeStruct - o + n, offStrings := h.offStrings - o + n)
  }

  lemma SpliceOutside(m: seq<byte>, h: Header, off: nat, o: nat, n: nat, m': seq<byte>, h': Header)
    requires IsSplice(m, h, off, o, n, m', h')
    ensures StringsOf(m', h') == StringsOf(m, h) && m'[..h.offStruct] == m[..h.offStruct]
  {
    var p, end := h.offStruct + off, h.offStrings + h.sizeStrings;
    MovedSlice(m, p, o, n, end, h.offStrings, end);
    MovedSlice(m, p, o, n, end, 0, h.offStruct);
  }

  lemma SpliceBefore(m: seq<byte>, h: Header, off: nat, o: nat, n: nat, m': seq<byte>, h': Header)
    requires IsSplice(m, h, off, o, n, m', h')
    ensures StructOf(m', h')[..off] == StructOf(m, h)[..off]
    ensures o <= n ==> StructOf(m', h')[off..off + o] == StructOf(m, h)[off..off + o]
  {
    hide Moved;
    var s, end := h.offStruct, h.offStrings + h.sizeStrings;
    var keep := if o <= n then off + o else off;
    MovedSlice(m, s + off, o, n, end, s, s + off);
    MovedSlice(m, s + off, o, n, end, s + off, s + keep);
    SubSlice(m, s, StructOf(m, h), 0, off);
    SubSlice(m', s, StructOf(m', h'), 0, off);
    SubSlice(m, s, StructOf(m, h), off, keep);
    SubSlice(m', s, StructOf(m', h'), off, keep);
  }

  lemma SpliceAfter(m: seq<byte>, h: Header, off: nat, o: nat, n: nat, m': seq<byte>, h': Header)
    requires IsSplice(m, h, off, o, n, m', h')
    ensures StructOf(m', h')[off + n..] == StructOf(m, h)[off + o..]
  {
    hide Moved;
    var s := h.offStruct;
    MovedSlice(m, s + off, o, n, h.offStrings + h.sizeStrings, s + off + o, s + h.sizeStruct);
    SubSlice(m, s, StructOf(m, h), off + o, h.sizeStruct);
    SubSlice(m', s, StructOf(m', h'), off + n, h'.sizeStruct);
  }

  /** Storing bytes in the structure block touches nothing else. */
  lemma StructPut(m: seq<byte>, h: Header, off: nat, bytes: seq<byte>, m': seq<byte>)
    requires h.totalsize <= |m| && RwProbe(h) == 0 && off + |bytes| <= h.sizeStruct
    requires m' == m[..h.offStruct + off] + bytes + m[h.offStruct + off + |bytes|..]
    ensures StringsOf(m', h) == StringsOf(m, h) && m'[..h.offStruct] == m[..h.offStruct]
    ensures StructOf(m', h) == StructOf(m, h)[..off] + bytes + StructOf(m, h)[off + |bytes|..]
  {
  }

  /** Growing the strings block by the bytes just behind it. */
  lemma StringsGrow(m: seq<byte>, h: Header, x: seq<byte>, m': seq<byte>, h': Header)
    requires h.totalsize <= |m| && RwProbe(h) == 0 && h.offStrings + h.sizeStrings + |x| <= h.totalsize
    requires m' == m[..h.offStrings + h.sizeStrings] + x + m[h.offStrings + h.sizeStrings + |x|..]
    requires h' == h.(sizeStrings := h.sizeStrings + |x|)
    ensures StringsOf(m', h') == StringsOf(m, h) + x
    ensures StructOf(m', h') == StructOf(m, h) && m'[..h.offStruct] == m[..h.offStruct]
  {
  }

  datatype Fore = Fore(totalsize: nat, offRsv: nat, bytes: seq<byte>)

  /** Some offset of the strings block finds the name. */
  ghost predicate HasName(strtab: seq<byte>, name: seq<byte>) {
    exists q :: 0 <= q < |strtab| && HasStr(strtab, q) && Str(strtab, q) == name
  }

  /** The bytes of strings block that a property name needs. */
  ghost function NameCost(strtab: seq<byte>, name: seq<byte>): nat {
    if HasName(strtab, name) then 0 else |name| + 1
  }

  class Fdt {
    const buf: array<byte>
    var h: Header

    constructor (buf: array<byte>, h: Header)
      ensures this.buf == buf && this.h == h
    {
      this.buf, this.h := buf, h;
    }

    predicate Valid()
      reads this
    {
      h.totalsize <= buf.Length && RwProbe(h) == 0
    }

    function Struct(): (s: seq<byte>)
      requires Valid()
      reads this, buf
      ensures |s| == h.sizeStruct
    {
      StructOf(buf[..], h)
    }

    function Strings(): (s: seq<byte>)
      requires Valid()
      reads this, buf
      ensures |s| == h.sizeStrings
    {
      StringsOf(buf[..], h)
    }

    /** The size of the blob and everything before the structure block: header's place and memory reservations. */
    function Front(): Fore
      requires Valid()
      reads this, buf
    {
      Fore(h.totalsize, h.offRsv, buf[..][..h.offStruct])
    }

    /** The blocks around the structure block. */
    function Around(): (Fore, seq<byte>)
      requires Valid()
      reads this, buf
    {
      (Front(), Strings())
    }

    /** All that a reader of the blob can see. */
    function All(): (Header, seq<byte>, seq<byte>, Fore)
      requires Valid()
      reads this, buf
    {
      (h, Struct(), Strings(), Front())
    }

    function DataSize(): nat
      reads this
    {
      h.offStrings + h.sizeStrings
    }

    /** fdt_splice_: replace oldlen bytes at p by room for newlen, moving everything after them. */
    method Splice(p: nat, oldlen: nat, newlen: nat) returns (err: int)
      requires Valid()
      modifies buf
      ensures err == if p + oldlen > DataSize() then -ERR_BADOFFSET
                     else if DataSize() - oldlen + newlen > h.totalsize then -ERR_NOSPACE else 0
      ensures err != 0 ==> buf[..] == old(buf[..])
      ensures err == 0 ==> buf[..] == Moved(old(buf[..]), p, oldlen, newlen, DataSize())
    {
      var end := DataSize();
      if p + oldlen > end {
        return -ERR_BADOFFSET;
      }
      if end - oldlen + newlen > h.totalsize {
        return -ERR_NOSPACE;
      }
      forall i | p + newlen <= i < end - oldlen + newlen {
        buf[i] := buf[i - newlen + oldlen];
      }
      err := 0;
    }

    /** fdt_splice_struct_ */
    method SpliceStruct(off: nat, oldlen: nat, newlen: nat) returns (err: int)
      requires Valid() && off + oldlen <= h.sizeStruct
      modifies this, buf
      ensures Valid()
      ensures err == if old(DataSize()) - oldlen + newlen > old(h.totalsize) then -ERR_NOSPACE else 0
      ensures err != 0 ==> All() == old(All())
      ensures err == 0 ==>
        h == old(h).(sizeStruct := old(h.sizeStruct) - oldlen + newlen,
                     offStrings := old(h.offStrings) - oldlen + newlen)
      ensures err == 0 ==> Around() == old(Around())
      ensures err == 0 ==>
        && Struct()[..off] == old(Struct())[..off]
        && Struct()[off + newlen..] == old(Struct())[off + oldlen..]
        && (oldlen <= newlen ==> Struct()[off..off + oldlen] == old(Struct())[off..off + oldlen])
    {
      hide StructOf, StringsOf, Moved;
      ghost var m, old_h := buf[..], h;
      err := Splice(h.offStruct + off, oldlen, newlen);
      if err != 0 {
        return;
      }
      h := h.(sizeStruct := h.sizeStruct - oldlen + newlen, offStrings := h.offStrings - oldlen + newlen);
      SpliceOutside(m, old_h, off, oldlen, newlen, buf[..], h);
      SpliceBefore(m, old_h, off, oldlen, newlen, buf[..], h);
      SpliceAfter(m, old_h, off, oldlen, newlen, buf[..], h);
    }

    /** Store bytes in the structure block. */
    method PutStruct(off: nat, bytes: seq<byte>)
      requires Valid() && off + |bytes| <= h.sizeStruct
      modifies buf
      ensures Around() == old(Around())
      ensures Struct() == old(Struct())[..off] + bytes + old(Struct())[off + |bytes|..]
    {
      ghost var m := buf[..];
      Store(buf, h.offStruct + off, bytes);
      StructPut(m, h, off, bytes, buf[..]);
    }

    /** fdt_find_add_string_: the offset of a name in the strings block, appended if it is not there yet. */
    method FindAddString(name: seq<byte>) returns (off: int, added: bool)
      requires Valid() && 0 !in name
      modifies this, buf
      ensures Valid() && Struct() == old(Struct()) && Front() == old(Front())
      ensures off < 0 <==> old(DataSize()) + NameCost(old(Strings()), name) > h.totalsize
      ensures off < 0 ==> off == -ERR_NOSPACE && All() == old(All())
      ensures off >= 0 ==>
        && HasStr(Strings(), off) && Str(Strings(), off) == name
        && added == !HasName(old(Strings()), name)
        && Strings() == (if added then old(Strings()) + (name + [0]) else old(Strings()))
        && h == old(h).(sizeStrings := |Strings()|)
    {
      hide StructOf, StringsOf, Moved;
      var strtab := Strings();
      off := FindString(strtab, name);
      if off >= 0 {
        return off, false;
      }
      ghost var m, h0 := buf[..], h;
      var end := DataSize();
      var err := Splice(end, 0, |name| + 1);
      if err != 0 {
        return err, false;
      }
      MovedNothing(m, end, |name| + 1);
      h := h.(sizeStrings := h.sizeStrings + |name| + 1);
      Store(buf, end, name + [0]);
      StringsGrow(m, h0, name + [0], buf[..], h);
      NewString(strtab, name);
      off, added := |strtab|, true;
    }

    /** fdt_del_last_string_ */
    method DelLastString(name: seq<byte>, ghost strtab: seq<byte>)
      requires Valid() && Strings() == strtab + (name + [0])
      modifies this
      ensures Valid() && h == old(h).(sizeStrings := |strtab|)
      ensures Strings() == strtab && Struct() == old(Struct()) && Front() == old(Front())
    {
      SubSlice(buf[..], h.offStrings, strtab + (name + [0]), 0, |strtab|);
      h := h.(sizeStrings := h.sizeStrings - (|name| + 1));
    }
  }

  lemma MovedNothing(b: seq<byte>, end: nat, n: nat)
    requires end + n <= |b|
    ensures Moved(b, end, 0, n, end) == b
  {
  }

  lemma NewString(strtab: seq<byte>, name: seq<byte>)
    requires 0 !in name
    ensures HasStr(strtab + (name + [0]), |strtab|) && Str(strtab + (name + [0]), |strtab|) == name
  {
    var s := strtab + (name + [0]);
    assert s[|strtab|..|strtab| + |name| + 1] == name + [0];
    StrAt(s, |strtab|, name);
  }
}
