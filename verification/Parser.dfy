/**
 * Reading a finished blob back: its structure block as a list of calls, its
 * memory reservations, and what the whole-blob check is to make sure of.
 */
module Parser {
  import opened Bytes
  import opened Tokens
  import opened Views
  import opened Scan
  import opened Blob

  /** The calls that build a structure block. */
  datatype Call = BeginNode(name: seq<byte>) | EndOfNode | Property(name: seq<byte>, val: seq<byte>)

  /** Parse the structure block from off on with fdt_next_tag, looking names up in the strings block. */
  function Parse(s: seq<byte>, strtab: seq<byte>, off: nat): Option<seq<Call>>
    decreases |s| - off
  {
    var (tag, next) := TagAt(s, off);
    if next <= off then None
    else if tag == FDT_END then Some([])
    else
      var rest := if off < |s| then Parse(s, strtab, next) else None;
      if rest.None? then None
      else if tag == FDT_BEGIN_NODE then Some([BeginNode(NodeName(s, off))] + rest.value)
      else if tag == FDT_END_NODE then Some([EndOfNode] + rest.value)
      else if tag == FDT_PROP && Readable(s, off, 12 + Word(s, off + 4)) && HasStr(strtab, Word(s, off + 8)) then
        Some([Property(Str(strtab, Word(s, off + 8)), s[off + 12..off + 12 + Word(s, off + 4)])] + rest.value)
      else if tag == FDT_NOP then rest
      else None
  }

  /** The call that a token records once the strings block is in place. */
  function CallOf(t: Token, strtab: seq<byte>): seq<Call> {
    match t
    case Begin(n, _) => [BeginNode(n)]
    case EndNode => [EndOfNode]
    case Prop(o, v, _) => [Property(Str(strtab, o), v)]
    case _ => []
  }

  function CallsOf(ts: seq<Token>, strtab: seq<byte>): seq<Call> {
    if ts == [] then [] else CallOf(ts[0], strtab) + CallsOf(ts[1..], strtab)
  }

  /** A structure block with one FDT_END, at its end. */
  predicate OneEnd(ts: seq<Token>) {
    forall i :: 0 <= i < |ts| - 1 ==> !ts[i].End?
  }

  /** Parsing an encoded token list gives the calls that its tokens record. */
  lemma {:induction false} ParseTokens(s: seq<byte>, ts: seq<Token>, strtab: seq<byte>, i: nat)
    requires Block(s, ts) && OneEnd(ts) && Named(ts, strtab) && i < |ts|
    ensures Parse(s, strtab, Off(ts, i)) == Some(CallsOf(ts[i..], strtab))
    decreases |ts| - i
  {
    hide EncAll, Enc, Off, TagAt, NodeName, Word, ValidToken;
    var o := Off(ts, i);
    TagAtToken(ts, i);
    OffStep(ts, i);
    assert ts[i..][0] == ts[i] && ts[i..][1..] == ts[i + 1..];
    if !ts[i].End? {
      ParseTokens(s, ts, strtab, i + 1);
      if ts[i].Begin? {
        NodeNameToken(s, ts, i);
      } else if ts[i].Prop? {
        PropToken(s, ts, i);
      } else if ts[i].Nop? {
        assert [] + CallsOf(ts[i + 1..], strtab) == CallsOf(ts[i + 1..], strtab);
      }
    } else {
      assert ts[i + 1..] == [];
      assert CallOf(ts[i], strtab) == [] && CallsOf(ts[i..], strtab) == [];
    }
  }

  // ------------------------------------------------------- the whole-blob check

  /** Every EndOfNode closes an open node and none is left open; d nodes are open at the start. */
  predicate Balanced(calls: seq<Call>, d: nat) {
    if calls == [] then d == 0 else
    match calls[0]
    case BeginNode(_) => Balanced(calls[1..], d + 1)
    case EndOfNode => d > 0 && Balanced(calls[1..], d - 1)
    case Property(_, _) => Balanced(calls[1..], d)
  }

  predicate OffsetOk(h: Header, off: nat) {
    HEADER_SIZE <= off <= h.totalsize
  }

  /** The sizes that fdt_check_header looks at, for a version 17 header. */
  function CheckHeader(h: Header): int {
    if h.totalsize < HEADER_SIZE || h.totalsize > INT_MAX then -ERR_TRUNCATED
    else if !OffsetOk(h, h.offRsv) then -ERR_TRUNCATED
    else if !OffsetOk(h, h.offStruct) || !OffsetOk(h, h.offStruct + h.sizeStruct) then -ERR_TRUNCATED
    else if !OffsetOk(h, h.offStrings) || !OffsetOk(h, h.offStrings + h.sizeStrings) then -ERR_TRUNCATED
    else 0
  }

  /** The size field of reservation n is zero. */
  predicate NoSize(m: seq<byte>, h: Header, n: nat)
    requires h.offRsv + 16 * n + 16 <= |m|
  {
    m[h.offRsv + 16 * n + 8..h.offRsv + 16 * n + 16] == [0, 0, 0, 0, 0, 0, 0, 0]
  }

  /** Reservation n lies inside the blob, and its offset is an int. */
  predicate RsvFits(h: Header, n: nat) {
    h.offRsv + 16 * n + 16 <= h.totalsize && h.offRsv + 16 * n <= INT_MAX
  }

  /** fdt_mem_rsv: the offset is added up in 32 bits, and compared as an int of 64 bits without a sign. */
  predicate SaysRsv(h: Header, n: int) {
    var offset := (h.offRsv + 16 * n) % U32;
    offset >= h.offRsv && Size64(Int32(offset)) <= Size64(h.totalsize - RSV_ENTRY)
  }

  /** A total size below that of an entry, which bounds no offset but a few of those taken for negative. */
  predicate Unbounded(h: Header) {
    h.totalsize < RSV_ENTRY && h.offRsv + RSV_ENTRY <= h.totalsize + U32
  }

  /** It finds the entries of the blob one after the other; where the size bounds no offset it finds the first. */
  lemma RsvExact(h: Header, n: nat)
    requires h.totalsize < U32 && h.offRsv < U32 && (n > 0 ==> RsvFits(h, n - 1))
    ensures SaysRsv(h, n) <==> RsvFits(h, n) || Unbounded(h)
  {
    Sizes(h.offRsv + 16 * n);
    Sizes(h.totalsize - RSV_ENTRY);
  }

  /** For any int it finds the entry of that number modulo 2^28, whose offset is the same in 32 bits. */
  lemma RsvWraps(h: Header, n: int)
    requires RSV_ENTRY <= h.totalsize <= INT_MAX && h.offRsv < U32
    ensures SaysRsv(h, n) <==> RsvFits(h, n % 0x1000_0000)
  {
    var k := n % 0x1000_0000;
    assert 16 * n == 16 * k + U32 * (n / 0x1000_0000);
    SameOffset(h.offRsv + 16 * k, n / 0x1000_0000);
    assert (h.offRsv + 16 * n) % U32 == (h.offRsv + 16 * k) % U32;
    Sizes(h.totalsize - RSV_ENTRY);
    Wrapped(h.offRsv, 16 * k);
    Sizes((h.offRsv + 16 * k) % U32);
  }

  /** An input: entry 2^28 of a list is found where entry 0 is, and lies far behind the blob. */
  lemma EntryFar(h: Header)
    requires h.totalsize <= INT_MAX && RsvFits(h, 0)
    ensures SaysRsv(h, 0x1000_0000) && !RsvFits(h, 0x1000_0000)
  {
    RsvWraps(h, 0x1000_0000);
  }

  lemma SameOffset(a: int, q: int)
    ensures (a + U32 * q) % U32 == a % U32
  {
  }

  lemma Wrapped(a: u32, b: u32)
    ensures (a + b) % U32 == if a + b < U32 then a + b else a + b - U32
  {
  }

  lemma Sizes(n: int)
    requires -U32 < n < U32
    ensures Size64(n) == if n >= 0 then n else n + U64
    ensures n >= 0 ==> Int32(n) == if n <= INT_MAX then n else n - U32
    ensures Size64(Int32(n)) == if Int32(n) >= 0 then Int32(n) else Int32(n) + U64
  {
  }

  /**
   * fdt_num_mem_rsv: the number of reservations before the first one of size zero.  It escapes when
   * the first entry is read outside of the blob; the model stops there.
   */
  method NumMemRsv(m: seq<byte>, h: Header) returns (r: int, escapes: bool)
    requires h.totalsize <= |m| && h.totalsize < U32 && h.offRsv < U32
    ensures escapes <==> Unbounded(h)
    ensures !escapes && r >= 0 ==> RsvFits(h, r) && NoSize(m, h, r) && forall k :: 0 <= k < r ==> !NoSize(m, h, k)
    ensures !escapes && r < 0 ==> r == -ERR_TRUNCATED && forall k: nat :: RsvFits(h, k) ==> !NoSize(m, h, k)
  {
    hide SaysRsv, NoSize;
    r := 0;
    RsvExact(h, 0);
    while SaysRsv(h, r)
      invariant 0 <= r && forall k: nat :: k < r ==> RsvFits(h, k) && !NoSize(m, h, k)
      invariant SaysRsv(h, r) <==> RsvFits(h, r) || Unbounded(h)
      decreases h.totalsize - 16 * r
    {
      if !RsvFits(h, r) {
        return 0, true;
      }
      if NoSize(m, h, r) {
        return r, false;
      }
      r := r + 1;
      RsvExact(h, r);
    }
    r, escapes := -ERR_TRUNCATED, false;
  }

  /**
   * fdt_get_mem_rsv, when the magic is right.  It escapes when the entry that is found for the number in 32 bits
   * is not that entry, and lies outside of the blob.
   */
  method GetMemRsv(m: seq<byte>, h: Header, n: int) returns (err: int, address: u64, size: u64, escapes: bool)
    requires h.totalsize <= |m| && h.offRsv < U32
    ensures escapes <==> h.totalsize < INT_MAX && SaysRsv(h, n) && !(n >= 0 && RsvFits(h, n))
    ensures !escapes ==>
      err == if h.totalsize >= INT_MAX then -ERR_TRUNCATED
             else if n >= 0 && RsvFits(h, n) then 0 else -ERR_BADOFFSET
    ensures err == 0 && !escapes ==>
      && n >= 0 && RsvFits(h, n)
      && address == Word64(m, h.offRsv + 16 * n) && size == Word64(m, h.offRsv + 16 * n + 8)
  {
    hide SaysRsv, Word64;
    err, address, size, escapes := 0, 0, 0, false;
    if h.totalsize >= INT_MAX {
      return -ERR_TRUNCATED, 0, 0, false;
    }
    if n >= 0 && RsvFits(h, n) {
      FitsSaid(h, n);
    }
    if !SaysRsv(h, n) {
      return -ERR_BADOFFSET, 0, 0, false;
    }
    escapes := n < 0 || !RsvFits(h, n);
    if !escapes {
      address, size := Word64(m, h.offRsv + 16 * n), Word64(m, h.offRsv + 16 * n + 8);
    }
  }

  lemma FitsSaid(h: Header, n: int)
    requires h.totalsize < INT_MAX && h.offRsv < U32 && n >= 0 && RsvFits(h, n)
    ensures SaysRsv(h, n)
  {
    RsvWraps(h, n);
  }

  /** Every name in the block can be read. */
  ghost predicate NamesOk(ts: seq<Token>, strtab: seq<byte>, totalsize: nat) {
    forall i :: 0 <= i < |ts| && ts[i].Prop? ==> totalsize < INT_MAX && HasStr(strtab, ts[i].nameoff)
  }
}
