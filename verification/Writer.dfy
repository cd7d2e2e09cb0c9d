/**
 * The sequential writer (fdt_sw.c).  The structure block grows up from the
 * reservations, the strings block grows down from the end of the buffer, and
 * fdt_finish closes the gap.
 */
module Writer {
  import opened Bytes
  import opened Tokens
  import opened Views
  import opened Scan
  import opened Parser
  import opened Checks
  import opened Blob

  const ERR_BADSTATE := 7
  const ERR_BADFLAGS := 18
  const NO_NAME_DEDUP := 1

  /** The 40 bytes of the header, rounded up to the size of a reservation. */
  const SW_HEADER_SIZE := 48

  datatype Reserve = Reserve(address: u64, size: u64)

  function Be64(w: u64): (b: seq<byte>)
    ensures |b| == 8
  {
    Be32(w / U32) + Be32(w % U32)
  }

  function EncReserve(r: Reserve): (b: seq<byte>)
    ensures |b| == 16
  {
    Be64(r.address) + Be64(r.size)
  }

  function EncReserves(rs: seq<Reserve>): (b: seq<byte>)
    ensures |b| == 16 * |rs|
  {
    if rs == [] then [] else EncReserves(rs[..|rs| - 1]) + EncReserve(rs[|rs| - 1])
  }

  /** A name offset while the blob is unfinished: the distance from the end of the buffer, negated in 32 bits. */
  function Distance(nameoff: u32): nat {
    U32 - nameoff
  }

  /** A token that records a call; a property finds its name at its distance from the end of the strings. */
  predicate Records(t: Token, c: Call, strtab: seq<byte>) {
    match t
    case Begin(n, _) => c == BeginNode(n)
    case EndNode => c == EndOfNode
    case Prop(o, v, _) =>
      && c.Property? && c.val == v
      && Distance(o) <= |strtab| && HasStr(strtab, |strtab| - Distance(o))
      && Str(strtab, |strtab| - Distance(o)) == c.name
    case _ => false
  }

  ghost predicate Written(s: seq<byte>, strtab: seq<byte>, calls: seq<Call>, toks: seq<Token>) {
    && ValidTokens(toks) && s == EncAll(toks) && |toks| == |calls|
    && forall j :: 0 <= j < |toks| ==> Records(toks[j], calls[j], strtab)
  }

  lemma WrittenMore(s: seq<byte>, strtab: seq<byte>, calls: seq<Call>, toks: seq<Token>, t: Token, c: Call)
    requires Written(s, strtab, calls, toks) && ValidToken(t) && Records(t, c, strtab)
    ensures Written(s + Enc(t), strtab, calls + [c], toks + [t])
  {
    hide Enc, ValidToken, Records;
    EncAllConcat(toks, [t]);
    EncAllOne(t);
  }

  lemma NulShift(x: seq<byte>, s: seq<byte>, o: nat)
    requires o <= |s|
    ensures Nul(x + s, |x| + o) == |x| + Nul(s, o)
    decreases |s| - o
  {
    if o >= |s| {
    } else {
      assert (x + s)[|x| + o] == s[o];
      if s[o] != 0 {
        NulShift(x, s, o + 1);
      }
    }
  }

  lemma StrShift(x: seq<byte>, s: seq<byte>, o: nat)
    requires HasStr(s, o)
    ensures HasStr(x + s, |x| + o) && Str(x + s, |x| + o) == Str(s, o)
  {
    NulShift(x, s, o);
    assert (x + s)[|x| + o..|x| + Nul(s, o)] == s[o..Nul(s, o)];
  }

  /** Strings already written keep their distance from the end when the block grows down. */
  lemma WrittenPrepend(s: seq<byte>, strtab: seq<byte>, calls: seq<Call>, toks: seq<Token>, x: seq<byte>)
    requires Written(s, strtab, calls, toks)
    ensures Written(s, x + strtab, calls, toks)
  {
    hide EncAll, ValidToken, Records;
    forall j | 0 <= j < |toks| ensures Records(toks[j], calls[j], x + strtab) {
      RecordsPrepend(toks[j], calls[j], strtab, x);
    }
  }

  lemma RecordsPrepend(t: Token, c: Call, strtab: seq<byte>, x: seq<byte>)
    requires Records(t, c, strtab)
    ensures Records(t, c, x + strtab)
  {
    hide HasStr, Str;
    if t.Prop? {
      StrShift(x, strtab, |strtab| - Distance(t.nameoff));
    }
  }

  // --------------------------------------------------- the room check for strings

  /** The check of fdt_add_string_ in 32-bit arithmetic: room for len more bytes above structTop? */
  predicate SaysRoom(totalsize: nat, strtabsize: nat, len: nat, structTop: nat) {
    (totalsize - strtabsize - len) % U32 >= structTop
  }

  /**
   * The check answers correctly exactly when the string is no longer than what the strings
   * block leaves of the buffer; for a longer one the subtraction wraps and the check says yes.
   */
  lemma RoomCheckExact(totalsize: nat, strtabsize: nat, len: nat, structTop: nat)
    requires structTop + strtabsize <= totalsize <= INT_MAX && len <= INT_MAX
    ensures (SaysRoom(totalsize, strtabsize, len, structTop) <==> structTop + strtabsize + len <= totalsize)
       <==> strtabsize + len <= totalsize
  {
    var d := totalsize - strtabsize - len;
    if d >= 0 {
      assert d % U32 == d;
    } else {
      assert d % U32 == d + U32;
    }
  }

  // -------------------------------------------------------------- finishing

  /** A token after its name offset has been shifted by the size of the strings block. */
  function Fixed(t: Token, n: nat): Token {
    if t.Prop? then t.(nameoff := (t.nameoff + n) % U32) else t
  }

  /** The first j tokens fixed. */
  function FixedTo(ts: seq<Token>, j: nat, n: nat): (r: seq<Token>)
    requires j <= |ts|
    ensures |r| == |ts| && forall k :: 0 <= k < |ts| ==> r[k] == if k < j then Fixed(ts[k], n) else ts[k]
  {
    seq(|ts|, k requires 0 <= k < |ts| => if k < j then Fixed(ts[k], n) else ts[k])
  }

  lemma ValidFixed(ts: seq<Token>, j: nat, n: nat)
    requires ValidTokens(ts) && j <= |ts|
    ensures ValidTokens(FixedTo(ts, j, n))
  {
    forall k | 0 <= k < |ts| ensures ValidToken(FixedTo(ts, j, n)[k]) {
      assert ValidToken(ts[k]);
    }
  }

  /** Negative distances from the end of the strings block have become offsets from its start. */
  lemma FixedCalls(toks: seq<Token>, calls: seq<Call>, strtab: seq<byte>, s: seq<byte>)
    requires Written(s, strtab, calls, toks) && |strtab| < U32
    ensures var ts := FixedTo(toks, |toks|, |strtab|);
      Named(ts, strtab) && CallsOf(ts, strtab) == calls && forall k :: 0 <= k < |ts| ==> !ts[k].End?
  {
    hide EncAll, ValidToken, HasStr, Str;
    var ts := FixedTo(toks, |toks|, |strtab|);
    forall k | 0 <= k < |ts| ensures CallOf(ts[k], strtab) == [calls[k]] && !ts[k].End?
      ensures ts[k].Prop? ==> HasStr(strtab, ts[k].nameoff) {
      assert Records(toks[k], calls[k], strtab);
      if toks[k].Prop? {
        assert (toks[k].nameoff + |strtab|) % U32 == |strtab| - Distance(toks[k].nameoff);
      }
    }
    OneByOne(ts, calls, strtab);
  }

  lemma {:induction false} OneByOne(ts: seq<Token>, calls: seq<Call>, strtab: seq<byte>)
    requires |ts| == |calls| && forall k :: 0 <= k < |ts| ==> CallOf(ts[k], strtab) == [calls[k]]
    ensures CallsOf(ts, strtab) == calls
  {
    hide CallOf;
    if ts == [] {
    } else {
      OneByOne(ts[1..], calls[1..], strtab);
    }
  }

  /** Replacing one token by another of the same length. */
  lemma ReplaceToken(ts: seq<Token>, j: nat, t: Token)
    requires j < |ts| && |Enc(t)| == |Enc(ts[j])|
    ensures var s, o := EncAll(ts), Off(ts, j);
      && o + |Enc(t)| <= |s| && s[o..o + |Enc(t)|] == Enc(ts[j])
      && EncAll(ts[j := t]) == s[..o] + Enc(t) + s[o + |Enc(t)|..]
    ensures Off(ts[j := t], j) == Off(ts, j)
  {
    hide Enc, EncAll;
    var us, b := ts[j := t], ts[j + 1..];
    EncAround(ts, j);
    EncAround(us, j);
    assert us[..j] == ts[..j] && us[j + 1..] == b;
    var x, y, z := EncAll(ts[..j]), Enc(ts[j]), EncAll(b);
    assert (x + y + z)[..|x|] == x && (x + y + z)[|x|..|x| + |y|] == y && (x + y + z)[|x| + |y|..] == z;
  }

  lemma EncAround(ts: seq<Token>, j: nat)
    requires j < |ts|
    ensures EncAll(ts) == EncAll(ts[..j]) + Enc(ts[j]) + EncAll(ts[j + 1..])
  {
    hide Enc, EncAll;
    assert ts == ts[..j] + [ts[j]] + ts[j + 1..];
    EncMiddle(ts[..j], ts[j], ts[j + 1..]);
  }

  lemma EncMiddle(a: seq<Token>, t: Token, b: seq<Token>)
    ensures EncAll(a + [t] + b) == EncAll(a) + Enc(t) + EncAll(b)
  {
    hide Enc, EncAll;
    EncAllConcat(a + [t], b);
    EncAllConcat(a, [t]);
    EncAllOne(t);
  }

  lemma PatchBytes(s: seq<byte>, o: nat, e: seq<byte>, w: seq<byte>)
    requires o + |e| <= |s| && s[o..o + |e|] == e && |w| == 4 && |e| >= 12
    ensures s[..o + 8] + w + s[o + 12..] == s[..o] + (e[..8] + w + e[12..]) + s[o + |e|..]
  {
    SubSlice(s, o, e, 0, 8);
    SubSlice(s, o, e, 12, |e|);
    assert s[..o + 8] == s[..o] + s[o..o + 8] && s[o + 12..] == s[o + 12..o + |e|] + s[o + |e|..];
  }

  lemma NameWord(t: Token, n: nat)
    requires t.Prop?
    ensures |Enc(Fixed(t, n))| == |Enc(t)| >= 12
    ensures Enc(Fixed(t, n)) == Enc(t)[..8] + Be32((t.nameoff + n) % U32) + Enc(t)[12..]
  {
    PropCut(Be32(FDT_PROP), Be32(|t.val|), Be32(t.nameoff), t.val, t.pad, Be32((t.nameoff + n) % U32));
    hide Be32;
  }

  lemma PropCut(a: seq<byte>, b: seq<byte>, c: seq<byte>, v: seq<byte>, p: seq<byte>, d: seq<byte>)
    requires |a| == |b| == |c| == |d| == 4
    ensures a + b + d + v + p == (a + b + c + v + p)[..8] + d + (a + b + c + v + p)[12..]
  {
    assert (a + b + c + v + p)[..8] == a + b && (a + b + c + v + p)[12..] == v + p;
  }

  /** One step of the loop of fdt_finish: rewrite the name offset of token j in place. */
  lemma FixStep(ts: seq<Token>, j: nat, n: nat)
    requires j < |ts|
    ensures var s, o := EncAll(FixedTo(ts, j, n)), Off(FixedTo(ts, j, n), j);
      && Off(FixedTo(ts, j + 1, n), j) == o
      && |EncAll(FixedTo(ts, j + 1, n))| == |s|
      && (!ts[j].Prop? ==> EncAll(FixedTo(ts, j + 1, n)) == s)
      && (ts[j].Prop? ==>
            && o + 12 <= |s|
            && EncAll(FixedTo(ts, j + 1, n)) == s[..o + 8] + Be32((ts[j].nameoff + n) % U32) + s[o + 12..])
    ensures Off(FixedTo(ts, j + 1, n), j + 1) == Off(FixedTo(ts, j, n), j + 1)
  {
    hide Enc, EncAll, Off, Be32;
    var a, b := FixedTo(ts, j, n), FixedTo(ts, j + 1, n);
    OffStep(a, j);
    OffStep(b, j);
    if ts[j].Prop? {
      NameWord(ts[j], n);
      ReplaceToken(a, j, Fixed(ts[j], n));
      assert b == a[j := Fixed(ts[j], n)];
      PatchBytes(EncAll(a), Off(a, j), Enc(ts[j]), Be32((ts[j].nameoff + n) % U32));
    } else {
      assert a == b;
    }
  }

  // ---------------------------------------------------------------- the writer

  /** The header fields that the writer keeps; flags stands in last_comp_version, complete in magic. */
  datatype SwHeader = SwHeader(complete: bool, flags: nat, totalsize: nat, offStruct: nat, offStrings: nat,
                               sizeStruct: nat, sizeStrings: nat)

  /** The calls made so far and the tokens that record them. */
  datatype Log = Log(rsv: seq<Reserve>, calls: seq<Call>, toks: seq<Token>)

  /** The three regions lie in order, inside the buffer. */
  predicate Fits(m: seq<byte>, h: SwHeader) {
    && SW_HEADER_SIZE <= h.offStruct && h.offStruct + h.sizeStruct + h.sizeStrings <= h.totalsize
    && h.totalsize <= |m| && h.totalsize <= INT_MAX
  }

  function StructIn(m: seq<byte>, h: SwHeader): (r: seq<byte>)
    requires Fits(m, h)
    ensures |r| == h.sizeStruct
  {
    m[h.offStruct..h.offStruct + h.sizeStruct]
  }

  /** The strings block ends where the buffer, or later the blob, ends. */
  function StringsIn(m: seq<byte>, h: SwHeader): (r: seq<byte>)
    requires Fits(m, h)
    ensures |r| == h.sizeStrings
  {
    m[h.totalsize - h.sizeStrings..h.totalsize]
  }

  function ReservesIn(m: seq<byte>, h: SwHeader): seq<byte>
    requires Fits(m, h)
  {
    m[SW_HEADER_SIZE..h.offStruct]
  }

  predicate InReservations(h: SwHeader) {
    !h.complete && h.offStrings == 0
  }

  predicate InStruct(h: SwHeader) {
    !h.complete && h.offStrings == h.totalsize
  }

  /** The bytes in the buffer are those that the calls so far prescribe. */
  ghost predicate Holds(m: seq<byte>, h: SwHeader, l: Log) {
    && Fits(m, h) && ReservesIn(m, h) == EncReserves(l.rsv)
    && (h.complete ==>
          && h.offStrings == h.offStruct + h.sizeStruct && h.totalsize == h.offStrings + h.sizeStrings
          && Finished(StructIn(m, h), StringsIn(m, h), l.calls, l.toks))
    && (!h.complete ==>
          && Written(StructIn(m, h), StringsIn(m, h), l.calls, l.toks)
          && (h.offStrings == 0 || h.offStrings == h.totalsize))
    && (InReservations(h) ==> h.sizeStruct == 0 && h.sizeStrings == 0 && l.calls == [])
    && (!InReservations(h) ==> l.rsv != [] && l.rsv[|l.rsv| - 1] == Reserve(0, 0))
  }

  /** A finished structure block whose tokens record the calls. */
  ghost predicate Finished(s: seq<byte>, strtab: seq<byte>, calls: seq<Call>, ts: seq<Token>) {
    Block(s, ts) && OneEnd(ts) && Named(ts, strtab) && CallsOf(ts, strtab) == calls && |ts| == |calls| + 1
  }

  predicate Room(h: SwHeader, len: nat) {
    h.offStruct + h.sizeStruct + h.sizeStrings + len <= h.totalsize
  }

  lemma FitsIn(m: seq<byte>, h: SwHeader, l: Log)
    requires Holds(m, h, l)
    ensures Fits(m, h)
  {
  }

  lemma NothingWritten(m: seq<byte>, flags: nat, totalsize: nat)
    requires SW_HEADER_SIZE <= totalsize <= |m| && totalsize <= INT_MAX
    ensures Holds(m, SwHeader(false, flags, totalsize, SW_HEADER_SIZE, 0, 0, 0), Log([], [], []))
  {
  }

  /** A buffer of 100 bytes whose list of reservations has just been finished. */
  lemma ReservesDone(m: seq<byte>) returns (h: SwHeader, l: Log)
    requires |m| == 100 && m[SW_HEADER_SIZE..SW_HEADER_SIZE + 16] == EncReserve(Reserve(0, 0))
    ensures Holds(m, h, l) && InStruct(h) && l.calls == []
    ensures h.totalsize == 100 && h.sizeStrings == h.sizeStruct == 0 && h.offStruct == SW_HEADER_SIZE + 16
  {
    hide EncReserve;
    h := SwHeader(false, 0, 100, SW_HEADER_SIZE + 16, 100, 0, 0);
    l := Log([Reserve(0, 0)], [], []);
    MoreReserves([], Reserve(0, 0));
    assert [] + [Reserve(0, 0)] == [Reserve(0, 0)];
  }

  /**
   * The check fails on a state that the writer reaches: a fresh buffer of 100 bytes whose list of
   * reservations is finished, and a first property whose name has 100 characters.
   */
  lemma RoomCheckWraps(m: seq<byte>) returns (h: SwHeader, l: Log)
    requires |m| == 100 && m[SW_HEADER_SIZE..SW_HEADER_SIZE + 16] == EncReserve(Reserve(0, 0))
    ensures Holds(m, h, l) && InStruct(h) && h.totalsize == 100 && l.calls == []
    ensures SaysRoom(h.totalsize, h.sizeStrings, 100 + 1, h.offStruct + h.sizeStruct) && !Room(h, 100 + 1)
  {
    hide EncReserve, Holds;
    h, l := ReservesDone(m);
  }

  lemma MoreReserves(rs: seq<Reserve>, r: Reserve)
    ensures EncReserves(rs + [r]) == EncReserves(rs) + EncReserve(r)
  {
    hide EncReserve;
    assert (rs + [r])[..|rs|] == rs;
  }

  lemma AddEntry(m: seq<byte>, h: SwHeader, l: Log, r: Reserve)
    requires Holds(m, h, l) && InReservations(h) && h.offStruct + 16 <= h.totalsize
    ensures Holds(Put(m, h.offStruct, EncReserve(r)), h.(offStruct := h.offStruct + 16), l.(rsv := l.rsv + [r]))
  {
    hide EncAll, EncReserves, EncReserve, ValidToken, Put, Records;
    MoreReserves(l.rsv, r);
    PutSlice(m, h.offStruct, EncReserve(r), SW_HEADER_SIZE, h.offStruct + 16);
    assert m[h.offStruct + 16..h.offStruct + 16] == [];
  }

  /** Bytes x at the end of the structure block complete token t, whose padding is what the buffer held. */
  lemma AddToken(m: seq<byte>, h: SwHeader, l: Log, x: seq<byte>, len: nat, t: Token, c: Call)
    requires Holds(m, h, l) && InStruct(h) && Room(h, len) && |x| <= len
    requires ValidToken(t) && Records(t, c, StringsIn(m, h))
    requires var at := h.offStruct + h.sizeStruct; Enc(t) == x + m[at + |x|..at + len]
    ensures Holds(Put(m, h.offStruct + h.sizeStruct, x), h.(sizeStruct := h.sizeStruct + len),
                  l.(calls := l.calls + [c], toks := l.toks + [t]))
  {
    hide EncAll, EncReserves, Enc, ValidToken, Put, Records, Written, Finished;
    var at := h.offStruct + h.sizeStruct;
    PutSlice(m, at, x, SW_HEADER_SIZE, h.offStruct);
    PutSlice(m, at, x, h.totalsize - h.sizeStrings, h.totalsize);
    PutSlice(m, at, x, h.offStruct, at + len);
    Assoc(m[h.offStruct..at], x, m[at + |x|..at + len]);
    WrittenMore(StructIn(m, h), StringsIn(m, h), l.calls, l.toks, t, c);
  }

  /** A name stored below the strings block. */
  lemma AddName(m: seq<byte>, h: SwHeader, l: Log, x: seq<byte>)
    requires Holds(m, h, l) && InStruct(h) && Room(h, |x|)
    ensures var m', h' := Put(m, h.totalsize - h.sizeStrings - |x|, x), h.(sizeStrings := h.sizeStrings + |x|);
      Holds(m', h', l) && StringsIn(m', h') == x + StringsIn(m, h)
  {
    hide EncAll, EncReserves, Enc, ValidToken, Put, Records, Written, Finished;
    var at := h.totalsize - h.sizeStrings - |x|;
    PutSlice(m, at, x, SW_HEADER_SIZE, h.offStruct);
    PutSlice(m, at, x, h.offStruct, h.offStruct + h.sizeStruct);
    PutSlice(m, at, x, at, h.totalsize);
    assert m[at..at] + x == x;
    WrittenPrepend(StructIn(m, h), StringsIn(m, h), l.calls, l.toks, x);
  }

  /** The C value of a name offset: minus its distance from the end of the strings, as 32 bits. */
  function NameOffset(d: nat): u32
    requires 0 < d < U32
  {
    U32 - d
  }

  /** The name can be read d bytes before the end of the strings. */
  predicate NameAtEnd(strtab: seq<byte>, d: nat, name: seq<byte>) {
    0 < d <= |strtab| && HasStr(strtab, |strtab| - d) && Str(strtab, |strtab| - d) == name
  }

  lemma NameInFront(name: seq<byte>, strtab: seq<byte>)
    requires 0 !in name
    ensures NameAtEnd(name + [0] + strtab, |name| + 1 + |strtab|, name)
  {
    var s := name + [0] + strtab;
    assert s[0..|name| + 1] == name + [0];
    StrAt(s, 0, name);
  }

  lemma NameStored(m: seq<byte>, h: SwHeader, l: Log, name: seq<byte>)
    requires Holds(m, h, l) && InStruct(h) && Room(h, |name| + 1) && 0 !in name
    ensures var n := Put(m, h.totalsize - h.sizeStrings - (|name| + 1), name + [0]);
      var g := h.(sizeStrings := h.sizeStrings + |name| + 1);
      && Holds(n, g, l) && StringsIn(n, g) == name + [0] + StringsIn(m, h)
      && NameAtEnd(StringsIn(n, g), g.sizeStrings, name)
      && StructIn(n, g) == StructIn(m, h) && ReservesIn(n, g) == ReservesIn(m, h)
  {
    hide Put, NameAtEnd, Written, Finished, EncReserves;
    var at := h.totalsize - h.sizeStrings - (|name| + 1);
    AddName(m, h, l, name + [0]);
    NameInFront(name, StringsIn(m, h));
    PutSlice(m, at, name + [0], SW_HEADER_SIZE, h.offStruct);
    PutSlice(m, at, name + [0], h.offStruct, h.offStruct + h.sizeStruct);
  }

  lemma NamedProp(name: seq<byte>, d: nat, val: seq<byte>, pad: seq<byte>, strtab: seq<byte>)
    requires NameAtEnd(strtab, d, name) && |strtab| < U32
    ensures Records(Prop(NameOffset(d), val, pad), Property(name, val), strtab)
  {
    hide HasStr, Str;
  }

  lemma PutLast(m: seq<byte>, lo: nat, s: seq<byte>, e: seq<byte>, val: seq<byte>)
    requires lo + |s| + |e| <= |m| && m[lo..lo + |s| + |e|] == s + e && 12 + |val| <= |e|
    ensures Put(m, lo + |s| + 12, val)[lo..lo + |s| + |e|] == s + (e[..12] + val + e[12 + |val|..])
  {
    var n, at := |s| + |e|, |s| + 12;
    PutSlice(m, lo + at, val, lo, lo + n);
    SubSlice(m, lo, s + e, 0, at);
    SubSlice(m, lo, s + e, at + |val|, n);
    assert (s + e)[0..at] == s + e[..12] && (s + e)[at + |val|..n] == e[12 + |val|..];
    Assoc(s + e[..12], val, e[12 + |val|..]);
    Assoc(s, e[..12], val + e[12 + |val|..]);
    Assoc(e[..12], val, e[12 + |val|..]);
  }

  lemma ValueCut(t: Token, val: seq<byte>)
    requires t.Prop? && |val| == |t.val|
    ensures |Enc(t)| == 12 + |val| + |t.pad|
    ensures Enc(t.(val := val)) == Enc(t)[..12] + val + Enc(t)[12 + |val|..]
  {
    PropCuts(Be32(FDT_PROP), Be32(|val|), Be32(t.nameoff), t.val, t.pad, val);
  }

  lemma PropCuts(a: seq<byte>, b: seq<byte>, c: seq<byte>, v: seq<byte>, p: seq<byte>, w: seq<byte>)
    requires |a| == |b| == |c| == 4 && |v| == |w|
    ensures a + b + c + w + p == (a + b + c + v + p)[..12] + w + (a + b + c + v + p)[12 + |w|..]
  {
    assert (a + b + c + v + p)[..12] == a + b + c && (a + b + c + v + p)[12 + |w|..] == p;
  }

  /** A value stored over the one that the last token holds. */
  lemma SetLastValue(m: seq<byte>, h: SwHeader, l: Log, toks: seq<Token>, calls: seq<Call>, t: Token, name: seq<byte>,
                     val: seq<byte>)
    requires Holds(m, h, l) && InStruct(h) && t.Prop? && |val| == |t.val|
    requires l.toks == toks + [t] && l.calls == calls + [Property(name, t.val)]
    ensures |Enc(t)| <= h.sizeStruct && |Enc(t)| >= 12 + |val|
    ensures Holds(Put(m, h.offStruct + h.sizeStruct - |Enc(t)| + 12, val), h,
                  l.(toks := toks + [t.(val := val)], calls := calls + [Property(name, val)]))
    ensures StringsIn(Put(m, h.offStruct + h.sizeStruct - |Enc(t)| + 12, val), h) == StringsIn(m, h)
  {
    hide EncAll, EncReserves, Enc, Put, HasStr, Str;
    var at, u := h.offStruct + h.sizeStruct - |Enc(t)| + 12, t.(val := val);
    EncAllConcat(toks, [t]);
    EncAllConcat(toks, [u]);
    EncAllOne(t);
    EncAllOne(u);
    ValueCut(t, val);
    PutLast(m, h.offStruct, EncAll(toks), Enc(t), val);
    PutSlice(m, at, val, SW_HEADER_SIZE, h.offStruct);
    PutSlice(m, at, val, h.totalsize - h.sizeStrings, h.totalsize);
    assert forall j :: 0 <= j < |toks| ==> l.toks[j] == toks[j] && l.calls[j] == calls[j];
    assert l.toks[|toks|] == t && l.calls[|toks|] == Property(name, t.val);
    StillWritten(l.toks, l.calls, StringsIn(m, h), toks, calls, t, name, val);
  }

  lemma StillWritten(ts: seq<Token>, cs: seq<Call>, strtab: seq<byte>, toks: seq<Token>, calls: seq<Call>, t: Token,
                     name: seq<byte>, val: seq<byte>)
    requires t.Prop? && |val| == |t.val| && ts == toks + [t] && cs == calls + [Property(name, t.val)] && |ts| == |cs|
    requires Written(EncAll(ts), strtab, cs, ts)
    ensures Written(EncAll(toks + [t.(val := val)]), strtab, calls + [Property(name, val)], toks + [t.(val := val)])
  {
    hide EncAll, HasStr, Str;
    var us, ds := toks + [t.(val := val)], calls + [Property(name, val)];
    forall j | 0 <= j < |us| ensures ValidToken(us[j]) && Records(us[j], ds[j], strtab) {
      assert ValidToken(ts[j]) && Records(ts[j], cs[j], strtab);
    }
  }

  /** Only the three regions matter. */
  lemma SameRegions(m: seq<byte>, m': seq<byte>, h: SwHeader, l: Log)
    requires Holds(m, h, l) && Fits(m', h)
    requires ReservesIn(m', h) == ReservesIn(m, h) && StructIn(m', h) == StructIn(m, h)
    requires StringsIn(m', h) == StringsIn(m, h)
    ensures Holds(m', h, l)
  {
    hide Written, Finished, EncReserves, StructIn, StringsIn, ReservesIn;
  }

  /** The three header words and what the buffer holds behind them make up a property token. */
  lemma HeaderBytes(m: seq<byte>, at: nat, t: Token, len: nat)
    requires at + 12 + Align4(len) <= |m| && len <= INT_MAX
    requires t.Prop? && t.val == m[at + 12..at + 12 + len] && t.pad == m[at + 12 + len..at + 12 + Align4(len)]
    ensures ValidToken(t) && |Enc(t)| == 12 + Align4(len)
    ensures Enc(t) == Be32(FDT_PROP) + Be32(len) + Be32(t.nameoff) + m[at + 12..at + 12 + Align4(len)]
  {
    hide Be32, Align4;
    Align4Mono(len, len);
    assert t.val + t.pad == m[at + 12..at + 12 + Align4(len)];
    Assoc(Be32(FDT_PROP) + Be32(len) + Be32(t.nameoff), t.val, t.pad);
  }

  // ------------------------------------------------------------ fdt_finish

  /**
   * fdt_finish between two steps of its loop: FDT_END is in place, the strings block has
   * moved behind the structure block, and the first j tokens have their final offsets.
   */
  ghost predicate Fixing(m: seq<byte>, h: SwHeader, l: Log, strtab: seq<byte>, j: nat) {
    && h.offStrings == h.offStruct + h.sizeStruct && h.offStrings + |strtab| <= |m|
    && h.sizeStrings == |strtab| <= INT_MAX
    && SW_HEADER_SIZE <= h.offStruct && m[SW_HEADER_SIZE..h.offStruct] == EncReserves(l.rsv)
    && ValidTokens(l.toks) && j <= |l.toks| && (forall k :: 0 <= k < |l.toks| ==> !l.toks[k].End?)
    && m[h.offStruct..h.offStrings] == EncAll(FixedTo(l.toks + [End], j, |strtab|))
    && m[h.offStrings..h.offStrings + |strtab|] == strtab
  }

  /** FDT_END stored at `at`, then the strings block moved behind it. */
  function Closed(m: seq<byte>, h: SwHeader): seq<byte>
    requires Fits(m, h) && Room(h, 4)
  {
    var at := h.offStruct + h.sizeStruct;
    var b := Put(m, at, Be32(FDT_END));
    Put(b, at + 4, b[h.totalsize - h.sizeStrings..h.totalsize])
  }

  lemma ClosedRegions(m: seq<byte>, h: SwHeader)
    requires Fits(m, h) && Room(h, 4)
    ensures var at := h.offStruct + h.sizeStruct;
      && Closed(m, h)[..at] == m[..at] && Closed(m, h)[at..at + 4] == Be32(FDT_END)
      && Closed(m, h)[at + 4..at + 4 + h.sizeStrings] == StringsIn(m, h)
  {
    hide Be32, Put;
    var at := h.offStruct + h.sizeStruct;
    var b := Put(m, at, Be32(FDT_END));
    var x := b[h.totalsize - h.sizeStrings..h.totalsize];
    PutSlice(m, at, Be32(FDT_END), 0, at);
    PutSlice(m, at, Be32(FDT_END), at, at + 4);
    PutSlice(m, at, Be32(FDT_END), h.totalsize - h.sizeStrings, h.totalsize);
    PutSlice(b, at + 4, x, 0, at);
    PutSlice(b, at + 4, x, at, at + 4);
    PutSlice(b, at + 4, x, at + 4, at + 4 + h.sizeStrings);
  }

  /** Appending FDT_END and closing the gap. */
  lemma StartFixing(m: seq<byte>, h: SwHeader, l: Log, m': seq<byte>)
    requires Holds(m, h, l) && InStruct(h) && Room(h, 4)
    requires var at := h.offStruct + h.sizeStruct;
      && |m'| == |m| && m'[..at] == m[..at] && m'[at..at + 4] == Be32(FDT_END)
      && m'[at + 4..at + 4 + h.sizeStrings] == StringsIn(m, h)
    ensures Fixing(m', h.(sizeStruct := h.sizeStruct + 4, offStrings := h.offStruct + h.sizeStruct + 4), l,
                   StringsIn(m, h), 0)
  {
    hide EncAll, EncReserves, Enc, ValidToken, Records, Be32;
    var at := h.offStruct + h.sizeStruct;
    NoEnds(l, StringsIn(m, h));
    SubSlice(m', 0, m[..at], SW_HEADER_SIZE, h.offStruct);
    SubSlice(m', 0, m[..at], h.offStruct, at);
    SubSlice(m, 0, m[..at], SW_HEADER_SIZE, h.offStruct);
    SubSlice(m, 0, m[..at], h.offStruct, at);
    assert m'[h.offStruct..at + 4] == m'[h.offStruct..at] + m'[at..at + 4];
    EncAllConcat(l.toks, [End]);
    EncAllOne(End);
    EndWord();
    assert FixedTo(l.toks + [End], 0, h.sizeStrings) == l.toks + [End];
  }

  lemma NoEnds(l: Log, strtab: seq<byte>)
    requires |l.toks| == |l.calls| && forall j :: 0 <= j < |l.toks| ==> Records(l.toks[j], l.calls[j], strtab)
    ensures forall k :: 0 <= k < |l.toks| ==> !l.toks[k].End?
  {
  }

  lemma EndWord()
    ensures Enc(End) == Be32(FDT_END)
  {
  }

  lemma PutInside(m: seq<byte>, lo: nat, s: seq<byte>, o: nat, x: seq<byte>)
    requires lo + |s| <= |m| && m[lo..lo + |s|] == s && o + |x| <= |s|
    ensures Put(m, lo + o, x)[lo..lo + |s|] == s[..o] + x + s[o + |x|..]
  {
    PutSlice(m, lo + o, x, lo, lo + |s|);
    SubSlice(m, lo, s, 0, o);
    SubSlice(m, lo, s, o + |x|, |s|);
  }

  lemma FixOne(m: seq<byte>, h: SwHeader, l: Log, strtab: seq<byte>, j: nat)
    requires Fixing(m, h, l, strtab, j) && j < |l.toks| && l.toks[j].Prop?
    ensures var o := Off(FixedTo(l.toks + [End], j, |strtab|), j);
      && h.offStruct + o + 12 <= |m|
      && Fixing(Put(m, h.offStruct + o + 8, Be32((l.toks[j].nameoff + |strtab|) % U32)), h, l, strtab, j + 1)
  {
    hide EncAll, EncReserves, Enc, Off, Be32, ValidToken, Put;
    var ts, n := l.toks + [End], |strtab|;
    var o, w := Off(FixedTo(ts, j, n), j), Be32((l.toks[j].nameoff + n) % U32);
    FixStep(ts, j, n);
    PutInside(m, h.offStruct, EncAll(FixedTo(ts, j, n)), o + 8, w);
    PutSlice(m, h.offStruct + o + 8, w, SW_HEADER_SIZE, h.offStruct);
    PutSlice(m, h.offStruct + o + 8, w, h.offStrings, h.offStrings + n);
  }

  /** The token that the loop meets, and where the next one starts. */
  lemma FixingToken(m: seq<byte>, h: SwHeader, l: Log, strtab: seq<byte>, j: nat)
    requires Fixing(m, h, l, strtab, j)
    ensures var ts := FixedTo(l.toks + [End], j, |strtab|);
      && TagAt(m[h.offStruct..h.offStrings], Off(ts, j)) == (Tag((l.toks + [End])[j]), Off(ts, j + 1))
      && (Tag((l.toks + [End])[j]) == FDT_END <==> j == |l.toks|)
      && (j < |l.toks| ==> Off(FixedTo(l.toks + [End], j + 1, |strtab|), j + 1) == Off(ts, j + 1))
      && (j < |l.toks| && !l.toks[j].Prop? ==> Fixing(m, h, l, strtab, j + 1))
      && (j < |l.toks| && l.toks[j].Prop? ==>
            && Off(ts, j) + 12 <= h.sizeStruct
            && Word(m[h.offStruct..h.offStrings], Off(ts, j) + 8) == l.toks[j].nameoff)
  {
    hide EncAll, EncReserves, Enc, Off, ValidToken, TagAt, Word;
    var all, n := l.toks + [End], |strtab|;
    var ts := FixedTo(all, j, n);
    assert ValidToken(End) by { EndValid(); }
    assert ValidTokens(all);
    ValidFixed(all, j, n);
    TagAtToken(ts, j);
    FixStep(all, j, n);
    if j < |l.toks| && l.toks[j].Prop? {
      OffStep(ts, j);
      PropFields(EncAll(ts), Off(ts, j), ts[j]);
    }
  }

  lemma EndValid()
    ensures ValidToken(End)
  {
  }

  /** When every token is fixed the blob records the calls. */
  lemma FixedAll(m: seq<byte>, h: SwHeader, l: Log, s: seq<byte>, strtab: seq<byte>)
    requires Fixing(m, h, l, strtab, |l.toks|) && Written(s, strtab, l.calls, l.toks)
    requires h.offStrings + |strtab| <= INT_MAX && l.rsv != [] && l.rsv[|l.rsv| - 1] == Reserve(0, 0)
    ensures var n := |strtab|;
      && Holds(m, h.(complete := true, totalsize := h.offStrings + n),
               l.(toks := FixedTo(l.toks, |l.toks|, n) + [End]))
      && StringsIn(m, h.(complete := true, totalsize := h.offStrings + n)) == strtab
  {
    hide EncAll, EncReserves, Enc, ValidToken, HasStr, Str, CallsOf, Records;
    var n, k := |strtab|, |l.toks|;
    var ts := FixedTo(l.toks, k, n);
    assert FixedTo(l.toks + [End], k, n) == ts + [End];
    FixedCalls(l.toks, l.calls, strtab, s);
    ValidFixed(l.toks, k, n);
    EndValid();
    CallsEnd(ts, strtab);
  }

  lemma {:induction false} CallsEnd(ts: seq<Token>, strtab: seq<byte>)
    ensures CallsOf(ts + [End], strtab) == CallsOf(ts, strtab)
  {
    hide CallOf;
    if ts == [] {
      NoCall(strtab);
    } else {
      CallsEnd(ts[1..], strtab);
      assert (ts + [End])[1..] == ts[1..] + [End] && (ts + [End])[0] == ts[0];
    }
  }

  lemma NoCall(strtab: seq<byte>)
    ensures CallsOf([] + [End], strtab) == []
  {
    assert ([] + [End])[1..] == [] && ([] + [End])[0] == End;
  }

  lemma WrittenIn(m: seq<byte>, h: SwHeader, l: Log)
    requires Holds(m, h, l) && InStruct(h)
    ensures Written(StructIn(m, h), StringsIn(m, h), l.calls, l.toks)
    ensures l.rsv != [] && l.rsv[|l.rsv| - 1] == Reserve(0, 0)
  {
  }

  lemma Bounds(m: seq<byte>, h: SwHeader, l: Log, strtab: seq<byte>, j: nat)
    requires Fixing(m, h, l, strtab, j)
    ensures h.offStruct <= h.offStrings == h.offStruct + h.sizeStruct <= |m| && h.sizeStrings == |strtab|
    ensures j <= |l.toks|
  {
  }

  /** Round trip: what a finished blob parses to is what was written. */
  lemma ParsedBack(m: seq<byte>, h: SwHeader, l: Log)
    requires Holds(m, h, l) && h.complete
    ensures Parse(StructIn(m, h), StringsIn(m, h), 0) == Some(l.calls)
  {
    hide EncAll, Off, TagAt, Parse, EncReserves;
    OffZero(l.toks);
    ParseTokens(StructIn(m, h), l.toks, StringsIn(m, h), 0);
    assert l.toks[0..] == l.toks;
  }

  // -------------------------------------------------- what fdt_check_full says

  function HeaderOf(h: SwHeader): Header {
    Header(h.totalsize, SW_HEADER_SIZE, h.offStruct, h.offStrings, h.sizeStrings, h.sizeStruct)
  }

  lemma Be64Zero(w: u64)
    ensures Be64(w) == [0, 0, 0, 0, 0, 0, 0, 0] <==> w == 0
  {
    var hi, lo := w / U32, w % U32;
    assert w == hi * U32 + lo;
    Be32Zero(hi);
    Be32Zero(lo);
    hide Be32;
    assert Be64(w)[..4] == Be32(hi) && Be64(w)[4..] == Be32(lo);
  }

  lemma Be64Word(s: seq<byte>, o: nat, w: u64)
    requires o + 8 <= |s| && s[o..o + 8] == Be64(w)
    ensures Word64(s, o) == w
  {
    var hi, lo := w / U32, w % U32;
    assert w == hi * U32 + lo;
    hide Be32, Word, Word64;
    TwoWords(s, o);
    SubSlice(s, o, Be64(w), 0, 4);
    SubSlice(s, o, Be64(w), 4, 8);
    WordBe32(s, o, hi);
    WordBe32(s, o + 4, lo);
  }

  lemma Be32Zero(w: u32)
    ensures Be32(w) == [0, 0, 0, 0] <==> w == 0
  {
    if Be32(w) == [0, 0, 0, 0] {
      WordBe32(Be32(w), 0, w);
    }
  }

  /** Entry k of an encoded reservation list. */
  lemma {:induction false} EntryAt(rs: seq<Reserve>, k: nat)
    requires k < |rs|
    ensures EncReserves(rs)[16 * k..16 * k + 16] == EncReserve(rs[k])
  {
    hide EncReserve;
    if k >= |rs| - 1 {
    } else {
      EntryAt(rs[..|rs| - 1], k);
    }
  }

  lemma SizeAt(m: seq<byte>, h: SwHeader, l: Log, k: nat)
    requires Holds(m, h, l) && k < |l.rsv|
    ensures RsvFits(HeaderOf(h), k) && (NoSize(m, HeaderOf(h), k) <==> l.rsv[k].size == 0)
  {
    hide EncReserves, Be64, Written, Finished, EncAll;
    var e := EncReserves(l.rsv);
    EntryAt(l.rsv, k);
    Be64Zero(l.rsv[k].size);
    SubSlice(m, SW_HEADER_SIZE, e, 16 * k, 16 * k + 16);
    SubSlice(m, SW_HEADER_SIZE + 16 * k, EncReserve(l.rsv[k]), 8, 16);
    assert EncReserve(l.rsv[k])[8..16] == Be64(l.rsv[k].size);
  }

  /** The list of reservations reads back as it was given: the header takes 48 bytes, and an entry two numbers of 8. */
  lemma ReservesRead(m: seq<byte>, h: SwHeader, l: Log, k: nat)
    requires Holds(m, h, l) && k < |l.rsv|
    ensures 48 + 16 * k + 16 <= h.offStruct <= h.totalsize <= |m|
    ensures Word64(m, 48 + 16 * k) == l.rsv[k].address && Word64(m, 48 + 16 * k + 8) == l.rsv[k].size
  {
    hide EncReserves, Be64, Written, Finished, EncAll, Word64;
    EntryAt(l.rsv, k);
    var e := EncReserve(l.rsv[k]);
    SubSlice(m, SW_HEADER_SIZE, EncReserves(l.rsv), 16 * k, 16 * k + 16);
    SubSlice(m, SW_HEADER_SIZE + 16 * k, e, 0, 8);
    SubSlice(m, SW_HEADER_SIZE + 16 * k, e, 8, 16);
    assert e[0..8] == Be64(l.rsv[k].address) && e[8..16] == Be64(l.rsv[k].size);
    Be64Word(m, 48 + 16 * k, l.rsv[k].address);
    Be64Word(m, 48 + 16 * k + 8, l.rsv[k].size);
  }

  /** fdt_check_full accepts a finished blob exactly when its begin and end calls were balanced. */
  lemma AcceptedIffBalanced(m: seq<byte>, h: SwHeader, l: Log)
    requires Holds(m, h, l) && h.complete && h.totalsize < INT_MAX
    ensures CheckHeader(HeaderOf(h)) == 0 && ListHasEnd(m, HeaderOf(h))
    ensures var v := Verdict(BlockIn(m, HeaderOf(h)), NamesIn(m, HeaderOf(h)), h.totalsize, 0, 0);
      v.Answer? && (v == Answer(0) <==> Balanced(l.calls, 0))
  {
    hide EncAll, EncReserves, Balanced, CallsOf, NoSize, HasStr, ValidToken, Verdict, Plain, ReadTokens, Encodes;
    SizeAt(m, h, l, |l.rsv| - 1);
    assert StringsIn(m, h) == NamesIn(m, HeaderOf(h));
    WholeBlock(BlockIn(m, HeaderOf(h)), l.toks);
    EncodedRead(BlockIn(m, HeaderOf(h)), 0, l.toks);
    VerdictIs(BlockIn(m, HeaderOf(h)), NamesIn(m, HeaderOf(h)), h.totalsize, 0, 0);
  }

  lemma WholeBlock(s: seq<byte>, ts: seq<Token>)
    requires Block(s, ts) && OneEnd(ts)
    ensures Encodes(s, 0, ts)
  {
    assert s[0..0 + |EncAll(ts)|] == EncAll(ts);
  }
}
