/** The operations of the sequential writer on its buffer. */
module Sequential {
  import opened Bytes
  import opened Tokens
  import opened Views
  import opened Scan
  import opened Parser
  import opened Writer

  class Sw {
    const buf: array<byte>
    var h: SwHeader
    ghost var log: Log

    constructor (buf: array<byte>)
      ensures this.buf == buf
    {
      this.buf := buf;
    }

    ghost predicate Valid()
      reads this, buf
    {
      Holds(buf[..], h, log)
    }

    function Struct(): seq<byte>
      requires Fits(buf[..], h)
      reads this, buf
    {
      StructIn(buf[..], h)
    }

    function Strings(): seq<byte>
      requires Fits(buf[..], h)
      reads this, buf
    {
      StringsIn(buf[..], h)
    }

    /** Everything but the gap in the middle of the buffer. */
    ghost function All(): (SwHeader, Log, seq<byte>, seq<byte>, seq<byte>)
      requires Fits(buf[..], h)
      reads this, buf
    {
      (h, log, ReservesIn(buf[..], h), Struct(), Strings())
    }

    /** fdt_create_with_flags */
    static method CreateWithFlags(buf: array<byte>, bufsize: nat, flags: nat) returns (err: int, w: Sw)
      requires bufsize <= buf.Length && bufsize <= INT_MAX
      modifies buf
      ensures err == if bufsize < SW_HEADER_SIZE then -ERR_NOSPACE
                     else if flags > NO_NAME_DEDUP then -ERR_BADFLAGS else 0
      ensures err != 0 ==> buf[..] == old(buf[..])
      ensures fresh(w) && w.buf == buf
      ensures err == 0 ==>
        w.Valid() && w.log == Log([], [], []) && w.h == SwHeader(false, flags, bufsize, SW_HEADER_SIZE, 0, 0, 0)
    {
      hide Holds;
      w := new Sw(buf);
      if bufsize < SW_HEADER_SIZE {
        return -ERR_NOSPACE, w;
      }
      if flags > NO_NAME_DEDUP {
        return -ERR_BADFLAGS, w;
      }
      forall i | 0 <= i < bufsize {
        buf[i] := 0;
      }
      w.h := SwHeader(false, flags, bufsize, SW_HEADER_SIZE, 0, 0, 0);
      w.log := Log([], [], []);
      err := 0;
      NothingWritten(buf[..], flags, bufsize);
    }

    /** fdt_add_reservemap_entry */
    method AddReservemapEntry(address: u64, size: u64) returns (err: int)
      requires Valid()
      modifies this, buf
      ensures Valid()
      ensures err == if !InReservations(old(h)) then -ERR_BADSTATE
                     else if old(h).offStruct + 16 > old(h).totalsize then -ERR_NOSPACE else 0
      ensures err != 0 ==> All() == old(All())
      ensures err == 0 ==>
        && log == old(log).(rsv := old(log).rsv + [Reserve(address, size)])
        && h == old(h).(offStruct := old(h).offStruct + 16)
    {
      hide Written, Finished, EncReserves, EncReserve, Put;
      if !InReservations(h) {
        return -ERR_BADSTATE;
      }
      if h.offStruct + 16 > h.totalsize {
        return -ERR_NOSPACE;
      }
      AddEntry(buf[..], h, log, Reserve(address, size));
      Store(buf, h.offStruct, EncReserve(Reserve(address, size)));
      h := h.(offStruct := h.offStruct + 16);
      log := log.(rsv := log.rsv + [Reserve(address, size)]);
      err := 0;
    }

    /** fdt_finish_reservemap */
    method FinishReservemap() returns (err: int)
      requires Valid()
      modifies this, buf
      ensures Valid()
      ensures err == if !InReservations(old(h)) then -ERR_BADSTATE
                     else if old(h).offStruct + 16 > old(h).totalsize then -ERR_NOSPACE else 0
      ensures err != 0 ==> All() == old(All())
      ensures err == 0 ==>
        && InStruct(h) && log == old(log).(rsv := old(log).rsv + [Reserve(0, 0)])
        && h == old(h).(offStruct := old(h).offStruct + 16, offStrings := old(h).totalsize)
    {
      hide Written, Finished, EncReserves;
      err := AddReservemapEntry(0, 0);
      if err != 0 {
        return;
      }
      h := h.(offStrings := h.totalsize);
    }

    /** fdt_grab_space_: room for len more bytes of structure block. */
    method GrabSpace(len: nat) returns (at: int)
      requires Fits(buf[..], h)
      modifies this`h
      ensures at < 0 <==> !Room(old(h), len)
      ensures at < 0 ==> h == old(h)
      ensures at >= 0 ==>
        at == old(h).offStruct + old(h).sizeStruct && h == old(h).(sizeStruct := old(h).sizeStruct + len)
    {
      if h.sizeStruct + len > h.totalsize - h.offStruct - h.sizeStrings {
        return -1;
      }
      at := h.offStruct + h.sizeStruct;
      h := h.(sizeStruct := h.sizeStruct + len);
    }

    /** fdt_begin_node */
    method BeginNode(name: seq<byte>) returns (err: int)
      requires Valid() && 0 !in name
      modifies this, buf
      ensures Valid()
      ensures err == if !InStruct(old(h)) then -ERR_BADSTATE
                     else if !Room(old(h), 4 + Align4(|name| + 1)) then -ERR_NOSPACE else 0
      ensures err != 0 ==> All() == old(All())
      ensures err == 0 ==> log.rsv == old(log).rsv && log.calls == old(log).calls + [Call.BeginNode(name)]
      ensures err == 0 ==> h == old(h).(sizeStruct := old(h).sizeStruct + 4 + Align4(|name| + 1))
    {
      hide Holds, Written, Align4, Be32, Put;
      if !InStruct(h) {
        return -ERR_BADSTATE;
      }
      assert Fits(buf[..], h) by { FitsIn(buf[..], h, log); }
      ghost var m, h0 := buf[..], h;
      var at := GrabSpace(4 + Align4(|name| + 1));
      if at < 0 {
        return -ERR_NOSPACE;
      }
      var x := Be32(FDT_BEGIN_NODE) + name + [0];
      Align4Mono(|name| + 1, |name| + 1);
      Store(buf, at, x);
      ghost var t := Begin(name, m[at + |x|..at + 4 + Align4(|name| + 1)]);
      AddToken(m, h0, log, x, 4 + Align4(|name| + 1), t, Call.BeginNode(name));
      log := log.(calls := log.calls + [Call.BeginNode(name)], toks := log.toks + [t]);
      err := 0;
    }

    /** fdt_end_node */
    method EndNode() returns (err: int)
      requires Valid()
      modifies this, buf
      ensures Valid()
      ensures err == if !InStruct(old(h)) then -ERR_BADSTATE else if !Room(old(h), 4) then -ERR_NOSPACE else 0
      ensures err != 0 ==> All() == old(All())
      ensures err == 0 ==> log.rsv == old(log).rsv && log.calls == old(log).calls + [EndOfNode]
      ensures err == 0 ==> h == old(h).(sizeStruct := old(h).sizeStruct + 4)
    {
      hide Holds, Written, Be32, Put;
      if !InStruct(h) {
        return -ERR_BADSTATE;
      }
      assert Fits(buf[..], h) by { FitsIn(buf[..], h, log); }
      ghost var m, h0 := buf[..], h;
      var at := GrabSpace(4);
      if at < 0 {
        return -ERR_NOSPACE;
      }
      Store(buf, at, Be32(FDT_END_NODE));
      assert Be32(FDT_END_NODE) + m[at + 4..at + 4] == Enc(Token.EndNode);
      AddToken(m, h0, log, Be32(FDT_END_NODE), 4, Token.EndNode, EndOfNode);
      log := log.(calls := log.calls + [EndOfNode], toks := log.toks + [Token.EndNode]);
      err := 0;
    }

    /** The strings block already holds the name, and the flags let it be shared. */
    predicate Shared(name: seq<byte>)
      requires Fits(buf[..], h)
      reads this, buf
    {
      h.flags != NO_NAME_DEDUP && exists q :: 0 <= q < |Strings()| && HasStr(Strings(), q) && Str(Strings(), q) == name
    }

    /** A name longer than what the strings block leaves of the buffer. */
    predicate TooLong(name: seq<byte>)
      reads this
    {
      h.sizeStrings + |name| + 1 > h.totalsize
    }

    /**
     * fdt_add_string_: how far before the end of the strings the new name lies, or 0 without room for it.
     * The copy of a name that is too long escapes: it starts before the buffer, and the model stops there.
     */
    method AddString(name: seq<byte>) returns (d: nat, escapes: bool)
      requires Valid() && InStruct(h) && 0 !in name && |name| < INT_MAX
      modifies this`h, buf
      ensures Valid()
      ensures escapes == old(TooLong(name))
      ensures escapes ==> d == h.sizeStrings + |name| + 1 && All() == old(All())
      ensures d == 0 ==> !Room(h, |name| + 1) && All() == old(All())
      ensures d > 0 && !escapes ==> h == old(h).(sizeStrings := old(h).sizeStrings + |name| + 1) && d == h.sizeStrings
      ensures d > 0 && !escapes ==> Strings() == name + [0] + old(Strings()) && NameAtEnd(Strings(), d, name)
      ensures d > 0 && !escapes ==> Struct() == old(Struct()) && ReservesIn(buf[..], h) == old(ReservesIn(buf[..], h))
    {
      hide Holds, Put, NameAtEnd, StructIn, StringsIn, ReservesIn;
      assert Fits(buf[..], h) by { FitsIn(buf[..], h, log); }
      var structTop := h.offStruct + h.sizeStruct;
      RoomCheckExact(h.totalsize, h.sizeStrings, |name| + 1, structTop);
      if !SaysRoom(h.totalsize, h.sizeStrings, |name| + 1, structTop) {
        return 0, false;
      }
      if h.totalsize - h.sizeStrings - (|name| + 1) < 0 {
        return h.sizeStrings + |name| + 1, true;
      }
      NameStored(buf[..], h, log, name);
      Store(buf, h.totalsize - h.sizeStrings - (|name| + 1), name + [0]);
      h := h.(sizeStrings := h.sizeStrings + |name| + 1);
      d, escapes := h.sizeStrings, false;
    }

    /** fdt_find_add_string_ */
    method FindAddString(name: seq<byte>) returns (d: nat, added: bool, escapes: bool)
      requires Valid() && InStruct(h) && 0 !in name && |name| < INT_MAX && h.flags != NO_NAME_DEDUP
      modifies this`h, buf
      ensures Valid()
      ensures added == !old(Shared(name)) && escapes == (added && old(TooLong(name)))
      ensures escapes ==> d > 0 && All() == old(All())
      ensures d == 0 ==> added && !Room(h, |name| + 1) && All() == old(All())
      ensures d > 0 && !escapes ==> NameAtEnd(Strings(), d, name)
      ensures d > 0 && !escapes ==> if added then
          && h == old(h).(sizeStrings := old(h).sizeStrings + |name| + 1) && Strings() == name + [0] + old(Strings())
          && Struct() == old(Struct()) && ReservesIn(buf[..], h) == old(ReservesIn(buf[..], h))
        else All() == old(All())
    {
      hide Holds;
      assert Fits(buf[..], h) by { FitsIn(buf[..], h, log); }
      var p := FindString(Strings(), name);
      if p >= 0 {
        return h.sizeStrings - p, false, false;
      }
      d, escapes := AddString(name);
      added := true;
    }

    /** fdt_del_last_string_ */
    method DelLastString(name: seq<byte>, ghost strtab: seq<byte>)
      requires Fits(buf[..], h) && Strings() == name + [0] + strtab
      modifies this`h
      ensures h == old(h).(sizeStrings := |strtab|) && Strings() == strtab
      ensures Struct() == old(Struct()) && ReservesIn(buf[..], h) == old(ReservesIn(buf[..], h))
    {
      SubSlice(buf[..], h.totalsize - h.sizeStrings, Strings(), |name| + 1, h.sizeStrings);
      assert (name + [0] + strtab)[|name| + 1..] == strtab;
      h := h.(sizeStrings := h.sizeStrings - (|name| + 1));
    }

    /** The bytes of strings block that a property with this name takes. */
    function NameSpace(name: seq<byte>): nat
      requires Fits(buf[..], h)
      reads this, buf
    {
      if Shared(name) then 0 else |name| + 1
    }

    /** The name of a property, found or added as the flags say. */
    method PlaceName(name: seq<byte>) returns (d: nat, added: bool, escapes: bool)
      requires Valid() && InStruct(h) && 0 !in name && |name| < INT_MAX
      modifies this`h, buf
      ensures Valid() && added == !old(Shared(name))
      ensures escapes == (added && old(TooLong(name))) && (escapes ==> d > 0 && All() == old(All()))
      ensures d == 0 ==> added && !Room(h, |name| + 1) && All() == old(All())
      ensures d > 0 && !escapes ==>
        && NameAtEnd(Strings(), d, name) && h == old(h).(sizeStrings := old(h).sizeStrings + old(NameSpace(name)))
        && Strings() == (if added then name + [0] + old(Strings()) else old(Strings()))
        && Struct() == old(Struct()) && ReservesIn(buf[..], h) == old(ReservesIn(buf[..], h))
    {
      hide Holds, NameAtEnd;
      assert Fits(buf[..], h) by { FitsIn(buf[..], h, log); }
      added := true;
      if h.flags == NO_NAME_DEDUP {
        d, escapes := AddString(name);
      } else {
        d, added, escapes := FindAddString(name);
      }
    }

    /** The header of a property in space just grabbed, its name d bytes before the end of the strings. */
    method PutProp(at: nat, d: nat, name: seq<byte>, len: nat, ghost h0: SwHeader)
      requires Holds(buf[..], h0, log) && InStruct(h0) && Room(h0, 12 + Align4(len)) && len <= INT_MAX
      requires at == h0.offStruct + h0.sizeStruct && h == h0.(sizeStruct := h0.sizeStruct + 12 + Align4(len))
      requires NameAtEnd(StringsIn(buf[..], h0), d, name)
      modifies buf, this`log
      ensures Valid() && Strings() == StringsIn(old(buf[..]), h0) && at + 12 + len <= buf.Length
      ensures log.rsv == old(log).rsv && log.calls == old(log).calls + [Property(name, buf[at + 12..at + 12 + len])]
      ensures |log.toks| == |old(log).toks| + 1 && log.toks[..|old(log).toks|] == old(log).toks
      ensures var t := log.toks[|old(log).toks|];
        t.Prop? && t.val == buf[at + 12..at + 12 + len] && |Enc(t)| == 12 + Align4(len)
    {
      hide Holds, Written, Be32, Put, Align4, HasStr, Str, Records, Enc;
      assert Fits(buf[..], h0) by { FitsIn(buf[..], h0, log); }
      ghost var m := buf[..];
      var x := Be32(FDT_PROP) + Be32(len) + Be32(NameOffset(d));
      Align4Mono(len, len);
      ghost var t := Prop(NameOffset(d), m[at + 12..at + 12 + len], m[at + 12 + len..at + 12 + Align4(len)]);
      HeaderBytes(m, at, t, len);
      NamedProp(name, d, t.val, t.pad, StringsIn(m, h0));
      AddToken(m, h0, log, x, 12 + Align4(len), t, Property(name, t.val));
      PutSlice(m, at, x, at + 12, at + 12 + len);
      PutSlice(m, at, x, h.totalsize - h.sizeStrings, h.totalsize);
      Store(buf, at, x);
      log := log.(calls := log.calls + [Property(name, t.val)], toks := log.toks + [t]);
    }

    /** The state and the name with which a property is stored in part before the buffer. */
    predicate Escapes(name: seq<byte>)
      requires Fits(buf[..], h)
      reads this, buf
    {
      InStruct(h) && !Shared(name) && TooLong(name)
    }

    /** fdt_property_placeholder: a property whose value is whatever the buffer holds at data. */
    method PropertyPlaceholder(name: seq<byte>, len: nat) returns (err: int, data: nat, escapes: bool)
      requires Valid() && 0 !in name && |name| < INT_MAX && len <= INT_MAX
      modifies this, buf
      ensures Valid()
      ensures escapes == old(Escapes(name))
      ensures !escapes ==> err == if !InStruct(old(h)) then -ERR_BADSTATE
                                  else if !Room(old(h), old(NameSpace(name)) + 12 + Align4(len)) then -ERR_NOSPACE
                                  else 0
      ensures err != 0 || escapes ==> All() == old(All())
      ensures err == 0 && !escapes ==>
        && h == old(h).(sizeStruct := old(h).sizeStruct + 12 + Align4(len),
                        sizeStrings := old(h).sizeStrings + old(NameSpace(name)))
        && Strings() == (if old(Shared(name)) then old(Strings()) else name + [0] + old(Strings()))
      ensures err == 0 && !escapes ==>
        && data == h.offStruct + old(h).sizeStruct + 12 && data + len <= buf.Length
        && log.rsv == old(log).rsv && log.calls == old(log).calls + [Property(name, buf[data..data + len])]
        && |log.toks| == |old(log).toks| + 1 && log.toks[..|old(log).toks|] == old(log).toks
        && var t := log.toks[|old(log).toks|]; t.Prop? && t.val == buf[data..data + len] && |Enc(t)| == 12 + Align4(len)
    {
      hide Holds, Enc, Align4, NameAtEnd, HasStr, Str, StructIn, StringsIn, ReservesIn;
      data, escapes := 0, false;
      if !InStruct(h) {
        return -ERR_BADSTATE, data, escapes;
      }
      assert Fits(buf[..], h) by { FitsIn(buf[..], h, log); }
      var d, added;
      d, added, escapes := PlaceName(name);
      if escapes {
        return 0, data, escapes;
      }
      if d == 0 {
        return -ERR_NOSPACE, data, escapes;
      }
      assert Fits(buf[..], h) by { FitsIn(buf[..], h, log); }
      ghost var h1 := h;
      var at := GrabSpace(12 + Align4(len));
      if at < 0 {
        if added {
          DelLastString(name, old(Strings()));
          assert h == old(h);
          SameRegions(old(buf[..]), buf[..], h, log);
        }
        return -ERR_NOSPACE, data, escapes;
      }
      PutProp(at, d, name, len, h1);
      err, data := 0, at + 12;
    }

    /** fdt_property */
    method AddProperty(name: seq<byte>, val: seq<byte>) returns (err: int, escapes: bool)
      requires Valid() && 0 !in name && |name| < INT_MAX && |val| <= INT_MAX
      modifies this, buf
      ensures Valid()
      ensures escapes == old(Escapes(name))
      ensures !escapes ==> err == if !InStruct(old(h)) then -ERR_BADSTATE
                                  else if !Room(old(h), old(NameSpace(name)) + 12 + Align4(|val|)) then -ERR_NOSPACE
                                  else 0
      ensures err != 0 || escapes ==> All() == old(All())
      ensures err == 0 && !escapes ==> log.rsv == old(log).rsv && log.calls == old(log).calls + [Property(name, val)]
      ensures err == 0 && !escapes ==>
        && h == old(h).(sizeStruct := old(h).sizeStruct + 12 + Align4(|val|),
                        sizeStrings := old(h).sizeStrings + old(NameSpace(name)))
        && Strings() == (if old(Shared(name)) then old(Strings()) else name + [0] + old(Strings()))
    {
      hide Holds, Written, Align4, Enc, Put;
      ghost var toks, calls := log.toks, log.calls;
      var data;
      err, data, escapes := PropertyPlaceholder(name, |val|);
      if err != 0 || escapes {
        return;
      }
      ghost var t := log.toks[|toks|];
      assert log.toks == toks + [t];
      SetLastValue(buf[..], h, log, toks, calls, t, name, val);
      Store(buf, data, val);
      log := log.(toks := toks + [t.(val := val)], calls := calls + [Property(name, val)]);
    }

    /** fdt_finish: the blob parses back to exactly the calls made. */
    method Finish() returns (err: int)
      requires Valid()
      modifies this, buf
      ensures Valid()
      ensures err == if !InStruct(old(h)) then -ERR_BADSTATE else if !Room(old(h), 4) then -ERR_NOSPACE else 0
      ensures err != 0 ==> All() == old(All())
      ensures err == 0 ==>
        && h.complete && log.rsv == old(log).rsv && log.calls == old(log).calls
        && h.totalsize == h.offStruct + h.sizeStruct + h.sizeStrings && h.offStruct == old(h).offStruct
        && h.sizeStruct == old(h).sizeStruct + 4 && Strings() == old(Strings())
      ensures err == 0 ==> Parse(Struct(), Strings(), 0) == Some(old(log).calls)
    {
      hide Holds, Fixing, Written, TagAt, Be32, Put, EncAll, EncReserves, Off, Parse, StructIn, ReservesIn, FixedTo,
        StringsIn, Distance, CallsOf;
      if !InStruct(h) {
        return -ERR_BADSTATE;
      }
      assert Fits(buf[..], h) by { FitsIn(buf[..], h, log); }
      ghost var m, h0, strtab := buf[..], h, Strings();
      var at := GrabSpace(4);
      if at < 0 {
        return -ERR_NOSPACE;
      }
      Store(buf, at, Be32(FDT_END));
      Move(buf, h.offStruct + h.sizeStruct, h.totalsize - h.sizeStrings, h.sizeStrings);
      h := h.(offStrings := h.offStruct + h.sizeStruct);
      assert buf[..] == Closed(m, h0);
      ClosedRegions(m, h0);
      StartFixing(m, h0, log, buf[..]);
      Relocate(strtab);
      WrittenIn(m, h0, log);
      FixedAll(buf[..], h, log, StructIn(m, h0), strtab);
      log := log.(toks := FixedTo(log.toks, |log.toks|, |strtab|) + [End]);
      h := h.(complete := true, totalsize := h.offStrings + h.sizeStrings);
      ParsedBack(buf[..], h, log);
      err := 0;
    }

    /** The loop of fdt_finish. */
    method Relocate(ghost strtab: seq<byte>)
      requires Fixing(buf[..], h, log, strtab, 0)
      modifies buf
      ensures Fixing(buf[..], h, log, strtab, |log.toks|)
    {
      hide Fixing, TagAt, Be32, Put, EncAll, EncReserves, Off, Word;
      ghost var j := 0;
      Bounds(buf[..], h, log, strtab, 0);
      OffZero(FixedTo(log.toks + [End], 0, |strtab|));
      FixingToken(buf[..], h, log, strtab, 0);
      var off := 0;
      var tag, next := NextTag(buf[h.offStruct..h.offStrings], off);
      while tag != FDT_END
        invariant 0 <= j <= |log.toks| && Fixing(buf[..], h, log, strtab, j)
        invariant off == Off(FixedTo(log.toks + [End], j, |strtab|), j)
        invariant h.offStruct <= h.offStrings <= buf.Length && h.offStrings == h.offStruct + h.sizeStruct
        invariant (tag, next) == TagAt(buf[h.offStruct..h.offStrings], off)
        decreases |log.toks| - j
      {
        FixingToken(buf[..], h, log, strtab, j);
        Bounds(buf[..], h, log, strtab, j);
        if tag == FDT_PROP {
          var nameoff := Word(buf[h.offStruct..h.offStrings], off + 8);
          FixOne(buf[..], h, log, strtab, j);
          Store(buf, h.offStruct + off + 8, Be32((nameoff + h.sizeStrings) % U32));
        }
        off, j := next, j + 1;
        Bounds(buf[..], h, log, strtab, j);
        tag, next := NextTag(buf[h.offStruct..h.offStrings], off);
      }
      FixingToken(buf[..], h, log, strtab, j);
    }
  }
}
