/**
 * The set-associative write-back cache simulator (cachesim.cc).  The replacement choice
 * is a parameter of each access, so that every run covers every choice.
 */
module Cache {
  import opened Bytes
  import opened Bits

  /** A tag word: its two flag bits and the line number, which fits below them. */
  datatype Tag = Tag(valid: bool, dirty: bool, line: nat)

  /** What the next level is asked for: an access, or to clean and invalidate a range. */
  datatype Request =
    | Request(addr: nat, store: bool)
    | CleanUp(addr: nat, bytes: nat, clean: bool, inval: bool)

  // -------------------------------------------------------------- tag arrays

  predicate Holds(t: Tag, line: nat) {
    t.valid && t.line == line
  }

  /** The set of a line, and the set of a slot. */
  function SetOf(line: nat, sets: nat): nat
    requires sets > 0
  {
    line % sets
  }

  function SlotSet(k: nat, ways: nat): nat
    requires ways > 0
  {
    k / ways
  }

  function Slot(idx: nat, ways: nat, way: nat): nat {
    idx * ways + way
  }

  /** Each set holds only its own lines. */
  predicate OwnLines(tags: seq<Tag>, sets: nat, ways: nat)
    requires sets > 0 && ways > 0
  {
    forall k :: 0 <= k < |tags| && tags[k].valid ==> SetOf(tags[k].line, sets) == SlotSet(k, ways)
  }

  /** No valid line twice. */
  predicate NoTwins(tags: seq<Tag>) {
    forall j, k :: 0 <= j < |tags| && 0 <= k < |tags| && j != k && tags[j].valid && tags[k].valid ==>
      tags[j].line != tags[k].line
  }

  predicate DirtyValid(t: Tag) {
    t.valid && t.dirty
  }

  function DirtyCount(tags: seq<Tag>): nat {
    if tags == [] then 0 else DirtyCount(tags[..|tags| - 1]) + if DirtyValid(tags[|tags| - 1]) then 1 else 0
  }

  lemma {:induction false} DirtyUpdate(tags: seq<Tag>, k: nat, t: Tag)
    requires k < |tags|
    ensures DirtyCount(tags[k := t]) + (if DirtyValid(tags[k]) then 1 else 0)
         == DirtyCount(tags) + if DirtyValid(t) then 1 else 0
  {
    var n := |tags| - 1;
    if k < n {
      DirtyUpdate(tags[..n], k, t);
      assert tags[k := t][..n] == tags[..n][k := t];
    } else {
      assert tags[k := t][..n] == tags[..n];
    }
  }

  predicate IsRead(r: Request) {
    r.Request? && !r.store
  }

  predicate IsWrite(r: Request) {
    r.Request? && r.store
  }

  function Reads(trace: seq<Request>): nat {
    if trace == [] then 0 else Reads(trace[..|trace| - 1]) + if IsRead(trace[|trace| - 1]) then 1 else 0
  }

  function Writes(trace: seq<Request>): nat {
    if trace == [] then 0 else Writes(trace[..|trace| - 1]) + if IsWrite(trace[|trace| - 1]) then 1 else 0
  }

  lemma CountMore(trace: seq<Request>, r: Request)
    ensures Reads(trace + [r]) == Reads(trace) + if IsRead(r) then 1 else 0
    ensures Writes(trace + [r]) == Writes(trace) + if IsWrite(r) then 1 else 0
  {
    assert (trace + [r])[..|trace|] == trace;
  }

  lemma SlotFits(line: nat, way: nat, sets: nat, ways: nat)
    requires sets > 0 && way < ways
    ensures SetOf(line, sets) < sets && Slot(SetOf(line, sets), ways, way) < sets * ways
    ensures SlotSet(Slot(SetOf(line, sets), ways, way), ways) == SetOf(line, sets)
  {
    var idx := line % sets;
    DivMod(line, sets);
    MulStep(ways, idx, sets);
    ModIs(idx * ways + way, ways, idx, way);
  }

  /** Every slot is a way of its set. */
  lemma SlotOf(k: nat, ways: nat)
    requires ways > 0
    ensures k % ways < ways && k == Slot(SlotSet(k, ways), ways, k % ways)
  {
    DivMod(k, ways);
  }

  /** Filling a slot with a line that is not in the cache. */
  lemma Filled(tags: seq<Tag>, sets: nat, ways: nat, k: nat, line: nat)
    requires sets > 0 && ways > 0 && OwnLines(tags, sets, ways) && NoTwins(tags)
    requires k < |tags| && SlotSet(k, ways) == SetOf(line, sets)
    requires forall j :: 0 <= j < |tags| ==> !Holds(tags[j], line)
    ensures OwnLines(tags[k := Tag(true, false, line)], sets, ways) && NoTwins(tags[k := Tag(true, false, line)])
  {
  }

  /** Changing flags, without making a line valid. */
  lemma Flagged(tags: seq<Tag>, sets: nat, ways: nat, k: nat, t: Tag)
    requires sets > 0 && ways > 0 && OwnLines(tags, sets, ways) && NoTwins(tags)
    requires k < |tags| && t.line == tags[k].line && (t.valid ==> tags[k].valid)
    ensures OwnLines(tags[k := t], sets, ways) && NoTwins(tags[k := t])
  {
  }

  /** Slot k of the line's set had the victim and now has the line, clean. */
  predicate Replaced(before: seq<Tag>, tags: seq<Tag>, k: nat, victim: Tag, line: nat, sets: nat, ways: nat)
    requires sets > 0 && ways > 0
  {
    && k < |before| && SlotSet(k, ways) == SetOf(line, sets) && victim == before[k]
    && tags == before[k := Tag(true, false, line)]
  }

  /** A hit: the line's slot keeps its line and is dirty after a store; no other slot changes. */
  predicate HitEffect(before: seq<Tag>, tags: seq<Tag>, k: nat, line: nat, store: bool) {
    && k < |before| && Holds(before[k], line)
    && tags == before[k := before[k].(dirty := before[k].dirty || store)]
  }

  /** A miss: one slot of the line's set loses the victim and gets the line; no other slot changes. */
  predicate MissEffect(before: seq<Tag>, tags: seq<Tag>, k: nat, victim: Tag, line: nat, store: bool, sets: nat,
                       ways: nat)
    requires sets > 0 && ways > 0
  {
    && k < |before| && SlotSet(k, ways) == SetOf(line, sets) && victim == before[k]
    && tags == before[k := Tag(true, store, line)]
  }

  /** What clean_invalidate leaves of a tag word whose line it covers. */
  function Cleaned(t: Tag, clean: bool, inval: bool): Tag {
    if t.valid then t.(dirty := t.dirty && !clean, valid := !inval) else t
  }

  /** The line of an address, and the address of a line. */
  function LineOf(a: nat, linesz: nat): nat
    requires linesz > 0
  {
    a / linesz
  }

  function StartOf(line: nat, linesz: nat): nat {
    line * linesz
  }

  /** The requests of a miss: the dirty victim goes back to its own address, then the line is read. */
  function Traffic(victim: Tag, line: nat, linesz: nat): seq<Request> {
    (if DirtyValid(victim) then [Request(StartOf(victim.line, linesz), true)] else [])
    + [Request(StartOf(line, linesz), false)]
  }

  // -------------------------------------------------------------- address ranges

  /** The line behind a range: its end is added up and rounded in 64 bits. */
  function EndLine(linesz: nat, addr: nat, bytes: nat): nat
    requires linesz > 0
  {
    LineOf((addr + bytes + linesz - 1) % U64, linesz)
  }

  /** The lines that clean_invalidate visits. */
  predicate Covered(linesz: nat, addr: nat, bytes: nat, line: nat)
    requires linesz > 0
  {
    LineOf(addr, linesz) <= line < EndLine(linesz, addr, bytes)
  }

  /** Some byte of the range lies in the line. */
  predicate Touched(linesz: nat, addr: nat, bytes: nat, line: nat)
    requires linesz > 0
  {
    exists a: nat :: addr <= a < addr + bytes && LineOf(a, linesz) == line
  }

  /** It visits the lines that the range touches exactly when the sum for its end stays below 2^64. */
  lemma RangeExact(linesz: nat, addr: u64, bytes: u64)
    requires 0 < linesz < U64 && bytes > 0
    ensures (forall line: nat :: Covered(linesz, addr, bytes, line) <==> Touched(linesz, addr, bytes, line))
       <==> addr + bytes + linesz - 1 < U64
  {
    hide Touched, LineOf;
    var sum, last := addr + bytes + linesz - 1, LineOf(addr + bytes - 1, linesz);
    forall line: nat ensures Touched(linesz, addr, bytes, line) <==> LineOf(addr, linesz) <= line <= last {
      TouchedIs(linesz, addr, bytes, line);
    }
    OneMore(addr + bytes - 1, linesz);
    if sum < U64 {
      SmallModulus(sum, U64);
    } else {
      Wraps(sum);
      LineMono(sum % U64, addr + bytes - 1, linesz);
      LineMono(addr, addr + bytes - 1, linesz);
      assert Touched(linesz, addr, bytes, last) && !Covered(linesz, addr, bytes, last);
    }
  }

  /** For an empty range it visits nothing exactly when that starts a line, or the sum for its end wraps. */
  lemma EmptyExact(linesz: nat, addr: u64)
    requires 0 < linesz < U64
    ensures (forall line: nat :: !Covered(linesz, addr, 0, line)) <==> addr % linesz == 0 || addr + linesz - 1 >= U64
  {
    hide LineOf;
    var sum, line := addr + linesz - 1, LineOf(addr, linesz);
    if sum >= U64 {
      ModIs(sum, U64, 1, sum - U64);
      LineMono(sum - U64, addr, linesz);
    } else {
      SmallModulus(sum, U64);
      RoundedUp(addr, linesz);
      assert Covered(linesz, addr, 0, line) <==> addr % linesz != 0;
    }
  }

  lemma RoundedUp(a: nat, m: nat)
    requires m > 0
    ensures LineOf(a + m - 1, m) == LineOf(a, m) + if a % m == 0 then 0 else 1
  {
    var q, r := a / m, a % m;
    DivMod(a, m);
    ModUnder(a, m);
    if r == 0 {
      ModIs(a + m - 1, m, q, m - 1);
    } else {
      Dist(m, q, 1);
      ModIs(a + m - 1, m, q + 1, r - 1);
    }
  }

  lemma Wraps(sum: nat)
    requires U64 <= sum
    ensures sum % U64 <= sum - U64
  {
  }

  lemma TouchedIs(linesz: nat, addr: nat, bytes: nat, line: nat)
    requires linesz > 0 && bytes > 0
    ensures Touched(linesz, addr, bytes, line) <==> LineOf(addr, linesz) <= line <= LineOf(addr + bytes - 1, linesz)
  {
    hide LineOf, StartOf;
    if a: nat :| addr <= a < addr + bytes && LineOf(a, linesz) == line {
      LineMono(addr, a, linesz);
      LineMono(a, addr + bytes - 1, linesz);
    }
    if LineOf(addr, linesz) <= line <= LineOf(addr + bytes - 1, linesz) {
      StartIs(line, linesz, addr);
      StartIs(line, linesz, addr + bytes - 1);
      var a := if LineOf(addr, linesz) == line then addr else StartOf(line, linesz);
      assert LineOf(a, linesz) == line;
    }
  }

  lemma OneMore(x: nat, m: nat)
    requires m > 0
    ensures LineOf(x + m, m) == LineOf(x, m) + 1
  {
    DivMod(x, m);
    Dist(m, x / m, 1);
    ModIs(x + m, m, x / m + 1, x % m);
  }

  lemma LineMono(a: nat, b: nat, m: nat)
    requires m > 0 && a <= b
    ensures LineOf(a, m) <= LineOf(b, m)
  {
    DivMod(a, m);
    DivMod(b, m);
    if b / m < a / m {
      MulStep(m, b / m, a / m);
    }
  }

  /** A line starts at or before an address exactly when it is that of the address or an earlier one. */
  lemma StartIs(line: nat, m: nat, x: nat)
    requires m > 0
    ensures LineOf(StartOf(line, m), m) == line && (StartOf(line, m) <= x <==> line <= LineOf(x, m))
  {
    NotNegative(m, line);
    Dist(m, line, 0);
    ModIs(StartOf(line, m), m, line, 0);
    DivMod(x, m);
    if line <= x / m {
      if line < x / m {
        MulStep(m, line, x / m);
      }
    } else {
      MulStep(m, x / m, line);
    }
  }

  /** An input: the last line of the address space is not visited by its own range. */
  lemma LastLineMissed(line: nat)
    ensures Touched(64, U64 - 64, 64, U64 / 64 - 1) && !Covered(64, U64 - 64, 64, line)
  {
    assert LineOf(U64 - 64, 64) == U64 / 64 - 1;
  }

  // --------------------------------------------------------------- the cache

  class CacheSim {
    const sets: nat
    const ways: nat
    const linesz: nat
    var tags: seq<Tag>
    var readAccesses: nat
    var writeAccesses: nat
    var bytesRead: nat
    var bytesWritten: nat
    var readMisses: nat
    var writeMisses: nat
    var writebacks: nat
    /** Requests to the next level, in order. */
    ghost var below: seq<Request>
    /** Clean valid lines that have become dirty, and dirty lines that were dropped. */
    ghost var dirtied: nat
    ghost var dropped: nat
    /** Lines cleaned or dropped by clean_invalidate. */
    ghost var cleaned: nat

    /** init, for sets and line sizes that it accepts. */
    constructor (sets: nat, ways: nat, linesz: nat)
      requires sets > 0 && ways > 0 && linesz >= 8
      ensures Valid() && this.sets == sets && this.ways == ways && this.linesz == linesz
      ensures tags == seq(sets * ways, i => Tag(false, false, 0)) && below == []
      ensures readMisses == writeMisses == writebacks == dirtied == dropped == cleaned == 0
    {
      this.sets, this.ways, this.linesz := sets, ways, linesz;
      tags := seq(sets * ways, i => Tag(false, false, 0));
      readAccesses, writeAccesses, bytesRead, bytesWritten := 0, 0, 0, 0;
      readMisses, writeMisses, writebacks := 0, 0, 0;
      below, dirtied, dropped, cleaned := [], 0, 0, 0;
      new;
      AllClean(tags);
    }

    ghost predicate Valid()
      reads this
    {
      && sets > 0 && ways > 0 && linesz >= 8 && |tags| == sets * ways
      && OwnLines(tags, sets, ways) && NoTwins(tags)
      && dirtied == writebacks + DirtyCount(tags) + dropped
      && Reads(below) == readMisses + writeMisses
      && Writes(below) + cleaned == writebacks
    }

    /** check_tag: the slot that holds a line, or -1. */
    method CheckTag(line: nat) returns (k: int)
      requires Valid()
      ensures k >= 0 ==> k < |tags| && Holds(tags[k], line)
      ensures k < 0 ==> k == -1 && forall j :: 0 <= j < |tags| ==> !Holds(tags[j], line)
    {
      hide DirtyCount, Reads, Writes, NoTwins, Slot, SetOf, SlotSet;
      var idx := SetOf(line, sets);
      for i := 0 to ways
        invariant forall w :: 0 <= w < i ==> Slot(idx, ways, w) < |tags| && !Holds(tags[Slot(idx, ways, w)], line)
      {
        SlotFits(line, i, sets, ways);
        var j := Slot(idx, ways, i);
        if tags[j] == Tag(true, tags[j].dirty, line) {
          return j;
        }
      }
      forall j | 0 <= j < |tags| ensures !Holds(tags[j], line) {
        SlotOf(j, ways);
      }
      k := -1;
    }

    /** victimize: replace some way of the line's set. */
    method Victimize(line: nat, way: nat) returns (victim: Tag, ghost k: nat)
      requires sets > 0 && |tags| == sets * ways && way < ways
      modifies this`tags
      ensures Replaced(old(tags), tags, k, victim, line, sets, ways) && k == line % sets * ways + way
    {
      hide SetOf, SlotSet, DirtyCount, Reads, Writes, NoTwins, OwnLines;
      SlotFits(line, way, sets, ways);
      assert Slot(SetOf(line, sets), ways, way) == line % sets * ways + way by { SetIs(line, sets); }
      k := Slot(SetOf(line, sets), ways, way);
      victim := tags[Slot(SetOf(line, sets), ways, way)];
      tags := tags[Slot(SetOf(line, sets), ways, way) := Tag(true, false, line)];
    }

    /**
     * access: a hit asks the next level for nothing; a miss first writes the victim back to
     * its own address if it is valid and dirty, then reads the missing line.
     */
    method Access(addr: nat, bytes: nat, store: bool, way: nat) returns (hit: bool, victim: Tag)
      requires Valid() && way < ways
      modifies this
      ensures Valid() && cleaned == old(cleaned) && dropped == old(dropped)
      ensures InPlace(tags, sets, ways) && OneSet(old(tags), tags, hit, victim, addr / linesz, sets)
      ensures hit == exists k :: 0 <= k < |old(tags)| && Holds(old(tags)[k], LineOf(addr, linesz))
      ensures readAccesses == old(readAccesses) + (if store then 0 else 1)
      ensures writeAccesses == old(writeAccesses) + if store then 1 else 0
      ensures readMisses == old(readMisses) + (if hit || store then 0 else 1)
           && writeMisses == old(writeMisses) + if !hit && store then 1 else 0
      ensures hit ==> below == old(below) && writebacks == old(writebacks) && exists k: nat ::
        && HitEffect(old(tags), tags, k, LineOf(addr, linesz), store)
        && dirtied == old(dirtied) + if store && !old(tags)[k].dirty then 1 else 0
      ensures !hit ==>
        && (exists k: nat :: MissEffect(old(tags), tags, k, victim, LineOf(addr, linesz), store, sets, ways))
        && below == old(below) + Traffic(victim, LineOf(addr, linesz), linesz)
        && writebacks == old(writebacks) + (if DirtyValid(victim) then 1 else 0)
        && dirtied == old(dirtied) + if store then 1 else 0
    {
      hide DirtyCount, Reads, Writes, NoTwins, OwnLines, Traffic, LineOf, OneSet, InPlace;
      var line := LineOf(addr, linesz);
      LineIs(addr, linesz);
      victim := Tag(false, false, 0);
      if store {
        writeAccesses, bytesWritten := writeAccesses + 1, bytesWritten + bytes;
      } else {
        readAccesses, bytesRead := readAccesses + 1, bytesRead + bytes;
      }
      ghost var before := tags;
      var k := CheckTag(line);
      hit := k >= 0;
      if hit {
        if store {
          MarkDirty(k);
        }
        assert HitEffect(before, tags, k, line, store);
        HitKeeps(before, tags, k, line, store, victim, sets);
        OwnIs(tags, sets, ways);
        return;
      }
      ghost var slot;
      victim, slot := Miss(line, store, way);
      if store {
        k := CheckTag(line);
        SameSlot(tags, k, slot, line);
        MarkDirty(k);
      }
      assert MissEffect(before, tags, slot, victim, line, store, sets, ways);
      ReplacedIs(before, tags, slot, victim, line, store, sets, ways);
      OwnIs(tags, sets, ways);
    }

    /** The miss path of access, up to marking the new line dirty. */
    method Miss(line: nat, store: bool, way: nat) returns (victim: Tag, ghost slot: nat)
      requires Valid() && way < ways && forall j :: 0 <= j < |tags| ==> !Holds(tags[j], line)
      modifies this`tags, this`readMisses, this`writeMisses, this`writebacks, this`below
      ensures Valid() && Replaced(old(tags), tags, slot, victim, line, sets, ways)
      ensures readMisses == old(readMisses) + (if store then 0 else 1)
      ensures writeMisses == old(writeMisses) + if store then 1 else 0
      ensures below == old(below) + Traffic(victim, line, linesz)
      ensures writebacks == old(writebacks) + if DirtyValid(victim) then 1 else 0
    {
      hide DirtyCount, Reads, Writes, NoTwins, OwnLines, SetOf, SlotSet;
      if store {
        writeMisses := writeMisses + 1;
      } else {
        readMisses := readMisses + 1;
      }
      ghost var before := tags;
      victim, slot := Victimize(line, way);
      Filled(before, sets, ways, slot, line);
      DirtyUpdate(before, slot, Tag(true, false, line));
      if victim.valid && victim.dirty {
        CountMore(below, Request(StartOf(victim.line, linesz), true));
        below := below + [Request(StartOf(victim.line, linesz), true)];
        writebacks := writebacks + 1;
      }
      CountMore(below, Request(StartOf(line, linesz), false));
      below := below + [Request(StartOf(line, linesz), false)];
    }

    /** *check_tag(addr) |= DIRTY */
    method MarkDirty(k: nat)
      requires Valid() && k < |tags| && tags[k].valid
      modifies this`tags, this`dirtied
      ensures Valid() && tags == old(tags)[k := old(tags[k]).(dirty := true)]
      ensures dirtied == old(dirtied) + if old(tags[k]).dirty then 0 else 1
    {
      hide DirtyCount, Reads, Writes, NoTwins, OwnLines;
      var t := tags[k].(dirty := true);
      Flagged(tags, sets, ways, k, t);
      DirtyUpdate(tags, k, t);
      dirtied := dirtied + if tags[k].dirty then 0 else 1;
      tags := tags[k := t];
    }

    /** clean_invalidate; the call is passed on to the next level. */
    method CleanInvalidate(addr: u64, bytes: u64, clean: bool, inval: bool)
      requires Valid()
      modifies this`tags, this`writebacks, this`dropped, this`cleaned, this`below
      ensures Valid() && dirtied == old(dirtied)
      ensures below == old(below) + [CleanUp(addr, bytes, clean, inval)]
      ensures clean ==> dropped == old(dropped)
      ensures !clean ==> writebacks == old(writebacks)
      ensures |tags| == |old(tags)|
      ensures forall k :: 0 <= k < |tags| ==>
        tags[k] ==
          if Covered(linesz, addr, bytes, old(tags)[k].line) then Cleaned(old(tags)[k], clean, inval)
          else old(tags)[k]
    {
      hide DirtyCount, Reads, Writes, NoTwins, OwnLines, LineOf, EndLine;
      var first, end := LineOf(addr, linesz), EndLine(linesz, addr, bytes);
      var line := first;
      while line < end
        invariant Valid() && first <= line && (line == first || line <= end) && below == old(below)
        invariant clean ==> dropped == old(dropped)
        invariant !clean ==> writebacks == old(writebacks)
        invariant |tags| == |old(tags)|
        invariant forall k :: 0 <= k < |tags| ==>
          tags[k] == if first <= old(tags)[k].line < line then Cleaned(old(tags)[k], clean, inval) else old(tags)[k]
      {
        CleanLine(line, clean, inval);
        line := line + 1;
      }
      CountMore(below, CleanUp(addr, bytes, clean, inval));
      below := below + [CleanUp(addr, bytes, clean, inval)];
    }

    /** One turn of the loop of clean_invalidate. */
    method CleanLine(line: nat, clean: bool, inval: bool)
      requires Valid()
      modifies this`tags, this`writebacks, this`dropped, this`cleaned
      ensures Valid()
      ensures clean ==> dropped == old(dropped)
      ensures !clean ==> writebacks == old(writebacks)
      ensures |tags| == |old(tags)|
      ensures forall k :: 0 <= k < |tags| ==>
        tags[k] == if old(tags)[k].line == line then Cleaned(old(tags)[k], clean, inval) else old(tags)[k]
    {
      hide DirtyCount, Reads, Writes, OwnLines;
      var k := CheckTag(line);
      if k >= 0 {
        if clean {
          if tags[k].dirty {
            writebacks := writebacks + 1;
            cleaned := cleaned + 1;
            SetTag(k, tags[k].(dirty := false));
          }
        }
        if inval {
          dropped := dropped + if tags[k].dirty then 1 else 0;
          SetTag(k, tags[k].(valid := false));
        }
      }
    }

    /** Storing a tag word with fewer flags. */
    method SetTag(k: nat, t: Tag)
      requires sets > 0 && ways > 0 && OwnLines(tags, sets, ways) && NoTwins(tags) && k < |tags|
      requires t.line == tags[k].line && (t.valid ==> tags[k].valid)
      modifies this`tags
      ensures tags == old(tags)[k := t] && OwnLines(tags, sets, ways) && NoTwins(tags)
      ensures DirtyCount(tags) + (if DirtyValid(old(tags[k])) then 1 else 0)
           == DirtyCount(old(tags)) + if DirtyValid(t) then 1 else 0
    {
      hide DirtyCount, NoTwins, OwnLines;
      Flagged(tags, sets, ways, k, t);
      DirtyUpdate(tags, k, t);
      tags := tags[k := t];
    }
  }

  /** A valid line lies in the slots of its residue modulo the number of sets. */
  ghost predicate InPlace(tags: seq<Tag>, sets: nat, ways: nat)
    requires sets > 0
  {
    forall k :: 0 <= k < |tags| && tags[k].valid ==>
      tags[k].line % sets * ways <= k < tags[k].line % sets * ways + ways
  }

  lemma OwnIs(tags: seq<Tag>, sets: nat, ways: nat)
    requires sets > 0 && ways > 0 && OwnLines(tags, sets, ways)
    ensures InPlace(tags, sets, ways)
  {
    forall k | 0 <= k < |tags| && tags[k].valid
      ensures tags[k].line % sets * ways <= k < tags[k].line % sets * ways + ways {
      assert SetOf(tags[k].line, sets) == SlotSet(k, ways);
      SlotIs(k, tags[k].line, sets, ways);
    }
  }

  lemma SlotIs(k: nat, line: nat, sets: nat, ways: nat)
    requires sets > 0 && ways > 0
    ensures SlotSet(k, ways) == SetOf(line, sets) <==> line % sets * ways <= k < line % sets * ways + ways
  {
    var q, r := line % sets, k / ways;
    DivMod(k, ways);
    ModUnder(k, ways);
    if r < q {
      MulStep(ways, r, q);
    } else if q < r {
      MulStep(ways, q, r);
    }
  }

  /**
   * An access to a line concerns the lines of its residue modulo the number of sets: only such a line is
   * evicted, and the slots of the others stay as they are.
   */
  ghost predicate OneSet(before: seq<Tag>, tags: seq<Tag>, hit: bool, victim: Tag, line: nat, sets: nat)
    requires sets > 0
  {
    && |tags| == |before| && (!hit && victim.valid ==> victim.line % sets == line % sets)
    && forall k :: 0 <= k < |before| && before[k].valid && before[k].line % sets != line % sets ==> tags[k] == before[k]
  }

  lemma ReplacedIs(before: seq<Tag>, tags: seq<Tag>, k: nat, victim: Tag, line: nat, store: bool, sets: nat, ways: nat)
    requires sets > 0 && ways > 0 && OwnLines(before, sets, ways)
    requires MissEffect(before, tags, k, victim, line, store, sets, ways)
    ensures OneSet(before, tags, false, victim, line, sets)
  {
    if victim.valid {
      assert SetOf(before[k].line, sets) == SlotSet(k, ways) == SetOf(line, sets);
    }
  }

  lemma HitKeeps(before: seq<Tag>, tags: seq<Tag>, k: nat, line: nat, store: bool, victim: Tag, sets: nat)
    requires sets > 0 && HitEffect(before, tags, k, line, store)
    ensures OneSet(before, tags, true, victim, line, sets)
  {
  }

  lemma LineIs(addr: nat, linesz: nat)
    requires linesz > 0
    ensures LineOf(addr, linesz) == addr / linesz
  {
  }

  lemma SetIs(line: nat, sets: nat)
    requires sets > 0
    ensures SetOf(line, sets) == line % sets
  {
  }

  /** A line has one slot. */
  lemma SameSlot(tags: seq<Tag>, j: int, k: int, line: nat)
    requires NoTwins(tags) && 0 <= k < |tags| && Holds(tags[k], line)
    requires j >= 0 ==> j < |tags| && Holds(tags[j], line)
    requires j < 0 ==> forall i :: 0 <= i < |tags| ==> !Holds(tags[i], line)
    ensures j == k
  {
  }

  lemma {:induction false} AllClean(tags: seq<Tag>)
    requires forall k :: 0 <= k < |tags| ==> !tags[k].valid
    ensures DirtyCount(tags) == 0
  {
    if tags == [] {
    } else {
      AllClean(tags[..|tags| - 1]);
    }
  }
}
