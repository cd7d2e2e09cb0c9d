/**
 * The physical memory protection registers (csrs.cc): writes to pmpaddr, pmpcfg and
 * mseccfg, and what no sequence of such writes can undo.
 */
module Pmp {
  import opened Bytes
  import opened Bits

  const PMP_R: bv8 := 0x01
  const PMP_W: bv8 := 0x02
  const PMP_X: bv8 := 0x04
  const PMP_A: bv8 := 0x18
  const PMP_L: bv8 := 0x80
  const PMP_TOR: bv8 := 0x08
  const PMP_NA4: bv8 := 0x10
  const PMP_NAPOT: bv8 := 0x18
  const PMP_SHIFT := 2
  const MAX_PMP := 16
  const MAX_PADDR_BITS := 56

  const MML: bv8 := 1
  const MMWP: bv8 := 2
  const RLB: bv8 := 4

  /** Number of entries, log of the granularity, register width. */
  datatype Config = Config(nPmp: nat, lgGran: nat, xlen: nat)

  /** mseccfg is kept as its low byte, which holds all the bits that a write can set. */
  datatype Regs = Regs(addr: seq<u64>, cfg: seq<bv8>, mseccfg: bv8)

  predicate ValidConfig(c: Config) {
    c.nPmp <= MAX_PMP && 2 <= c.lgGran <= 63 && c.xlen in {32, 64}
  }

  predicate ValidRegs(s: Regs) {
    |s.addr| == |s.cfg| == MAX_PMP && forall i :: 0 <= i < MAX_PMP ==> s.addr[i] < Pow2(MAX_PADDR_BITS - PMP_SHIFT)
  }

  predicate Has(s: Regs, bit: bv8) {
    s.mseccfg & bit != 0
  }

  predicate Locked(cfg: bv8) {
    cfg & PMP_L != 0
  }

  predicate IsTor(cfg: bv8) {
    cfg & PMP_A == PMP_TOR
  }

  /** next_locked_and_tor */
  predicate NextLockedAndTor(s: Regs, idx: nat)
    requires ValidRegs(s)
  {
    idx + 1 < MAX_PMP && !Has(s, RLB) && Locked(s.cfg[idx + 1]) && IsTor(s.cfg[idx + 1])
  }

  // ------------------------------------------------------------- single writes

  /** Byte k of a register value. */
  function ByteAt(val: u64, k: nat): bv8 {
    (val / Pow2(8 * k) % 256) as bv8
  }

  /** The configuration that a pmpcfg write asks for, with the illegal combinations legalised. */
  function Legal(c: Config, mml: bool, b: bv8): bv8 {
    var cfg := b & (PMP_R | PMP_W | PMP_X | PMP_A | PMP_L);
    var dropped := if !mml && cfg & PMP_R == 0 then cfg & !PMP_W else cfg;
    if c.lgGran != PMP_SHIFT && dropped & PMP_A == PMP_NA4 then dropped | PMP_NAPOT else dropped
  }

  /** A rule that Smepmp refuses to add while rule locking is not bypassed. */
  predicate Refused(rlb: bool, mml: bool, cfg: bv8) {
    var x, w, r := cfg & PMP_X != 0, cfg & PMP_W != 0, cfg & PMP_R != 0;
    !rlb && mml && Locked(cfg) && !(x && w && r) && (x || (w && !r))
  }

  /** What a pmpcfg write leaves in one entry. */
  function NewCfg(c: Config, s: Regs, old_cfg: bv8, b: bv8): bv8 {
    var rlb, mml := Has(s, RLB), Has(s, MML);
    if !rlb && Locked(old_cfg) then old_cfg
    else if Refused(rlb, mml, Legal(c, mml, b)) then old_cfg
    else Legal(c, mml, b)
  }

  datatype Write = WriteAddr(idx: nat, val: u64) | WriteCfg(reg: nat, val: u64) | WriteSec(sec: bv8)

  predicate ValidWrite(c: Config, w: Write) {
    match w
    case WriteAddr(i, _) => i < MAX_PMP
    case WriteCfg(r, _) => 4 * r + c.xlen / 8 <= MAX_PMP
    case WriteSec(_) => true
  }

  /** Some entry is locked. */
  predicate AnyLocked(c: Config, s: Regs)
    requires ValidConfig(c) && ValidRegs(s)
  {
    exists i :: 0 <= i < c.nPmp && Locked(s.cfg[i])
  }

  /** pmpaddr keeps the bits of a physical address, unless the entry or the range above it is locked. */
  function AfterAddr(c: Config, s: Regs, i: nat, v: u64): (t: Regs)
    requires ValidRegs(s) && i < MAX_PMP
    ensures ValidRegs(t)
  {
    if i < c.nPmp && (Has(s, RLB) || !Locked(s.cfg[i])) && !NextLockedAndTor(s, i)
    then
      Below(v);
      s.(addr := s.addr[i := v % Pow2(MAX_PADDR_BITS - PMP_SHIFT)])
    else s
  }

  function AfterCfg(c: Config, s: Regs, r: nat, v: u64): (t: Regs)
    requires ValidRegs(s)
    ensures ValidRegs(t) && t.addr == s.addr && t.mseccfg == s.mseccfg
  {
    s.(cfg := seq(MAX_PMP, i requires 0 <= i < MAX_PMP =>
      if 4 * r <= i < 4 * r + c.xlen / 8 && i < c.nPmp then NewCfg(c, s, s.cfg[i], ByteAt(v, i - 4 * r)) else s.cfg[i]))
  }

  /** The bypass bit follows the write unless it is off and some entry is locked; the other two only rise. */
  function AfterSec(c: Config, s: Regs, v: bv8): (t: Regs)
    requires ValidConfig(c) && ValidRegs(s)
    ensures ValidRegs(t) && t.addr == s.addr && t.cfg == s.cfg
  {
    s.(mseccfg := NewSec(s.mseccfg, v, AnyLocked(c, s) && !Has(s, RLB)))
  }

  function NewSec(sec: bv8, v: bv8, keep: bool): bv8 {
    (if keep then sec else (sec & !RLB) | (v & RLB)) | (v & MMWP) | (v & MML)
  }

  /** The bit updates of mseccfg_csr_t::unlogged_write. */
  method MergeSec(sec: bv8, v: bv8, keep: bool) returns (newVal: bv8)
    ensures newVal == NewSec(sec, v, keep)
  {
    newVal := sec;
    if !keep {
      newVal := newVal & !RLB;
      newVal := newVal | (v & RLB);
    }
    newVal := newVal | (v & MMWP);
    newVal := newVal | (v & MML);
  }

  /** The registers after a write. */
  function After(c: Config, s: Regs, w: Write): (t: Regs)
    requires ValidConfig(c) && ValidRegs(s) && ValidWrite(c, w)
    ensures ValidRegs(t)
  {
    if c.nPmp == 0 then s else
    match w
    case WriteAddr(i, v) => AfterAddr(c, s, i, v)
    case WriteCfg(r, v) => AfterCfg(c, s, r, v)
    case WriteSec(v) => AfterSec(c, s, v)
  }

  lemma NothingWithoutEntries(c: Config, s: Regs, w: Write)
    requires ValidConfig(c) && ValidRegs(s) && ValidWrite(c, w) && c.nPmp == 0
    ensures After(c, s, w) == s
  {
  }

  lemma CfgWritten(c: Config, s: Regs, t: Regs, r: nat, v: u64)
    requires ValidConfig(c) && ValidRegs(s) && ValidWrite(c, WriteCfg(r, v)) && c.nPmp > 0
    requires t.addr == s.addr && t.mseccfg == s.mseccfg && |t.cfg| == MAX_PMP
    requires forall k :: 0 <= k < MAX_PMP ==>
      t.cfg[k] == if 4 * r <= k < 4 * r + c.xlen / 8 && k < c.nPmp then NewCfg(c, s, s.cfg[k], ByteAt(v, k - 4 * r))
                  else s.cfg[k]
    ensures t == After(c, s, WriteCfg(r, v))
  {
    hide NewCfg, ByteAt;
    assert t.cfg == After(c, s, WriteCfg(r, v)).cfg;
  }

  lemma Below(v: u64)
    ensures v % Pow2(MAX_PADDR_BITS - PMP_SHIFT) < Pow2(MAX_PADDR_BITS - PMP_SHIFT)
    ensures v % Pow2(MAX_PADDR_BITS - PMP_SHIFT) <= v
  {
    DivMod(v, Pow2(MAX_PADDR_BITS - PMP_SHIFT));
  }

  class PmpUnit {
    const c: Config
    var s: Regs

    constructor (c: Config)
      requires ValidConfig(c)
      ensures this.c == c && ValidRegs(s) && s == Reset()
    {
      this.c := c;
      s := Reset();
    }

    /** pmpaddr_csr_t::unlogged_write */
    method WritePmpaddr(idx: nat, val: u64) returns (ok: bool)
      requires ValidConfig(c) && ValidRegs(s) && idx < MAX_PMP
      modifies this`s
      ensures s == After(c, old(s), WriteAddr(idx, val))
      ensures ok == (idx < c.nPmp && (Has(old(s), RLB) || !Locked(old(s).cfg[idx])) && !NextLockedAndTor(old(s), idx))
    {
      hide Pow2;
      if c.nPmp == 0 {
        return false;
      }
      var lockBypass := Has(s, RLB);
      var locked := !lockBypass && Locked(s.cfg[idx]);
      if idx < c.nPmp && !locked && !NextLockedAndTor(s, idx) {
        LowMask(val, MAX_PADDR_BITS - PMP_SHIFT);
        AndComm(val, Pow2(MAX_PADDR_BITS - PMP_SHIFT) - 1);
        Below(val);
        s := s.(addr := s.addr[idx := And(val, Pow2(MAX_PADDR_BITS - PMP_SHIFT) - 1)]);
      } else {
        return false;
      }
      return true;
    }

    /** pmpcfg_csr_t::unlogged_write for register pmpcfg0 + reg */
    method WritePmpcfg(reg: nat, val: u64) returns (ok: bool)
      requires ValidConfig(c) && ValidRegs(s) && ValidWrite(c, WriteCfg(reg, val))
      modifies this`s
      ensures s == After(c, old(s), WriteCfg(reg, val))
      ensures ok == (4 * reg < c.nPmp)
    {
      hide Pow2, ByteAt, Legal, Refused, After, Locked, Has;
      if c.nPmp == 0 {
        NothingWithoutEntries(c, s, WriteCfg(reg, val));
        return false;
      }
      ok := false;
      var rlb, mml := Has(s, RLB), Has(s, MML);
      var i0 := 4 * reg;
      var i := i0;
      while i < i0 + c.xlen / 8
        invariant i0 <= i <= i0 + c.xlen / 8 && ok == (i0 < i && i0 < c.nPmp)
        invariant s.addr == old(s).addr && s.mseccfg == old(s).mseccfg && |s.cfg| == MAX_PMP
        invariant forall k :: 0 <= k < MAX_PMP ==>
          s.cfg[k] == if i0 <= k < i && k < c.nPmp then NewCfg(c, old(s), old(s).cfg[k], ByteAt(val, k - i0))
                      else old(s).cfg[k]
      {
        if i < c.nPmp {
          var locked := Locked(s.cfg[i]);
          if rlb || !locked {
            var cfg := Legal(c, mml, ByteAt(val, i - i0));
            if !Refused(rlb, mml, cfg) {
              s := s.(cfg := s.cfg[i := cfg]);
            }
          }
          ok := true;
        }
        i := i + 1;
      }
      CfgWritten(c, old(s), s, reg, val);
    }

    /** The any_of search of mseccfg_csr_t::unlogged_write. */
    method LockRecorded() returns (recorded: bool)
      requires ValidConfig(c) && ValidRegs(s)
      ensures recorded == AnyLocked(c, s)
    {
      hide Pow2, Locked;
      recorded := false;
      for i := 0 to c.nPmp
        invariant recorded <==> exists k :: 0 <= k < i && Locked(s.cfg[k])
      {
        recorded := recorded || Locked(s.cfg[i]);
      }
    }

    /** mseccfg_csr_t::unlogged_write */
    method WriteMseccfg(val: bv8) returns (ok: bool)
      requires ValidConfig(c) && ValidRegs(s)
      modifies this`s
      ensures s == After(c, old(s), WriteSec(val)) && ok == (c.nPmp > 0)
    {
      hide Pow2, ByteAt, Legal, Refused, NewCfg, Locked, NextLockedAndTor, IsTor, AnyLocked, NewSec;
      if c.nPmp == 0 {
        return false;
      }
      var recorded := LockRecorded();
      var newVal := MergeSec(s.mseccfg, val, recorded && !Has(s, RLB));
      s := s.(mseccfg := newVal);
      ok := true;
    }
  }

  /** The registers after reset. */
  function Reset(): (s: Regs)
    ensures ValidRegs(s)
  {
    Regs(seq(MAX_PMP, i => 0), seq(MAX_PMP, i => 0), 0)
  }

  // ------------------------------------------------------ writes, bit by bit

  /** The A field, bits 3 and 4: off, top of range, four bytes, naturally aligned power of two. */
  function Mode(cfg: bv8): (a: nat)
    ensures a < 4
  {
    (if cfg & 0x08 != 0 then 1 else 0) + if cfg & 0x10 != 0 then 2 else 0
  }

  /** Bits 7, 2, 1 and 0 of a configuration: locked, execute, write, read. */
  datatype Rights = Rights(l: bool, x: bool, w: bool, r: bool)

  function RightsOf(cfg: bv8): Rights {
    Rights(cfg & 0x80 != 0, cfg & 0x04 != 0, cfg & 0x02 != 0, cfg & 0x01 != 0)
  }

  /**
   * A byte that pmpcfg stores keeps L, X and R.  W goes with R unless MML is set, NA4 becomes NAPOT where four
   * bytes are below the granularity, and bits 5 and 6 are zero.
   */
  lemma LegalBits(c: Config, mml: bool, b: bv8)
    ensures var t, was := RightsOf(Legal(c, mml, b)), RightsOf(b);
      t.l == was.l && t.x == was.x && t.r == was.r && t.w == (was.w && (mml || was.r))
    ensures Legal(c, mml, b) & 0x60 == 0
    ensures Mode(Legal(c, mml, b)) == if Mode(b) == 2 && c.lgGran != 2 then 3 else Mode(b)
  {
  }

  /** With MML set and RLB clear, a locked rule is refused for four combinations of R, W and X. */
  lemma RefusedIs(rlb: bool, mml: bool, cfg: bv8)
    ensures var t := RightsOf(cfg);
      Refused(rlb, mml, cfg) <==>
      !rlb && mml && t.l && (t.r, t.w, t.x) in {(false, false, true), (true, false, true), (false, true, false),
                                                (false, true, true)}
  {
  }

  /** What a write to pmpcfg leaves of entry i: byte i - 4 r of the value, unless locked or refused. */
  lemma CfgStored(c: Config, s: Regs, r: nat, v: u64, i: nat)
    requires ValidConfig(c) && ValidRegs(s) && ValidWrite(c, WriteCfg(r, v)) && i < MAX_PMP
    ensures var was, now := s.cfg[i], After(c, s, WriteCfg(r, v)).cfg[i];
      var b := (v / Pow2(if i >= 4 * r then 8 * (i - 4 * r) else 0) % 256) as bv8;
      var rlb, mml := s.mseccfg & 4 != 0, s.mseccfg & 1 != 0;
      if 4 * r <= i < 4 * r + c.xlen / 8 && i < c.nPmp && (rlb || was & 0x80 == 0)
         && !Refused(rlb, mml, Legal(c, mml, b))
      then now == Legal(c, mml, b)
      else now == was
  {
    hide Pow2, Legal, Refused;
  }

  /** What a write to pmpaddr leaves: the low 54 bits of the value, unless entry i or a range from it is locked. */
  lemma AddrStored(c: Config, s: Regs, i: nat, v: u64)
    requires ValidConfig(c) && ValidRegs(s) && i < MAX_PMP
    ensures var t, rlb := After(c, s, WriteAddr(i, v)), s.mseccfg & 4 != 0;
      var above := i + 1 < MAX_PMP && !rlb && s.cfg[i + 1] & 0x80 != 0 && Mode(s.cfg[i + 1]) == 1;
      && t.cfg == s.cfg && t.mseccfg == s.mseccfg
      && (forall j :: 0 <= j < MAX_PMP && j != i ==> t.addr[j] == s.addr[j])
      && t.addr[i] == if i < c.nPmp && (rlb || s.cfg[i] & 0x80 == 0) && !above then v % 0x40_0000_0000_0000
                      else s.addr[i]
  {
    hide Pow2, Mode, IsTor;
    Pow54();
    TorIs(if i + 1 < MAX_PMP then s.cfg[i + 1] else 0);
  }

  lemma Pow54()
    ensures Pow2(54) == 0x40_0000_0000_0000
  {
    assert Pow2(6) == 64;
    Pow2Add(6, 6);
    Pow2Add(12, 12);
    Pow2Add(24, 24);
    Pow2Add(48, 6);
  }

  lemma TorIs(cfg: bv8)
    ensures IsTor(cfg) <==> Mode(cfg) == 1
  {
  }

  /** What a write to mseccfg leaves: MML and MMWP only rise; RLB follows unless clear while some entry is locked. */
  lemma SecStored(c: Config, s: Regs, v: bv8)
    requires ValidConfig(c) && ValidRegs(s) && c.nPmp > 0
    ensures var now, was := After(c, s, WriteSec(v)).mseccfg, s.mseccfg;
      && (now & 1 != 0 <==> was & 1 != 0 || v & 1 != 0) && (now & 2 != 0 <==> was & 2 != 0 || v & 2 != 0)
      && (now & 4 != 0 <==>
          if was & 4 == 0 && exists i :: 0 <= i < c.nPmp && s.cfg[i] & 0x80 != 0 then false else v & 4 != 0)
      && now & 0xF8 == was & 0xF8
    ensures After(c, s, WriteSec(v)).cfg == s.cfg && After(c, s, WriteSec(v)).addr == s.addr
  {
    SecBitsAll(s.mseccfg, v, true);
    SecBitsAll(s.mseccfg, v, false);
    assert AnyLocked(c, s) <==> exists i :: 0 <= i < c.nPmp && s.cfg[i] & 0x80 != 0;
  }

  lemma SecBitsAll(sec: bv8, v: bv8, keep: bool)
    ensures var now := NewSec(sec, v, keep);
      && (now & 1 != 0 <==> sec & 1 != 0 || v & 1 != 0) && (now & 2 != 0 <==> sec & 2 != 0 || v & 2 != 0)
      && (now & 4 != 0 <==> if keep then sec & 4 != 0 else v & 4 != 0) && now & 0xF8 == sec & 0xF8
  {
  }

  // -------------------------------------------------------------- whole runs

  function Run(c: Config, s: Regs, ws: seq<Write>): (t: Regs)
    requires ValidConfig(c) && ValidRegs(s) && forall k :: 0 <= k < |ws| ==> ValidWrite(c, ws[k])
    ensures ValidRegs(t)
    decreases |ws|
  {
    if ws == [] then s else Run(c, After(c, s, ws[0]), ws[1..])
  }

  lemma SecBits(old_sec: bv8, v: bv8)
    ensures ((old_sec & !RLB) | (v & RLB) | (v & MMWP) | (v & MML)) & MML != 0 <==> old_sec & MML != 0 || v & MML != 0
    ensures ((old_sec & !RLB) | (v & RLB) | (v & MMWP) | (v & MML)) & MMWP != 0
      <==> old_sec & MMWP != 0 || v & MMWP != 0
    ensures (old_sec | (v & MMWP) | (v & MML)) & MML != 0 <==> old_sec & MML != 0 || v & MML != 0
    ensures (old_sec | (v & MMWP) | (v & MML)) & MMWP != 0 <==> old_sec & MMWP != 0 || v & MMWP != 0
  {
  }

  /** A write that keeps the bypass bit. */
  lemma BypassKept(sec: bv8, v: bv8)
    ensures NewSec(sec, v, true) & RLB == sec & RLB
  {
  }

  /** What a locked entry protects. */
  predicate Protected(s: Regs, t: Regs, i: nat)
    requires ValidRegs(s) && ValidRegs(t) && i < MAX_PMP
  {
    && t.cfg[i] == s.cfg[i] && t.addr[i] == s.addr[i]
    && (i > 0 && IsTor(s.cfg[i]) ==> t.addr[i - 1] == s.addr[i - 1])
  }

  lemma StepLocked(c: Config, s: Regs, w: Write, i: nat)
    requires ValidConfig(c) && ValidRegs(s) && ValidWrite(c, w) && i < c.nPmp && Locked(s.cfg[i]) && !Has(s, RLB)
    ensures Protected(s, After(c, s, w), i) && !Has(After(c, s, w), RLB)
  {
    hide Pow2, ByteAt, Legal, Refused, Locked, IsTor, NewSec;
    if w.WriteSec? {
      BypassKept(s.mseccfg, w.sec);
    }
  }

  /**
   * Lock safety: with rule locking not bypassed, no sequence of writes changes a locked entry,
   * nor the address below it when it is a top-of-range entry, and the bypass stays off.
   */
  lemma {:induction false} LockSafety(c: Config, s: Regs, ws: seq<Write>, i: nat)
    requires ValidConfig(c) && ValidRegs(s) && forall k :: 0 <= k < |ws| ==> ValidWrite(c, ws[k])
    requires i < c.nPmp && Locked(s.cfg[i]) && !Has(s, RLB)
    ensures Protected(s, Run(c, s, ws), i) && !Has(Run(c, s, ws), RLB)
    decreases |ws|
  {
    hide After;
    if ws == [] {
    } else {
      StepLocked(c, s, ws[0], i);
      LockSafety(c, After(c, s, ws[0]), ws[1..], i);
    }
  }

  /** Machine-mode lockdown and whitelisting are sticky. */
  lemma {:induction false} StickyBits(c: Config, s: Regs, ws: seq<Write>)
    requires ValidConfig(c) && ValidRegs(s) && forall k :: 0 <= k < |ws| ==> ValidWrite(c, ws[k])
    ensures Has(s, MML) ==> Has(Run(c, s, ws), MML)
    ensures Has(s, MMWP) ==> Has(Run(c, s, ws), MMWP)
    decreases |ws|
  {
    hide ByteAt, Legal, Refused, NewCfg;
    if ws == [] {
    } else {
      if ws[0].WriteSec? {
        SecBits(s.mseccfg, ws[0].sec);
      }
      StickyBits(c, After(c, s, ws[0]), ws[1..]);
    }
  }

  /** Reserved combinations: write without read, and NA4 below the granularity. */
  predicate Sane(c: Config, s: Regs)
    requires ValidRegs(s)
  {
    forall i :: 0 <= i < MAX_PMP ==>
      && (!Has(s, MML) ==> !(s.cfg[i] & PMP_W != 0 && s.cfg[i] & PMP_R == 0))
      && (c.lgGran != PMP_SHIFT ==> s.cfg[i] & PMP_A != PMP_NA4)
  }

  lemma LegalSane(c: Config, mml: bool, b: bv8)
    ensures !mml ==> !(Legal(c, mml, b) & PMP_W != 0 && Legal(c, mml, b) & PMP_R == 0)
    ensures c.lgGran != PMP_SHIFT ==> Legal(c, mml, b) & PMP_A != PMP_NA4
  {
  }

  lemma StepSane(c: Config, s: Regs, w: Write)
    requires ValidConfig(c) && ValidRegs(s) && ValidWrite(c, w) && Sane(c, s)
    ensures Sane(c, After(c, s, w))
  {
    hide Pow2, ByteAt, Legal, Refused;
    var t := After(c, s, w);
    if w.WriteSec? {
      SecBits(s.mseccfg, w.sec);
    }
    forall i | 0 <= i < MAX_PMP
      ensures !Has(t, MML) ==> !(t.cfg[i] & PMP_W != 0 && t.cfg[i] & PMP_R == 0)
      ensures c.lgGran != PMP_SHIFT ==> t.cfg[i] & PMP_A != PMP_NA4 {
      if w.WriteCfg? && t.cfg[i] != s.cfg[i] {
        LegalSane(c, Has(s, MML), ByteAt(w.val, i - 4 * w.reg));
      }
    }
  }

  /** From reset on, no entry is writable but not readable while MML is clear, and none is NA4 below the granularity. */
  lemma {:induction false} RunSane(c: Config, s: Regs, ws: seq<Write>)
    requires ValidConfig(c) && ValidRegs(s) && Sane(c, s) && forall k :: 0 <= k < |ws| ==> ValidWrite(c, ws[k])
    ensures Sane(c, Run(c, s, ws))
    decreases |ws|
  {
    hide After, Sane;
    if ws == [] {
    } else {
      StepSane(c, s, ws[0]);
      RunSane(c, After(c, s, ws[0]), ws[1..]);
    }
  }

  lemma ResetSane(c: Config)
    ensures Sane(c, Reset()) && Reset().mseccfg == 0
    ensures forall i :: 0 <= i < MAX_PMP ==> Reset().cfg[i] == 0 && Reset().addr[i] == 0
  {
  }
}
