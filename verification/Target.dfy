/**
 The target behind the programmer: its memory map and its flash controller, as the
 repository's own simulator defines them (tests/sim_programmer.c).

 This module is the specification: one function per operation, from state to
 state.  Module Simulator carries the operations out in place.  Two things are
 added to the simulator's state so that theorems can talk about whole runs: `bus`
 lists every access the core made, and `starts` every write that started a flash
 operation.  The simulator's fixed busy period is generalised: the n-th operation
 keeps the controller busy for `lag(n)` status reads.
 */
module Target {
  import opened Words

  const KEYR := 0x4002_2004
  const STATR := 0x4002_200c
  const CTLR := 0x4002_2010
  const ADDR := 0x4002_2014
  const MODEKEYR := 0x4002_2024

  const KEY1: word := 0x4567_0123
  const KEY2: word := 0xcdef_89ab

  const CTLR_PG: word := 0x0000_0001
  const CTLR_PER: word := 0x0000_0002
  const CTLR_STRT: word := 0x0000_0040
  const CTLR_LOCK: word := 0x0000_0080
  const CTLR_PAGE_PG: word := 0x0001_0000
  const CTLR_PAGE_ER: word := 0x0002_0000
  const CTLR_BUF_LOAD: word := 0x0004_0000
  const CTLR_BUF_RST: word := 0x0008_0000

  const STATR_BSY: word := 0x0000_0001
  const STATR_WRPRTERR: word := 0x0000_0010

  const PAGE := 64

  /** One access the core made: what it loaded is not recorded, what it stored is. */
  datatype Bus = Fetch(address: nat, size: nat) | Put(address: nat, size: nat, value: word)

  /** One CTLR write with STRT set: the value, the page register, and BSY at that moment. */
  datatype Start = Start(control: word, page: word, busy: bool)

  datatype Target = Target(
    flash: seq<byte>,
    ram: seq<byte>,
    ramBase: nat,
    keyStage: nat,
    modeKeyStage: nat,
    unlocked: bool,
    modeUnlocked: bool,
    ctlr: word,
    addr: word,
    pageBuf: seq<byte>,
    busy: nat,
    errors: nat,
    erases: nat,
    programs: nat,
    started: nat,
    starts: seq<Start>,
    bus: seq<Bus>,
    lag: nat -> nat)
  {
    ghost predicate Valid() {
      |pageBuf| == PAGE
    }

    /** An operation begins: BSY will stay set for the next lag(started) status reads. */
    function Begin(): Target {
      this.(busy := lag(started), started := started + 1)
    }
  }

  // Memory.

  function Blank(n: nat): (s: seq<byte>)
    ensures |s| == n
  {
    seq(n, i => 0xff)
  }

  /** n bytes from `offset` erased, as far as the array reaches. */
  function Erased(flash: seq<byte>, offset: nat, n: nat): (s: seq<byte>)
    ensures |s| == |flash|
  {
    seq(|flash|, i requires 0 <= i < |flash| => if offset <= i < offset + n then 0xff else flash[i])
  }

  /** Programming clears bits and sets none. */
  function ClearBits(was: byte, wanted: byte): byte { was & wanted }

  predicate AsksToSet(was: byte, wanted: byte) { was & wanted != wanted }

  function Programmed(flash: seq<byte>, offset: nat, data: seq<byte>): (s: seq<byte>)
    ensures |s| == |flash|
  {
    seq(|flash|, i requires 0 <= i < |flash| =>
      if offset <= i < offset + |data| then ClearBits(flash[i], data[i - offset]) else flash[i])
  }

  /** How many of the first k bytes want a bit set that is clear in flash. */
  function SetRequests(flash: seq<byte>, offset: nat, data: seq<byte>, k: nat): nat
    requires k <= |data|
  {
    if k == 0 then 0
    else
      SetRequests(flash, offset, data, k - 1) +
      if offset + k - 1 < |flash| && AsksToSet(flash[offset + k - 1], data[k - 1]) then 1 else 0
  }

  function Width(size: nat): nat
    requires size <= 2
  {
    if size == 0 then 1 else if size == 1 then 2 else 4
  }

  /** Little-endian; a halfword is sign-extended, a byte is not. */
  function LoadFrom(m: seq<byte>, offset: nat, size: nat): word
    requires size <= 2 && offset + Width(size) <= |m|
  {
    if size == 0 then m[offset] as word
    else if size == 1 then (Join(m[offset], m[offset + 1], 0, 0) ^ 0x8000) - 0x8000
    else Join(m[offset], m[offset + 1], m[offset + 2], m[offset + 3])
  }

  function StoreTo(m: seq<byte>, offset: nat, size: nat, value: word): (r: seq<byte>)
    requires size <= 2 && offset + Width(size) <= |m|
    ensures |r| == |m|
  {
    m[..offset] + Bytes(value)[..Width(size)] + m[offset + Width(size)..]
  }

  // The memory map.  0x08000000 and its alias at 0x00000000 are the same flash.

  predicate IsCtrl(address: nat) {
    0x4002_2000 <= address < 0x4002_2400
  }

  predicate IsFlash(address: nat) {
    address / 0x100_0000 == 8 || address / 0x100_0000 == 0
  }

  function FlashOffset(address: nat): nat {
    address % 0x100_0000
  }

  predicate IsRam(t: Target, address: nat) {
    t.ramBase <= address < t.ramBase + |t.ram|
  }

  /** RAM is as it was, and no memory has changed its size. */
  predicate SameShape(t: Target, t': Target) {
    t'.ram == t.ram && t'.ramBase == t.ramBase && |t'.flash| == |t.flash|
  }

  // The controller.

  function ProgramPage(t: Target): (r: Target)
    ensures t.Valid() ==> r.Valid()
  {
    var offset := FlashOffset(Nat(t.addr));
    if !t.modeUnlocked then t.(errors := t.errors + 1)
    else
      t.(flash := Programmed(t.flash, offset, t.pageBuf),
         errors := t.errors + SetRequests(t.flash, offset, t.pageBuf, |t.pageBuf|),
         programs := t.programs + 1).Begin()
  }

  function EraseBlock(t: Target, n: nat): (r: Target)
    ensures t.Valid() ==> r.Valid()
  {
    t.(flash := Erased(t.flash, FlashOffset(Nat(t.addr)), n), erases := t.erases + 1).Begin()
  }

  function WriteCtlr(t: Target, value: word): (r: Target)
    ensures t.Valid() ==> r.Valid()
    ensures SameShape(t, r) && r.bus == t.bus
  {
    var t1 := t.(ctlr := value,
                 starts := if Has(value, CTLR_STRT) then t.starts + [Start(value, t.addr, t.busy > 0)] else t.starts);
    if Has(value, CTLR_BUF_RST) then
      (if t.modeUnlocked then t1.(pageBuf := Blank(PAGE)) else t1.(errors := t.errors + 1)).Begin()
    else if !Has(value, CTLR_STRT) then t1
    else if Has(value, CTLR_PAGE_ER) then
      if !t.modeUnlocked then t1.(errors := t.errors + 1) else EraseBlock(t1, PAGE)
    else if Has(value, CTLR_PAGE_PG) then ProgramPage(t1)
    else if Has(value, CTLR_PER) then EraseBlock(t1, 1024)
    else t1.Begin()
  }

  /** The second key unlocks only right after the first. */
  function CtrlWrite(t: Target, address: nat, value: word): (r: Target)
    ensures t.Valid() ==> r.Valid()
    ensures SameShape(t, r) && r.bus == t.bus
  {
    if address == KEYR then
      if value == KEY1 then t.(keyStage := 1)
      else if value == KEY2 && t.keyStage == 1 then t.(unlocked := true, keyStage := 0)
      else t.(keyStage := 0)
    else if address == MODEKEYR then
      if value == KEY1 then t.(modeKeyStage := 1)
      else if value == KEY2 && t.modeKeyStage == 1 then t.(modeUnlocked := true, modeKeyStage := 0)
      else t.(modeKeyStage := 0)
    else if address == ADDR then t.(addr := value)
    else if address == CTLR then WriteCtlr(t, value)
    else t
  }

  function StatrValue(t: Target): word {
    var status := if t.busy > 0 then Or(0, STATR_BSY) else 0;
    if t.errors > 0 then Or(status, STATR_WRPRTERR) else status
  }

  function CtlrValue(t: Target): word {
    if t.unlocked then AndNot(t.ctlr, CTLR_LOCK) else Or(t.ctlr, CTLR_LOCK)
  }

  /** A status read is what lets a busy period run out. */
  function CtrlRead(t: Target, address: nat): (r: (Target, word))
    ensures t.Valid() ==> r.0.Valid()
  {
    if address == STATR then (if t.busy > 0 then t.(busy := t.busy - 1) else t, StatrValue(t))
    else if address == CTLR then (t, CtlrValue(t))
    else if address == ADDR then (t, t.addr)
    else (t, 0)
  }

  // Accesses by the core.  The value returned by a store is of no interest.

  function FlashStore(t: Target, offset: nat, size: nat, value: word): (r: Target)
    requires t.Valid() && size <= 2 && offset + Width(size) <= |t.flash|
    ensures r.Valid() && SameShape(t, r)
  {
    if t.modeUnlocked && Has(t.ctlr, CTLR_PAGE_PG) && size == 2 then
      if offset % PAGE + 4 <= PAGE then t.(pageBuf := StoreTo(t.pageBuf, offset % PAGE, 2, value)).Begin()
      else t.(errors := t.errors + 1)
    else if !t.unlocked || !Has(t.ctlr, CTLR_PG) then t.(errors := t.errors + 1)
    else
      var data := Bytes(value)[..Width(size)];
      t.(flash := Programmed(t.flash, offset, data),
         errors := t.errors + SetRequests(t.flash, offset, data, |data|),
         programs := t.programs + 1).Begin()
  }

  function AccessStore(t: Target, address: nat, size: nat, value: word): (r: Target)
    requires t.Valid()
    ensures r.Valid()
  {
    var t1 := t.(bus := t.bus + [Put(address, size, value)]);
    if IsCtrl(address) then CtrlWrite(t1, address - address % 4, value)
    else if size > 2 then t1
    else if IsFlash(address) then
      if FlashOffset(address) + Width(size) > |t.flash| then t1 else FlashStore(t1, FlashOffset(address), size, value)
    else if IsRam(t, address) then
      if address - t.ramBase + Width(size) > |t.ram| then t1
      else t1.(ram := StoreTo(t.ram, address - t.ramBase, size, value))
    else t1
  }

  /** A load outside everything the model knows, or past the end of a memory, answers zero. */
  function AccessLoad(t: Target, address: nat, size: nat): (r: (Target, word))
    requires t.Valid()
    ensures r.0.Valid()
  {
    var t1 := t.(bus := t.bus + [Fetch(address, size)]);
    if IsCtrl(address) then CtrlRead(t1, address - address % 4)
    else (t1, PlainLoad(t, address, size))
  }

  function PlainLoad(t: Target, address: nat, size: nat): word {
    if size > 2 then 0
    else if IsFlash(address) then
      if FlashOffset(address) + Width(size) > |t.flash| then 0 else LoadFrom(t.flash, FlashOffset(address), size)
    else if IsRam(t, address) then
      if address - t.ramBase + Width(size) > |t.ram| then 0 else LoadFrom(t.ram, address - t.ramBase, size)
    else 0
  }
}
