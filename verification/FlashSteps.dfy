/**
 What the sequences of src/flash_ch32v0.c do to the controller, step by step.

 Each primitive is a function of the state it starts from.  A primitive ends with a
 clean-up write whose own status the tool ignores; `cleaned` says whether that write
 took effect.  The lemmas say what the functions come to from an idle controller,
 and what becomes of a page when a clean-up is lost.
 */
module FlashSteps {
  import opened Words
  import T = Target
  import D = DebugModule

  const POLL_LIMIT := 200_000

  /** Every bit that puts the controller into a mode or starts it. */
  const MODES: word := 0x000f_0043

  /** The target without the list of accesses made so far. */
  ghost function Quiet(t: T.Target): T.Target { t.(bus := []) }

  /** The controller never stays busy for longer than the tool is willing to poll. */
  ghost predicate CtrlPrompt(t: T.Target) {
    t.busy < POLL_LIMIT && forall n: nat :: t.lag(n) < POLL_LIMIT
  }

  // Register accesses, as the flash controller sees them.

  lemma EraseIgnoresBus(t: T.Target, bus: seq<T.Bus>, n: nat)
    ensures T.EraseBlock(t.(bus := bus), n) == T.EraseBlock(t, n).(bus := bus)
  {}

  lemma ProgramIgnoresBus(t: T.Target, bus: seq<T.Bus>)
    ensures T.ProgramPage(t.(bus := bus)) == T.ProgramPage(t).(bus := bus)
  {}

  /** The controller does not look at the history of accesses. */
  lemma CtlrIgnoresBus(t: T.Target, bus: seq<T.Bus>, v: word)
    ensures T.WriteCtlr(t.(bus := bus), v) == T.WriteCtlr(t, v).(bus := bus)
  {
    var t1 := t.(ctlr := v,
                 starts := if Has(v, T.CTLR_STRT) then t.starts + [T.Start(v, t.addr, t.busy > 0)] else t.starts);
    EraseIgnoresBus(t1, bus, T.PAGE);
    EraseIgnoresBus(t1, bus, 1024);
    ProgramIgnoresBus(t1, bus);
    hide Has, T.EraseBlock, T.ProgramPage;
  }

  lemma StoreCtlr(t: T.Target, v: word)
    requires t.Valid()
    ensures Quiet(T.AccessStore(t, T.CTLR, 2, v)) == T.WriteCtlr(Quiet(t), v)
  {
    hide T.WriteCtlr;
    CtlrIgnoresBus(t, [], v);
    CtlrIgnoresBus(t, t.bus + [T.Put(T.CTLR, 2, v)], v);
  }

  lemma StoreAddr(t: T.Target, v: word)
    requires t.Valid()
    ensures Quiet(T.AccessStore(t, T.ADDR, 2, v)) == Quiet(t).(addr := v)
  {
    hide T.WriteCtlr;
  }

  lemma LoadCtlr(t: T.Target)
    requires t.Valid()
    ensures var r := T.AccessLoad(t, T.CTLR, 2);
      Quiet(r.0) == Quiet(t) && r.1 == T.CtlrValue(t) && D.Loaded(2, r.1) == r.1
  {
    hide Or, AndNot;
  }

  lemma LoadStatr(t: T.Target)
    requires t.Valid()
    ensures var r := T.AccessLoad(t, T.STATR, 2);
      Quiet(r.0) == Quiet(t).(busy := if t.busy > 0 then t.busy - 1 else 0) &&
      r.1 == T.StatrValue(t) && D.Loaded(2, r.1) == r.1
  {
    hide Or;
  }

  lemma StatrBits(t: T.Target)
    ensures Has(T.StatrValue(t), T.STATR_BSY) <==> t.busy > 0
    ensures Has(T.StatrValue(t), T.STATR_WRPRTERR) <==> t.errors > 0
  {}

  lemma StoreKeys(t: T.Target, v: word)
    requires t.Valid()
    ensures Quiet(T.AccessStore(t, T.KEYR, 2, v)) == T.CtrlWrite(Quiet(t), T.KEYR, v)
    ensures Quiet(T.AccessStore(t, T.MODEKEYR, 2, v)) == T.CtrlWrite(Quiet(t), T.MODEKEYR, v)
  {}

  /** Whatever keys came before, KEY1 then KEY2 unlocks. */
  lemma KeysUnlock(t: T.Target)
    ensures T.CtrlWrite(T.CtrlWrite(t, T.KEYR, T.KEY1), T.KEYR, T.KEY2) == t.(unlocked := true, keyStage := 0)
    ensures T.CtrlWrite(T.CtrlWrite(t, T.MODEKEYR, T.KEY1), T.MODEKEYR, T.KEY2) ==
      t.(modeUnlocked := true, modeKeyStage := 0)
  {}

  lemma UnlockedReadsUnlocked(t: T.Target)
    ensures Has(T.CtlrValue(t), T.CTLR_LOCK) <==> !t.unlocked
  {}

  /** The target with both locks open. */
  ghost function Opened(t: T.Target): T.Target {
    t.(unlocked := true, keyStage := 0, modeUnlocked := true, modeKeyStage := 0)
  }

  lemma KeyKeepsMemory(t: T.Target, address: nat, v: word)
    requires address == T.KEYR || address == T.MODEKEYR
    ensures var t' := T.CtrlWrite(t, address, v); t'.flash == t.flash && T.SameShape(t, t')
  {}

  // The control register.

  /** What a read-modify-write puts into CTLR. */
  function Updated(t: T.Target, set_: word, clear: word): word {
    AndNot(Or(T.CtlrValue(t), set_), clear)
  }

  /** A read-modify-write of CTLR that takes effect. */
  function Ctl(t: T.Target, set_: word, clear: word): (r: T.Target)
    ensures T.SameShape(t, r) && (t.Valid() ==> r.Valid())
  {
    T.WriteCtlr(t, Updated(t, set_, clear))
  }

  /** No mode bit is set. */
  predicate Idle(t: T.Target) { !Has(t.ctlr, MODES) }

  /** A controller that a tool may find: any keys may have been written, but no mode is set and nothing was refused. */
  ghost predicate Quiescent(t: T.Target) { Idle(t) && t.errors == 0 }

  predicate StartsErase(v: word) {
    Has(v, T.CTLR_STRT) && Has(v, T.CTLR_PAGE_ER) && !Has(v, T.CTLR_PAGE_PG) && !Has(v, T.CTLR_BUF_RST)
  }

  predicate StartsProgram(v: word) {
    Has(v, T.CTLR_STRT) && Has(v, T.CTLR_PAGE_PG) && !Has(v, T.CTLR_PAGE_ER) && !Has(v, T.CTLR_BUF_RST)
  }

  /** A write that starts nothing. */
  predicate Inert(v: word) { !Has(v, T.CTLR_STRT) && !Has(v, T.CTLR_BUF_RST) }

  /** The value an unlocked controller shows for a stored one, with bits set and cleared. */
  function Next(c: word, set_: word, clear: word): word { AndNot(Or(AndNot(c, T.CTLR_LOCK), set_), clear) }

  lemma CtlIs(t: T.Target, set_: word, clear: word)
    requires t.unlocked
    ensures Ctl(t, set_, clear) == T.WriteCtlr(t, Next(t.ctlr, set_, clear))
  {}

  /** What the controller does with each kind of value. */
  lemma WriteInert(t: T.Target, v: word)
    requires Inert(v)
    ensures T.WriteCtlr(t, v) == t.(ctlr := v)
  {
    hide Has;
  }

  lemma WriteErase(t: T.Target, v: word)
    requires Has(v, T.CTLR_STRT) && Has(v, T.CTLR_PAGE_ER) && !Has(v, T.CTLR_BUF_RST) && t.modeUnlocked
    ensures T.WriteCtlr(t, v) == t.(
      ctlr := v, starts := t.starts + [T.Start(v, t.addr, t.busy > 0)],
      flash := T.Erased(t.flash, T.FlashOffset(Nat(t.addr)), T.PAGE), erases := t.erases + 1,
      busy := t.lag(t.started), started := t.started + 1)
  {
    hide Has, T.Erased, Nat;
  }

  lemma WriteReset(t: T.Target, v: word)
    requires Has(v, T.CTLR_BUF_RST) && t.modeUnlocked
    ensures var r := T.WriteCtlr(t, v);
      r == t.(ctlr := v, pageBuf := T.Blank(T.PAGE), busy := t.lag(t.started),
              started := t.started + 1, starts := r.starts)
    ensures !Has(v, T.CTLR_STRT) ==> T.WriteCtlr(t, v).starts == t.starts
  {
    hide Has;
  }

  lemma WriteProgram(t: T.Target, v: word)
    requires StartsProgram(v) && t.modeUnlocked
    ensures var offset := T.FlashOffset(Nat(t.addr));
      T.WriteCtlr(t, v) == t.(
        ctlr := v, starts := t.starts + [T.Start(v, t.addr, t.busy > 0)],
        flash := T.Programmed(t.flash, offset, t.pageBuf),
        errors := t.errors + T.SetRequests(t.flash, offset, t.pageBuf, |t.pageBuf|), programs := t.programs + 1,
        busy := t.lag(t.started), started := t.started + 1)
  {
    hide Has, T.Programmed, T.SetRequests, Nat;
  }

  // The primitives, as functions.

  function Cleaned(t: T.Target, clear: word, cleaned: bool): (r: T.Target)
    ensures T.SameShape(t, r) && (t.Valid() ==> r.Valid())
  {
    if cleaned then Ctl(t, 0, clear) else t
  }

  /** erase_page_fast up to the end of the erase. */
  function EraseRun(t: T.Target, page: nat): (r: T.Target)
    requires page < WORD_LIMIT
    ensures T.SameShape(t, r) && (t.Valid() ==> r.Valid())
  {
    Ctl(Ctl(t.(busy := 0), T.CTLR_PAGE_ER, 0).(addr := Word(page)), T.CTLR_STRT, 0)
  }

  function Erasing(t: T.Target, page: nat, cleaned: bool): (r: T.Target)
    requires page < WORD_LIMIT
    ensures T.SameShape(t, r) && (t.Valid() ==> r.Valid())
  {
    Cleaned(EraseRun(t, page).(busy := 0), Or(T.CTLR_PAGE_ER, T.CTLR_STRT), cleaned)
  }

  function ResetRun(t: T.Target): (r: T.Target)
    ensures T.SameShape(t, r) && (t.Valid() ==> r.Valid())
  {
    Ctl(Ctl(t, T.CTLR_PAGE_PG, 0), T.CTLR_BUF_RST, 0)
  }

  function Resetting(t: T.Target, cleaned: bool): (r: T.Target)
    ensures T.SameShape(t, r) && (t.Valid() ==> r.Valid())
  {
    Cleaned(ResetRun(t).(busy := 0), Or(T.CTLR_PAGE_PG, T.CTLR_BUF_RST), cleaned)
  }

  /** A word-aligned address of the flash array. */
  predicate InFlash(t: T.Target, address: nat) {
    address % 4 == 0 && T.IsFlash(address) && T.FlashOffset(address) + 4 <= |t.flash|
  }

  /** A word stored to flash by the core. */
  function StoreWordTo(t: T.Target, address: nat, word: word): (r: T.Target)
    requires t.Valid() && InFlash(t, address)
    ensures T.SameShape(t, r) && r.Valid()
  {
    T.FlashStore(t, T.FlashOffset(address), 2, word)
  }

  /** The three things that can become of a word stored to flash. */
  function StoreOutcome(t: T.Target, offset: nat, word: word): T.Target
    requires t.Valid() && offset + 4 <= |t.flash| && offset % 4 == 0
  {
    if t.modeUnlocked && Has(t.ctlr, T.CTLR_PAGE_PG) then
      t.(pageBuf := T.StoreTo(t.pageBuf, offset % T.PAGE, 2, word), busy := t.lag(t.started), started := t.started + 1)
    else if !t.unlocked || !Has(t.ctlr, T.CTLR_PG) then t.(errors := t.errors + 1)
    else
      t.(flash := T.Programmed(t.flash, offset, Bytes(word)),
         errors := t.errors + T.SetRequests(t.flash, offset, Bytes(word), 4),
         programs := t.programs + 1, busy := t.lag(t.started), started := t.started + 1)
  }

  lemma FlashStoreIs(t: T.Target, offset: nat, word: word)
    requires t.Valid() && offset + 4 <= |t.flash| && offset % 4 == 0
    ensures T.FlashStore(t, offset, 2, word) == StoreOutcome(t, offset, word)
  {
    hide Has, T.Programmed, T.SetRequests, T.StoreTo, B0, B1, B2, B3;
    WordFits(offset);
    assert Bytes(word)[..4] == Bytes(word);
  }

  lemma WordFits(offset: nat)
    requires offset % 4 == 0
    ensures offset % T.PAGE + 4 <= T.PAGE
  {
    var q, r := offset / T.PAGE, offset % T.PAGE;
    assert r == 4 * (offset / 4 - 16 * q);
  }

  lemma FlashStoreIgnoresBus(t: T.Target, bus: seq<T.Bus>, offset: nat, word: word)
    requires t.Valid() && offset + 4 <= |t.flash| && offset % 4 == 0
    ensures T.FlashStore(t.(bus := bus), offset, 2, word) == T.FlashStore(t, offset, 2, word).(bus := bus)
  {
    hide T.FlashStore, StoreOutcome;
    FlashStoreIs(t, offset, word);
    FlashStoreIs(t.(bus := bus), offset, word);
    OutcomeIgnoresBus(t, bus, offset, word);
  }

  lemma OutcomeIgnoresBus(t: T.Target, bus: seq<T.Bus>, offset: nat, word: word)
    requires t.Valid() && offset + 4 <= |t.flash| && offset % 4 == 0
    ensures StoreOutcome(t.(bus := bus), offset, word) == StoreOutcome(t, offset, word).(bus := bus)
  {
    hide T.Programmed, T.SetRequests;
    var r, r' := StoreOutcome(t.(bus := bus), offset, word), StoreOutcome(t, offset, word);
    assert r.flash == r'.flash && r.pageBuf == r'.pageBuf && r.errors == r'.errors && r.busy == r'.busy;
  }

  lemma OffsetAligned(address: nat)
    requires address % 4 == 0
    ensures T.FlashOffset(address) % 4 == 0
  {
    assert T.FlashOffset(address) == 4 * (address / 4 - 0x40_0000 * (address / 0x100_0000));
  }

  lemma StoreFlash(t: T.Target, address: nat, word: word)
    requires t.Valid() && InFlash(t, address)
    ensures Quiet(T.AccessStore(t, address, 2, word)) == StoreWordTo(Quiet(t), address, word)
  {
    hide T.FlashStore;
    OffsetAligned(address);
    FlashStoreIgnoresBus(t, [], T.FlashOffset(address), word);
    FlashStoreIgnoresBus(t, t.bus + [T.Put(address, 2, word)], T.FlashOffset(address), word);
  }

  function LoadRun(t: T.Target, address: nat, word: word): (r: T.Target)
    requires t.Valid() && InFlash(t, address)
    ensures T.SameShape(t, r) && r.Valid()
  {
    Ctl(StoreWordTo(Ctl(t, T.CTLR_PAGE_PG, 0), address, word), T.CTLR_BUF_LOAD, 0)
  }

  function Loading(t: T.Target, address: nat, word: word, cleaned: bool): (r: T.Target)
    requires t.Valid() && InFlash(t, address)
    ensures T.SameShape(t, r) && r.Valid()
  {
    Cleaned(LoadRun(t, address, word).(busy := 0), Or(T.CTLR_PAGE_PG, T.CTLR_BUF_LOAD), cleaned)
  }

  function ProgramRun(t: T.Target, page: nat): (r: T.Target)
    requires page < WORD_LIMIT
    ensures T.SameShape(t, r) && (t.Valid() ==> r.Valid())
  {
    Ctl(Ctl(t, T.CTLR_PAGE_PG, 0).(addr := Word(page)), T.CTLR_STRT, 0)
  }

  function Programming(t: T.Target, page: nat, cleaned: bool): (r: T.Target)
    requires page < WORD_LIMIT
    ensures T.SameShape(t, r) && (t.Valid() ==> r.Valid())
  {
    Cleaned(ProgramRun(t, page).(busy := 0), Or(T.CTLR_PAGE_PG, T.CTLR_STRT), cleaned)
  }

  // One bit of CTLR at a time.

  /** The bits that decide what a write does. */
  datatype Bits = Bits(strt: bool, er: bool, pg: bool, rst: bool)

  function BitsOf(c: word): Bits {
    Bits(Has(c, T.CTLR_STRT), Has(c, T.CTLR_PAGE_ER), Has(c, T.CTLR_PAGE_PG), Has(c, T.CTLR_BUF_RST))
  }

  lemma IdleBits(t: T.Target)
    requires Idle(t)
    ensures BitsOf(t.ctlr) == Bits(false, false, false, false)
  {}

  lemma SetEr(c: word)
    ensures BitsOf(Next(c, T.CTLR_PAGE_ER, 0)) == BitsOf(c).(er := true)
  {}

  lemma SetPg(c: word)
    ensures BitsOf(Next(c, T.CTLR_PAGE_PG, 0)) == BitsOf(c).(pg := true)
  {}

  lemma SetStrt(c: word)
    ensures BitsOf(Next(c, T.CTLR_STRT, 0)) == BitsOf(c).(strt := true)
  {}

  lemma SetRst(c: word)
    ensures BitsOf(Next(c, T.CTLR_BUF_RST, 0)) == BitsOf(c).(rst := true)
  {}

  lemma SetLoad(c: word)
    ensures BitsOf(Next(c, T.CTLR_BUF_LOAD, 0)) == BitsOf(c)
  {}

  lemma ClearErase(c: word)
    ensures BitsOf(Next(c, 0, Or(T.CTLR_PAGE_ER, T.CTLR_STRT))) == BitsOf(c).(er := false, strt := false)
  {}

  lemma ClearReset(c: word)
    ensures BitsOf(Next(c, 0, Or(T.CTLR_PAGE_PG, T.CTLR_BUF_RST))) == BitsOf(c).(pg := false, rst := false)
  {}

  lemma ClearLoad(c: word)
    ensures BitsOf(Next(c, 0, Or(T.CTLR_PAGE_PG, T.CTLR_BUF_LOAD))) == BitsOf(c).(pg := false)
  {}

  lemma ClearProgram(c: word)
    ensures BitsOf(Next(c, 0, Or(T.CTLR_PAGE_PG, T.CTLR_STRT))) == BitsOf(c).(pg := false, strt := false)
  {}

  lemma IdleAfterErase(c: word)
    requires !Has(c, MODES)
    ensures !Has(Next(Next(Next(c, T.CTLR_PAGE_ER, 0), T.CTLR_STRT, 0), 0, Or(T.CTLR_PAGE_ER, T.CTLR_STRT)), MODES)
  {}

  lemma IdleAfterReset(c: word)
    requires !Has(c, MODES)
    ensures !Has(Next(Next(Next(c, T.CTLR_PAGE_PG, 0), T.CTLR_BUF_RST, 0), 0,
                 Or(T.CTLR_PAGE_PG, T.CTLR_BUF_RST)), MODES)
  {}

  lemma IdleAfterLoad(c: word)
    requires !Has(c, MODES)
    ensures !Has(Next(Next(Next(c, T.CTLR_PAGE_PG, 0), T.CTLR_BUF_LOAD, 0), 0,
                 Or(T.CTLR_PAGE_PG, T.CTLR_BUF_LOAD)), MODES)
  {}

  lemma IdleAfterProgram(c: word)
    requires !Has(c, MODES)
    ensures !Has(Next(Next(Next(c, T.CTLR_PAGE_PG, 0), T.CTLR_STRT, 0), 0, Or(T.CTLR_PAGE_PG, T.CTLR_STRT)), MODES)
  {}

  // From an idle controller, every clean-up taking effect.

  /** Ready to be erased and programmed. */
  ghost predicate Armed(t: T.Target) {
    Idle(t) && t.unlocked && t.modeUnlocked && t.errors == 0 && t.Valid() && |t.flash| <= 0x100_0000
  }

  /** The page is blank, one erase has been started, and nothing else about the target is different. */
  ghost predicate EraseDone(t: T.Target, t': T.Target, page: nat)
    requires page < WORD_LIMIT
  {
    && Idle(t')
    && t' == t.(ctlr := t'.ctlr, addr := Word(page), flash := T.Erased(t.flash, T.FlashOffset(page), T.PAGE),
                erases := t.erases + 1, busy := 0, started := t.started + 1, starts := t'.starts)
    && |t'.starts| == |t.starts| + 1 && t'.starts[..|t.starts|] == t.starts
    && var start := t'.starts[|t.starts|]; StartsErase(start.control) && start.page == Word(page) && !start.busy
  }

  lemma BitsStartErase(v: word)
    requires BitsOf(v) == Bits(true, true, false, false)
    ensures StartsErase(v)
  {}

  lemma BitsStartProgram(v: word)
    requires BitsOf(v) == Bits(true, false, true, false)
    ensures StartsProgram(v)
  {}

  lemma BitsInert(v: word)
    requires !BitsOf(v).strt && !BitsOf(v).rst
    ensures Inert(v)
  {}

  /** The erase itself: what has happened when the wait begins. */
  lemma EraseRuns(t: T.Target, page: nat)
    requires Armed(t) && page < WORD_LIMIT
    ensures var r := EraseRun(t, page);
      && r == t.(ctlr := r.ctlr, addr := Word(page), flash := T.Erased(t.flash, T.FlashOffset(page), T.PAGE),
                 erases := t.erases + 1,
                 busy := t.lag(t.started), started := t.started + 1,
                 starts := t.starts + [T.Start(r.ctlr, Word(page), false)])
      && BitsOf(r.ctlr) == Bits(true, true, false, false)
      && r.ctlr == Next(Next(t.ctlr, T.CTLR_PAGE_ER, 0), T.CTLR_STRT, 0)
  {
    hide Has, Or, AndNot, Nat, Word, T.Erased, T.WriteCtlr, Ctl, Updated, Next, BitsOf, T.FlashOffset;
    IdleBits(t);
    var v1 := Next(t.ctlr, T.CTLR_PAGE_ER, 0);
    SetEr(t.ctlr);
    SetStrt(v1);
    CtlIs(t.(busy := 0), T.CTLR_PAGE_ER, 0);
    BitsInert(v1);
    WriteInert(t.(busy := 0), v1);
    var t2 := t.(busy := 0, ctlr := v1, addr := Word(page));
    CtlIs(t2, T.CTLR_STRT, 0);
    BitsStartErase(Next(v1, T.CTLR_STRT, 0));
    WriteErase(t2, Next(v1, T.CTLR_STRT, 0));
    NatWord(page);
  }

  lemma EraseSteps(t: T.Target, page: nat)
    requires Armed(t) && page < WORD_LIMIT
    ensures EraseDone(t, Erasing(t, page, true), page)
    ensures Erasing(t, page, false) == EraseRun(t, page).(busy := 0)
  {
    hide Has, Or, AndNot, Word, T.Erased, T.WriteCtlr, Ctl, Updated, Next, BitsOf, T.FlashOffset, EraseRun;
    EraseRuns(t, page);
    var r := EraseRun(t, page);
    var v := Next(r.ctlr, 0, Or(T.CTLR_PAGE_ER, T.CTLR_STRT));
    CtlIs(r.(busy := 0), 0, Or(T.CTLR_PAGE_ER, T.CTLR_STRT));
    ClearErase(r.ctlr);
    BitsInert(v);
    WriteInert(r.(busy := 0), v);
    IdleAfterErase(t.ctlr);
    BitsStartErase(r.ctlr);
  }

  /** The page buffer is blank; nothing else about the target is different. */
  ghost predicate ResetDone(t: T.Target, t': T.Target) {
    Idle(t') && t' == t.(ctlr := t'.ctlr, pageBuf := T.Blank(T.PAGE), busy := 0, started := t.started + 1)
  }

  lemma ResetRuns(t: T.Target)
    requires t.unlocked && t.modeUnlocked && BitsOf(t.ctlr) == Bits(false, false, false, false)
    ensures var r := ResetRun(t);
      && r == t.(ctlr := r.ctlr, pageBuf := T.Blank(T.PAGE), busy := t.lag(t.started), started := t.started + 1)
      && BitsOf(r.ctlr) == Bits(false, false, true, true)
      && r.ctlr == Next(Next(t.ctlr, T.CTLR_PAGE_PG, 0), T.CTLR_BUF_RST, 0)
  {
    hide Or, AndNot, T.WriteCtlr, Ctl, Updated, Next;
    var v1 := Next(t.ctlr, T.CTLR_PAGE_PG, 0);
    var v2 := Next(v1, T.CTLR_BUF_RST, 0);
    SetPg(t.ctlr);
    SetRst(v1);
    CtlIs(t, T.CTLR_PAGE_PG, 0);
    BitsInert(v1);
    WriteInert(t, v1);
    CtlIs(t.(ctlr := v1), T.CTLR_BUF_RST, 0);
    WriteReset(t.(ctlr := v1), v2);
  }

  lemma ResetSteps(t: T.Target)
    requires Armed(t)
    ensures ResetDone(t, Resetting(t, true))
    ensures Resetting(t, false) == ResetRun(t).(busy := 0)
  {
    hide Has, Or, AndNot, T.WriteCtlr, Ctl, Updated, Next, BitsOf, ResetRun;
    IdleBits(t);
    ResetRuns(t);
    var r := ResetRun(t);
    var v := Next(r.ctlr, 0, Or(T.CTLR_PAGE_PG, T.CTLR_BUF_RST));
    CtlIs(r.(busy := 0), 0, Or(T.CTLR_PAGE_PG, T.CTLR_BUF_RST));
    ClearReset(r.ctlr);
    BitsInert(v);
    WriteInert(r.(busy := 0), v);
    IdleAfterReset(t.ctlr);
  }

  /** The word is in its slot of the page buffer; nothing else about the target is different. */
  ghost predicate LoadDone(t: T.Target, t': T.Target, address: nat, word: word)
    requires t.Valid() && address % 4 == 0
  {
    WordFits(address);
    Idle(t') &&
    t' == t.(ctlr := t'.ctlr, pageBuf := T.StoreTo(t.pageBuf, address % T.PAGE, 2, word),
             busy := 0, started := t.started + 1)
  }

  /** In page-program mode a word stored to flash goes into the buffer. */
  lemma StoreInPg(t: T.Target, address: nat, word: word)
    requires t.Valid() && t.modeUnlocked && BitsOf(t.ctlr).pg && InFlash(t, address)
    ensures address % T.PAGE + 4 <= T.PAGE
    ensures StoreWordTo(t, address, word) ==
      t.(pageBuf := T.StoreTo(t.pageBuf, address % T.PAGE, 2, word), busy := t.lag(t.started), started := t.started + 1)
  {
    WordFits(address);
    OffsetAligned(address);
    OffsetInPage(address);
    FlashStoreIs(t, T.FlashOffset(address), word);
    hide Has, T.StoreTo, T.FlashStore, T.Programmed, T.SetRequests;
  }

  lemma OffsetInPage(address: nat)
    ensures T.FlashOffset(address) % T.PAGE == address % T.PAGE
  {
    assert address == T.PAGE * (0x4_0000 * (address / 0x100_0000)) + T.FlashOffset(address);
  }

  lemma LoadRuns(t: T.Target, address: nat, word: word)
    requires t.unlocked && t.modeUnlocked && t.Valid() && InFlash(t, address)
    requires !BitsOf(t.ctlr).strt && !BitsOf(t.ctlr).rst
    ensures address % T.PAGE + 4 <= T.PAGE
    ensures var r := LoadRun(t, address, word);
      && r == t.(ctlr := r.ctlr, pageBuf := T.StoreTo(t.pageBuf, address % T.PAGE, 2, word), busy := t.lag(t.started),
                 started := t.started + 1)
      && BitsOf(r.ctlr) == BitsOf(t.ctlr).(pg := true)
      && r.ctlr == Next(Next(t.ctlr, T.CTLR_PAGE_PG, 0), T.CTLR_BUF_LOAD, 0)
  {
    hide Has, Or, AndNot, T.WriteCtlr, Ctl, Updated, Next, BitsOf, StoreWordTo, T.StoreTo, T.IsFlash, T.FlashOffset;
    WordFits(address);
    var v1 := Next(t.ctlr, T.CTLR_PAGE_PG, 0);
    var v2 := Next(v1, T.CTLR_BUF_LOAD, 0);
    SetPg(t.ctlr);
    SetLoad(v1);
    CtlIs(t, T.CTLR_PAGE_PG, 0);
    BitsInert(v1);
    WriteInert(t, v1);
    StoreInPg(t.(ctlr := v1), address, word);
    var t2 := StoreWordTo(t.(ctlr := v1), address, word);
    CtlIs(t2, T.CTLR_BUF_LOAD, 0);
    BitsInert(v2);
    WriteInert(t2, v2);
  }

  lemma LoadSteps(t: T.Target, address: nat, word: word)
    requires Armed(t) && InFlash(t, address)
    ensures LoadDone(t, Loading(t, address, word, true), address, word)
  {
    hide Has, Or, AndNot, T.WriteCtlr, Ctl, Updated, Next, BitsOf, LoadRun, T.StoreTo;
    IdleBits(t);
    LoadRuns(t, address, word);
    var r := LoadRun(t, address, word);
    var v := Next(r.ctlr, 0, Or(T.CTLR_PAGE_PG, T.CTLR_BUF_LOAD));
    CtlIs(r.(busy := 0), 0, Or(T.CTLR_PAGE_PG, T.CTLR_BUF_LOAD));
    ClearLoad(r.ctlr);
    BitsInert(v);
    WriteInert(r.(busy := 0), v);
    IdleAfterLoad(t.ctlr);
  }

  predicate BlankAt(flash: seq<byte>, offset: nat) {
    forall i :: offset <= i < offset + T.PAGE && i < |flash| ==> flash[i] == 0xff
  }

  /** Programming a blank page asks no bit to be set. */
  lemma BlankAsksNothing(flash: seq<byte>, offset: nat, data: seq<byte>)
    requires |data| == T.PAGE && BlankAt(flash, offset)
    ensures T.SetRequests(flash, offset, data, |data|) == 0
  {
    forall i | 0 <= i < T.PAGE ensures !T.AsksToSet(0xff, data[i]) {
      OnesKeep(data[i]);
    }
    hide T.AsksToSet;
    NoSetRequests(flash, offset, data, |data|);
  }

  lemma OnesKeep(b: byte)
    ensures T.ClearBits(0xff, b) == b && !T.AsksToSet(0xff, b)
  {}

  lemma NoSetRequests(flash: seq<byte>, offset: nat, data: seq<byte>, k: nat)
    requires k <= |data| && forall i :: 0 <= i < |data| && offset + i < |flash| ==>
      !T.AsksToSet(flash[offset + i], data[i])
    ensures T.SetRequests(flash, offset, data, k) == 0
  {
    hide T.AsksToSet;
  }

  /** The buffer is in the page, one page program has been started, and nothing else is different. */
  ghost predicate ProgramDone(t: T.Target, t': T.Target, page: nat)
    requires page < WORD_LIMIT
  {
    && Idle(t')
    && t' == t.(ctlr := t'.ctlr, addr := Word(page), flash := T.Programmed(t.flash, T.FlashOffset(page), t.pageBuf),
                programs := t.programs + 1, busy := 0, started := t.started + 1, starts := t'.starts)
    && |t'.starts| == |t.starts| + 1 && t'.starts[..|t.starts|] == t.starts
    && var start := t'.starts[|t.starts|]; StartsProgram(start.control) && start.page == Word(page) && !start.busy
  }

  lemma ProgramRuns(t: T.Target, page: nat)
    requires t.unlocked && t.modeUnlocked && t.Valid() && page < WORD_LIMIT
    requires !BitsOf(t.ctlr).strt && !BitsOf(t.ctlr).er && !BitsOf(t.ctlr).rst && BlankAt(t.flash, T.FlashOffset(page))
    ensures var r := ProgramRun(t, page);
      && r == t.(ctlr := r.ctlr, addr := Word(page), flash := T.Programmed(t.flash, T.FlashOffset(page), t.pageBuf),
                 programs := t.programs + 1, busy := t.lag(t.started), started := t.started + 1,
                 starts := t.starts + [T.Start(r.ctlr, Word(page), t.busy > 0)])
      && BitsOf(r.ctlr) == Bits(true, false, true, false)
      && r.ctlr == Next(Next(t.ctlr, T.CTLR_PAGE_PG, 0), T.CTLR_STRT, 0)
  {
    BlankAsksNothing(t.flash, T.FlashOffset(page), t.pageBuf);
    hide Has, Or, AndNot, Nat, Word, T.Programmed, T.SetRequests, T.WriteCtlr, Ctl, Updated, Next, BitsOf, BlankAt,
      T.FlashOffset;
    var v1 := Next(t.ctlr, T.CTLR_PAGE_PG, 0);
    var v2 := Next(v1, T.CTLR_STRT, 0);
    SetPg(t.ctlr);
    SetStrt(v1);
    CtlIs(t, T.CTLR_PAGE_PG, 0);
    BitsInert(v1);
    WriteInert(t, v1);
    var t2 := t.(ctlr := v1, addr := Word(page));
    CtlIs(t2, T.CTLR_STRT, 0);
    BitsStartProgram(v2);
    WriteProgram(t2, v2);
    NatWord(page);
  }

  lemma ProgramSteps(t: T.Target, page: nat)
    requires Armed(t) && t.busy == 0 && page < WORD_LIMIT && BlankAt(t.flash, T.FlashOffset(page))
    ensures ProgramDone(t, Programming(t, page, true), page)
  {
    hide Has, Or, AndNot, Word, T.Programmed, T.WriteCtlr, Ctl, Updated, Next, BitsOf, BlankAt, T.FlashOffset,
      ProgramRun;
    IdleBits(t);
    ProgramRuns(t, page);
    var r := ProgramRun(t, page);
    var v := Next(r.ctlr, 0, Or(T.CTLR_PAGE_PG, T.CTLR_STRT));
    CtlIs(r.(busy := 0), 0, Or(T.CTLR_PAGE_PG, T.CTLR_STRT));
    ClearProgram(r.ctlr);
    BitsInert(v);
    WriteInert(r.(busy := 0), v);
    IdleAfterProgram(t.ctlr);
    BitsStartProgram(r.ctlr);
  }

  /** A write that cannot start anything leaves flash alone and is not refused, whatever else it does. */
  lemma NoStartKeepsFlash(t: T.Target, set_: word, clear: word)
    requires t.unlocked && t.modeUnlocked && !BitsOf(Next(t.ctlr, set_, clear)).strt
    ensures Ctl(t, set_, clear).flash == t.flash && Ctl(t, set_, clear).errors == t.errors
  {
    hide Next, T.WriteCtlr, Ctl, Has, BitsOf;
    CtlIs(t, set_, clear);
    WriteWithoutStart(t, Next(t.ctlr, set_, clear));
  }

  lemma WriteWithoutStart(t: T.Target, v: word)
    requires t.modeUnlocked && !BitsOf(v).strt
    ensures T.WriteCtlr(t, v).flash == t.flash && T.WriteCtlr(t, v).errors == t.errors
  {
    hide Has;
  }

  // What holds between the steps of a primitive that starts from an idle controller.

  lemma EraseStages(t: T.Target, page: nat)
    requires Armed(t) && CtrlPrompt(t) && page < WORD_LIMIT
    ensures var t0 := t.(busy := 0); var blank := T.Erased(t.flash, T.FlashOffset(page), T.PAGE);
      && Ctl(t0, T.CTLR_PAGE_ER, 0).flash == t.flash
      && EraseRun(t, page).flash == blank == Erasing(t, page, true).flash
      && EraseRun(t, page).errors == 0 && EraseRun(t, page).busy < POLL_LIMIT
      && Armed(Erasing(t, page, true)) && CtrlPrompt(Erasing(t, page, true))
  {
    hide Has, Word, T.Erased, T.WriteCtlr, Ctl, Next, BitsOf, T.FlashOffset, EraseRun, Erasing, StartsErase;
    EraseRuns(t, page);
    EraseSteps(t, page);
    IdleBits(t);
    SetEr(t.ctlr);
    NoStartKeepsFlash(t.(busy := 0), T.CTLR_PAGE_ER, 0);
  }

  lemma ResetStages(t: T.Target)
    requires Armed(t) && CtrlPrompt(t)
    ensures Ctl(t, T.CTLR_PAGE_PG, 0).flash == t.flash == ResetRun(t).flash == Resetting(t, true).flash
    ensures ResetRun(t).errors == 0 && ResetRun(t).busy < POLL_LIMIT
    ensures Armed(Resetting(t, true)) && CtrlPrompt(Resetting(t, true))
  {
    hide Has, T.WriteCtlr, Ctl, Next, BitsOf, ResetRun, Resetting;
    IdleBits(t);
    ResetRuns(t);
    ResetSteps(t);
    SetPg(t.ctlr);
    NoStartKeepsFlash(t, T.CTLR_PAGE_PG, 0);
  }

  lemma LoadStages(t: T.Target, address: nat, word: word)
    requires Armed(t) && CtrlPrompt(t) && InFlash(t, address)
    ensures var t1 := Ctl(t, T.CTLR_PAGE_PG, 0);
      && t1.flash == t.flash == StoreWordTo(t1, address, word).flash
      && LoadRun(t, address, word).flash == t.flash == Loading(t, address, word, true).flash
      && LoadRun(t, address, word).errors == 0 && LoadRun(t, address, word).busy < POLL_LIMIT
      && Armed(Loading(t, address, word, true)) && CtrlPrompt(Loading(t, address, word, true))
  {
    hide Has, T.WriteCtlr, Ctl, Next, BitsOf, LoadRun, Loading, StoreWordTo, T.StoreTo, T.IsFlash, T.FlashOffset;
    IdleBits(t);
    LoadRuns(t, address, word);
    LoadSteps(t, address, word);
    SetPg(t.ctlr);
    CtlIs(t, T.CTLR_PAGE_PG, 0);
    BitsInert(Next(t.ctlr, T.CTLR_PAGE_PG, 0));
    WriteInert(t, Next(t.ctlr, T.CTLR_PAGE_PG, 0));
    StoreInPg(Ctl(t, T.CTLR_PAGE_PG, 0), address, word);
  }

  lemma ProgramStages(t: T.Target, page: nat)
    requires Armed(t) && CtrlPrompt(t) && t.busy == 0 && page < WORD_LIMIT && BlankAt(t.flash, T.FlashOffset(page))
    ensures var written := T.Programmed(t.flash, T.FlashOffset(page), t.pageBuf);
      && Ctl(t, T.CTLR_PAGE_PG, 0).flash == t.flash
      && ProgramRun(t, page).flash == written == Programming(t, page, true).flash
      && ProgramRun(t, page).errors == 0 && ProgramRun(t, page).busy < POLL_LIMIT
      && Armed(Programming(t, page, true)) && CtrlPrompt(Programming(t, page, true))
  {
    hide Has, Word, T.Programmed, T.WriteCtlr, Ctl, Next, BitsOf, T.FlashOffset, ProgramRun, Programming,
      StartsProgram, BlankAt;
    IdleBits(t);
    ProgramRuns(t, page);
    ProgramSteps(t, page);
    SetPg(t.ctlr);
    NoStartKeepsFlash(t, T.CTLR_PAGE_PG, 0);
  }
}
