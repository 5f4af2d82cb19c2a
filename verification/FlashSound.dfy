/**
 When the controller refuses something, whichever mode bits it was left with.

 Of the four primitives only the program can be refused: the others start nothing that
 could be, as long as PAGE_ER is set whenever STRT is left over.  So a page is refused
 exactly if it is programmed after leftover BUF_RST has kept it from being erased, and
 asks for a bit that is clear in what it held.
 */
module FlashSound {
  import opened Words
  import opened FlashSteps
  import opened FlashPages
  import opened FlashLeftovers
  import T = Target

  /** Unlocked, nothing refused, and never busy for longer than the tool is willing to poll. */
  ghost predicate Sound(t: T.Target) { Open(t) && CtrlPrompt(t) && t.errors == 0 }

  /** What is left over of a start can only erase. */
  ghost predicate Tame(t: T.Target) { Sound(t) && (BitsOf(t.ctlr).strt ==> BitsOf(t.ctlr).er) }

  lemma QuietSound(t: T.Target)
    ensures Sound(Quiet(t)) == Sound(t) && Tame(Quiet(t)) == Tame(t)
  {
    hide BitsOf;
  }

  lemma ArmedSound(t: T.Target)
    requires Armed(t) && CtrlPrompt(t)
    ensures Sound(t) && Tame(t)
  {
    hide Has;
    IdleBits(t);
  }

  lemma WritePrompt(t: T.Target, v: word)
    requires CtrlPrompt(t)
    ensures CtrlPrompt(T.WriteCtlr(t, v))
  {
    hide Has, T.Erased, T.Programmed, T.SetRequests, CtrlPrompt;
    WriteBusy(t, v);
    StaysPrompt(t, T.WriteCtlr(t, v));
  }

  lemma WriteBusy(t: T.Target, v: word)
    ensures var r := T.WriteCtlr(t, v); r.lag == t.lag && (r.busy == t.busy || r.busy == t.lag(t.started))
  {
    hide Has, T.Erased, T.Programmed, T.SetRequests;
  }

  lemma StaysPrompt(t: T.Target, r: T.Target)
    requires CtrlPrompt(t) && r.lag == t.lag && (r.busy == t.busy || r.busy == t.lag(t.started))
    ensures CtrlPrompt(r)
  {}

  /** A write that does not start a program is not refused. */
  lemma CtlSound(t: T.Target, set_: word, clear: word)
    requires Sound(t)
    ensures var r := Ctl(t, set_, clear); Open(r) && CtrlPrompt(r)
    ensures var b := BitsOf(Next(t.ctlr, set_, clear)); b.rst || b.er || !b.strt ==> Sound(Ctl(t, set_, clear))
  {
    hide Next, T.WriteCtlr, Ctl, BitsOf, CtrlPrompt;
    CtlIs(t, set_, clear);
    WritePrompt(t, Next(t.ctlr, set_, clear));
    CtlSets(t, set_, clear);
    CtlFlash(t, set_, clear);
  }

  lemma Rested(t: T.Target)
    requires Sound(t)
    ensures Sound(t.(busy := 0))
  {}

  lemma Readdressed(t: T.Target, v: word)
    requires Sound(t)
    ensures Sound(t.(addr := v))
  {}

  lemma EraseTame(t: T.Target, page: nat, cleaned: bool)
    requires Sound(t) && page < WORD_LIMIT
    ensures Sound(EraseRun(t, page)) && Tame(Erasing(t, page, cleaned))
  {
    hide Ctl, Next, BitsOf, Or, Word, Sound;
    Rested(t);
    SoundOpen(t.(busy := 0));
    var t0 := t.(busy := 0);
    CtlSets(t0, T.CTLR_PAGE_ER, 0);
    SetEr(t0.ctlr);
    CtlSound(t0, T.CTLR_PAGE_ER, 0);
    Readdressed(Ctl(t0, T.CTLR_PAGE_ER, 0), Word(page));
    var t1 := Ctl(t0, T.CTLR_PAGE_ER, 0).(addr := Word(page));
    CtlSets(t1, T.CTLR_STRT, 0);
    SetStrt(t1.ctlr);
    CtlSound(t1, T.CTLR_STRT, 0);
    Rested(Ctl(t1, T.CTLR_STRT, 0));
    var t2 := Ctl(t1, T.CTLR_STRT, 0).(busy := 0);
    SoundOpen(t2);
    CtlSets(t2, 0, Or(T.CTLR_PAGE_ER, T.CTLR_STRT));
    ClearErase(t2.ctlr);
    CtlSound(t2, 0, Or(T.CTLR_PAGE_ER, T.CTLR_STRT));
  }

  lemma SoundOpen(t: T.Target)
    requires Sound(t)
    ensures Open(t) && t.errors == 0 && t.busy < POLL_LIMIT
  {}

  lemma TameValid(t: T.Target)
    requires Tame(t)
    ensures Open(t) && t.Valid()
  {
    hide BitsOf;
  }

  lemma ResetTame(t: T.Target, cleaned: bool)
    requires Tame(t)
    ensures Sound(ResetRun(t)) && Tame(Resetting(t, cleaned))
  {
    hide Ctl, Next, BitsOf, Or, Sound;
    SoundOpen(t);
    CtlSets(t, T.CTLR_PAGE_PG, 0);
    SetPg(t.ctlr);
    CtlSound(t, T.CTLR_PAGE_PG, 0);
    var t1 := Ctl(t, T.CTLR_PAGE_PG, 0);
    CtlSets(t1, T.CTLR_BUF_RST, 0);
    SetRst(t1.ctlr);
    CtlSound(t1, T.CTLR_BUF_RST, 0);
    Rested(Ctl(t1, T.CTLR_BUF_RST, 0));
    var t2 := Ctl(t1, T.CTLR_BUF_RST, 0).(busy := 0);
    SoundOpen(t2);
    CtlSets(t2, 0, Or(T.CTLR_PAGE_PG, T.CTLR_BUF_RST));
    ClearReset(t2.ctlr);
    CtlSound(t2, 0, Or(T.CTLR_PAGE_PG, T.CTLR_BUF_RST));
  }

  /** With PAGE_PG set, a word stored to flash goes to the buffer. */
  lemma StoreSound(t: T.Target, address: nat, word: word)
    requires Sound(t) && InFlash(t, address) && BitsOf(t.ctlr).pg
    ensures Sound(StoreWordTo(t, address, word)) && StoreWordTo(t, address, word).ctlr == t.ctlr
  {
    OffsetAligned(address);
    FlashStoreIs(t, T.FlashOffset(address), word);
    hide Has, T.FlashStore, T.StoreTo, T.IsFlash, T.FlashOffset;
  }

  lemma LoadTame(t: T.Target, address: nat, word: word, cleaned: bool)
    requires Tame(t) && InFlash(t, address)
    ensures Sound(LoadRun(t, address, word)) && Tame(Loading(t, address, word, cleaned))
  {
    hide Ctl, Next, BitsOf, Or, Sound, StoreWordTo, T.IsFlash, T.FlashOffset;
    SoundOpen(t);
    CtlSets(t, T.CTLR_PAGE_PG, 0);
    SetPg(t.ctlr);
    CtlSound(t, T.CTLR_PAGE_PG, 0);
    var t1 := Ctl(t, T.CTLR_PAGE_PG, 0);
    StoreSound(t1, address, word);
    var t2 := StoreWordTo(t1, address, word);
    SoundOpen(t2);
    CtlSets(t2, T.CTLR_BUF_LOAD, 0);
    SetLoad(t2.ctlr);
    CtlSound(t2, T.CTLR_BUF_LOAD, 0);
    Rested(Ctl(t2, T.CTLR_BUF_LOAD, 0));
    var t3 := Ctl(t2, T.CTLR_BUF_LOAD, 0).(busy := 0);
    SoundOpen(t3);
    CtlSets(t3, 0, Or(T.CTLR_PAGE_PG, T.CTLR_BUF_LOAD));
    ClearLoad(t3.ctlr);
    CtlSound(t3, 0, Or(T.CTLR_PAGE_PG, T.CTLR_BUF_LOAD));
  }

  lemma {:induction false} LoadsTame(t: T.Target, page: nat, data: seq<byte>, loads: seq<bool>)
    requires Tame(t) && PageInFlash(t, page) && |data| == T.PAGE && |loads| <= WORDS
    ensures Tame(LoadingWords(t, page, data, loads))
    decreases |loads|
  {
    hide Loading, Tame, T.IsFlash, T.FlashOffset, PageWord, PageInFlash, InFlash, T.SameShape;
    TameValid(t);
    if loads != [] {
      var n := |loads| - 1;
      LoadsTame(t, page, data, loads[..n]);
      LastWord(t, page, data, loads, n);
      LoadTame(LoadingWords(t, page, data, loads[..n]), page + 4 * n, PageWord(data, n), loads[n]);
    } else {
      NoWords(t, page, data);
    }
  }

  /** A program, refused or not, ends with the locks open and without staying busy for ever. */
  lemma ProgramSound(t: T.Target, page: nat, cleaned: bool)
    requires Tame(t) && page < WORD_LIMIT
    ensures Open(ProgramRun(t, page)) && CtrlPrompt(ProgramRun(t, page))
    ensures ProgramRun(t, page).errors == 0 ==> Sound(Programming(t, page, cleaned))
  {
    hide Ctl, Next, BitsOf, Or, Word, Sound;
    SoundOpen(t);
    CtlSets(t, T.CTLR_PAGE_PG, 0);
    SetPg(t.ctlr);
    CtlSound(t, T.CTLR_PAGE_PG, 0);
    Readdressed(Ctl(t, T.CTLR_PAGE_PG, 0), Word(page));
    var t1 := Ctl(t, T.CTLR_PAGE_PG, 0).(addr := Word(page));
    SoundOpen(t1);
    CtlSets(t1, T.CTLR_STRT, 0);
    CtlSound(t1, T.CTLR_STRT, 0);
    if ProgramRun(t, page).errors == 0 {
      IsSound(Ctl(t1, T.CTLR_STRT, 0));
      Rested(Ctl(t1, T.CTLR_STRT, 0));
      var t2 := Ctl(t1, T.CTLR_STRT, 0).(busy := 0);
      ClearProgram(t2.ctlr);
      CtlSound(t2, 0, Or(T.CTLR_PAGE_PG, T.CTLR_STRT));
    }
  }

  lemma IsSound(t: T.Target)
    requires Open(t) && CtrlPrompt(t) && t.errors == 0
    ensures Sound(t)
  {}

  /** A turn is refused for exactly one reason. */
  lemma WhyRefused(t: T.Target, page: nat, data: seq<byte>, c: CleanUps)
    requires Open(t) && PageInFlash(t, page) && |data| == T.PAGE && |c.loads| == WORDS
    ensures Paging(t, page, data, c).errors != t.errors <==> Refuses(t, T.FlashOffset(page), data, c)
  {
    hide Paging, Refuses, T.IsFlash, T.FlashOffset;
    TurnOutcome(t, page, data, c);
  }
}
