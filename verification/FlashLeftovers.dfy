/**
 What rewriting a page comes to when the page before it left mode bits behind.

 A primitive clears its bits at its end, and the tool does not look at whether it did.
 The bits a page leaves depend only on its own clean-ups: STRT if the program's was
 lost, PAGE_ER if the erase's was, BUF_RST if the reset's was.  What they do to the
 next page: with STRT, its first write erases the old page again; with BUF_RST, it is
 not erased at all.
 */
module FlashLeftovers {
  import opened Words
  import opened FlashSteps
  import opened FlashPages
  import T = Target

  /** Both locks are open. */
  ghost predicate Open(t: T.Target) { t.unlocked && t.modeUnlocked && t.Valid() }

  /** What nothing that is written to the controller takes back. */
  ghost predicate Onward(t: T.Target, r: T.Target) { Open(r) && t.errors <= r.errors }

  // The bits.

  lemma WriteSets(t: T.Target, v: word)
    requires Open(t)
    ensures var r := T.WriteCtlr(t, v); Onward(t, r) && r.ctlr == v && r.addr == t.addr
  {
    hide Has, T.Erased, T.Programmed, T.SetRequests;
  }

  lemma CtlSets(t: T.Target, set_: word, clear: word)
    requires Open(t)
    ensures var r := Ctl(t, set_, clear); Onward(t, r) && r.ctlr == Next(t.ctlr, set_, clear) && r.addr == t.addr
  {
    hide Next, T.WriteCtlr, Ctl;
    CtlIs(t, set_, clear);
    WriteSets(t, Next(t.ctlr, set_, clear));
  }

  lemma EraseBits(t: T.Target, page: nat, cleaned: bool)
    requires Open(t) && page < WORD_LIMIT
    ensures var r := Erasing(t, page, cleaned);
      Onward(t, r) && r.addr == Word(page) && BitsOf(r.ctlr) == BitsOf(t.ctlr).(strt := !cleaned, er := !cleaned)
  {
    hide Ctl, Next, BitsOf, Or, Word;
    var t0 := t.(busy := 0);
    CtlSets(t0, T.CTLR_PAGE_ER, 0);
    SetEr(t0.ctlr);
    var t1 := Ctl(t0, T.CTLR_PAGE_ER, 0).(addr := Word(page));
    CtlSets(t1, T.CTLR_STRT, 0);
    SetStrt(t1.ctlr);
    var t2 := Ctl(t1, T.CTLR_STRT, 0).(busy := 0);
    CtlSets(t2, 0, Or(T.CTLR_PAGE_ER, T.CTLR_STRT));
    ClearErase(t2.ctlr);
  }

  lemma ResetBits(t: T.Target, cleaned: bool)
    requires Open(t)
    ensures var r := Resetting(t, cleaned);
      Onward(t, r) && r.addr == t.addr && BitsOf(r.ctlr) == BitsOf(t.ctlr).(pg := !cleaned, rst := !cleaned)
  {
    hide Ctl, Next, BitsOf, Or;
    CtlSets(t, T.CTLR_PAGE_PG, 0);
    SetPg(t.ctlr);
    var t1 := Ctl(t, T.CTLR_PAGE_PG, 0);
    CtlSets(t1, T.CTLR_BUF_RST, 0);
    SetRst(t1.ctlr);
    var t2 := Ctl(t1, T.CTLR_BUF_RST, 0).(busy := 0);
    CtlSets(t2, 0, Or(T.CTLR_PAGE_PG, T.CTLR_BUF_RST));
    ClearReset(t2.ctlr);
  }

  lemma StoreKeepsBits(t: T.Target, address: nat, word: word)
    requires Open(t) && InFlash(t, address)
    ensures var r := StoreWordTo(t, address, word); Onward(t, r) && r.addr == t.addr && r.ctlr == t.ctlr
  {
    hide Has, T.Programmed, T.SetRequests, T.StoreTo;
  }

  lemma LoadBits(t: T.Target, address: nat, word: word, cleaned: bool)
    requires Open(t) && InFlash(t, address)
    ensures var r := Loading(t, address, word, cleaned);
      Onward(t, r) && r.addr == t.addr && BitsOf(r.ctlr) == BitsOf(t.ctlr).(pg := !cleaned)
  {
    hide Ctl, Next, BitsOf, Or, StoreWordTo, T.IsFlash, T.FlashOffset;
    CtlSets(t, T.CTLR_PAGE_PG, 0);
    SetPg(t.ctlr);
    var t1 := Ctl(t, T.CTLR_PAGE_PG, 0);
    StoreKeepsBits(t1, address, word);
    var t2 := StoreWordTo(t1, address, word);
    CtlSets(t2, T.CTLR_BUF_LOAD, 0);
    SetLoad(t2.ctlr);
    var t3 := Ctl(t2, T.CTLR_BUF_LOAD, 0).(busy := 0);
    CtlSets(t3, 0, Or(T.CTLR_PAGE_PG, T.CTLR_BUF_LOAD));
    ClearLoad(t3.ctlr);
  }

  lemma {:induction false} LoadsBits(t: T.Target, page: nat, data: seq<byte>, loads: seq<bool>)
    requires Open(t) && PageInFlash(t, page) && |data| == T.PAGE && |loads| <= WORDS
    ensures var r := LoadingWords(t, page, data, loads);
      Onward(t, r) && r.addr == t.addr && BitsOf(r.ctlr) == BitsOf(t.ctlr).(pg := BitsOf(r.ctlr).pg)
    decreases |loads|
  {
    hide Loading, BitsOf, T.IsFlash, T.FlashOffset, PageWord, PageInFlash, InFlash, T.SameShape;
    if loads != [] {
      var n := |loads| - 1;
      LoadsBits(t, page, data, loads[..n]);
      LastWord(t, page, data, loads, n);
      LoadBits(LoadingWords(t, page, data, loads[..n]), page + 4 * n, PageWord(data, n), loads[n]);
    } else {
      NoWords(t, page, data);
    }
  }

  lemma ProgramBits(t: T.Target, page: nat, cleaned: bool)
    requires Open(t) && page < WORD_LIMIT
    ensures var r := Programming(t, page, cleaned);
      Onward(t, r) && r.addr == Word(page) && BitsOf(r.ctlr) == BitsOf(t.ctlr).(strt := !cleaned, pg := !cleaned)
  {
    hide Ctl, Next, BitsOf, Or, Word;
    CtlSets(t, T.CTLR_PAGE_PG, 0);
    SetPg(t.ctlr);
    var t1 := Ctl(t, T.CTLR_PAGE_PG, 0).(addr := Word(page));
    CtlSets(t1, T.CTLR_STRT, 0);
    SetStrt(t1.ctlr);
    var t2 := Ctl(t1, T.CTLR_STRT, 0).(busy := 0);
    CtlSets(t2, 0, Or(T.CTLR_PAGE_PG, T.CTLR_STRT));
    ClearProgram(t2.ctlr);
  }

  /** What a page leaves behind, whatever it found. */
  lemma TurnBits(t: T.Target, page: nat, data: seq<byte>, c: CleanUps)
    requires Open(t) && PageInFlash(t, page) && |data| == T.PAGE && |c.loads| == WORDS
    ensures var r := Paging(t, page, data, c);
      Onward(t, r) && r.addr == Word(page) && BitsOf(r.ctlr) == Bits(!c.program, !c.erase, !c.program, !c.reset)
  {
    hide Erasing, Resetting, LoadingWords, Programming, BitsOf, Word, T.IsFlash, T.FlashOffset;
    var t1 := Erasing(t, page, c.erase);
    EraseBits(t, page, c.erase);
    var t2 := Resetting(t1, c.reset);
    ResetBits(t1, c.reset);
    LoadsBits(t2, page, data, c.loads);
    ProgramBits(LoadingWords(t2, page, data, c.loads), page, c.program);
  }

  /** The locks stay open up to the program. */
  lemma LoadedOpen(t: T.Target, page: nat, data: seq<byte>, loads: seq<bool>, cleaned: bool)
    requires Open(t) && PageInFlash(t, page) && |data| == T.PAGE && |loads| <= WORDS
    ensures Open(LoadingWords(Resetting(t, cleaned), page, data, loads))
  {
    hide Resetting, LoadingWords, BitsOf, T.IsFlash, T.FlashOffset;
    ResetBits(t, cleaned);
    LoadsBits(Resetting(t, cleaned), page, data, loads);
  }

  lemma QuietOpen(t: T.Target)
    ensures Open(Quiet(t)) == Open(t) && Quiet(t).errors == t.errors
  {}

  // Flash.

  /** A write with BUF_RST or without STRT leaves flash alone; with STRT and PAGE_ER it erases the page in ADDR. */
  lemma CtlFlash(t: T.Target, set_: word, clear: word)
    requires Open(t)
    ensures var r, b := Ctl(t, set_, clear), BitsOf(Next(t.ctlr, set_, clear));
      && (b.rst || !b.strt ==> r.flash == t.flash && r.errors == t.errors)
      && (!b.rst && b.strt && b.er ==>
            r.flash == T.Erased(t.flash, T.FlashOffset(Nat(t.addr)), T.PAGE) && r.errors == t.errors)
  {
    hide Next, T.WriteCtlr, Ctl, Nat, T.Erased;
    CtlIs(t, set_, clear);
    var v := Next(t.ctlr, set_, clear);
    if BitsOf(v).rst {
      WriteReset(t, v);
    } else if !BitsOf(v).strt {
      WriteWithoutStart(t, v);
    } else if BitsOf(v).er {
      WriteErase(t, v);
    }
    hide Has;
  }

  /** The offset of the page in ADDR. */
  function OldOffset(t: T.Target): nat { T.FlashOffset(Nat(t.addr)) }

  /** What the erase of a page does: nothing while BUF_RST is left over, and with STRT left over it erases twice. */
  function AfterErase(t: T.Target, offset: nat): seq<byte> {
    var b := BitsOf(t.ctlr);
    if b.rst then t.flash
    else T.Erased(if b.strt then T.Erased(t.flash, OldOffset(t), T.PAGE) else t.flash, offset, T.PAGE)
  }

  lemma EraseFlash(t: T.Target, page: nat, cleaned: bool)
    requires Open(t) && page < WORD_LIMIT
    ensures var r := Erasing(t, page, cleaned); r.flash == AfterErase(t, T.FlashOffset(page)) && r.errors == t.errors
  {
    hide Ctl, Next, BitsOf, Or, Word, Nat, T.Erased, T.FlashOffset;
    var t0 := t.(busy := 0);
    CtlSets(t0, T.CTLR_PAGE_ER, 0);
    CtlFlash(t0, T.CTLR_PAGE_ER, 0);
    SetEr(t0.ctlr);
    var t1 := Ctl(t0, T.CTLR_PAGE_ER, 0).(addr := Word(page));
    NatWord(page);
    CtlSets(t1, T.CTLR_STRT, 0);
    CtlFlash(t1, T.CTLR_STRT, 0);
    SetStrt(t1.ctlr);
    var t2 := Ctl(t1, T.CTLR_STRT, 0).(busy := 0);
    CtlFlash(t2, 0, Or(T.CTLR_PAGE_ER, T.CTLR_STRT));
    ClearErase(t2.ctlr);
  }

  /** The buffer reset: flash changes only if both leftovers of an erase meet a clean-up that takes BUF_RST away. */
  lemma ResetFlash(t: T.Target, cleaned: bool)
    requires Open(t) && var b := BitsOf(t.ctlr); b.strt == b.er && (b.rst || !b.strt)
    ensures var r := Resetting(t, cleaned);
      && r.flash == (if cleaned && BitsOf(t.ctlr).strt then T.Erased(t.flash, OldOffset(t), T.PAGE) else t.flash)
      && r.errors == t.errors
  {
    hide Ctl, Next, BitsOf, Or, Nat, T.Erased, T.FlashOffset;
    CtlSets(t, T.CTLR_PAGE_PG, 0);
    CtlFlash(t, T.CTLR_PAGE_PG, 0);
    SetPg(t.ctlr);
    var t1 := Ctl(t, T.CTLR_PAGE_PG, 0);
    CtlSets(t1, T.CTLR_BUF_RST, 0);
    CtlFlash(t1, T.CTLR_BUF_RST, 0);
    SetRst(t1.ctlr);
    var t2 := Ctl(t1, T.CTLR_BUF_RST, 0).(busy := 0);
    CtlFlash(t2, 0, Or(T.CTLR_PAGE_PG, T.CTLR_BUF_RST));
    ClearReset(t2.ctlr);
  }

  /** Programming any page: if nothing was refused, no bit was asked to be set, and the page is the buffer. */
  lemma ProgramAny(t: T.Target, page: nat, cleaned: bool)
    requires Calm(t) && page < WORD_LIMIT && T.FlashOffset(page) + T.PAGE <= |t.flash|
    ensures var r := Programming(t, page, cleaned);
      && (r.errors == t.errors ==> r.flash == Overlay(t.flash, T.FlashOffset(page), t.pageBuf))
      && r.errors == t.errors + T.SetRequests(t.flash, T.FlashOffset(page), t.pageBuf, T.PAGE)
      && (BlankAt(t.flash, T.FlashOffset(page)) ==> r.errors == t.errors)
  {
    BlankAsks(t.flash, T.FlashOffset(page), t.pageBuf);
    AskedNothing(t.flash, T.FlashOffset(page), t.pageBuf);
    hide Ctl, Next, BitsOf, Or, Word, Nat, T.FlashOffset, T.Programmed, T.SetRequests, Overlay, BlankAt, Has,
      T.WriteCtlr;
    CtlSets(t, T.CTLR_PAGE_PG, 0);
    SetPg(t.ctlr);
    CtlIs(t, T.CTLR_PAGE_PG, 0);
    BitsInert(Next(t.ctlr, T.CTLR_PAGE_PG, 0));
    WriteInert(t, Next(t.ctlr, T.CTLR_PAGE_PG, 0));
    var t1 := Ctl(t, T.CTLR_PAGE_PG, 0).(addr := Word(page));
    NatWord(page);
    CtlIs(t1, T.CTLR_STRT, 0);
    SetStrt(t1.ctlr);
    BitsStartProgram(Next(t1.ctlr, T.CTLR_STRT, 0));
    WriteProgram(t1, Next(t1.ctlr, T.CTLR_STRT, 0));
    var t2 := Ctl(t1, T.CTLR_STRT, 0).(busy := 0);
    ClearProgram(t2.ctlr);
    NoStartKeepsFlash(t2, 0, Or(T.CTLR_PAGE_PG, T.CTLR_STRT));
  }

  /** The clean-up of a program is never refused, so what the wait before it saw is how the program ended. */
  lemma ProgramRefusals(t: T.Target, page: nat, cleaned: bool)
    requires Open(t) && page < WORD_LIMIT
    ensures Programming(t, page, cleaned).errors == ProgramRun(t, page).errors
  {
    hide Ctl, Next, BitsOf, Or, Word;
    CtlSets(t, T.CTLR_PAGE_PG, 0);
    var t1 := Ctl(t, T.CTLR_PAGE_PG, 0).(addr := Word(page));
    CtlSets(t1, T.CTLR_STRT, 0);
    var t2 := Ctl(t1, T.CTLR_STRT, 0).(busy := 0);
    ClearProgram(t2.ctlr);
    NoStartKeepsFlash(t2, 0, Or(T.CTLR_PAGE_PG, T.CTLR_STRT));
  }

  lemma BlankAsks(flash: seq<byte>, offset: nat, data: seq<byte>)
    requires |data| == T.PAGE
    ensures BlankAt(flash, offset) ==> T.SetRequests(flash, offset, data, |data|) == 0
  {
    if BlankAt(flash, offset) { BlankAsksNothing(flash, offset, data); }
  }

  lemma AskedNothing(flash: seq<byte>, offset: nat, data: seq<byte>)
    requires offset + |data| <= |flash|
    ensures T.SetRequests(flash, offset, data, |data|) == 0 ==>
      T.Programmed(flash, offset, data) == Overlay(flash, offset, data)
  {
    if T.SetRequests(flash, offset, data, |data|) == 0 {
      AskedNone(flash, offset, data, |data|);
      hide T.AsksToSet, T.ClearBits;
      forall i | offset <= i < offset + |data| ensures T.ClearBits(flash[i], data[i - offset]) == data[i - offset] {
        assert !T.AsksToSet(flash[offset + (i - offset)], data[i - offset]);
        KeepsBits(flash[i], data[i - offset]);
      }
    }
  }

  lemma KeepsBits(was: byte, wanted: byte)
    ensures !T.AsksToSet(was, wanted) ==> T.ClearBits(was, wanted) == wanted
  {}

  lemma {:induction false} AskedNone(flash: seq<byte>, offset: nat, data: seq<byte>, k: nat)
    requires k <= |data| && offset + |data| <= |flash| && T.SetRequests(flash, offset, data, k) == 0
    ensures forall i :: 0 <= i < k ==> !T.AsksToSet(flash[offset + i], data[i])
  {
    hide T.AsksToSet;
    if k > 0 {
      AskedNone(flash, offset, data, k - 1);
    }
  }

  // The outcome.

  /** What one page's turn makes of flash, if nothing is refused. */
  function TurnFlash(t: T.Target, offset: nat, data: seq<byte>, c: CleanUps): seq<byte>
    requires offset + |data| <= |t.flash|
  {
    var erased := AfterErase(t, offset);
    if !c.reset then erased
    else if !c.erase then T.Erased(erased, offset, T.PAGE)
    else Overlay(erased, offset, data)
  }

  /**
   What a turn is refused for: it programs a page that leftover BUF_RST has kept from
   being erased, with data that asks for a bit that is clear in what the page holds.
   */
  predicate Refuses(t: T.Target, offset: nat, data: seq<byte>, c: CleanUps)
    requires |data| == T.PAGE
  {
    BitsOf(t.ctlr).rst && c.erase && c.reset && T.SetRequests(t.flash, offset, data, T.PAGE) != 0
  }

  /** How a turn ends. */
  lemma TurnOutcome(t: T.Target, page: nat, data: seq<byte>, c: CleanUps)
    requires Open(t) && PageInFlash(t, page) && |data| == T.PAGE && |c.loads| == WORDS
    ensures T.FlashOffset(page) + T.PAGE <= |t.flash|
    ensures var r := Paging(t, page, data, c);
      && (r.errors == t.errors ==> r.flash == TurnFlash(t, T.FlashOffset(page), data, c))
      && (r.errors == t.errors <==> !Refuses(t, T.FlashOffset(page), data, c))
  {
    hide Erasing, Filling, BitsOf, Word, T.IsFlash, T.FlashOffset, BlankAt, T.Erased, Overlay, T.SetRequests;
    var u := Erasing(t, page, c.erase);
    EraseBits(t, page, c.erase);
    EraseFlash(t, page, c.erase);
    if !BitsOf(t.ctlr).rst { ErasedIsBlank(t, T.FlashOffset(page)); }
    if !c.erase && !BitsOf(t.ctlr).rst {
      StuckOutcome(u, page, data, c);
      ErasedAgain(u.flash, T.FlashOffset(page));
    } else if !c.reset {
      HeldTurn(u, page, data, c);
    } else if !c.erase {
      LateStuck(u, page, data, c);
    } else {
      CalmTurn(u, page, data, c);
    }
  }

  lemma ErasedIsBlank(t: T.Target, offset: nat)
    requires !BitsOf(t.ctlr).rst && offset + T.PAGE <= |t.flash|
    ensures BlankAt(AfterErase(t, offset), offset)
  {
    hide T.Erased, BlankAt, Overlay;
    ErasedPage(if BitsOf(t.ctlr).strt then T.Erased(t.flash, OldOffset(t), T.PAGE) else t.flash, offset);
  }

  /** BUF_RST stays set: nothing is loaded and nothing starts. */
  lemma HeldTurn(u: T.Target, page: nat, data: seq<byte>, c: CleanUps)
    requires Open(u) && PageInFlash(u, page) && |data| == T.PAGE && |c.loads| == WORDS && !c.reset
    requires var b := BitsOf(u.ctlr); b.strt == b.er && (b.rst || !b.strt)
    ensures Filling(u, page, data, c).flash == u.flash && Filling(u, page, data, c).errors == u.errors
  {
    hide Resetting, LoadingWords, Programming, BitsOf, T.IsFlash, T.FlashOffset;
    var t1 := Resetting(u, false);
    ResetBits(u, false);
    ResetFlash(u, false);
    HeldLoads(t1, page, data, c.loads);
    HeldProgram(LoadingWords(t1, page, data, c.loads), page, c.program);
  }

  /** BUF_RST held the erase back until the reset's clean-up took it away; that write erases the page. */
  lemma LateStuck(u: T.Target, page: nat, data: seq<byte>, c: CleanUps)
    requires Open(u) && PageInFlash(u, page) && |data| == T.PAGE && |c.loads| == WORDS && c.reset
    requires u.addr == Word(page) && var b := BitsOf(u.ctlr); b.strt && b.er && b.rst
    ensures Filling(u, page, data, c).errors == u.errors
    ensures Filling(u, page, data, c).flash == T.Erased(u.flash, T.FlashOffset(page), T.PAGE)
  {
    hide Resetting, LoadingWords, Programming, BitsOf, T.IsFlash, T.FlashOffset, T.Erased, BlankAt, Overlay, Word,
      Nat;
    var t1 := Resetting(u, true);
    ResetBits(u, true);
    ResetFlash(u, true);
    NatWord(page);
    ErasedPage(u.flash, T.FlashOffset(page));
    StuckLoads(t1, page, data, c.loads);
    StuckProgram(LoadingWords(t1, page, data, c.loads), page, c.program);
  }

  /** Nothing is left over any more: the page is programmed from the buffer, blank or not. */
  lemma CalmTurn(u: T.Target, page: nat, data: seq<byte>, c: CleanUps)
    requires Open(u) && PageInFlash(u, page) && |data| == T.PAGE && |c.loads| == WORDS && c.reset
    requires var b := BitsOf(u.ctlr); !b.strt && !b.er
    ensures T.FlashOffset(page) + T.PAGE <= |u.flash|
    ensures var r := Filling(u, page, data, c);
      && (r.errors == u.errors ==> r.flash == Overlay(u.flash, T.FlashOffset(page), data))
      && r.errors == u.errors + T.SetRequests(u.flash, T.FlashOffset(page), data, T.PAGE)
      && (BlankAt(u.flash, T.FlashOffset(page)) ==> r.errors == u.errors)
  {
    hide T.SetRequests, Resetting, LoadingWords, Programming, BitsOf, T.IsFlash, T.FlashOffset, BlankAt, Overlay;
    var t1 := Resetting(u, true);
    ResetBits(u, true);
    ResetFlash(u, true);
    CalmLoads(t1, page, data, c.loads);
    var t2 := LoadingWords(t1, page, data, c.loads);
    assert t2.pageBuf == t2.pageBuf[..T.PAGE] && data == data[..T.PAGE];
    ProgramAny(t2, page, c.program);
  }
}
