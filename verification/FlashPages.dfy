/**
 What rewriting one page comes to: erase, reset, sixteen loads and a program, each
 ending with a clean-up that may be lost (the loop body of src/flash_ch32v0.c).

 From an idle controller the page then is what it is meant to be if the clean-ups of
 the erase and of the buffer reset took effect, and blank if not.  What the next page's
 turn makes of it is in FlashLeftovers and FlashEntries.
 */
module FlashPages {
  import opened Words
  import opened FlashSteps
  import T = Target

  /** `m` with `data` written over it from `offset` on. */
  function Overlay(m: seq<byte>, offset: nat, data: seq<byte>): (r: seq<byte>)
    requires offset + |data| <= |m|
    ensures |r| == |m|
  {
    m[..offset] + data + m[offset + |data|..]
  }

  /** A page of the array, by its address. */
  predicate PageInFlash(t: T.Target, page: nat) {
    page % T.PAGE == 0 && T.IsFlash(page) && T.FlashOffset(page) + T.PAGE <= |t.flash| && page < WORD_LIMIT - T.PAGE
  }

  /** Addresses inside a page share its window, and count on from its offset. */
  lemma InsidePage(page: nat, i: nat)
    requires page % T.PAGE == 0 && i < T.PAGE
    ensures (page + i) % T.PAGE == i && (page + i) / 0x100_0000 == page / 0x100_0000
    ensures (page + i) % 0x100_0000 == page % 0x100_0000 + i && page % 0x100_0000 % T.PAGE == 0
  {
    var window, k := page / 0x100_0000, page / T.PAGE;
    var r := page % 0x100_0000;
    assert r == T.PAGE * (k - 0x4_0000 * window);
    assert r + i < 0x100_0000;
    assert page + i == 0x100_0000 * window + (r + i);
  }

  /** The n-th word of a page is in flash, at its own place in the buffer. */
  lemma WordInPage(t: T.Target, page: nat, i: nat)
    requires PageInFlash(t, page) && i % 4 == 0 && i < T.PAGE
    ensures InFlash(t, page + i) && (page + i) % T.PAGE == i && T.FlashOffset(page) % T.PAGE == 0
  {
    InsidePage(page, i);
    WordFits(i);
  }

  lemma ErasedPage(flash: seq<byte>, offset: nat)
    requires offset + T.PAGE <= |flash|
    ensures T.Erased(flash, offset, T.PAGE) == Overlay(flash, offset, T.Blank(T.PAGE))
    ensures BlankAt(T.Erased(flash, offset, T.PAGE), offset)
  {}

  /** Programming, which can only clear bits, makes an erased page exactly the buffer. */
  lemma WrittenPage(flash: seq<byte>, offset: nat, data: seq<byte>)
    requires offset + T.PAGE <= |flash| && |data| == T.PAGE
    ensures T.Programmed(T.Erased(flash, offset, T.PAGE), offset, data) == Overlay(flash, offset, data)
  {
    hide T.ClearBits;
    forall i | 0 <= i < T.PAGE ensures T.ClearBits(0xff, data[i]) == data[i] {
      OnesKeep(data[i]);
    }
  }

  // One page, as a function.

  /** Which clean-ups of a page took effect. */
  datatype CleanUps = CleanUps(erase: bool, reset: bool, loads: seq<bool>, program: bool)
  {
    predicate All() { erase && reset && program && forall i :: 0 <= i < |loads| ==> loads[i] }
  }

  const WORDS := 16

  function PageWord(data: seq<byte>, n: nat): word
    requires |data| == T.PAGE && n < WORDS
  {
    FromBytes(data[4 * n..4 * n + 4])
  }

  /** The n-th word of the page is in flash, as long as the array is the same size. */
  lemma SlotIn(t: T.Target, t': T.Target, page: nat, n: nat)
    requires PageInFlash(t, page) && T.SameShape(t, t') && n < WORDS
    ensures InFlash(t', page + 4 * n)
  {
    WordInPage(t', page, 4 * n);
  }

  /** The first |loads| words of the page, loaded one by one. */
  function LoadingWords(t: T.Target, page: nat, data: seq<byte>, loads: seq<bool>): (r: T.Target)
    requires t.Valid() && PageInFlash(t, page) && |data| == T.PAGE && |loads| <= WORDS
    ensures T.SameShape(t, r) && r.Valid()
    decreases |loads|
  {
    hide Loading;
    if loads == [] then t
    else
      var n := |loads| - 1;
      var before := LoadingWords(t, page, data, loads[..n]);
      SlotIn(t, before, page, n);
      Loading(before, page + 4 * n, PageWord(data, n), loads[n])
  }

  lemma NoWords(t: T.Target, page: nat, data: seq<byte>)
    requires t.Valid() && PageInFlash(t, page) && |data| == T.PAGE
    ensures LoadingWords(t, page, data, []) == t
  {}

  /** Where the next word goes. */
  lemma NextSlot(t: T.Target, page: nat, data: seq<byte>, loads: seq<bool>)
    requires t.Valid() && PageInFlash(t, page) && |data| == T.PAGE && |loads| < WORDS
    ensures InFlash(LoadingWords(t, page, data, loads), page + 4 * |loads|)
  {
    hide LoadingWords, T.IsFlash, T.FlashOffset;
    WordInPage(LoadingWords(t, page, data, loads), page, 4 * |loads|);
  }

  lemma LastWord(t: T.Target, page: nat, data: seq<byte>, loads: seq<bool>, n: nat)
    requires t.Valid() && PageInFlash(t, page) && |data| == T.PAGE && |loads| == n + 1 <= WORDS
    ensures InFlash(LoadingWords(t, page, data, loads[..n]), page + 4 * n)
    ensures LoadingWords(t, page, data, loads) ==
      Loading(LoadingWords(t, page, data, loads[..n]), page + 4 * n, PageWord(data, n), loads[n])
  {
    hide Loading, T.IsFlash, T.FlashOffset, PageWord, InFlash, PageInFlash, T.SameShape;
    NextSlot(t, page, data, loads[..n]);
  }

  lemma MoreWords(t: T.Target, page: nat, data: seq<byte>, loads: seq<bool>, more: seq<bool>)
    requires t.Valid() && PageInFlash(t, page) && |data| == T.PAGE && |loads| < WORDS
    requires |more| == |loads| + 1 && more[..|loads|] == loads
    ensures InFlash(LoadingWords(t, page, data, loads), page + 4 * |loads|)
    ensures LoadingWords(t, page, data, more) ==
      Loading(LoadingWords(t, page, data, loads), page + 4 * |loads|, PageWord(data, |loads|), more[|loads|])
  {
    hide LoadingWords, Loading, T.IsFlash, T.FlashOffset, PageWord, InFlash, PageInFlash, T.SameShape;
    LastWord(t, page, data, more, |loads|);
  }

  function Filling(t: T.Target, page: nat, data: seq<byte>, c: CleanUps): (r: T.Target)
    requires t.Valid() && PageInFlash(t, page) && |data| == T.PAGE && |c.loads| == WORDS
    ensures T.SameShape(t, r) && r.Valid()
  {
    Programming(LoadingWords(Resetting(t, c.reset), page, data, c.loads), page, c.program)
  }

  function Paging(t: T.Target, page: nat, data: seq<byte>, c: CleanUps): (r: T.Target)
    requires t.Valid() && PageInFlash(t, page) && |data| == T.PAGE && |c.loads| == WORDS
    ensures T.SameShape(t, r) && r.Valid()
  {
    Filling(Erasing(t, page, c.erase), page, data, c)
  }

  // The erase's clean-up is lost: STRT and PAGE_ER stay set, and every later write erases again.

  /** Every write of CTLR erases the page, or resets the buffer; the page is blank already. */
  ghost predicate Stuck(t: T.Target, page: nat)
    requires page < WORD_LIMIT
  {
    && t.unlocked && t.modeUnlocked && t.Valid() && t.addr == Word(page) && BlankAt(t.flash, T.FlashOffset(page))
    && BitsOf(t.ctlr).strt && BitsOf(t.ctlr).er
  }

  lemma ErasedAgain(flash: seq<byte>, offset: nat)
    requires BlankAt(flash, offset)
    ensures T.Erased(flash, offset, T.PAGE) == flash
  {}

  lemma StuckCtl(t: T.Target, page: nat, set_: word, clear: word)
    requires page < WORD_LIMIT && Stuck(t, page)
    requires var b := BitsOf(Next(t.ctlr, set_, clear)); b.strt && b.er
    ensures Stuck(Ctl(t, set_, clear), page) && Ctl(t, set_, clear).flash == t.flash
    ensures Ctl(t, set_, clear).errors == t.errors
    ensures Ctl(t, set_, clear).ctlr == Next(t.ctlr, set_, clear)
  {
    hide Word, Nat, Next, BlankAt, T.Erased, T.WriteCtlr, Ctl, T.FlashOffset;
    CtlIs(t, set_, clear);
    var v := Next(t.ctlr, set_, clear);
    NatWord(page);
    ErasedAgain(t.flash, T.FlashOffset(page));
    if BitsOf(v).rst {
      WriteReset(t, v);
    } else {
      WriteErase(t, v);
    }
  }

  lemma StuckReset(t: T.Target, page: nat, cleaned: bool)
    requires page < WORD_LIMIT && Stuck(t, page)
    ensures Stuck(Resetting(t, cleaned), page) && Resetting(t, cleaned).flash == t.flash
    ensures Resetting(t, cleaned).errors == t.errors
  {
    hide Ctl, BlankAt, Next, BitsOf, Has, Or, T.FlashOffset;
    SetPg(t.ctlr);
    StuckCtl(t, page, T.CTLR_PAGE_PG, 0);
    var t1 := Ctl(t, T.CTLR_PAGE_PG, 0);
    SetRst(t1.ctlr);
    StuckCtl(t1, page, T.CTLR_BUF_RST, 0);
    var t2 := Ctl(t1, T.CTLR_BUF_RST, 0).(busy := 0);
    ClearReset(t2.ctlr);
    StuckCtl(t2, page, 0, Or(T.CTLR_PAGE_PG, T.CTLR_BUF_RST));
  }

  lemma StuckLoad(t: T.Target, page: nat, address: nat, word: word, cleaned: bool)
    requires page < WORD_LIMIT && Stuck(t, page) && InFlash(t, address)
    ensures Stuck(Loading(t, address, word, cleaned), page) && Loading(t, address, word, cleaned).flash == t.flash
    ensures Loading(t, address, word, cleaned).errors == t.errors
  {
    hide Ctl, BlankAt, Next, BitsOf, Has, Or, T.FlashOffset, StoreWordTo, T.IsFlash, T.StoreTo;
    SetPg(t.ctlr);
    StuckCtl(t, page, T.CTLR_PAGE_PG, 0);
    var t1 := Ctl(t, T.CTLR_PAGE_PG, 0);
    StoreInPg(t1, address, word);
    var t2 := StoreWordTo(t1, address, word);
    SetLoad(t2.ctlr);
    StuckCtl(t2, page, T.CTLR_BUF_LOAD, 0);
    var t3 := Ctl(t2, T.CTLR_BUF_LOAD, 0).(busy := 0);
    ClearLoad(t3.ctlr);
    StuckCtl(t3, page, 0, Or(T.CTLR_PAGE_PG, T.CTLR_BUF_LOAD));
  }

  lemma {:induction false} StuckLoads(t: T.Target, page: nat, data: seq<byte>, loads: seq<bool>)
    requires t.Valid() && PageInFlash(t, page) && Stuck(t, page) && |data| == T.PAGE && |loads| <= WORDS
    ensures Stuck(LoadingWords(t, page, data, loads), page) && LoadingWords(t, page, data, loads).flash == t.flash
    ensures LoadingWords(t, page, data, loads).errors == t.errors
    decreases |loads|
  {
    hide Stuck, Loading, T.IsFlash, T.FlashOffset;
    if loads != [] {
      var n := |loads| - 1;
      StuckLoads(t, page, data, loads[..n]);
      WordInPage(t, page, 4 * n);
      StuckLoad(LoadingWords(t, page, data, loads[..n]), page, page + 4 * n, PageWord(data, n), loads[n]);
    }
  }

  lemma StuckProgram(t: T.Target, page: nat, cleaned: bool)
    requires page < WORD_LIMIT && Stuck(t, page)
    ensures Programming(t, page, cleaned).flash == t.flash && Programming(t, page, cleaned).errors == t.errors
  {
    hide Ctl, BlankAt, Next, BitsOf, Has, Or, Word, T.FlashOffset;
    SetPg(t.ctlr);
    StuckCtl(t, page, T.CTLR_PAGE_PG, 0);
    var t1 := Ctl(t, T.CTLR_PAGE_PG, 0).(addr := Word(page));
    SetStrt(t1.ctlr);
    StuckCtl(t1, page, T.CTLR_STRT, 0);
    var t2 := Ctl(t1, T.CTLR_STRT, 0).(busy := 0);
    ClearProgram(t2.ctlr);
    NoStartKeepsFlash(t2, 0, Or(T.CTLR_PAGE_PG, T.CTLR_STRT));
  }

  // The reset's clean-up is lost: BUF_RST stays set, and every later write resets the buffer.

  ghost predicate Held(t: T.Target) {
    t.unlocked && t.modeUnlocked && t.Valid() && BitsOf(t.ctlr).rst
  }

  lemma HeldCtl(t: T.Target, set_: word, clear: word)
    requires Held(t) && BitsOf(Next(t.ctlr, set_, clear)).rst
    ensures Held(Ctl(t, set_, clear)) && Ctl(t, set_, clear).flash == t.flash
    ensures Ctl(t, set_, clear).errors == t.errors
    ensures Ctl(t, set_, clear).ctlr == Next(t.ctlr, set_, clear)
  {
    hide Next, T.WriteCtlr, Ctl;
    CtlIs(t, set_, clear);
    WriteReset(t, Next(t.ctlr, set_, clear));
  }

  lemma HeldLoad(t: T.Target, address: nat, word: word, cleaned: bool)
    requires Held(t) && InFlash(t, address)
    ensures Held(Loading(t, address, word, cleaned)) && Loading(t, address, word, cleaned).flash == t.flash
    ensures Loading(t, address, word, cleaned).errors == t.errors
  {
    hide Ctl, Next, BitsOf, Has, Or, T.FlashOffset, StoreWordTo, T.IsFlash, T.StoreTo;
    SetPg(t.ctlr);
    HeldCtl(t, T.CTLR_PAGE_PG, 0);
    var t1 := Ctl(t, T.CTLR_PAGE_PG, 0);
    StoreInPg(t1, address, word);
    var t2 := StoreWordTo(t1, address, word);
    SetLoad(t2.ctlr);
    HeldCtl(t2, T.CTLR_BUF_LOAD, 0);
    var t3 := Ctl(t2, T.CTLR_BUF_LOAD, 0).(busy := 0);
    ClearLoad(t3.ctlr);
    HeldCtl(t3, 0, Or(T.CTLR_PAGE_PG, T.CTLR_BUF_LOAD));
  }

  lemma {:induction false} HeldLoads(t: T.Target, page: nat, data: seq<byte>, loads: seq<bool>)
    requires t.Valid() && PageInFlash(t, page) && Held(t) && |data| == T.PAGE && |loads| <= WORDS
    ensures Held(LoadingWords(t, page, data, loads)) && LoadingWords(t, page, data, loads).flash == t.flash
    ensures LoadingWords(t, page, data, loads).errors == t.errors
    decreases |loads|
  {
    hide Held, Loading, T.IsFlash, T.FlashOffset;
    if loads != [] {
      var n := |loads| - 1;
      HeldLoads(t, page, data, loads[..n]);
      WordInPage(t, page, 4 * n);
      HeldLoad(LoadingWords(t, page, data, loads[..n]), page + 4 * n, PageWord(data, n), loads[n]);
    }
  }

  lemma HeldProgram(t: T.Target, page: nat, cleaned: bool)
    requires page < WORD_LIMIT && Held(t)
    ensures Programming(t, page, cleaned).flash == t.flash && Programming(t, page, cleaned).errors == t.errors
  {
    hide Ctl, Next, BitsOf, Has, Or, Word;
    SetPg(t.ctlr);
    HeldCtl(t, T.CTLR_PAGE_PG, 0);
    var t1 := Ctl(t, T.CTLR_PAGE_PG, 0).(addr := Word(page));
    SetStrt(t1.ctlr);
    HeldCtl(t1, T.CTLR_STRT, 0);
    var t2 := Ctl(t1, T.CTLR_STRT, 0).(busy := 0);
    ClearProgram(t2.ctlr);
    HeldCtl(t2, 0, Or(T.CTLR_PAGE_PG, T.CTLR_STRT));
  }

  // Neither is lost: the buffer fills word by word, whether or not the loads are cleaned up after.

  /** Nothing can start but a page program. */
  ghost predicate Calm(t: T.Target) {
    t.unlocked && t.modeUnlocked && t.Valid() && !BitsOf(t.ctlr).strt && !BitsOf(t.ctlr).er && !BitsOf(t.ctlr).rst
  }

  /** What loading changes: the buffer, and the counters of the busy oracle. */
  ghost predicate OnlyLoaded(t: T.Target, t': T.Target) {
    t' == t.(ctlr := t'.ctlr, pageBuf := t'.pageBuf, busy := t'.busy, started := t'.started)
  }

  lemma CalmLoad(t: T.Target, address: nat, word: word, cleaned: bool)
    requires Calm(t) && InFlash(t, address)
    ensures var r := Loading(t, address, word, cleaned);
      && Calm(r) && OnlyLoaded(t, r) && r.busy == 0
      && address % T.PAGE + 4 <= T.PAGE && r.pageBuf == T.StoreTo(t.pageBuf, address % T.PAGE, 2, word)
  {
    hide Ctl, Next, BitsOf, Has, Or, T.FlashOffset, T.IsFlash, T.StoreTo, LoadRun, T.WriteCtlr;
    LoadRuns(t, address, word);
    var r := LoadRun(t, address, word).(busy := 0);
    var v := Next(r.ctlr, 0, Or(T.CTLR_PAGE_PG, T.CTLR_BUF_LOAD));
    CtlIs(r, 0, Or(T.CTLR_PAGE_PG, T.CTLR_BUF_LOAD));
    ClearLoad(r.ctlr);
    BitsInert(v);
    WriteInert(r, v);
  }

  lemma {:induction false} CalmLoads(t: T.Target, page: nat, data: seq<byte>, loads: seq<bool>)
    requires t.Valid() && PageInFlash(t, page) && Calm(t) && |data| == T.PAGE && |loads| <= WORDS
    ensures var r := LoadingWords(t, page, data, loads);
      && Calm(r) && OnlyLoaded(t, r) && (t.busy == 0 ==> r.busy == 0)
      && r.pageBuf[..4 * |loads|] == data[..4 * |loads|]
    decreases |loads|
  {
    hide Calm, Loading, T.IsFlash, T.FlashOffset, T.StoreTo, FromBytes;
    if loads != [] {
      var n := |loads| - 1;
      CalmLoads(t, page, data, loads[..n]);
      WordInPage(t, page, 4 * n);
      var before := LoadingWords(t, page, data, loads[..n]);
      CalmLoad(before, page + 4 * n, PageWord(data, n), loads[n]);
      BytesRoundTrip(data[4 * n..4 * n + 4]);
      NextWord(before.pageBuf, Loading(before, page + 4 * n, PageWord(data, n), loads[n]).pageBuf, data,
               4 * n, PageWord(data, n));
    }
  }

  lemma NextWord(before: seq<byte>, after: seq<byte>, data: seq<byte>, i: nat, word: word)
    requires |before| == T.PAGE == |data| && i + 4 <= T.PAGE && before[..i] == data[..i]
    requires Bytes(word) == data[i..i + 4] && after == T.StoreTo(before, i, 2, word)
    ensures after[..i + 4] == data[..i + 4]
  {
    hide B0, B1, B2, B3;
    assert after[..i + 4] == before[..i] + Bytes(word);
  }

  lemma CalmProgram(t: T.Target, page: nat, cleaned: bool)
    requires page < WORD_LIMIT && Calm(t) && BlankAt(t.flash, T.FlashOffset(page))
    ensures Programming(t, page, cleaned).flash == T.Programmed(t.flash, T.FlashOffset(page), t.pageBuf)
  {
    hide Ctl, Next, BitsOf, Has, Or, Word, T.FlashOffset, T.Programmed, BlankAt, ProgramRun;
    ProgramRuns(t, page);
    var r := ProgramRun(t, page).(busy := 0);
    ClearProgram(r.ctlr);
    NoStartKeepsFlash(r, 0, Or(T.CTLR_PAGE_PG, T.CTLR_STRT));
  }

  // The outcome.

  lemma EraseOutcome(t: T.Target, page: nat, cleaned: bool)
    requires Armed(t) && PageInFlash(t, page)
    ensures var r := Erasing(t, page, cleaned);
      && r.flash == T.Erased(t.flash, T.FlashOffset(page), T.PAGE) && BlankAt(r.flash, T.FlashOffset(page))
      && (cleaned ==> Armed(r) && r.busy == 0) && (!cleaned ==> Stuck(r, page))
  {
    hide Has, Word, T.Erased, BitsOf, T.FlashOffset, T.IsFlash, EraseRun, BlankAt, Overlay;
    ErasedPage(t.flash, T.FlashOffset(page));
    EraseRuns(t, page);
    EraseSteps(t, page);
  }

  lemma ResetOutcome(t: T.Target, cleaned: bool)
    requires Armed(t)
    ensures Resetting(t, cleaned).flash == t.flash
    ensures cleaned ==> Calm(Resetting(t, cleaned)) && OnlyLoaded(t, Resetting(t, cleaned))
    ensures !cleaned ==> Held(Resetting(t, cleaned))
  {
    hide Has, BitsOf, ResetRun;
    ResetSteps(t);
    IdleBits(t);
    ResetRuns(t);
    if cleaned { IdleBits(Resetting(t, true)); }
  }

  /** From an erased page and an idle controller. */
  lemma FillOutcome(t: T.Target, page: nat, data: seq<byte>, c: CleanUps)
    requires Armed(t) && PageInFlash(t, page) && BlankAt(t.flash, T.FlashOffset(page)) && |data| == T.PAGE
    requires |c.loads| == WORDS
    ensures Filling(t, page, data, c).flash ==
      if c.reset then T.Programmed(t.flash, T.FlashOffset(page), data) else t.flash
  {
    hide Armed, Held, Calm, BlankAt, Resetting, Programming, LoadingWords, T.FlashOffset, T.IsFlash, T.Programmed;
    ArmedValid(t);
    var t1 := Resetting(t, c.reset);
    ResetOutcome(t, c.reset);
    if c.reset {
      CalmLoads(t1, page, data, c.loads);
      var t2 := LoadingWords(t1, page, data, c.loads);
      assert t2.pageBuf == t2.pageBuf[..T.PAGE] && data == data[..T.PAGE];
      CalmProgram(t2, page, c.program);
    } else {
      HeldLoads(t1, page, data, c.loads);
      HeldProgram(LoadingWords(t1, page, data, c.loads), page, c.program);
    }
  }

  lemma ArmedValid(t: T.Target)
    requires Armed(t)
    ensures t.Valid() && |t.flash| <= 0x100_0000
  {}

  /** From a page whose erase was never cleaned up. */
  lemma StuckOutcome(t: T.Target, page: nat, data: seq<byte>, c: CleanUps)
    requires t.Valid() && PageInFlash(t, page) && Stuck(t, page) && |data| == T.PAGE && |c.loads| == WORDS
    ensures Filling(t, page, data, c).flash == t.flash && Filling(t, page, data, c).errors == t.errors
  {
    hide Stuck, Resetting, Programming, LoadingWords, T.FlashOffset, T.IsFlash;
    StuckReset(t, page, c.reset);
    StuckLoads(Resetting(t, c.reset), page, data, c.loads);
    StuckProgram(LoadingWords(Resetting(t, c.reset), page, data, c.loads), page, c.program);
  }

  /**
   Whatever clean-ups are lost, the rest of flash is untouched.  The page is what it
   is meant to be if those of the erase and of the reset took effect, and blank if
   either was lost.
   */
  lemma PageOutcome(t: T.Target, page: nat, data: seq<byte>, c: CleanUps)
    requires Armed(t) && PageInFlash(t, page) && |data| == T.PAGE && |c.loads| == WORDS
    ensures t.Valid() && Paging(t, page, data, c).flash ==
      Overlay(t.flash, T.FlashOffset(page), if c.erase && c.reset then data else T.Blank(T.PAGE))
  {
    hide Armed, Stuck, BlankAt, Erasing, Filling, T.FlashOffset, T.IsFlash, T.Programmed, T.Erased, Overlay;
    ArmedValid(t);
    EraseOutcome(t, page, c.erase);
    var offset := T.FlashOffset(page);
    ErasedPage(t.flash, offset);
    WrittenPage(t.flash, offset, data);
    if c.erase {
      FillOutcome(Erasing(t, page, true), page, data, c);
    } else {
      StuckOutcome(Erasing(t, page, false), page, data, c);
    }
  }

  // No clean-up is lost.

  /** Starts i and i + 1 are an erase and then a program of the page, each with the controller idle. */
  ghost predicate PagePair(starts: seq<T.Start>, i: nat, page: nat)
    requires page < WORD_LIMIT
  {
    && i + 1 < |starts|
    && StartsErase(starts[i].control) && starts[i].page == Word(page) && !starts[i].busy
    && StartsProgram(starts[i + 1].control) && starts[i + 1].page == Word(page) && !starts[i + 1].busy
  }

  ghost predicate RewroteOnce(before: seq<T.Start>, after: seq<T.Start>, page: nat)
    requires page < WORD_LIMIT
  {
    |after| == |before| + 2 && after[..|before|] == before && PagePair(after, |before|, page)
  }

  /** The target once a page has been rewritten and every clean-up has taken effect. */
  ghost predicate PageDone(t: T.Target, t': T.Target, page: nat, data: seq<byte>)
    requires |data| == T.PAGE && T.FlashOffset(page) + T.PAGE <= |t.flash| && page < WORD_LIMIT
  {
    && t' == t.(flash := t'.flash, ctlr := t'.ctlr, addr := t'.addr, pageBuf := t'.pageBuf, busy := 0,
                erases := t.erases + 1,
                programs := t.programs + 1, started := t'.started, starts := t'.starts)
    && t'.flash == Overlay(t.flash, T.FlashOffset(page), data)
    && RewroteOnce(t.starts, t'.starts, page) && Armed(t')
  }

  lemma {:induction false} CleanLoads(t: T.Target, page: nat, data: seq<byte>, loads: seq<bool>)
    requires Armed(t) && PageInFlash(t, page) && |data| == T.PAGE && |loads| <= WORDS
    requires forall i :: 0 <= i < |loads| ==> loads[i]
    ensures t.Valid() && Armed(LoadingWords(t, page, data, loads)) && OnlyLoaded(t, LoadingWords(t, page, data, loads))
    decreases |loads|
  {
    hide Has, Loading, T.IsFlash, T.FlashOffset, T.StoreTo, PageWord;
    if loads != [] {
      var n := |loads| - 1;
      CleanLoads(t, page, data, loads[..n]);
      WordInPage(t, page, 4 * n);
      LoadSteps(LoadingWords(t, page, data, loads[..n]), page + 4 * n, PageWord(data, n));
    }
  }

  /** The buffer loaded, and nothing else about an idle controller different. */
  lemma CleanFill(t: T.Target, page: nat, data: seq<byte>, loads: seq<bool>)
    requires Armed(t) && t.busy == 0 && PageInFlash(t, page) && |data| == T.PAGE && |loads| == WORDS
    requires forall i :: 0 <= i < |loads| ==> loads[i]
    ensures var r := LoadingWords(Resetting(t, true), page, data, loads);
      Armed(r) && OnlyLoaded(t, r) && r.busy == 0 && r.pageBuf == data
  {
    hide Has, Resetting, LoadingWords, T.IsFlash, T.FlashOffset, BitsOf;
    ResetSteps(t);
    var t1 := Resetting(t, true);
    CleanLoads(t1, page, data, loads);
    IdleBits(t1);
    CalmLoads(t1, page, data, loads);
    var r := LoadingWords(t1, page, data, loads);
    assert r.pageBuf == r.pageBuf[..T.PAGE] && data == data[..T.PAGE];
  }

  /** One erase and one program, in that order, the page right, the controller idle again. */
  lemma CleanPage(t: T.Target, page: nat, data: seq<byte>, c: CleanUps)
    requires Armed(t) && PageInFlash(t, page) && |data| == T.PAGE && |c.loads| == WORDS && c.All()
    ensures t.Valid() && PageDone(t, Paging(t, page, data, c), page, data)
  {
    hide Has, Word, Erasing, Programming, LoadingWords, Resetting, BlankAt, StartsErase, StartsProgram, T.Erased,
      T.Programmed, T.IsFlash, T.FlashOffset, Overlay, Stuck;
    EraseOutcome(t, page, true);
    EraseSteps(t, page);
    var t1 := Erasing(t, page, true);
    WrittenPage(t.flash, T.FlashOffset(page), data);
    CleanFill(t1, page, data, c.loads);
    var t3 := LoadingWords(Resetting(t1, true), page, data, c.loads);
    ProgramSteps(t3, page);
    var t4 := Programming(t3, page, true);
    assert t4.starts[..|t.starts|] == t1.starts[..|t.starts|] == t.starts;
  }
}
