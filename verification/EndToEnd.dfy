/**
 The whole tool against a newly built part, as tests/flash_test.c sets it up: nothing
 is taken for granted but the part, the programmer's wire, and that neither the
 controller nor the debug module stays busy for ever.
 */
module EndToEnd {
  import opened Words
  import opened Chips
  import opened Linke
  import opened DmHost
  import opened FlashSteps
  import opened FlashPages
  import opened FlashImage
  import opened FlashEntries
  import opened FlashController
  import opened FlashWrite
  import opened Interface
  import opened Flash
  import Simulator
  import Transport
  import T = Target
  import D = DebugModule

  /** A part of this kind behind a programmer, its wire, and a link to it. */
  method Plug(chip: Chip, lag: nat -> nat, dmLag: nat -> nat, fault: nat -> Transport.Fault, refusesReattach: bool)
    returns (link: Link)
    requires chip in CHIPS && forall n: nat :: lag(n) < POLL_LIMIT && dmLag(n) < TIMEOUT
    ensures fresh(link) && fresh(link.wire) && fresh(link.wire.sim) && fresh(link.programs) && link.wire.fault == fault
    ensures CanFlash(link) && Agrees(ViewOf(link)) && Fits(link.State().target, chip)
    ensures !link.configured && link.wire.sent == 0 && Quiescent(link.State().target)
    ensures link.State().target.lag == lag && link.State().target.busy == 0 && link.State().dm.lag == dmLag
    ensures link.State().target.flash == T.Blank(chip.flashSize) && RightChip(chip, link.State().programmer)
  {
    hide CHIPS, CanFlash, Agrees, Fits, T.Blank, Word, Byte, RightChip;
    RowShapes(chip);
    var sim := new Simulator.Sim(chip.flashSize, chip.ramSize, chip.ramOffset, lag, dmLag, Word(chip.flashBase),
                                 refusesReattach,
                                 chip.linkeId, Byte(chip.modelId / 0x100), Byte(chip.modelId % 0x100));
    var wire := new Transport.Wire(sim, fault);
    var programs := new Programs();
    link := new Link(wire, programs);
    NewPartIsReady(link, chip);
    ModelRoundTrip(chip, link.State().programmer.modelHigh, link.State().programmer.modelLow);
    OwnChip(chip, link.State().programmer.modelHigh, link.State().programmer.modelLow);
    IsRightChip(link, chip);
  }

  lemma IsRightChip(link: Link, chip: Chip)
    requires chip in CHIPS
    requires var p := link.State().programmer; Detected(chip, p.familyId, ModelOf(p.modelHigh, p.modelLow))
    ensures RightChip(chip, link.State().programmer)
  {
    hide CHIPS;
  }

  lemma OwnChip(chip: Chip, high: byte, low: byte)
    requires ModelOf(high, low) == chip.modelId
    ensures Detected(chip, chip.linkeId, ModelOf(high, low))
  {}

  /** The two bytes that carry a row's model name that model. */
  lemma ModelRoundTrip(chip: Chip, high: byte, low: byte)
    requires chip in CHIPS && chip.modelId < 0x1_0000
    requires high == Byte(chip.modelId / 0x100) && low == Byte(chip.modelId % 0x100)
    ensures ModelOf(high, low) == chip.modelId
  {
    RowShapes(chip);
    CarriesModel(chip.modelId, high, low);
    hide CHIPS;
  }

  lemma CarriesModel(m: nat, high: byte, low: byte)
    requires m < 0x1_0000 && m % 16 == 0 && high == Byte(m / 0x100) && low == Byte(m % 0x100)
    ensures ModelOf(high, low) == m
  {
    hide Val, Byte;
    Nibbles(m);
  }

  lemma Nibbles(m: nat)
    requires m % 16 == 0
    ensures m / 0x100 * 0x100 + m % 0x100 / 16 * 16 == m
  {
    var q, r := m / 0x100, m % 0x100;
    assert r == 16 * (m / 16 - 16 * q);
  }

  /** A part that has just been built and plugged in is as a write expects it. */
  lemma NewPartIsReady(link: Link, chip: Chip)
    requires chip in CHIPS && link.Valid() && !link.programs.ready && !link.configured
    requires var t, d := link.State().target, link.State().dm;
      && |t.flash| == chip.flashSize && |t.ram| == chip.ramSize && t.ramBase == chip.ramOffset
      && t.ctlr == 0 && t.errors == 0 && t.busy == 0 && d.cmderr == 0
      && (forall n: nat :: t.lag(n) < POLL_LIMIT && d.lag(n) < TIMEOUT)
    ensures CanFlash(link) && Agrees(ViewOf(link)) && Fits(link.State().target, chip)
  {
    hide CHIPS, Has;
    RowShapes(chip);
    NothingIsIdle();
  }

  /** What every row of the table has in common. */
  lemma RowShapes(chip: Chip)
    requires chip in CHIPS
    ensures chip.ramSize % 4 == 0 && chip.ramOffset % 4 == 0 && chip.flashSize % T.PAGE == 0
    ensures chip.flashSize <= 0x100_0000
    ensures chip.modelId % 16 == 0 && chip.modelId < 0x1_0000 && chip.flashBase < WORD_LIMIT
  {
    RamIsWords();
    RamStartsOnWord();
    FlashIsPages();
    FlashIsSmall();
    ModelsAreSmall();
    ModelsAreEven();
    hide CHIPS;
  }

  lemma RamIsWords()
    ensures forall i :: 0 <= i < |CHIPS| ==> CHIPS[i].ramSize % 4 == 0
  {}

  lemma RamStartsOnWord()
    ensures forall i :: 0 <= i < |CHIPS| ==> CHIPS[i].ramOffset % 4 == 0
  {}

  lemma FlashIsPages()
    ensures forall i :: 0 <= i < |CHIPS| ==> CHIPS[i].flashSize % T.PAGE == 0
  {}

  lemma FlashIsSmall()
    ensures forall i :: 0 <= i < |CHIPS| ==> CHIPS[i].flashSize <= 0x100_0000 && CHIPS[i].flashBase < WORD_LIMIT
  {}

  lemma ModelsAreSmall()
    ensures forall i :: 0 <= i < |CHIPS| ==> CHIPS[i].modelId < 0x1_0000
  {}

  lemma ModelsAreEven()
    ensures forall i :: 0 <= i < |CHIPS| ==> CHIPS[i].modelId % 16 == 0
  {
    FirstModelsAreEven();
    LastModelsAreEven();
    hide CHIPS;
  }

  lemma FirstModelsAreEven()
    ensures forall i :: 0 <= i < 13 && i < |CHIPS| ==> CHIPS[i].modelId % 16 == 0
  {}

  lemma LastModelsAreEven()
    ensures forall i :: 13 <= i < |CHIPS| ==> CHIPS[i].modelId % 16 == 0
  {}

  lemma NothingIsIdle()
    ensures !Has(0, MODES)
  {}

  /**
   Identifying a part that has been plugged in.  A row that is found is that part's own,
   whatever the wire does; on one that answers it is found, even behind a programmer
   that will not attach twice.
   */
  method PlugAndIdentify(chip: Chip, lag: nat -> nat, dmLag: nat -> nat, fault: nat -> Transport.Fault,
                         refusesReattach: bool)
    returns (link: Link, status: Status, found: Chip)
    requires chip in CHIPS && forall n: nat :: lag(n) < POLL_LIMIT && dmLag(n) < TIMEOUT
    ensures status == Ok ==> found == chip
    ensures (forall n: nat :: fault(n) == Transport.Answered) ==> status == Ok
  {
    hide CHIPS, Agrees, Fits, Known, RightChip, Detected;
    link := Plug(chip, lag, dmLag, fault, refusesReattach);
    ghost var p := link.State().programmer;
    RightIsKnown(chip, p);
    status, found := IdentifyChip(link);
    if status == Ok { OnlyOneRight(chip, found, p); }
    if link.wire.Reliable() { link.wire.ReliableIsClean(); }
  }

  lemma RightIsKnown(chip: Chip, p: D.Programmer)
    requires RightChip(chip, p)
    ensures Known(p)
  {
    hide CHIPS;
  }

  lemma OnlyOneRight(a: Chip, b: Chip, p: D.Programmer)
    requires RightChip(a, p) && RightChip(b, p)
    ensures a == b
  {
    hide CHIPS, Detected;
    DetectedOnce(a, b, p.familyId, ModelOf(p.modelHigh, p.modelLow));
  }

  /**
   Two images, one after the other, onto a new part.  On a wire that answers, flash
   is blank, overlaid with the first and then with the second; the second may share
   pages with the first.
   */
  method FlashTwice(chip: Chip, lag: nat -> nat, dmLag: nat -> nat, fault: nat -> Transport.Fault,
                    first: nat, image1: seq<byte>, second: nat, image2: seq<byte>)
    returns (link: Link, status: Status)
    requires chip in CHIPS && chip.algo == Ch32v0 && first < WORD_LIMIT && second < WORD_LIMIT
    requires forall n: nat :: lag(n) < POLL_LIMIT && dmLag(n) < TIMEOUT
    requires forall n: nat :: fault(n) == Transport.Answered
    requires Refusal(chip, first, |image1|) == Ok && Refusal(chip, second, |image2|) == Ok
    ensures status == Ok
    ensures T.FlashOffset(first) + |image1| <= chip.flashSize && T.FlashOffset(second) + |image2| <= chip.flashSize
    ensures link.State().target.flash ==
      Overlay(Overlay(T.Blank(chip.flashSize), T.FlashOffset(first), image1), T.FlashOffset(second), image2)
  {
    hide CHIPS, Agrees, CanFlash, Overlay, RangeOk, Normalise, Fits, Goal, WroteWith, InReach;
    link := Plug(chip, lag, dmLag, fault, false);
    ghost var t := link.State().target;
    GoalAt(t, chip, first, image1);
    var written, checked;
    ghost var cs;
    status, written, checked, cs := WriteAndVerify(link, chip, first, image1, true);
    ghost var t1 := link.State().target;
    StillFits(link, t, chip);
    GoalAt(t1, chip, second, image2);
    status, written, checked, cs := WriteAndVerify(link, chip, second, image2, true);
  }

  /** The request with which the clean-up of the first erase begins, if nothing is ever busy. */
  const FIRST_CLEANUP := 2 + UNLOCK + BEFORE_CLEANUP

  function OneLoss(n: nat): Transport.Fault {
    if n == FIRST_CLEANUP then Transport.RequestLost else Transport.Answered
  }

  lemma OneLossCounts(wire: Transport.Wire, n: nat)
    requires forall m: nat :: wire.fault(m) == OneLoss(m)
    ensures wire.Failures(n) == if n > FIRST_CLEANUP then 1 else 0
  {
    if n > 0 { OneLossCounts(wire, n - 1); }
  }

  /** A page's worth of image at the start of flash is one page, covered entirely. */
  lemma OnePage(t: T.Target, chip: Chip)
    requires chip in CHIPS && chip.algo == Ch32v0 && Fits(t, chip)
    ensures Placed(t, FB_V, T.PAGE) && Covers(FB_V, T.PAGE, FirstPage(FB_V)) && PageCount(FB_V, T.PAGE) == 1
    ensures Spot(FB_V, 0) == 0 && Spot(FB_V, 1) == T.PAGE && chip.eraseSize == T.PAGE && !BadEraseSize(chip.eraseSize)
    ensures T.PAGE <= chip.flashSize
  {
    hide CHIPS;
    WritableRows(chip);
    PageIsGood();
  }

  /** A part whose erase of that page was not cleaned up after is as blank as it was. */
  lemma StaysBlank(t: T.Target, t': T.Target, size: nat, image: seq<byte>, cs: seq<CleanUps>)
    requires Placed(t, FB_V, |image|) && |image| == T.PAGE && |cs| == 1 == PageCount(FB_V, T.PAGE) && !cs[0].erase
    requires Spot(FB_V, 0) == 0 && Spot(FB_V, 1) == T.PAGE && t.flash == T.Blank(size)
    requires Holds(t'.flash, t, FB_V, image, cs)
    ensures t'.flash == T.Blank(size) && T.PAGE <= size
    ensures image != T.Blank(T.PAGE) ==> t'.flash != Overlay(T.Blank(size), 0, image)
  {
    hide Before, Meant, T.IsFlash, T.FlashOffset, PageCount, Spot;
    assert HoldsAt(t'.flash, Spot(FB_V, 0), Entry(t, FB_V, image, cs, 0));
    assert Entry(t, FB_V, image, cs, 0) == T.Blank(T.PAGE);
    assert t'.flash == t'.flash[0..T.PAGE] + t'.flash[T.PAGE..];
    assert T.Blank(size) == T.Blank(T.PAGE) + T.Blank(size)[T.PAGE..];
    assert Overlay(T.Blank(size), 0, image)[..T.PAGE] == image;
  }

  /** With one page there is nothing that could be refused. */
  lemma OneIsGranted(t: T.Target, image: seq<byte>, cs: seq<CleanUps>)
    requires Placed(t, FB_V, |image|) && |image| > 0 && |cs| <= 1 && |cs| <= PageCount(FB_V, |image|)
    ensures Granted(t, FB_V, image, cs)
  {}

  /** What a part that has just been built is to the writer, if nothing is ever busy. */
  lemma NewIsUndisturbed(s: D.State)
    requires Quiescent(s.target) && s.target.busy == 0 && forall n: nat :: s.target.lag(n) == 0 && s.dm.lag(n) == 0
    ensures Undisturbed(s) && Swift(s.dm) && Idling(s.target)
  {
    hide Has;
  }

  lemma LossIsThere(link: Link)
    requires forall n: nat :: link.wire.fault(n) == OneLoss(n)
    ensures LosesAt(link, 2, UNLOCK + BEFORE_CLEANUP)
  {}

  lemma CountOf(link: Link)
    requires CanUnlock(link)
    ensures link.wire.failed == link.wire.Failures(link.wire.sent)
  {}

  /** One page onto a new part, over a wire that loses that one request: the tool is told Ok, and the page is blank. */
  method OneLossBlanks(chip: Chip, image: seq<byte>) returns (link: Link, status: Status)
    requires chip in CHIPS && chip.algo == Ch32v0 && |image| == T.PAGE
    ensures (forall n: nat :: link.wire.fault(n) == OneLoss(n)) && link.wire.failed == 1 && status == Ok
    ensures link.State().target.flash == T.Blank(chip.flashSize) && T.PAGE <= chip.flashSize
    ensures image != T.Blank(T.PAGE) ==>
      link.State().target.flash != Overlay(T.Blank(chip.flashSize), 0, image)
  {
    hide CHIPS, Agrees, Fits, Goal, Overlay, Placed, CanStart, Contained, Reported, Stopped, RightChip, Undisturbed,
      Granted, AllMeant, Holds, Swift, Idling, CanUnlock, CanFlash, OnlyScratch, ProgramsBuilt, Covers, PageCount,
      Spot, FirstPage, LosesAt, T.Blank, BadEraseSize, Flashed, OneLoss, Quiescent;
    link := Plug(chip, n => 0, n => 0, (n: nat) => OneLoss(n), false);
    ghost var s := link.State();
    OnePage(s.target, chip);
    LossIsThere(link);
    EarlyAnswers();
    FlashIsReachable(link);
    status := Select(link, chip);
    NewIsUndisturbed(link.State());
    StillFlashes(link, s);
    SelectedUnlocks(link);
    CountOf(link);
    OneLossCounts(link.wire, link.wire.sent);
    var reports;
    ghost var cs, lost;
    status, reports, cs, lost := WriteCh32v0(link, chip, FB_V, image);
    CountOf(link);
    OneLossCounts(link.wire, link.wire.sent);
    OneIsGranted(s.target, image, cs);
    StaysBlank(s.target, link.State().target, chip.flashSize, image, cs);
  }

  lemma EarlyAnswers()
    ensures OneLoss(0) == OneLoss(1) == Transport.Answered
  {}

  lemma FlashIsReachable(link: Link)
    requires CanFlash(link)
    ensures Reachable(link) && |link.State().target.flash| <= 0x100_0000
  {}

  lemma StillFlashes(link: Link, s: D.State)
    requires Reachable(link) && SameTarget(s, link.State()) && |s.target.flash| <= 0x100_0000
    requires Undisturbed(link.State())
    ensures CanFlash(link)
  {}

  lemma StillFits(link: Link, t: T.Target, chip: Chip)
    requires CanFlash(link) && Fits(t, chip) && T.SameShape(t, link.State().target)
    ensures Fits(link.State().target, chip)
  {}

  /** The goal is an overlay at the offset that either spelling of the address names. */
  lemma GoalAt(t: T.Target, chip: Chip, address: nat, image: seq<byte>)
    requires chip in CHIPS && chip.algo == Ch32v0 && Fits(t, chip) && Refusal(chip, address, |image|) == Ok
    ensures InReach(t, chip, address, |image|)
    ensures Placed(t, Normalise(chip, address), |image|) && T.FlashOffset(address) + |image| <= |t.flash|
    ensures Goal(t, Normalise(chip, address), image) == Overlay(t.flash, T.FlashOffset(address), image)
  {
    hide CHIPS;
    WritableRows(chip);
    FitsReach(t, chip, address, |image|);
    RangeIsPlaced(t, chip, address, |image|);
    AliasesMeet(chip, address);
  }
}
