/**
 Driving the CH32V00x flash controller (the primitives of src/flash_ch32v0.c).

 Every primitive is proved on any wire.  When it returns Ok, the target is what the
 functions of FlashSteps say, and `cleaned` tells whether the clean-up took effect.
 When no request has failed, it returns Ok and everything took effect; when only those
 of its clean-up have, it still returns Ok, unless the controller refused something.
 When the wire has stopped answering, the contents of flash are still one of the two
 that the primitive is about.
 */
module FlashController {
  import opened Words
  import opened Chips
  import opened Linke
  import opened DmHost
  import Transport
  import opened FlashSteps
  import opened FlashLeftovers
  import opened FlashBounds
  import opened FlashSound
  import T = Target
  import D = DebugModule

  /** What every operation on the link keeps, whatever becomes of its requests. */
  twostate predicate Conduct(link: Link, status: Status)
    reads link, link.wire, link.wire.sim, link.programs
  {
    && Usable(link) && OnlyScratch(old(link.State()), link.State())
    && old(link.wire.failed) <= link.wire.failed && (status == Ok ==> link.wire.failed == old(link.wire.failed))
    && (old(link.wire.Dead()) ==> link.wire.Dead() && status != Ok && link.State() == old(link.State()))
  }

  /**
   How an operation came to its status: `lost` of the requests that failed belonged to
   clean-ups, whose answers nobody looks at, and if no other failed and nothing stood in
   the way, it returned Ok.
   */
  twostate predicate Tally(link: Link, status: Status, lost: nat, fine: bool)
    reads link.wire
  {
    && old(link.wire.failed) + lost <= link.wire.failed
    && (status == Ok ==> link.wire.failed == old(link.wire.failed) + lost)
    && (link.wire.failed == old(link.wire.failed) + lost && fine ==> status == Ok)
  }

  /** What every flash operation keeps on any wire; on one that has stopped answering, nothing happens any more. */
  twostate predicate FlashConduct(link: Link, status: Status)
    reads link, link.wire, link.wire.sim, link.programs
  {
    && Usable(link) && OnlyScratch(old(link.State()), link.State())
    && link.State().dm.lag == old(link.State().dm.lag)
    && T.SameShape(old(link.State().target), link.State().target)
    && (link.wire.Clean() ==> old(link.wire.Clean()) && status == Ok)
    && (link.wire.FailStop() && !old(link.wire.Clean()) ==> status != Ok && link.State() == old(link.State()))
  }

  /** What the steps of a primitive cost while nothing is busy, and how far into an erase its clean-up comes. */
  const UPDATE := LOAD + STORE
  const BEFORE_CLEANUP := LOAD + UPDATE + STORE + UPDATE + LOAD

  /** One status read: it tells whether the controller is busy, and uses up one busy poll. */
  method Poll(link: Link) returns (status: Status, value: word)
    requires Usable(link)
    modifies link.wire, link.wire.sim, link.programs
    ensures Conduct(link, status) && link.State().dm.lag == old(link.State().dm.lag)
    ensures var t, t' := Quiet(old(link.State().target)), Quiet(link.State().target);
      && t' == t.(busy := t'.busy) && t'.busy <= t.busy
      && (status == Ok ==> t'.busy == (if t.busy > 0 then t.busy - 1 else 0))
      && (status == Ok ==>
            (Has(value, T.STATR_BSY) <==> t.busy > 0) && (Has(value, T.STATR_WRPRTERR) <==> t.errors > 0))
    ensures link.wire.failed == old(link.wire.failed) && Prompt(old(link.State().dm)) ==> status == Ok
    ensures Swift(old(link.State().dm)) ==> Spent(link.wire, status, LOAD)
  {
    hide T.AccessLoad, T.StatrValue, Has, OnlyScratch;
    ghost var before := link.State();
    LoadStatr(before.target);
    StatrBits(before.target);
    status, value := ReadSized(link, 2, T.STATR);
    ScratchLag(before, link.State());
  }

  /** The state after some polls, none of which found the controller idle. */
  ghost predicate Polled(was: D.State, now: D.State, polls: nat) {
    && polls <= was.target.busy && OnlyScratch(was, now) && now.dm.lag == was.dm.lag
    && Quiet(now.target) == Quiet(was.target).(busy := was.target.busy - polls)
  }

  lemma NotPolled(s: D.State)
    ensures Polled(s, s, 0)
  {
    ScratchRefl(s);
  }

  /** One poll more; if it was not answered, it may or may not have been made. */
  lemma PolledMore(was: D.State, before: D.State, now: D.State, polls: nat)
    requires Polled(was, before, polls) && OnlyScratch(before, now) && now.dm.lag == before.dm.lag
    requires var t, t' := Quiet(before.target), Quiet(now.target); t' == t.(busy := t'.busy) && t'.busy <= t.busy
    ensures OnlyScratch(was, now) && now.dm.lag == was.dm.lag && before.dm.lag == was.dm.lag
    ensures var t, t' := Quiet(was.target), Quiet(now.target); t' == t.(busy := t'.busy) && t'.busy <= t.busy
    ensures Quiet(before.target).busy == was.target.busy - polls && Quiet(before.target).errors == was.target.errors
    ensures polls < was.target.busy && Quiet(now.target).busy == Quiet(before.target).busy - 1 ==>
      Polled(was, now, polls + 1)
  {
    ScratchTrans(was, before, now);
    hide OnlyScratch;
  }

  /** The polling loop: it stops at a failure, at the limit, or at a status that shows the controller idle. */
  method PollWhileBusy(link: Link) returns (status: Status, value: word)
    requires Usable(link)
    modifies link.wire, link.wire.sim, link.programs
    ensures Conduct(link, status) && link.State().dm.lag == old(link.State().dm.lag)
    ensures var t, t' := Quiet(old(link.State().target)), Quiet(link.State().target);
      && t' == t.(busy := t'.busy) && t'.busy <= t.busy
      && (status == Ok ==> (Has(value, T.STATR_BSY) <==> t.busy >= POLL_LIMIT))
      && (status == Ok && t.busy < POLL_LIMIT ==> t'.busy == 0 && (Has(value, T.STATR_WRPRTERR) <==> t.errors > 0))
    ensures link.wire.failed == old(link.wire.failed) && Prompt(old(link.State().dm)) ==> status == Ok
    ensures Swift(old(link.State().dm)) && old(link.State().target.busy) == 0 ==> Spent(link.wire, status, LOAD)
  {
    hide Has, OnlyScratch, Usable, Prompt, Polled, Quiet;
    ghost var was := link.State();
    NotPolled(was);
    value := 0;
    status := Ok;
    var polls := 0;
    HasNothing(T.STATR_BSY);
    while polls < POLL_LIMIT
      invariant 0 <= polls <= POLL_LIMIT && Usable(link) && status == Ok && Polled(was, link.State(), polls)
      invariant link.wire.failed == old(link.wire.failed) && (polls == 0 ==> link.wire.sent == old(link.wire.sent))
      invariant old(link.wire.Dead()) ==> link.wire.Dead() && polls == 0 && link.State() == was
      invariant Has(value, T.STATR_BSY) <==> polls > 0
    {
      ghost var before := link.State();
      status, value := Poll(link);
      PolledMore(was, before, link.State(), polls);
      SamePrompt(was.dm, before.dm);
      SameSwift(was.dm, before.dm);
      if status != Ok || !Has(value, T.STATR_BSY) {
        return;
      }
      polls := polls + 1;
    }
    PolledOut(was, link.State(), polls);
  }

  lemma PolledOut(was: D.State, now: D.State, polls: nat)
    requires Polled(was, now, polls)
    ensures OnlyScratch(was, now) && now.dm.lag == was.dm.lag && polls <= was.target.busy
    ensures var t, t' := Quiet(was.target), Quiet(now.target); t' == t.(busy := t'.busy) && t'.busy <= t.busy
  {}

  /** Polls until the controller is idle; afterwards it is, and it has refused nothing. */
  method WaitReady(link: Link) returns (status: Status)
    requires Usable(link)
    modifies link.wire, link.wire.sim, link.programs
    ensures Conduct(link, status) && link.State().dm.lag == old(link.State().dm.lag)
    ensures var t, t' := Quiet(old(link.State().target)), Quiet(link.State().target);
      && t' == t.(busy := t'.busy) && t'.busy <= t.busy
      && (status == Ok ==> t'.busy == 0 && t.errors == 0)
      && (link.wire.failed == old(link.wire.failed) && Prompt(old(link.State().dm)) ==>
            (status == Ok <==> t.busy < POLL_LIMIT && t.errors == 0))
    ensures Swift(old(link.State().dm)) && old(link.State().target.busy) == 0 ==> Spent(link.wire, status, LOAD)
  {
    hide Has, OnlyScratch, ProgramsBuilt, Prompt;
    var value;
    status, value := PollWhileBusy(link);
    if status != Ok {
      return;
    }
    if Has(value, T.STATR_BSY) {
      return TargetError;
    }
    if Has(value, T.STATR_WRPRTERR) {
      return TargetError;
    }
  }

  // The control register.

  method CtlrUpdate(link: Link, set_: word, clear: word) returns (status: Status)
    requires Usable(link)
    modifies link.wire, link.wire.sim, link.programs
    ensures Conduct(link, status) && link.State().dm.lag == old(link.State().dm.lag)
    ensures var t, t' := Quiet(old(link.State().target)), Quiet(link.State().target);
      var after := Ctl(t, set_, clear);
      (t' == t || t' == after) && (status == Ok ==> t' == after)
    ensures link.wire.failed == old(link.wire.failed) && Prompt(old(link.State().dm)) ==> status == Ok
    ensures Swift(old(link.State().dm)) ==> Spent(link.wire, status, UPDATE)
    ensures !Arrives(link.wire) ==> status != Ok && link.wire.failed > old(link.wire.failed)
    ensures !Arrives(link.wire) ==> Quiet(link.State().target) == Quiet(old(link.State().target))
  {
    hide T.AccessLoad, T.AccessStore, T.WriteCtlr, OnlyScratch, ProgramsBuilt, Prompt, Or, AndNot, D.Loaded, Word;
    ghost var was := link.State();
    LoadCtlr(was.target);
    var ctlr;
    status, ctlr := ReadSized(link, 2, T.CTLR);
    ghost var mid := link.State();
    ScratchLag(was, mid);
    SamePrompt(was.dm, mid.dm);
    SameSwift(was.dm, mid.dm);
    if status != Ok {
      return;
    }
    ctlr := AndNot(Or(ctlr, set_), clear);
    StoreCtlr(mid.target, ctlr);
    status := WriteSized(link, 2, T.CTLR, ctlr);
    ScratchTrans(was, mid, link.State());
  }

  // The primitives.

  /** As long as no request has failed, the controller is ready to be driven. */
  ghost predicate CanStart(link: Link)
    reads link, link.wire, link.wire.sim, link.programs
  {
    Usable(link) &&
    (link.wire.Clean() ==> Armed(link.State().target) && Prompt(link.State().dm) && CtrlPrompt(link.State().target))
  }

  lemma ArmedQuiet(t: T.Target)
    ensures Armed(Quiet(t)) == Armed(t) && CtrlPrompt(Quiet(t)) == CtrlPrompt(t)
  {}

  /**
   What is settled before a primitive begins: where it may go, how many requests have
   failed, and whether nothing stands in its way; and, if nothing is ever busy, how many
   requests are sent by the end of each step.
   */
  datatype Terms = Terms(zone: Zone, failed: nat, fine: bool, swift: bool, sent: nat)

  function After(k: Terms, n: nat): Terms { if k.swift then k.(sent := k.sent + n) else k }

  /**
   Where a primitive stands after some of its steps.  `e` is the target the steps so
   far have led to if every one of them returned Ok; f1 and f2 are the only contents
   flash can have on a wire that does not come back once it has failed.
   */
  ghost predicate Stage(link: Link, s0: D.State, status: Status, e: T.Target, f1: seq<byte>, f2: seq<byte>, k: Terms)
    reads link, link.wire, link.wire.sim, link.programs
  {
    && Usable(link) && OnlyScratch(s0, link.State()) && link.State().dm.lag == s0.dm.lag
    && T.SameShape(s0.target, link.State().target)
    && k.failed <= link.wire.failed && (link.wire.Clean() ==> k.fine) && (k.fine ==> Prompt(s0.dm))
    && (status == Ok ==> link.wire.failed == k.failed) && (link.wire.failed == k.failed && k.fine ==> status == Ok)
    && (k.swift ==> Swift(s0.dm) && link.wire.sent <= k.sent && (status == Ok ==> link.wire.sent == k.sent))
    && (status == Ok ==> Quiet(link.State().target) == e)
    && (link.wire.FailStop() || link.wire.Clean() ==> Either(link.State().target.flash, f1, f2))
    && Bounded(s0.target, link.State().target, k.zone)
  }

  ghost predicate Either(flash: seq<byte>, f1: seq<byte>, f2: seq<byte>) { flash == f1 || flash == f2 }

  lemma StageStart(link: Link, f1: seq<byte>, f2: seq<byte>, k: Terms)
    requires Usable(link) && Either(link.State().target.flash, f1, f2) && k.failed == link.wire.failed
    requires k.sent == link.wire.sent && (k.swift ==> Swift(link.State().dm))
    requires (link.wire.Clean() ==> k.fine) && (k.fine ==> Prompt(link.State().dm))
    ensures Stage(link, link.State(), Ok, Quiet(link.State().target), f1, f2, k)
  {
    ScratchRefl(link.State());
    BoundedRefl(link.State().target, k.zone);
  }

  lemma StageEnd(link: Link, s0: D.State, status: Status, e: T.Target, f1: seq<byte>, f2: seq<byte>, k: Terms)
    requires Stage(link, s0, status, e, f1, f2, k)
    ensures Usable(link) && OnlyScratch(s0, link.State()) && link.State().dm.lag == s0.dm.lag
    ensures T.SameShape(s0.target, link.State().target) && link.State().target.Valid()
    ensures link.wire.Clean() ==> status == Ok && Prompt(link.State().dm)
    ensures status == Ok ==> Quiet(link.State().target) == e && link.State().target.flash == e.flash
    ensures link.wire.FailStop() || link.wire.Clean() ==> Either(link.State().target.flash, f1, f2)
    ensures Bounded(s0.target, link.State().target, k.zone)
    ensures k.failed <= link.wire.failed && (status == Ok ==> link.wire.failed == k.failed)
    ensures link.wire.failed == k.failed && k.fine ==> status == Ok
    ensures k.swift ==> Swift(link.State().dm) && link.wire.sent <= k.sent
    ensures k.swift && status == Ok ==> link.wire.sent == k.sent
  {
    SameSwift(s0.dm, link.State().dm);
    SamePrompt(s0.dm, link.State().dm);
  }

  lemma KilledIsDead(link: Link)
    requires Usable(link)
    ensures link.wire.FailStop() && !link.wire.Clean() ==> link.wire.Dead()
  {
    hide ProgramsBuilt;
    if link.wire.FailStop() && !link.wire.Clean() { link.wire.FailStopKills(); }
  }

  /** A wait as the next step of a primitive, skipped once a step has failed. */
  method ThenWait(link: Link, before: Status, ghost s0: D.State, ghost e: T.Target, ghost f1: seq<byte>,
                  ghost f2: seq<byte>, ghost k: Terms)
    returns (status: Status)
    requires Stage(link, s0, before, e, f1, f2, k)
    requires before == Ok && k.fine ==> e.errors == 0 && e.busy < POLL_LIMIT
    requires before == Ok && k.swift ==> e.busy == 0
    modifies link.wire, link.wire.sim, link.programs
    ensures Stage(link, s0, status, e.(busy := 0), f1, f2, After(k, LOAD))
    ensures status == Ok ==> before == Ok && e.errors == 0
    ensures old(link.wire.failed) <= link.wire.failed
    ensures link.wire.FailStop() && !old(link.wire.Clean()) ==> status != Ok && link.State() == old(link.State())
  {
    hide OnlyScratch, ProgramsBuilt, Prompt, Either, Bounded, Usable, Swift;
    ghost var mid := link.State();
    KilledIsDead(link);
    status := before;
    if status == Ok {
      SamePrompt(s0.dm, mid.dm);
      SameSwift(s0.dm, mid.dm);
      QuietBusy(mid.target);
      status := WaitReady(link);
      ScratchTrans(s0, mid, link.State());
      QuietFlash(mid.target, link.State().target);
      PollBounds(s0.target, mid.target, link.State().target, k.zone);
    }
  }

  lemma QuietBusy(t: T.Target)
    ensures Quiet(t).busy == t.busy
  {}

  lemma QuietFlash(t: T.Target, t': T.Target)
    requires Quiet(t') == Quiet(t).(busy := Quiet(t').busy)
    ensures t'.flash == t.flash && T.SameShape(t, t')
  {
    assert Quiet(t').flash == t'.flash && Quiet(t').ram == t'.ram && Quiet(t').ramBase == t'.ramBase;
  }

  /** An update of CTLR as the next step, skipped once a step has failed. */
  method ThenUpdate(link: Link, before: Status, set_: word, clear: word,
                    ghost s0: D.State, ghost e: T.Target, ghost f1: seq<byte>, ghost f2: seq<byte>, ghost k: Terms)
    returns (status: Status)
    requires Stage(link, s0, before, e, f1, f2, k)
    requires link.wire.Clean() ==> Either(Ctl(e, set_, clear).flash, f1, f2)
    requires Modest(set_) && (before == Ok && Has(set_, T.CTLR_STRT) ==> PageInZone(e.addr, k.zone))
    modifies link.wire, link.wire.sim, link.programs
    ensures Stage(link, s0, status, Ctl(e, set_, clear), f1, f2, After(k, UPDATE))
    ensures status == Ok ==> before == Ok
    ensures old(link.wire.failed) <= link.wire.failed
    ensures link.wire.FailStop() && !old(link.wire.Clean()) ==> status != Ok && link.State() == old(link.State())
  {
    hide OnlyScratch, ProgramsBuilt, Prompt, Ctl, Either, Modest, PageInZone, Bounded, Has, Usable, Swift;
    ghost var mid := link.State();
    KilledIsDead(link);
    status := before;
    if status == Ok {
      SamePrompt(s0.dm, mid.dm);
      SameSwift(s0.dm, mid.dm);
      status := CtlrUpdate(link, set_, clear);
      ScratchTrans(s0, mid, link.State());
      QuietShape(mid.target, e, link.State().target);
      QuietShape(mid.target, Ctl(e, set_, clear), link.State().target);
      UpdateBounds(s0.target, mid.target, link.State().target, set_, clear, k.zone);
    }
  }

  /** The shape and the flash of a target show in its quiet form. */
  lemma QuietShape(t: T.Target, e: T.Target, t': T.Target)
    ensures Quiet(t') == e ==> t'.flash == e.flash && (T.SameShape(Quiet(t), e) ==> T.SameShape(t, t'))
  {}

  /** The clean-up at the end of every primitive: it runs whatever the status, and its own is ignored. */
  method FinallyUpdate(link: Link, clear: word, ghost status: Status,
                       ghost s0: D.State, ghost e: T.Target, ghost f1: seq<byte>, ghost f2: seq<byte>, ghost k: Terms)
    returns (ghost cleaned: bool, ghost lost: nat)
    requires Stage(link, s0, status, e, f1, f2, k)
    requires link.wire.Clean() ==> Either(Ctl(e, 0, clear).flash, f1, f2)
    modifies link.wire, link.wire.sim, link.programs
    ensures Stage(link, s0, status, Cleaned(e, clear, cleaned), f1, f2, k.(failed := k.failed + lost, swift := false))
    ensures !Arrives(link.wire) ==> lost > 0 && Quiet(link.State().target) == Quiet(old(link.State().target))
    ensures !Arrives(link.wire) && status == Ok && Ctl(e, 0, clear) != e ==> !cleaned
    ensures link.wire.failed == old(link.wire.failed) + lost && (lost == 0 && Prompt(s0.dm) ==> cleaned)
    ensures link.wire.FailStop() && !old(link.wire.Clean()) ==> link.State() == old(link.State())
  {
    hide OnlyScratch, ProgramsBuilt, Prompt, Ctl, Either, Modest, PageInZone, Bounded, Has, Usable, Swift;
    ghost var mid := link.State();
    KilledIsDead(link);
    SamePrompt(s0.dm, mid.dm);
    var ignored := CtlrUpdate(link, 0, clear);
    ScratchTrans(s0, mid, link.State());
    lost := link.wire.failed - old(link.wire.failed);
    cleaned := Quiet(link.State().target) == Ctl(Quiet(mid.target), 0, clear);
    QuietShape(mid.target, Quiet(mid.target), link.State().target);
    QuietShape(mid.target, Ctl(Quiet(mid.target), 0, clear), link.State().target);
    ModestSets();
    UpdateBounds(s0.target, mid.target, link.State().target, 0, clear, k.zone);
  }

  /** A store as the next step: `e'` is what it makes of the state if everything so far was Ok. */
  method ThenStore(link: Link, before: Status, address: nat, value: word,
                   ghost s0: D.State, ghost e: T.Target, ghost e': T.Target, ghost f1: seq<byte>, ghost f2: seq<byte>,
                   ghost k: Terms)
    returns (status: Status)
    requires Stage(link, s0, before, e, f1, f2, k) && address < WORD_LIMIT
    requires var t' := Quiet(T.AccessStore(link.State().target, address, 2, value));
      && T.SameShape(link.State().target, t') && (before == Ok ==> t' == e')
      && Bounded(Quiet(link.State().target), t', k.zone)
    requires link.wire.Clean() ==> Either(e'.flash, f1, f2)
    modifies link.wire, link.wire.sim, link.programs
    ensures Stage(link, s0, status, e', f1, f2, After(k, STORE))
    ensures status == Ok ==> before == Ok
    ensures old(link.wire.failed) <= link.wire.failed
    ensures link.wire.FailStop() && !old(link.wire.Clean()) ==> status != Ok && link.State() == old(link.State())
  {
    hide OnlyScratch, ProgramsBuilt, Prompt, T.AccessStore, Word, Either, Bounded, Usable, Swift;
    ghost var mid := link.State();
    StageEnd(link, s0, before, e, f1, f2, k);
    KilledIsDead(link);
    status := before;
    if status == Ok {
      SamePrompt(s0.dm, mid.dm);
      SameSwift(s0.dm, mid.dm);
      status := WriteSized(link, 2, address, value);
      ScratchTrans(s0, mid, link.State());
      QuietShape(mid.target, e', link.State().target);
      StoreBounds(s0.target, mid.target, link.State().target, T.AccessStore(mid.target, address, 2, value), k.zone);
    }
  }

  /** The page register as the next step; no other field changes. */
  method ThenAddr(link: Link, before: Status, page: nat, ghost s0: D.State, ghost e: T.Target, ghost f1: seq<byte>,
                  ghost f2: seq<byte>, ghost k: Terms)
    returns (status: Status)
    requires Stage(link, s0, before, e, f1, f2, k) && page < WORD_LIMIT && PageInZone(Word(page), k.zone)
    modifies link.wire, link.wire.sim, link.programs
    ensures Stage(link, s0, status, e.(addr := Word(page)), f1, f2, After(k, STORE))
    ensures status == Ok ==> before == Ok
    ensures old(link.wire.failed) <= link.wire.failed
    ensures link.wire.FailStop() && !old(link.wire.Clean()) ==> status != Ok && link.State() == old(link.State())
  {
    hide OnlyScratch, ProgramsBuilt, T.AccessStore, Prompt, Stage, Word, Usable;
    ghost var t := link.State().target;
    StageEnd(link, s0, before, e, f1, f2, k);
    StoreAddr(t, Word(page));
    AddrBounded(Quiet(t), Word(page), k.zone);
    QuietShape(t, Quiet(t).(addr := Word(page)), T.AccessStore(t, T.ADDR, 2, Word(page)));
    status := ThenStore(link, before, T.ADDR, Word(page), s0, e, e.(addr := Word(page)), f1, f2, k);
  }

  /** Nothing keeps the controller busy. */
  ghost predicate Idling(t: T.Target) { t.busy == 0 && forall n: nat :: t.lag(n) == 0 }

  ghost predicate AllAnswered(link: Link, from: nat, n: nat) {
    forall m: nat :: from <= m < from + n ==> link.wire.fault(m) == Transport.Answered
  }

  /**
   The clean-up comes after n requests: if all of them were answered, the status is Ok,
   and if the next one was not, the clean-up is lost.
   */
  twostate predicate CleanUpAfter(link: Link, status: Status, lost: nat, n: nat, gone: bool)
    reads link.wire
  {
    AllAnswered(link, old(link.wire.sent), n) ==>
      status == Ok && (link.wire.fault(old(link.wire.sent) + n) != Transport.Answered ==> gone && lost > 0)
  }

  /** A controller that is never busy is not busy after an erase has been started. */
  lemma EraseIdles(t: T.Target, page: nat)
    requires Idling(t) && page < WORD_LIMIT
    ensures Idling(Quiet(t)) && Quiet(t).busy == 0 && EraseRun(Quiet(t), page).busy == 0
  {
    hide T.WriteCtlr, Word, Or, AndNot;
    var t0 := Quiet(t).(busy := 0);
    WriteBusy(t0, Updated(t0, T.CTLR_PAGE_ER, 0));
    var t1 := Ctl(t0, T.CTLR_PAGE_ER, 0).(addr := Word(page));
    WriteBusy(t1, Updated(t1, T.CTLR_STRT, 0));
  }

  /** The clean-up of an erase changes CTLR. */
  lemma EraseIsDirty(t: T.Target, page: nat)
    requires Open(t) && page < WORD_LIMIT
    ensures var e := EraseRun(t, page).(busy := 0); Ctl(e, 0, Or(T.CTLR_PAGE_ER, T.CTLR_STRT)) != e
  {
    hide Ctl, Next, BitsOf, Or, Word;
    var t0 := t.(busy := 0);
    CtlSets(t0, T.CTLR_PAGE_ER, 0);
    var t1 := Ctl(t0, T.CTLR_PAGE_ER, 0).(addr := Word(page));
    CtlSets(t1, T.CTLR_STRT, 0);
    SetStrt(t1.ctlr);
    var t2 := Ctl(t1, T.CTLR_STRT, 0).(busy := 0);
    CtlSets(t2, 0, Or(T.CTLR_PAGE_ER, T.CTLR_STRT));
    ClearErase(t2.ctlr);
  }

  /** After at most n requests nothing has failed if all n were going to be answered. */
  lemma NoneFailed(link: Link, from: nat, n: nat, failed0: nat)
    requires Usable(link) && failed0 == link.wire.Failures(from) && failed0 <= link.wire.failed
    requires link.wire.sent <= from + n
    ensures AllAnswered(link, from, n) ==> link.wire.failed == failed0
  {
    link.wire.FailuresGrow(from, from + n);
    link.wire.FailuresGrow(link.wire.sent, from + n);
  }

  lemma Counted(link: Link)
    requires Usable(link)
    ensures link.wire.failed == link.wire.Failures(link.wire.sent)
  {}

  /** The steps of an erase up to its clean-up. */
  method EraseToCleanUp(link: Link, page: nat, ghost s: D.State, ghost t: T.Target, ghost f1: seq<byte>,
                    ghost f2: seq<byte>, ghost k0: Terms)
    returns (status: Status)
    requires Stage(link, s, Ok, t, f1, f2, k0) && page < WORD_LIMIT && PageInZone(Word(page), k0.zone)
    requires k0.fine ==> t.errors == 0 && t.busy < POLL_LIMIT
    requires k0.fine ==> EraseRun(t, page).errors == 0 && EraseRun(t, page).busy < POLL_LIMIT
    requires k0.swift ==> t.busy == 0 && EraseRun(t, page).busy == 0
    requires link.wire.Clean() ==> Either(Ctl(t.(busy := 0), T.CTLR_PAGE_ER, 0).flash, f1, f2)
    requires link.wire.Clean() ==> Either(EraseRun(t, page).flash, f1, f2)
    modifies link.wire, link.wire.sim, link.programs
    ensures Stage(link, s, status, EraseRun(t, page).(busy := 0), f1, f2, After(k0, BEFORE_CLEANUP))
    ensures old(link.wire.failed) <= link.wire.failed
    ensures link.wire.FailStop() && !old(link.wire.Clean()) ==> status != Ok && link.State() == old(link.State())
  {
    hide Has, Or, AndNot, Word, Modest, PageInZone, Bounded, T.Erased, T.WriteCtlr, Ctl, OnlyScratch, ProgramsBuilt,
      T.AccessStore, Prompt, Stage, Usable, T.FlashOffset, Either;
    ModestSets();
    ghost var k := k0;
    status := ThenWait(link, Ok, s, t, f1, f2, k);
    k := After(k, LOAD);
    ghost var e := t.(busy := 0);
    status := ThenUpdate(link, status, T.CTLR_PAGE_ER, 0, s, e, f1, f2, k);
    k := After(k, UPDATE);
    e := Ctl(e, T.CTLR_PAGE_ER, 0);
    status := ThenAddr(link, status, page, s, e, f1, f2, k);
    k := After(k, STORE);
    e := e.(addr := Word(page));
    status := ThenUpdate(link, status, T.CTLR_STRT, 0, s, e, f1, f2, k);
    k := After(k, UPDATE);
    e := Ctl(e, T.CTLR_STRT, 0);
    status := ThenWait(link, status, s, e, f1, f2, k);
    k := After(k, LOAD);
    e := e.(busy := 0);
  }

  /** The clean-up of an erase. */
  method EraseCleanUp(link: Link, page: nat, ghost status: Status, ghost s: D.State, ghost t: T.Target,
                      ghost f1: seq<byte>, ghost f2: seq<byte>, ghost k: Terms)
    returns (ghost cleaned: bool, ghost lost: nat)
    requires page < WORD_LIMIT && Stage(link, s, status, EraseRun(t, page).(busy := 0), f1, f2, k)
    requires link.wire.Clean() ==>
      Either(Ctl(EraseRun(t, page).(busy := 0), 0, Or(T.CTLR_PAGE_ER, T.CTLR_STRT)).flash, f1, f2)
    modifies link.wire, link.wire.sim, link.programs
    ensures Usable(link) && OnlyScratch(s, link.State()) && link.State().dm.lag == s.dm.lag
    ensures T.SameShape(s.target, link.State().target) && Bounded(s.target, link.State().target, k.zone)
    ensures link.wire.Clean() ==> status == Ok && cleaned && Prompt(link.State().dm)
    ensures status == Ok ==> Quiet(link.State().target) == Erasing(t, page, cleaned)
    ensures link.wire.FailStop() || link.wire.Clean() ==> Either(link.State().target.flash, f1, f2)
    ensures link.wire.failed == old(link.wire.failed) + lost
    ensures status == Ok ==> link.wire.failed == k.failed + lost
    ensures link.wire.failed == k.failed + lost && k.fine ==> status == Ok
    ensures k.failed + lost <= link.wire.failed
    ensures !Arrives(link.wire) ==> lost > 0 && (status == Ok && Open(t) ==> !cleaned)
    ensures link.wire.FailStop() && !old(link.wire.Clean()) ==> link.State() == old(link.State())
  {
    hide Has, Or, AndNot, Word, Modest, PageInZone, Bounded, T.WriteCtlr, Ctl, OnlyScratch, ProgramsBuilt, Prompt,
      Stage, Usable, EraseRun, Open, Either, Arrives;
    ghost var e := EraseRun(t, page).(busy := 0);
    StageEnd(link, s, status, e, f1, f2, k);
    if Open(t) { EraseIsDirty(t, page); }
    cleaned, lost := FinallyUpdate(link, Or(T.CTLR_PAGE_ER, T.CTLR_STRT), status, s, e, f1, f2, k);
    e := Cleaned(e, Or(T.CTLR_PAGE_ER, T.CTLR_STRT), cleaned);
    StageEnd(link, s, status, e, f1, f2, k.(failed := k.failed + lost, swift := false));
    SamePrompt(s.dm, link.State().dm);
    EraseInSteps(t, page);
  }

  /** The terms of an erase. */
  ghost function EraseTerms(link: Link, z: Zone): Terms
    reads link, link.wire, link.wire.sim, link.programs
  {
    var t, d := link.State().target, link.State().dm;
    Terms(z, link.wire.failed, Sound(t) && Prompt(d), Swift(d) && Idling(t), link.wire.sent)
  }

  /** What its steps need to know. */
  lemma EraseStarts(link: Link, page: nat, z: Zone)
    requires CanStart(link) && page < WORD_LIMIT
    ensures Usable(link) && link.State().target.Valid() && link.wire.failed == link.wire.Failures(link.wire.sent)
    ensures var t, k := Quiet(link.State().target), EraseTerms(link, z);
      var f1, f2 := t.flash, T.Erased(t.flash, T.FlashOffset(page), T.PAGE);
      && Stage(link, link.State(), Ok, t, f1, f2, k) && f1 == link.State().target.flash
      && (k.fine ==> t.errors == 0 && t.busy < POLL_LIMIT)
      && (k.fine ==> EraseRun(t, page).errors == 0 && EraseRun(t, page).busy < POLL_LIMIT)
      && (Sound(link.State().target) ==> Open(t))
      && (k.swift ==> t.busy == 0 && EraseRun(t, page).busy == 0)
  {
    hide Has, Or, AndNot, Word, Bounded, T.Erased, T.WriteCtlr, Ctl, OnlyScratch, ProgramsBuilt, Prompt, Armed,
      CtrlPrompt, T.FlashOffset, EraseRun, Sound, Idling, Swift, Stage, Erasing;
    var s := link.State();
    var t := Quiet(s.target);
    StartIsUsable(link);
    Counted(link);
    QuietSound(s.target);
    QuietFlash(s.target, s.target);
    if link.wire.Clean() { ArmedSound(s.target); }
    StageStart(link, t.flash, T.Erased(t.flash, T.FlashOffset(page), T.PAGE), EraseTerms(link, z));
    if Sound(s.target) {
      EraseTame(t, page, false);
      SoundOpen(t);
      SoundOpen(EraseRun(t, page));
    }
    if Idling(s.target) { EraseIdles(s.target, page); }
  }

  /** On a wire that has not failed flash is at one of the two contents at every step, and the controller ends idle. */
  lemma CleanErase(link: Link, page: nat)
    requires CanStart(link) && page < WORD_LIMIT && link.wire.Clean()
    ensures var t := Quiet(link.State().target);
      var f1, f2, e := t.flash, T.Erased(t.flash, T.FlashOffset(page), T.PAGE), EraseRun(t, page).(busy := 0);
      && Either(Ctl(t.(busy := 0), T.CTLR_PAGE_ER, 0).flash, f1, f2) && Either(EraseRun(t, page).flash, f1, f2)
      && Either(Ctl(e, 0, Or(T.CTLR_PAGE_ER, T.CTLR_STRT)).flash, f1, f2)
      && Armed(Erasing(t, page, true)) && CtrlPrompt(Erasing(t, page, true))
  {
    hide Has, Or, AndNot, Word, T.Erased, T.WriteCtlr, Ctl, OnlyScratch, ProgramsBuilt, Prompt, Armed, CtrlPrompt,
      T.FlashOffset;
    ArmedQuiet(link.State().target);
    EraseStages(Quiet(link.State().target), page);
  }

  /** The erase sequence, as EraseRun and its clean-up. */
  method EraseFast(link: Link, page: nat, ghost z: Zone)
    returns (status: Status, ghost cleaned: bool, ghost lost: nat)
    requires CanStart(link) && page < WORD_LIMIT
    requires PageInZone(Word(page), z)
    modifies link.wire, link.wire.sim, link.programs
    ensures Bounded(old(link.State().target), link.State().target, z)
    ensures FlashConduct(link, status) && CanStart(link) && (link.wire.Clean() ==> cleaned)
    ensures Tally(link, status, lost,
      Sound(old(link.State().target)) && Prompt(old(link.State().dm)))
    ensures status == Ok ==> Quiet(link.State().target) == Erasing(Quiet(old(link.State().target)), page, cleaned)
    ensures var t := old(link.State().target); var blank := T.Erased(t.flash, T.FlashOffset(page), T.PAGE);
      link.wire.FailStop() ==> Either(link.State().target.flash, t.flash, blank)
    ensures var d, t := old(link.State().dm), old(link.State().target);
      Swift(d) && Idling(t) && Sound(t) ==> CleanUpAfter(link, status, lost, BEFORE_CLEANUP, !cleaned)
  {
    hide Has, Or, AndNot, Word, Modest, PageInZone, Bounded, T.Erased, T.WriteCtlr, Ctl, OnlyScratch, ProgramsBuilt,
      T.AccessStore, Prompt, Stage, Armed, CtrlPrompt, Usable, T.FlashOffset, Sound, Swift, Idling, AllAnswered,
      EraseRun, Open, Either, Erasing;
    ghost var s, t := link.State(), Quiet(link.State().target);
    ghost var f1, f2 := s.target.flash, T.Erased(s.target.flash, T.FlashOffset(page), T.PAGE);
    ghost var k;
    status, k := EraseBegins(link, page, z);
    cleaned, lost := EraseCleanUp(link, page, status, s, t, f1, f2, k);
    ArmedQuiet(link.State().target);
  }

  /** An erase up to its clean-up, from where a primitive may start. */
  method EraseBegins(link: Link, page: nat, ghost z: Zone) returns (status: Status, ghost k: Terms)
    requires CanStart(link) && page < WORD_LIMIT && PageInZone(Word(page), z)
    modifies link.wire, link.wire.sim, link.programs
    ensures var t := Quiet(old(link.State().target));
      var f1, f2, e := t.flash, T.Erased(t.flash, T.FlashOffset(page), T.PAGE), EraseRun(t, page).(busy := 0);
      && Stage(link, old(link.State()), status, e, f1, f2, k) && f1 == old(link.State().target.flash)
      && (link.wire.Clean() ==> Either(Ctl(e, 0, Or(T.CTLR_PAGE_ER, T.CTLR_STRT)).flash, f1, f2))
      && (link.wire.Clean() ==> Armed(Erasing(t, page, true)) && CtrlPrompt(Erasing(t, page, true)))
      && (Sound(old(link.State().target)) ==> Open(t))
    ensures k.zone == z && k.failed == old(link.wire.failed) <= link.wire.failed
    ensures k.fine <==> Sound(old(link.State().target)) && Prompt(old(link.State().dm))
    ensures Swift(old(link.State().dm)) && Idling(old(link.State().target)) && Sound(old(link.State().target)) &&
            AllAnswered(link, old(link.wire.sent), BEFORE_CLEANUP) ==>
      status == Ok && link.wire.sent == old(link.wire.sent) + BEFORE_CLEANUP
    ensures link.wire.FailStop() && !old(link.wire.Clean()) ==> status != Ok && link.State() == old(link.State())
  {
    hide Has, Or, AndNot, Word, Modest, PageInZone, Bounded, T.Erased, T.WriteCtlr, Ctl, OnlyScratch, ProgramsBuilt,
      T.AccessStore, Prompt, Stage, Armed, CtrlPrompt, Usable, T.FlashOffset, Sound, Swift, Idling, AllAnswered,
      EraseRun, Open, Either, EraseTerms, Erasing;
    ghost var s, t := link.State(), Quiet(link.State().target);
    ghost var f1, f2 := s.target.flash, T.Erased(s.target.flash, T.FlashOffset(page), T.PAGE);
    k := EraseTerms(link, z);
    EraseTermsAre(link, z);
    EraseStarts(link, page, z);
    if link.wire.Clean() { CleanErase(link, page); }
    status := EraseToCleanUp(link, page, s, t, f1, f2, k);
    k := After(k, BEFORE_CLEANUP);
    StageEnd(link, s, status, EraseRun(t, page).(busy := 0), f1, f2, k);
    if k.swift && k.fine { NoneFailed(link, old(link.wire.sent), BEFORE_CLEANUP, k.failed); }
  }

  lemma EraseTermsAre(link: Link, z: Zone)
    ensures var k, t, d := EraseTerms(link, z), link.State().target, link.State().dm;
      && k.zone == z && k.failed == link.wire.failed && k.sent == link.wire.sent
      && (k.fine <==> Sound(t) && Prompt(d)) && (k.swift <==> Swift(d) && Idling(t)) && (Swift(d) ==> Prompt(d))
  {
    SameSwift(link.State().dm, link.State().dm);
  }

  /** EraseRun in its steps. */
  lemma EraseInSteps(t: T.Target, page: nat)
    requires page < WORD_LIMIT
    ensures Erasing(t, page, true) == Cleaned(EraseRun(t, page).(busy := 0), Or(T.CTLR_PAGE_ER, T.CTLR_STRT), true)
    ensures Erasing(t, page, false) == EraseRun(t, page).(busy := 0)
  {}

  lemma StartIsUsable(link: Link)
    requires CanStart(link)
    ensures Usable(link) && link.State().target.Valid() && (link.wire.Clean() ==> Prompt(link.State().dm))
  {}

  /** The buffer-reset sequence, as ResetRun and its clean-up. */
  method BufferReset(link: Link, ghost z: Zone)
    returns (status: Status, ghost cleaned: bool, ghost lost: nat)
    requires CanStart(link)
    modifies link.wire, link.wire.sim, link.programs
    ensures Bounded(old(link.State().target), link.State().target, z)
    ensures FlashConduct(link, status) && CanStart(link) && (link.wire.Clean() ==> cleaned)
    ensures Tally(link, status, lost,
      Tame(old(link.State().target)) && Prompt(old(link.State().dm)))
    ensures status == Ok ==> Quiet(link.State().target) == Resetting(Quiet(old(link.State().target)), cleaned)
    ensures link.wire.FailStop() ==> link.State().target.flash == old(link.State().target.flash)
  {
    hide Has, Or, AndNot, Modest, PageInZone, Bounded, T.WriteCtlr, Ctl, OnlyScratch, ProgramsBuilt, Prompt, Stage,
      Armed, CtrlPrompt, Usable;
    ModestSets();
    ghost var s := link.State();
    ghost var f, t := s.target.flash, Quiet(s.target);
    StartIsUsable(link);
    if link.wire.Clean() {
      ArmedQuiet(s.target);
      ArmedSound(s.target);
      ResetStages(t);
    }
    ghost var k := Terms(z, link.wire.failed, Tame(s.target) && Prompt(s.dm), false, link.wire.sent);
    QuietSound(s.target);
    if k.fine {
      ResetTame(t, false);
      SoundOpen(ResetRun(t));
    }
    StageStart(link, f, f, k);
    status := ThenUpdate(link, Ok, T.CTLR_PAGE_PG, 0, s, t, f, f, k);
    ghost var e := Ctl(t, T.CTLR_PAGE_PG, 0);
    status := ThenUpdate(link, status, T.CTLR_BUF_RST, 0, s, e, f, f, k);
    e := Ctl(e, T.CTLR_BUF_RST, 0);
    status := ThenWait(link, status, s, e, f, f, k);
    e := e.(busy := 0);
    cleaned, lost := FinallyUpdate(link, Or(T.CTLR_PAGE_PG, T.CTLR_BUF_RST), status, s, e, f, f, k);
    e := Cleaned(e, Or(T.CTLR_PAGE_PG, T.CTLR_BUF_RST), cleaned);
    StageEnd(link, s, status, e, f, f, k.(failed := k.failed + lost, swift := false));
    ArmedQuiet(link.State().target);
  }

  /** The load sequence for one word, as LoadRun and its clean-up. */
  method BufferLoad(link: Link, address: nat, word: word, ghost z: Zone)
    returns (status: Status, ghost cleaned: bool, ghost lost: nat)
    requires CanStart(link) && InFlash(link.State().target, address) && address < WORD_LIMIT
    modifies link.wire, link.wire.sim, link.programs
    ensures Bounded(old(link.State().target), link.State().target, z)
    ensures FlashConduct(link, status) && CanStart(link) && (link.wire.Clean() ==> cleaned)
    ensures Tally(link, status, lost,
      Tame(old(link.State().target)) && Prompt(old(link.State().dm)))
    ensures old(link.State().target.Valid())
    ensures status == Ok ==>
      Quiet(link.State().target) == Loading(Quiet(old(link.State().target)), address, word, cleaned)
    ensures link.wire.FailStop() ==> link.State().target.flash == old(link.State().target.flash)
  {
    hide Has, Or, AndNot, Modest, PageInZone, Bounded, T.WriteCtlr, Ctl, OnlyScratch, ProgramsBuilt, Prompt, Stage,
      T.AccessStore, StoreWordTo, Armed, CtrlPrompt, Usable, T.IsFlash, T.FlashOffset;
    ModestSets();
    ghost var s := link.State();
    ghost var f, t := s.target.flash, Quiet(s.target);
    StartIsUsable(link);
    if link.wire.Clean() {
      ArmedQuiet(s.target);
      ArmedSound(s.target);
      LoadStages(t, address, word);
    }
    ghost var k := Terms(z, link.wire.failed, Tame(s.target) && Prompt(s.dm), false, link.wire.sent);
    QuietSound(s.target);
    if k.fine {
      LoadTame(t, address, word, false);
      SoundOpen(LoadRun(t, address, word));
    }
    StageStart(link, f, f, k);
    status := ThenUpdate(link, Ok, T.CTLR_PAGE_PG, 0, s, t, f, f, k);
    ghost var e := Ctl(t, T.CTLR_PAGE_PG, 0);
    StageEnd(link, s, status, e, f, f, k);
    StoreFlash(link.State().target, address, word);
    StoreBounded(Quiet(link.State().target), address, word, z);
    status := ThenStore(link, status, address, word, s, e, StoreWordTo(e, address, word), f, f, k);
    e := StoreWordTo(e, address, word);
    status := ThenUpdate(link, status, T.CTLR_BUF_LOAD, 0, s, e, f, f, k);
    e := Ctl(e, T.CTLR_BUF_LOAD, 0);
    status := ThenWait(link, status, s, e, f, f, k);
    e := e.(busy := 0);
    cleaned, lost := FinallyUpdate(link, Or(T.CTLR_PAGE_PG, T.CTLR_BUF_LOAD), status, s, e, f, f, k);
    e := Cleaned(e, Or(T.CTLR_PAGE_PG, T.CTLR_BUF_LOAD), cleaned);
    StageEnd(link, s, status, e, f, f, k.(failed := k.failed + lost, swift := false));
    ArmedQuiet(link.State().target);
  }

  /** The program sequence, as ProgramRun and its clean-up. */
  method ProgramFast(link: Link, page: nat, ghost z: Zone)
    returns (status: Status, ghost cleaned: bool, ghost lost: nat)
    requires CanStart(link) && page < WORD_LIMIT
    requires link.wire.Clean() ==>
      link.State().target.busy == 0 && BlankAt(link.State().target.flash, T.FlashOffset(page))
    requires PageInZone(Word(page), z)
    modifies link.wire, link.wire.sim, link.programs
    ensures Bounded(old(link.State().target), link.State().target, z)
    ensures FlashConduct(link, status) && CanStart(link) && (link.wire.Clean() ==> cleaned)
    ensures Tally(link, status, lost,
      Tame(old(link.State().target)) && Prompt(old(link.State().dm)) &&
      ProgramRun(Quiet(old(link.State().target)), page).errors == 0)
    ensures status == Ok ==> Quiet(link.State().target) == Programming(Quiet(old(link.State().target)), page, cleaned)
    ensures status == Ok && Open(old(link.State().target)) ==> link.State().target.errors == 0
    ensures var t := old(link.State().target); var written := T.Programmed(t.flash, T.FlashOffset(page), t.pageBuf);
      link.wire.FailStop() ==> Either(link.State().target.flash, t.flash, written)
  {
    hide Has, Or, AndNot, Word, Modest, PageInZone, Bounded, T.Programmed, T.WriteCtlr, Ctl, OnlyScratch,
      ProgramsBuilt, T.AccessStore, Prompt, Stage, Armed, CtrlPrompt, Usable, T.FlashOffset, BlankAt;
    ModestSets();
    ghost var s := link.State();
    ghost var f1, f2 := s.target.flash, T.Programmed(s.target.flash, T.FlashOffset(page), s.target.pageBuf);
    ghost var t := Quiet(s.target);
    StartIsUsable(link);
    if link.wire.Clean() {
      ArmedQuiet(s.target);
      ArmedSound(s.target);
      ProgramStages(t, page);
    }
    ghost var k := Terms(z, link.wire.failed, Tame(s.target) && Prompt(s.dm) && ProgramRun(t, page).errors == 0,
                         false, link.wire.sent);
    QuietSound(s.target);
    if k.fine {
      ProgramSound(t, page, false);
      IsSound(ProgramRun(t, page));
      SoundOpen(ProgramRun(t, page));
    }
    StageStart(link, f1, f2, k);
    status := ThenUpdate(link, Ok, T.CTLR_PAGE_PG, 0, s, t, f1, f2, k);
    ghost var e := Ctl(t, T.CTLR_PAGE_PG, 0);
    status := ThenAddr(link, status, page, s, e, f1, f2, k);
    e := e.(addr := Word(page));
    status := ThenUpdate(link, status, T.CTLR_STRT, 0, s, e, f1, f2, k);
    e := Ctl(e, T.CTLR_STRT, 0);
    status := ThenWait(link, status, s, e, f1, f2, k);
    e := e.(busy := 0);
    cleaned, lost := FinallyUpdate(link, Or(T.CTLR_PAGE_PG, T.CTLR_STRT), status, s, e, f1, f2, k);
    e := Cleaned(e, Or(T.CTLR_PAGE_PG, T.CTLR_STRT), cleaned);
    StageEnd(link, s, status, e, f1, f2, k.(failed := k.failed + lost, swift := false));
    if Open(s.target) { ProgramRefusals(t, page, cleaned); }
    ArmedQuiet(link.State().target);
  }

  // Unlocking.

  /** As long as no request has failed, nothing stands in the way of unlocking. */
  ghost predicate CanUnlock(link: Link)
    reads link, link.wire, link.wire.sim, link.programs
  {
    && Usable(link) && |link.State().target.flash| <= 0x100_0000
    && (link.wire.Clean() ==>
          Quiescent(link.State().target) && Prompt(link.State().dm) && CtrlPrompt(link.State().target))
  }

  /** The two keys of one lock, each only if everything so far was answered. */
  method ThenKeys(link: Link, before: Status, address: nat, ghost s0: D.State, ghost e: T.Target, ghost f: seq<byte>,
                  ghost k: Terms)
    returns (status: Status)
    requires Stage(link, s0, before, e, f, f, k) && (address == T.KEYR || address == T.MODEKEYR)
    requires link.wire.Clean() ==> e.flash == f
    modifies link.wire, link.wire.sim, link.programs
    ensures Stage(link, s0, status, T.CtrlWrite(T.CtrlWrite(e, address, T.KEY1), address, T.KEY2), f, f,
                  After(After(k, STORE), STORE))
    ensures status == Ok ==> before == Ok
    ensures old(link.wire.failed) <= link.wire.failed
    ensures link.wire.FailStop() && !old(link.wire.Clean()) ==> status != Ok && link.State() == old(link.State())
  {
    hide OnlyScratch, ProgramsBuilt, T.AccessStore, Prompt, Stage, T.CtrlWrite, Usable;
    ghost var e1 := T.CtrlWrite(e, address, T.KEY1);
    ghost var e2 := T.CtrlWrite(e1, address, T.KEY2);
    KeyKeepsMemory(e, address, T.KEY1);
    KeyKeepsMemory(e1, address, T.KEY2);
    StageEnd(link, s0, before, e, f, f, k);
    StoreKeys(link.State().target, T.KEY1);
    KeyBounded(Quiet(link.State().target), address, T.KEY1, k.zone);
    status := ThenStore(link, before, address, T.KEY1, s0, e, e1, f, f, k);
    StageEnd(link, s0, status, e1, f, f, After(k, STORE));
    StoreKeys(link.State().target, T.KEY2);
    KeyBounded(Quiet(link.State().target), address, T.KEY2, k.zone);
    status := ThenStore(link, status, address, T.KEY2, s0, e1, e2, f, f, After(k, STORE));
  }

  const UNLOCK := 4 * STORE + LOAD

  /** Two keys for each of the two locks, and a look at the result. */
  method Unlock(link: Link, ghost z: Zone) returns (status: Status)
    requires CanUnlock(link)
    modifies link.wire, link.wire.sim, link.programs
    ensures Bounded(old(link.State().target), link.State().target, z)
    ensures FlashConduct(link, status) && CanStart(link)
    ensures Tally(link, status, 0, Prompt(old(link.State().dm)))
    ensures Swift(old(link.State().dm)) ==> Spent(link.wire, status, UNLOCK)
    ensures status == Ok ==> Quiet(link.State().target) == Opened(Quiet(old(link.State().target)))
    ensures link.wire.FailStop() ==> link.State().target.flash == old(link.State().target.flash)
  {
    hide Has, T.CtrlWrite, OnlyScratch, ProgramsBuilt, T.AccessStore, T.AccessLoad, Prompt, Stage, T.CtlrValue,
      D.Loaded;
    ghost var s := link.State();
    ghost var f, e0 := s.target.flash, Quiet(s.target);
    ghost var e2 := e0.(unlocked := true, keyStage := 0);
    KeysUnlock(e0);
    KeysUnlock(e2);
    ghost var k := Terms(z, link.wire.failed, Prompt(s.dm), Swift(s.dm), link.wire.sent);
    StageStart(link, f, f, k);
    status := ThenKeys(link, Ok, T.KEYR, s, e0, f, k);
    k := After(After(k, STORE), STORE);
    status := ThenKeys(link, status, T.MODEKEYR, s, e2, f, k);
    k := After(After(k, STORE), STORE);
    StageEnd(link, s, status, Opened(e0), f, f, k);
    if status != Ok {
      return;
    }
    ghost var mid := link.State();
    SamePrompt(s.dm, mid.dm);
    SameSwift(s.dm, mid.dm);
    status := CheckUnlocked(link);
    OpenedIsUnlocked(e0, link.State().target);
    ScratchTrans(s, mid, link.State());
    SamePrompt(s.dm, link.State().dm);
    QuietShape(mid.target, Quiet(mid.target), link.State().target);
    PollBounds(s.target, mid.target, link.State().target, z);
    if link.wire.Clean() { OpenedIsArmed(s.target, link.State().target); }
  }

  lemma OpenedIsUnlocked(t: T.Target, t': T.Target)
    ensures Quiet(t') == Opened(t) ==> t'.unlocked
  {
    assert Quiet(t').unlocked == t'.unlocked;
  }

  lemma OpenedIsArmed(t: T.Target, t': T.Target)
    requires Idle(t) && t.errors == 0 && CtrlPrompt(t) && t.Valid() && |t.flash| <= 0x100_0000
    requires Quiet(t') == Opened(Quiet(t))
    ensures Armed(t') && CtrlPrompt(t')
  {
    hide Has;
    ArmedQuiet(t');
  }

  /** The read-back at the end of the unlock sequence. */
  method CheckUnlocked(link: Link) returns (status: Status)
    requires Usable(link)
    modifies link.wire, link.wire.sim, link.programs
    ensures Conduct(link, status) && link.State().dm.lag == old(link.State().dm.lag)
    ensures Quiet(link.State().target) == Quiet(old(link.State().target))
    ensures status == Ok ==> link.State().target.unlocked
    ensures link.wire.failed == old(link.wire.failed) && Prompt(old(link.State().dm)) ==>
      (status == Ok <==> link.State().target.unlocked)
    ensures Swift(old(link.State().dm)) ==> Spent(link.wire, status, LOAD)
  {
    hide Has, OnlyScratch, ProgramsBuilt, T.AccessLoad, T.CtlrValue, D.Loaded, Prompt;
    ghost var was := link.State();
    LoadCtlr(was.target);
    UnlockedReadsUnlocked(was.target);
    var ctlr;
    status, ctlr := ReadSized(link, 2, T.CTLR);
    ScratchLag(was, link.State());
    if status != Ok {
      return;
    }
    if Has(ctlr, T.CTLR_LOCK) {
      return TargetError;
    }
  }
}
