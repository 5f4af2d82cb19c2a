/** The page loop of src/flash_ch32v0.c: flash afterwards is flash before, overlaid with the image. */
module FlashWrite {
  import opened Words
  import opened Chips
  import opened Linke
  import opened DmHost
  import Transport
  import opened BlockRead
  import opened FlashSteps
  import opened FlashPages
  import opened FlashLeftovers
  import opened FlashImage
  import opened FlashEntries
  import opened FlashBounds
  import opened FlashSound
  import opened FlashController
  import T = Target
  import D = DebugModule

  const MERGE_MAX := 256

  /** |loads| words have been loaded, and nothing has gone wrong but `lost` requests of clean-ups. */
  ghost predicate SoFar(link: Link, s: D.State, failed0: nat, lost: nat, page: nat, data: seq<byte>, loads: seq<bool>,
                        z: Zone)
    reads link, link.wire, link.wire.sim, link.programs
  {
    && CanStart(link) && OnlyScratch(s, link.State()) && link.State().dm.lag == s.dm.lag
    && T.SameShape(s.target, link.State().target) && Bounded(s.target, link.State().target, z)
    && link.wire.failed == failed0 + lost && (link.wire.Clean() ==> forall k :: 0 <= k < |loads| ==> loads[k])
    && (link.wire.FailStop() && failed0 != 0 ==> link.State() == s)
    && (link.wire.FailStop() ==> link.State().target.flash == s.target.flash)
    && s.target.Valid() && PageInFlash(s.target, page) && |data| == T.PAGE && |loads| <= WORDS
    && Quiet(link.State().target) == LoadingWords(Quiet(s.target), page, data, loads)
  }

  /** The next word. */
  method LoadWord(link: Link, page: nat, i: nat, word: word, ghost s: D.State, ghost failed0: nat, ghost lost: nat,
                  ghost data: seq<byte>, ghost loads: seq<bool>, ghost z: Zone)
    returns (status: Status, ghost loads': seq<bool>, ghost lost': nat)
    requires SoFar(link, s, failed0, lost, page, data, loads, z)
    requires i == 4 * |loads| && i < T.PAGE && word == PageWord(data, |loads|)
    modifies link.wire, link.wire.sim, link.programs
    ensures if status == Ok then |loads'| == |loads| + 1 else loads' == []
    ensures status == Ok ==> SoFar(link, s, failed0, lost', page, data, loads', z)
    ensures FlashConduct(link, status) && CanStart(link) && OnlyScratch(s, link.State())
    ensures T.SameShape(s.target, link.State().target) && link.State().dm.lag == s.dm.lag
    ensures Bounded(s.target, link.State().target, z)
    ensures failed0 + lost' <= link.wire.failed
    ensures link.wire.failed == failed0 + lost' && Tame(s.target) && Prompt(s.dm) ==> status == Ok
    ensures link.wire.FailStop() && failed0 != 0 ==> status != Ok && link.State() == s
    ensures link.wire.FailStop() ==> link.State().target.flash == s.target.flash
  {
    hide OnlyScratch, ProgramsBuilt, Prompt, CanStart, Usable, Loading, T.IsFlash, T.FlashOffset, LoadingWords,
      Bounded, Tame, PageWord, InFlash, PageInFlash;
    ghost var mid := link.State();
    PageStays(s.target, mid.target, page);
    WordInPage(mid.target, page, i);
    PageEnds(page, i, s.target);
    if Tame(s.target) { StillTame(s.target, mid.target, page, data, loads); }
    SamePrompt(s.dm, mid.dm);
    ghost var cleaned, more;
    status, cleaned, more := BufferLoad(link, page + i, word, z);
    lost', loads' := lost + more, [];
    ScratchTrans(s, mid, link.State());
    BoundedTrans(s.target, mid.target, link.State().target, z);
    if status != Ok {
      return;
    }
    loads' := loads + [cleaned];
    assert loads'[..|loads|] == loads;
    MoreWords(Quiet(s.target), page, data, loads, loads');
  }

  lemma PageEnds(page: nat, i: nat, t: T.Target)
    requires PageInFlash(t, page) && i < T.PAGE
    ensures page + i < WORD_LIMIT && PageInFlash(Quiet(t), page)
  {
    hide T.IsFlash, T.FlashOffset;
  }

  /** Fills the page buffer word by word. */
  method LoadPage(link: Link, page: nat, merged: array<byte>, ghost z: Zone)
    returns (status: Status, ghost loads: seq<bool>, ghost lost: nat)
    requires CanStart(link) && PageInFlash(link.State().target, page) && merged.Length >= T.PAGE
    modifies link.wire, link.wire.sim, link.programs
    ensures FlashConduct(link, status) && CanStart(link)
    ensures Bounded(old(link.State().target), link.State().target, z)
    ensures Tally(link, status, lost, Tame(old(link.State().target)) && Prompt(old(link.State().dm)))
    ensures link.wire.Clean() ==> forall i :: 0 <= i < |loads| ==> loads[i]
    ensures old(link.State().target.Valid())
    ensures if status == Ok then |loads| == WORDS else loads == []
    ensures status == Ok ==>
      Quiet(link.State().target) == LoadingWords(Quiet(old(link.State().target)), page, merged[..T.PAGE], loads)
    ensures link.wire.FailStop() ==> link.State().target.flash == old(link.State().target.flash)
  {
    hide OnlyScratch, ProgramsBuilt, Prompt, Armed, CtrlPrompt, Usable, Loading, B0, B1, B2, B3, Join, T.IsFlash,
      T.FlashOffset, LoadingWords, Bounded, Tame, SoFar, CanStart;
    ghost var s, data, failed0 := link.State(), merged[..T.PAGE], link.wire.failed;
    NoneSoFar(link, page, data, z);
    status, loads, lost := Ok, [], 0;
    var i := 0;
    while i < T.PAGE
      invariant i <= T.PAGE && i == 4 * |loads| && status == Ok && merged[..T.PAGE] == data
      invariant SoFar(link, s, failed0, lost, page, data, loads, z)
      invariant link.wire.FailStop() && failed0 != 0 ==> i == 0
    {
      var word := FromBytes(merged[i..i + 4]);
      assert merged[i..i + 4] == data[i..i + 4];
      status, loads, lost := LoadWord(link, page, i, word, s, failed0, lost, data, loads, z);
      if status != Ok {
        return;
      }
      i := i + 4;
    }
    AllLoaded(link, s, failed0, lost, page, data, loads, z);
  }

  lemma NoneSoFar(link: Link, page: nat, data: seq<byte>, z: Zone)
    requires CanStart(link) && PageInFlash(link.State().target, page) && |data| == T.PAGE
    ensures link.State().target.Valid() && SoFar(link, link.State(), link.wire.failed, 0, page, data, [], z)
  {
    hide T.IsFlash, T.FlashOffset, LoadingWords, Bounded;
    StartIsUsable(link);
    ScratchRefl(link.State());
    BoundedRefl(link.State().target, z);
    NoWords(Quiet(link.State().target), page, data);
  }

  lemma AllLoaded(link: Link, s: D.State, failed0: nat, lost: nat, page: nat, data: seq<byte>, loads: seq<bool>,
                  z: Zone)
    requires SoFar(link, s, failed0, lost, page, data, loads, z)
    ensures Usable(link) && CanStart(link) && OnlyScratch(s, link.State()) && link.State().dm.lag == s.dm.lag
    ensures T.SameShape(s.target, link.State().target) && Bounded(s.target, link.State().target, z)
    ensures link.wire.failed == failed0 + lost && (link.wire.Clean() ==> forall k :: 0 <= k < |loads| ==> loads[k])
    ensures link.wire.FailStop() ==> link.State().target.flash == s.target.flash
    ensures s.target.Valid() && PageInFlash(s.target, page) && |data| == T.PAGE && |loads| <= WORDS
    ensures Quiet(link.State().target) == LoadingWords(Quiet(s.target), page, data, loads)
  {
    hide T.IsFlash, T.FlashOffset, LoadingWords, Bounded, OnlyScratch;
    StartIsUsable(link);
  }

  lemma StillTame(t: T.Target, t': T.Target, page: nat, data: seq<byte>, loads: seq<bool>)
    requires t.Valid() && PageInFlash(t, page) && |data| == T.PAGE && |loads| <= WORDS && Tame(t)
    requires Quiet(t') == LoadingWords(Quiet(t), page, data, loads)
    ensures Tame(t')
  {
    hide Tame, LoadingWords, T.IsFlash, T.FlashOffset;
    QuietSound(t);
    QuietSound(t');
    LoadsTame(Quiet(t), page, data, loads);
  }

  lemma PageStays(t: T.Target, t': T.Target, page: nat)
    requires PageInFlash(t, page) && T.SameShape(t, t')
    ensures PageInFlash(t', page) && PageInFlash(Quiet(t'), page)
  {}

  /** The target once the buffer has been reset and loaded. */
  ghost function Loaded(t: T.Target, page: nat, data: seq<byte>, reset: bool, loads: seq<bool>): (r: T.Target)
    requires t.Valid() && PageInFlash(t, page) && |data| == T.PAGE && |loads| <= WORDS
    ensures T.SameShape(t, r) && r.Valid()
  {
    LoadingWords(Resetting(t, reset), page, data, loads)
  }

  lemma LoadedTame(t: T.Target, t': T.Target, page: nat, data: seq<byte>, reset: bool, loads: seq<bool>)
    requires t.Valid() && PageInFlash(t, page) && |data| == T.PAGE && |loads| <= WORDS
    requires Quiet(t') == Loaded(Quiet(t), page, data, reset, loads)
    ensures (Tame(t) ==> Tame(t')) && (Open(t) ==> Open(t'))
  {
    hide Tame, Resetting, LoadingWords, T.IsFlash, T.FlashOffset;
    QuietSound(t);
    QuietSound(t');
    QuietOpen(t);
    QuietOpen(t');
    if Tame(t) {
      ResetTame(Quiet(t), reset);
      LoadsTame(Resetting(Quiet(t), reset), page, data, loads);
    }
    if Open(t) { LoadedOpen(Quiet(t), page, data, loads, reset); }
  }

  /** Reset the buffer, and load it. */
  method ResetAndLoad(link: Link, page: nat, merged: array<byte>, ghost z: Zone)
    returns (status: Status, ghost reset: bool, ghost loads: seq<bool>, ghost lost: nat)
    requires CanStart(link) && PageInFlash(link.State().target, page) && merged.Length >= T.PAGE
    modifies link.wire, link.wire.sim, link.programs
    ensures FlashConduct(link, status) && CanStart(link)
    ensures Bounded(old(link.State().target), link.State().target, z)
    ensures Tally(link, status, lost, Tame(old(link.State().target)) && Prompt(old(link.State().dm)))
    ensures old(link.State().target.Valid())
    ensures if status == Ok then |loads| == WORDS else loads == []
    ensures link.wire.Clean() ==> reset && forall i :: 0 <= i < |loads| ==> loads[i]
    ensures status == Ok ==> var t, t' := old(link.State().target), link.State().target;
      && Quiet(t') == Loaded(Quiet(t), page, merged[..T.PAGE], reset, loads)
      && (Tame(t) ==> Tame(t')) && (Open(t) ==> Open(t'))
    ensures link.wire.FailStop() ==> link.State().target.flash == old(link.State().target.flash)
    ensures link.wire.FailStop() && status == Ok ==> reset
  {
    hide OnlyScratch, ProgramsBuilt, Prompt, CanStart, Usable, Resetting, LoadingWords, T.IsFlash, T.FlashOffset,
      Bounded, Tame, Open;
    ghost var s, data := link.State(), merged[..T.PAGE];
    StartIsUsable(link);
    QuietSound(s.target);
    loads := [];
    status, reset, lost := BufferReset(link, z);
    ghost var mid := link.State();
    if status != Ok {
      return;
    }
    PageStays(s.target, mid.target, page);
    SamePrompt(s.dm, mid.dm);
    QuietSound(mid.target);
    if Tame(s.target) { ResetTame(Quiet(s.target), reset); }
    ghost var more;
    status, loads, more := LoadPage(link, page, merged, z);
    lost := lost + more;
    ScratchTrans(s, mid, link.State());
    BoundedTrans(s.target, mid.target, link.State().target, z);
    if status == Ok { LoadedTame(s.target, link.State().target, page, data, reset, loads); }
  }

  /** The program is refused. */
  ghost predicate FillRefused(t: T.Target, page: nat, data: seq<byte>, c: CleanUps)
    requires t.Valid() && PageInFlash(t, page) && |data| == T.PAGE
  {
    |c.loads| == WORDS && ProgramRun(Loaded(Quiet(t), page, data, c.reset, c.loads), page).errors != 0
  }

  /** Load and program a page that has been erased. */
  method FillPage(link: Link, page: nat, merged: array<byte>, ghost erase: bool, ghost z: Zone)
    returns (status: Status, ghost c: CleanUps, ghost lost: nat)
    requires CanStart(link) && PageInFlash(link.State().target, page) && merged.Length >= T.PAGE
    requires PageInZone(Word(page), z)
    requires link.wire.Clean() ==>
      link.State().target.busy == 0 && BlankAt(link.State().target.flash, T.FlashOffset(page))
    modifies link.wire, link.wire.sim, link.programs
    ensures FlashConduct(link, status) && CanStart(link) && (link.wire.Clean() && erase ==> c.All())
    ensures Bounded(old(link.State().target), link.State().target, z)
    ensures var t := old(link.State().target);
      Tally(link, status, lost, Tame(t) && Prompt(old(link.State().dm)) && !FillRefused(t, page, merged[..T.PAGE], c))
    ensures old(link.State().target.Valid()) && c.erase == erase
    ensures status == Ok ==> |c.loads| == WORDS
    ensures status == Ok && Open(old(link.State().target)) ==> link.State().target.errors == 0
    ensures status == Ok ==>
      Quiet(link.State().target) == Filling(Quiet(old(link.State().target)), page, merged[..T.PAGE], c)
    ensures var t := old(link.State().target);
      var filled := T.Programmed(t.flash, T.FlashOffset(page), merged[..T.PAGE]);
      link.wire.FailStop() ==> Either(link.State().target.flash, t.flash, filled)
    ensures link.wire.FailStop() && status == Ok ==> c.reset
  {
    hide OnlyScratch, ProgramsBuilt, Prompt, CanStart, Usable, Resetting, Programming, ProgramRun, LoadingWords,
      T.IsFlash, T.FlashOffset, T.Programmed, BlankAt, Bounded, PageInZone, Word, Tame, Open;
    ghost var s, data := link.State(), merged[..T.PAGE];
    StartIsUsable(link);
    StartIsArmed(link);
    ghost var reset, loads, more;
    status, reset, loads, lost := ResetAndLoad(link, page, merged, z);
    c := CleanUps(erase, reset, loads, false);
    ghost var mid := link.State();
    if status != Ok {
      return;
    }
    SamePrompt(s.dm, mid.dm);
    PageStays(s.target, mid.target, page);
    if link.wire.Clean() { CleanLoaded(s.target, mid.target, page, data, loads); }
    ghost var cleaned;
    status, cleaned, more := ProgramFast(link, page, z);
    c, lost := c.(program := cleaned), lost + more;
    ScratchTrans(s, mid, link.State());
    BoundedTrans(s.target, mid.target, link.State().target, z);
  }

  lemma StartIsArmed(link: Link)
    requires CanStart(link)
    ensures link.wire.Clean() ==> Armed(link.State().target) && CtrlPrompt(link.State().target)
  {}

  /** With every clean-up in effect, loading changes the buffer alone. */
  lemma CleanLoaded(t: T.Target, t': T.Target, page: nat, data: seq<byte>, loads: seq<bool>)
    requires Armed(t) && t.busy == 0 && PageInFlash(t, page) && |data| == T.PAGE && |loads| == WORDS && t.Valid()
    requires (forall i :: 0 <= i < |loads| ==> loads[i]) && Quiet(t') == Loaded(Quiet(t), page, data, true, loads)
    ensures t'.flash == t.flash && t'.busy == 0 && t'.pageBuf == data
  {
    hide Armed, LoadingWords, Resetting, T.IsFlash, T.FlashOffset;
    ArmedQuiet(t);
    CleanFill(Quiet(t), page, data, loads);
    LoadedQuietly(t, t', data);
  }

  lemma LoadedQuietly(t: T.Target, t': T.Target, data: seq<byte>)
    requires OnlyLoaded(Quiet(t), Quiet(t')) && Quiet(t').busy == 0 && Quiet(t').pageBuf == data
    ensures t'.flash == t.flash && t'.busy == 0 && t'.pageBuf == data
  {
    assert Quiet(t').flash == t'.flash && Quiet(t').busy == t'.busy && Quiet(t').pageBuf == t'.pageBuf;
  }

  /** How one turn came to its status: nothing stands in the way but the one thing a turn is refused for. */
  twostate predicate TurnTally(link: Link, status: Status, lost: nat, c: CleanUps, offset: nat, data: seq<byte>)
    requires |data| == T.PAGE
    reads link.wire, link.wire.sim
  {
    var t := old(link.State().target);
    Tally(link, status, lost, Sound(t) && Prompt(old(link.State().dm)) && !Refuses(t, offset, data, c))
  }

  /** After an erase, a fill is refused only for that, and leaves the controller sound if it was not. */
  lemma TurnRefusals(t: T.Target, t1: T.Target, t': T.Target, page: nat, data: seq<byte>, c: CleanUps)
    requires Sound(t) && PageInFlash(t, page) && PageInFlash(t1, page) && t1.Valid() && |data| == T.PAGE
    requires Quiet(t1) == Erasing(Quiet(t), page, c.erase)
    ensures FillRefused(t1, page, data, c) ==> Refuses(t, T.FlashOffset(page), data, c)
    ensures |c.loads| == WORDS && Quiet(t') == Filling(Quiet(t1), page, data, c) && t'.errors == 0 ==> Sound(t')
  {
    hide Erasing, Resetting, LoadingWords, Programming, ProgramRun, Refuses, T.IsFlash, T.FlashOffset, Tame, Sound;
    QuietSound(t);
    QuietRefuses(t, Quiet(t), T.FlashOffset(page), data, c);
    SoundOpen(Quiet(t));
    EraseTame(Quiet(t), page, c.erase);
    TameValid(Quiet(t1));
    if |c.loads| == WORDS {
      LoadedOpen(Quiet(t1), page, data, c.loads, c.reset);
      ProgramRefusals(Loaded(Quiet(t1), page, data, c.reset, c.loads), page, c.program);
      if FillRefused(t1, page, data, c) { WhyRefused(Quiet(t), page, data, c); }
      if Quiet(t') == Filling(Quiet(t1), page, data, c) && t'.errors == 0 {
        FilledSound(Quiet(t1), page, data, c);
        QuietSound(t');
      }
    }
  }

  lemma QuietRefuses(t: T.Target, t': T.Target, offset: nat, data: seq<byte>, c: CleanUps)
    requires |data| == T.PAGE && Quiet(t) == Quiet(t')
    ensures Refuses(t, offset, data, c) == Refuses(t', offset, data, c)
  {
    hide BitsOf, T.SetRequests;
    assert Quiet(t).ctlr == t.ctlr && Quiet(t').ctlr == t'.ctlr;
    assert Quiet(t).flash == t.flash && Quiet(t').flash == t'.flash;
  }

  lemma FilledSound(t: T.Target, page: nat, data: seq<byte>, c: CleanUps)
    requires Tame(t) && t.Valid() && PageInFlash(t, page) && |data| == T.PAGE && |c.loads| == WORDS
    requires Filling(t, page, data, c).errors == 0
    ensures Sound(Filling(t, page, data, c))
  {
    hide Resetting, LoadingWords, Programming, ProgramRun, Tame, Sound, T.IsFlash, T.FlashOffset;
    ResetTame(t, c.reset);
    LoadsTame(Resetting(t, c.reset), page, data, c.loads);
    var t3 := LoadingWords(Resetting(t, c.reset), page, data, c.loads);
    TameValid(t3);
    ProgramRefusals(t3, page, c.program);
    ProgramSound(t3, page, c.program);
  }

  /** A controller that is ready to erase, and nothing ever busy. */
  ghost predicate CanLose(s: D.State) { Swift(s.dm) && Idling(s.target) && Sound(s.target) }

  /** The n requests from here on are answered, and the next one is not. */
  ghost predicate LosesAt(link: Link, from: nat, n: nat) {
    AllAnswered(link, from, n) && link.wire.fault(from + n) != Transport.Answered
  }

  /** If the first n requests are answered and the next one is not, the clean-up of the erase is lost. */
  twostate predicate EraseLost(link: Link, lost: nat, n: nat, c: CleanUps)
    reads link.wire
  {
    LosesAt(link, old(link.wire.sent), n) ==>
      !c.erase && lost > 0
  }

  twostate predicate FirstLost(link: Link, lost: nat, n: nat, cs: seq<CleanUps>)
    reads link.wire
  {
    LosesAt(link, old(link.wire.sent), n) ==>
      cs != [] && !cs[0].erase && lost > 0
  }

  /** Erase, load and program one page: the second half of the loop body. */
  method WritePage(link: Link, page: nat, merged: array<byte>, ghost z: Zone)
    returns (status: Status, ghost c: CleanUps, ghost lost: nat)
    requires CanStart(link) && PageInFlash(link.State().target, page) && merged.Length >= T.PAGE
    requires PageInZone(Word(page), z)
    modifies link.wire, link.wire.sim, link.programs
    ensures FlashConduct(link, status) && CanStart(link) && (link.wire.Clean() ==> c.All())
    ensures Bounded(old(link.State().target), link.State().target, z)
    ensures TurnTally(link, status, lost, c, T.FlashOffset(page), merged[..T.PAGE])
    ensures status == Ok && Sound(old(link.State().target)) ==> Sound(link.State().target)
    ensures old(link.State().target.Valid())
    ensures status == Ok ==> |c.loads| == WORDS
    ensures status == Ok && Open(old(link.State().target)) ==> link.State().target.errors == 0
    ensures status == Ok ==>
      Quiet(link.State().target) == Paging(Quiet(old(link.State().target)), page, merged[..T.PAGE], c)
    ensures var t, data := old(link.State().target), merged[..T.PAGE];
      && (link.wire.FailStop() ==> PageContents(link.State().target.flash, t.flash, T.FlashOffset(page), data))
      && (link.wire.FailStop() && status == Ok ==>
            link.State().target.flash == Overlay(t.flash, T.FlashOffset(page), data))
    ensures CanLose(old(link.State())) ==> EraseLost(link, lost, BEFORE_CLEANUP, c)
  {
    hide OnlyScratch, ProgramsBuilt, Prompt, Armed, CtrlPrompt, Usable, Erasing, Filling, T.IsFlash, T.FlashOffset,
      T.Erased, T.Programmed, Overlay, BlankAt, Bounded, PageInZone, Word, CanStart, Sound, Tame, FillRefused,
      Refuses, BitsOf, Open, PageContents;
    ghost var s, data := link.State(), merged[..T.PAGE];
    StartIsUsable(link);
    StartIsArmed(link);
    QuietSound(s.target);
    QuietOpen(s.target);
    PageMoments(s.target, page, data);
    ghost var erase, more;
    status, erase, lost := EraseFast(link, page, z);
    c := CleanUps(erase, false, [], false);
    ghost var mid := link.State();
    SamePrompt(s.dm, mid.dm);
    if status != Ok {
      NotReset(s.target, T.FlashOffset(page), data, c);
      return;
    }
    PageStays(s.target, mid.target, page);
    AfterErasing(s.target, mid.target, page, erase);
    if Armed(s.target) { ArmedErasing(s.target, mid.target, page, erase); }
    status, c, more := FillPage(link, page, merged, erase, z);
    lost := lost + more;
    if Sound(s.target) { TurnRefusals(s.target, mid.target, link.State().target, page, data, c); }
    if status == Ok && Armed(s.target) { ArmedFilling(s.target, link.State().target, page, data, c); }
    ScratchTrans(s, mid, link.State());
    BoundedTrans(s.target, mid.target, link.State().target, z);
  }

  lemma NotReset(t: T.Target, offset: nat, data: seq<byte>, c: CleanUps)
    requires |data| == T.PAGE && !c.reset
    ensures !Refuses(t, offset, data, c)
  {}

  /** What a page holds while it is being rewritten. */
  lemma PageMoments(t: T.Target, page: nat, data: seq<byte>)
    requires PageInFlash(t, page) && |data| == T.PAGE
    ensures T.FlashOffset(page) + T.PAGE <= |t.flash|
    ensures var offset := T.FlashOffset(page); var erased := T.Erased(t.flash, offset, T.PAGE);
      && PageContents(t.flash, t.flash, offset, data) && PageContents(erased, t.flash, offset, data)
      && PageContents(T.Programmed(erased, offset, data), t.flash, offset, data)
  {
    hide T.Erased, T.Programmed, Overlay, T.IsFlash;
    ErasedPage(t.flash, T.FlashOffset(page));
    WrittenPage(t.flash, T.FlashOffset(page), data);
  }

  /** What the erase leaves for the rest of the turn. */
  lemma AfterErasing(t: T.Target, t1: T.Target, page: nat, erase: bool)
    requires page < WORD_LIMIT && Quiet(t1) == Erasing(Quiet(t), page, erase)
    ensures (Sound(t) ==> Tame(t1) && Open(t1)) && (Open(t) ==> Open(t1))
  {
    hide Erasing, Sound, Tame, Open, BitsOf, Word;
    QuietSound(t);
    QuietSound(t1);
    QuietOpen(t);
    QuietOpen(t1);
    if Sound(t) {
      EraseTame(Quiet(t), page, erase);
      TameValid(Quiet(t1));
    }
    if Open(t) { EraseBits(Quiet(t), page, erase); }
    OnwardIsOpen(Quiet(t), Quiet(t1));
  }

  lemma OnwardIsOpen(t: T.Target, r: T.Target)
    ensures Onward(t, r) ==> Open(r)
  {}

  /** From an idle controller: the page is blank. */
  lemma ArmedErasing(t: T.Target, t1: T.Target, page: nat, erase: bool)
    requires Armed(t) && PageInFlash(t, page) && Quiet(t1) == Erasing(Quiet(t), page, erase)
    ensures t1.flash == T.Erased(t.flash, T.FlashOffset(page), T.PAGE)
    ensures BlankAt(t1.flash, T.FlashOffset(page)) && (erase ==> t1.busy == 0)
  {
    hide Armed, Erasing, T.IsFlash, T.FlashOffset, T.Erased, BlankAt, Stuck;
    QuietFields(t);
    QuietFields(t1);
    ArmedQuiet(t);
    EraseOutcome(Quiet(t), page, erase);
  }

  lemma ArmedFilling(t: T.Target, t': T.Target, page: nat, data: seq<byte>, c: CleanUps)
    requires Armed(t) && PageInFlash(t, page) && |data| == T.PAGE && |c.loads| == WORDS && t.Valid()
    requires Quiet(t') == Paging(Quiet(t), page, data, c)
    ensures T.FlashOffset(page) + T.PAGE <= |t.flash|
    ensures t'.flash == Overlay(t.flash, T.FlashOffset(page), if c.erase && c.reset then data else T.Blank(T.PAGE))
  {
    hide Armed, Paging, T.IsFlash, T.FlashOffset, Overlay;
    ArmedQuiet(t);
    QuietFields(t);
    QuietFields(t');
    PageOutcome(Quiet(t), page, data, c);
  }

  lemma QuietFields(t: T.Target)
    ensures Quiet(t).flash == t.flash && Quiet(t).busy == t.busy && Quiet(t).pageBuf == t.pageBuf
    ensures Quiet(t).Valid() == t.Valid()
  {}

  // One turn of the page loop.

  method MergeImage(merged: array<byte>, page: nat, start: nat, end: nat, image: seq<byte>)
    requires merged.Length >= T.PAGE && end == start + |image| && page + T.PAGE < WORD_LIMIT
    modifies merged
    ensures merged[..T.PAGE] == Merged(old(merged[..T.PAGE]), page, start, image)
  {
    ghost var was := merged[..T.PAGE];
    var i := 0;
    while i < T.PAGE
      invariant i <= T.PAGE
      invariant forall k :: 0 <= k < i ==> merged[k] == Merged(was, page, start, image)[k]
      invariant forall k :: i <= k < T.PAGE ==> merged[k] == was[k]
    {
      var at := (page + i) % WORD_LIMIT;
      if start <= at < end {
        merged[i] := image[at - start];
      }
      i := i + 1;
    }
  }

  /** The current contents of a page of flash. */
  method FetchPage(link: Link, page: nat, merged: array<byte>) returns (status: Status)
    requires CanStart(link) && PageInFlash(link.State().target, page) && WordAligned(link.State().target)
    requires merged.Length >= T.PAGE
    modifies link.wire, link.wire.sim, link.programs, merged
    ensures FlashConduct(link, status) && CanStart(link) && Tally(link, status, 0, Prompt(old(link.State().dm)))
    ensures Quiet(link.State().target) == Quiet(old(link.State().target))
    ensures status == Ok ==> merged[..T.PAGE] == PageOf(old(link.State().target), page)
  {
    hide OnlyScratch, ProgramsBuilt, Prompt;
    ghost var s := link.State();
    if link.wire.FailStop() && !link.wire.Clean() { link.wire.FailStopKills(); }
    PagePeek(s.target, page);
    status := ReadBlock(link, page, merged, T.PAGE);
    ScratchLag(s, link.State());
    SamePrompt(s.dm, link.State().dm);
  }

  lemma PageByte(t: T.Target, page: nat, i: nat)
    requires PageInFlash(t, page) && |t.flash| <= 0x100_0000 && i < T.PAGE
    ensures page + i < WORD_LIMIT && PeekByte(t, page + i) == PageOf(t, page)[i]
  {
    InsidePage(page, i);
  }

  lemma PagePeek(t: T.Target, page: nat)
    requires PageInFlash(t, page) && |t.flash| <= 0x100_0000
    ensures Plain(page, T.PAGE)
    ensures Peek(t, page, T.PAGE) == PageOf(t, page)
  {
    hide PeekByte;
    forall i | 0 <= i < T.PAGE ensures Peek(t, page, T.PAGE)[i] == PageOf(t, page)[i] {
      PageByte(t, page, i);
      assert Wrap(page + i) == page + i;
    }
  }

  /** A page that is covered entirely starts out blank; what it held does not matter. */
  method FillBlank(merged: array<byte>)
    requires merged.Length >= T.PAGE
    modifies merged
    ensures merged[..T.PAGE] == T.Blank(T.PAGE)
  {
    for i := 0 to T.PAGE
      invariant forall k :: 0 <= k < i ==> merged[k] == 0xff
    {
      merged[i] := 0xff;
    }
  }

  /** Fetch or blank, then merge: the first half of the loop body. */
  method PreparePage(link: Link, page: nat, start: nat, end: nat, image: seq<byte>, merged: array<byte>)
    returns (status: Status)
    requires CanStart(link) && PageInFlash(link.State().target, page) && WordAligned(link.State().target)
    requires merged.Length >= T.PAGE && end == start + |image|
    modifies link.wire, link.wire.sim, link.programs, merged
    ensures CanStart(link) && OnlyScratch(old(link.State()), link.State())
    ensures Tally(link, status, 0, Prompt(old(link.State().dm)))
    ensures Covers(start, |image|, page) ==>
      status == Ok && link.wire.sent == old(link.wire.sent) && link.State() == old(link.State())
    ensures link.State().dm.lag == old(link.State().dm.lag)
    ensures link.wire.Clean() ==> old(link.wire.Clean()) && status == Ok
    ensures link.wire.FailStop() && !old(link.wire.Clean()) ==> link.State() == old(link.State())
    ensures Quiet(link.State().target) == Quiet(old(link.State().target))
    ensures status == Ok ==> merged[..T.PAGE] == PageData(Quiet(old(link.State().target)), page, start, image)
  {
    hide OnlyScratch, ProgramsBuilt, Prompt, Idle, Armed, Merged, T.FlashOffset, WordAligned;
    ScratchRefl(link.State());
    if page >= start && page + T.PAGE <= end {
      FillBlank(merged);
      status := Ok;
    } else {
      status := FetchPage(link, page, merged);
    }
    if status == Ok {
      MergeImage(merged, page, start, end, image);
    }
  }

  /** One turn of the page loop. */
  method RewritePage(link: Link, page: nat, start: nat, end: nat, image: seq<byte>, merged: array<byte>,
                     ghost z: Zone)
    returns (status: Status, ghost c: CleanUps, ghost lost: nat)
    requires CanStart(link) && PageInFlash(link.State().target, page) && WordAligned(link.State().target)
    requires merged.Length >= T.PAGE && end == start + |image| && PageInZone(Word(page), z)
    modifies link.wire, link.wire.sim, link.programs, merged
    ensures FlashConduct(link, status) && CanStart(link) && (link.wire.Clean() ==> c.All())
    ensures Bounded(old(link.State().target), link.State().target, z)
    ensures var t := Quiet(old(link.State().target));
      TurnTally(link, status, lost, c, T.FlashOffset(page), PageData(t, page, start, image))
    ensures status == Ok && Sound(old(link.State().target)) ==> Sound(link.State().target)
    ensures old(link.State().target.Valid())
    ensures status == Ok ==> |c.loads| == WORDS
    ensures status == Ok && Open(old(link.State().target)) ==> link.State().target.errors == 0
    ensures var t := Quiet(old(link.State().target)); var data := PageData(t, page, start, image);
      && (status == Ok ==> Quiet(link.State().target) == Paging(t, page, data, c))
      && (link.wire.FailStop() ==> PageContents(link.State().target.flash, t.flash, T.FlashOffset(page), data))
      && (link.wire.FailStop() && status == Ok ==>
            link.State().target.flash == Overlay(t.flash, T.FlashOffset(page), data))
    ensures CanLose(old(link.State())) && Covers(start, |image|, page) ==> EraseLost(link, lost, BEFORE_CLEANUP, c)
  {
    hide OnlyScratch, ProgramsBuilt, Prompt, Idle, Armed, Overlay, PageData, Paging, T.IsFlash, T.FlashOffset,
      CanStart, Usable, CleanUps.All, Bounded, PageInZone, Word, Sound, Refuses;
    ghost var s := link.State();
    StartIsUsable(link);
    c, lost := CleanUps(false, false, [], false), 0;
    BoundedRefl(s.target, z);
    status := PreparePage(link, page, start, end, image, merged);
    ghost var mid := link.State();
    QuietShape(s.target, Quiet(s.target), mid.target);
    PollBounds(s.target, s.target, mid.target, z);
    QuietOpen(s.target);
    QuietOpen(mid.target);
    SamePrompt(s.dm, mid.dm);
    QuietSound(s.target);
    QuietSound(mid.target);
    ghost var data := PageData(Quiet(s.target), page, start, image);
    NotReset(s.target, T.FlashOffset(page), data, c);
    if status == Ok {
      status, c, lost := WritePage(link, page, merged, z);
      QuietRefuses(s.target, mid.target, T.FlashOffset(page), data, c);
      ScratchTrans(s, mid, link.State());
      BoundedTrans(s.target, mid.target, link.State().target, z);
    }
    StartIsUsable(link);
  }

  // The loop.

  /** The pages that the image touches. */
  function ImageZone(start: nat, length: nat): Zone { Zone(Spot(start, 0), Spot(start, PageCount(start, length))) }

  lemma InImageZone(t: T.Target, start: nat, length: nat, n: nat)
    requires Placed(t, start, length) && length > 0 && n < PageCount(start, length)
    ensures NthPage(start, n) < WORD_LIMIT && PageInZone(Word(NthPage(start, n)), ImageZone(start, length))
  {
    hide Word, Nat, WordAligned, T.IsFlash, PageCount;
    SpotIs(t, start, length, n);
    NthMeets(t, start, length, n);
    NatWord(NthPage(start, n));
  }

  /** Progress is reported after every page: the reports rise, and they end at the length. */
  ghost predicate Reported(reports: seq<nat>, start: nat, length: nat, page: nat) {
    && (forall i, j :: 0 <= i < j < |reports| ==> reports[i] < reports[j])
    && (forall i :: 0 <= i < |reports| ==> reports[i] <= page - start && reports[i] <= length)
    && (|reports| > 0 ==> reports[|reports| - 1] == if page >= start + length then length else page - start)
  }

  ghost predicate StoppedIn(flash: seq<byte>, t0: T.Target, start: nat, image: seq<byte>, page: nat)
    requires Placed(t0, start, |image|)
  {
    Base(start) <= page && StoppedAt(flash, t0.flash, Goal(t0, start, image), page - Base(start))
  }

  /**
   How a run that stopped early leaves flash: pages before some page are final,
   pages after it untouched, and that page is untouched, blank or final.
   */
  ghost predicate Stopped(flash: seq<byte>, t0: T.Target, start: nat, image: seq<byte>)
    requires Placed(t0, start, |image|)
  {
    exists page: nat :: Meets(page, start, |image|) && StoppedIn(flash, t0, start, image, page)
  }

  /** The frontier has reached `page`. */
  ghost predicate Reached(flash: seq<byte>, t0: T.Target, start: nat, image: seq<byte>, page: nat)
    requires Placed(t0, start, |image|)
  {
    Base(start) <= page && Progress(flash, t0.flash, Goal(t0, start, image), page - Base(start))
  }

  /** |cs| pages have been walked; `failed0` requests had failed before the run, and `lost` more in clean-ups. */
  ghost predicate Walking(link: Link, s: D.State, failed0: nat, lost: nat, start: nat, image: seq<byte>,
                          reports: seq<nat>, cs: seq<CleanUps>)
    requires Placed(s.target, start, |image|) && |image| > 0
    reads link, link.wire, link.wire.sim, link.programs
  {
    && |cs| == |reports| <= PageCount(start, |image|) && Full(cs)
    && CanStart(link) && OnlyScratch(s, link.State()) && link.State().dm.lag == s.dm.lag
    && T.SameShape(s.target, link.State().target)
    && link.wire.failed == failed0 + lost && (Fit(s) ==> Sound(link.State().target))
    && (link.wire.Clean() ==> AllClean(cs))
    && (link.wire.FailStop() && failed0 != 0 ==> link.State() == s && cs == [])
    && PlacedQuietly(s.target, start, |image|)
    && Quiet(link.State().target) == Walked(Quiet(s.target), start, image, cs)
    && (Armed(s.target) ==> link.State().target.errors == 0)
    && Bounded(s.target, link.State().target, ImageZone(start, |image|))
    && (link.wire.FailStop() ==> Reached(link.State().target.flash, s.target, start, image, NthPage(start, |cs|)))
    && Reported(reports, start, |image|, NthPage(start, |cs|))
  }

  /** Nothing stands in the way of a run from here. */
  ghost predicate Fit(s: D.State) { Armed(s.target) && CtrlPrompt(s.target) && Prompt(s.dm) }

  /** Placed, of the target without its history. */
  ghost predicate PlacedQuietly(t: T.Target, start: nat, length: nat) { Placed(Quiet(t), start, length) }

  /** What one turn means to a wire that does not come back once it has failed. */
  lemma TurnReaches(t0: T.Target, t: T.Target, flash: seq<byte>, start: nat, image: seq<byte>, n: nat, page: nat)
    requires Placed(t0, start, |image|) && |image| > 0 && n < PageCount(start, |image|) && T.SameShape(t0, t)
    requires page == NthPage(start, n) && Reached(t.flash, t0, start, image, page) && PageInFlash(t, page)
    requires PageContents(flash, t.flash, T.FlashOffset(page), PageData(t, page, start, image))
    ensures Meets(page, start, |image|) && StoppedIn(flash, t0, start, image, page)
    ensures flash == Overlay(t.flash, T.FlashOffset(page), PageData(t, page, start, image)) ==>
      Reached(flash, t0, start, image, NthPage(start, n + 1))
  {
    hide PageData, Overlay, StoppedAt, Progress, Goal, WordAligned, T.IsFlash, PageContents;
    NthMeets(t0, start, |image|, n);
    DataIsGoal(t0, t, start, image, page);
    MetPage(t0, start, |image|, page);
    NextPage(t.flash, t0.flash, Goal(t0, start, image), page - Base(start), flash);
  }

  /** The walk, one page longer. */
  lemma WalkOn(t: T.Target, start: nat, image: seq<byte>, cs: seq<CleanUps>, more: seq<CleanUps>, now: T.Target)
    requires Placed(t, start, |image|) && |image| > 0 && |cs| < PageCount(start, |image|) && Full(cs)
    requires |more| == |cs| + 1 && more[..|cs|] == cs && |more[|cs|].loads| == WORDS
    requires PageInFlash(Walked(t, start, image, cs), NthPage(start, |cs|))
    requires var before, page := Walked(t, start, image, cs), NthPage(start, |cs|);
      now == Paging(before, page, PageData(before, page, start, image), more[|cs|])
    ensures Full(more) && now == Walked(t, start, image, more)
    ensures AllClean(cs) && more[|cs|].All() ==> AllClean(more)
  {
    hide Walked, Paging, PageData, PageInFlash, CleanUps.All, WordAligned;
    assert forall i :: 0 <= i < |cs| ==> more[i] == more[..|cs|][i];
    LastTurn(t, start, image, more, |cs|);
  }

  lemma PageStillMet(t0: T.Target, t: T.Target, start: nat, length: nat, n: nat)
    requires Placed(t0, start, length) && length > 0 && n < PageCount(start, length) && T.SameShape(t0, t) && t.Valid()
    ensures Meets(NthPage(start, n), start, length) && NthPage(start, n) + T.PAGE < WORD_LIMIT
    ensures PageInFlash(t, NthPage(start, n)) && PageInFlash(Quiet(t), NthPage(start, n)) && WordAligned(t)
  {
    NthMeets(t0, start, length, n);
  }

  /** One turn of the loop, as a step of the walk. */
  method Turn(link: Link, page: nat, start: nat, end: nat, image: seq<byte>, merged: array<byte>, reports: seq<nat>,
              ghost cs: seq<CleanUps>, ghost s: D.State, ghost failed0: nat, ghost lost: nat)
    returns (status: Status, more: seq<nat>, ghost cs': seq<CleanUps>, ghost lost': nat)
    requires Placed(s.target, start, |image|) && |image| > 0 && |cs| < PageCount(start, |image|)
    requires page == NthPage(start, |cs|) && end == start + |image|
    requires Walking(link, s, failed0, lost, start, image, reports, cs) && merged.Length >= T.PAGE
    modifies link.wire, link.wire.sim, link.programs, merged
    ensures FlashConduct(link, status) && CanStart(link)
    ensures |cs'| == |cs| + 1 && cs'[..|cs|] == cs
    ensures status == Ok ==> Walking(link, s, failed0, lost', start, image, more, cs')
    ensures status != Ok ==> !link.wire.Clean() && more == reports
    ensures failed0 + lost' <= link.wire.failed
    ensures link.wire.failed == failed0 + lost' && Fit(s) && Granted(s.target, start, image, cs') ==> status == Ok
    ensures Reported(more, start, |image|, NthPage(start, |more|))
    ensures Meets(page, start, |image|)
    ensures link.wire.FailStop() && status != Ok ==> StoppedIn(link.State().target.flash, s.target, start, image, page)
    ensures link.wire.FailStop() && failed0 != 0 ==> status != Ok && link.State() == s
    ensures OnlyScratch(s, link.State()) && link.State().dm.lag == s.dm.lag
    ensures T.SameShape(s.target, link.State().target)
    ensures Bounded(s.target, link.State().target, ImageZone(start, |image|))
    ensures lost <= lost'
    ensures CanLose(old(link.State())) && Covers(start, |image|, page) ==>
      EraseLost(link, lost' - lost, BEFORE_CLEANUP, cs'[|cs|])
  {
    hide OnlyScratch, ProgramsBuilt, Prompt, PageContents, Overlay, Goal, Reported, Walked, Paging, PageData,
      CanStart, WordAligned, Reached, StoppedIn, T.FlashOffset, T.IsFlash, CleanUps.All, Usable, NthPage, Placed,
      Full, AllClean, Bounded, ImageZone, PageInZone, Word, Sound, Fit, Refuses, Granted;
    ghost var mid, z := link.State(), ImageZone(start, |image|);
    more := reports;
    StartIsUsable(link);
    PageStillMet(s.target, mid.target, start, |image|, |cs|);
    WalkIsOpen(s.target, mid.target, start, image, cs);
    InImageZone(s.target, start, |image|, |cs|);
    ghost var c, missed;
    status, c, missed := RewritePage(link, page, start, end, image, merged, z);
    cs', lost' := cs + [c], lost + missed;
    FitStays(s, mid);
    if Fit(s) {
      FitArmed(s);
      WalkRefused(s.target, mid.target, start, image, cs, cs');
    }
    ScratchTrans(s, mid, link.State());
    BoundedTrans(s.target, mid.target, link.State().target, z);
    ghost var now := link.State().target;
    if link.wire.FailStop() {
      DataIsQuiet(mid.target, page, start, image);
      TurnReaches(s.target, mid.target, now.flash, start, image, |cs|, page);
    }
    if status != Ok {
      return;
    }
    assert cs'[..|cs|] == cs;
    WalkOn(Quiet(s.target), start, image, cs, cs', Quiet(now));
    ReportMore(reports, start, |image|, page);
    var done := if page + T.PAGE >= end then |image| else page + T.PAGE - start;
    more := reports + [done];
    NextAfter(start, |cs|);
  }

  lemma FitStays(s: D.State, s': D.State)
    requires s'.dm.lag == s.dm.lag
    ensures Fit(s) ==> Prompt(s'.dm)
  {
    SamePrompt(s.dm, s'.dm);
  }

  lemma FitArmed(s: D.State)
    requires Fit(s)
    ensures Armed(s.target)
  {}

  /** If the next turn is refused, the walk with it in it was not granted. */
  lemma WalkRefused(t: T.Target, now: T.Target, start: nat, image: seq<byte>, cs: seq<CleanUps>, more: seq<CleanUps>)
    requires Placed(t, start, |image|) && Placed(Quiet(t), start, |image|) && |image| > 0 && Full(cs)
    requires |more| == |cs| + 1 <= PageCount(start, |image|) && more[..|cs|] == cs
    requires Quiet(now) == Walked(Quiet(t), start, image, cs) && Armed(t) && now.errors == 0
    requires PageInFlash(now, NthPage(start, |cs|)) && PageInFlash(Quiet(now), NthPage(start, |cs|))
    ensures var page := NthPage(start, |cs|);
      Refuses(now, T.FlashOffset(page), PageData(Quiet(now), page, start, image), more[|cs|]) ==>
        !Granted(t, start, image, more)
  {
    hide Walked, Armed, WordAligned, Refuses, Granted, LeftBy, Holds, PageData, T.IsFlash, T.FlashOffset, NthPage,
      PageCount, FitsOver, Before, Meant, Full, Placed, PageInFlash;
    var n, q, page := |cs|, Quiet(t), NthPage(start, |cs|);
    ArmedQuiet(t);
    WalkLeaves(q, start, image, cs);
    WalkHolds(q, start, image, cs);
    NextRefused(q, Quiet(now), start, image, cs, more[n]);
    QuietRefuses(now, Quiet(now), T.FlashOffset(page), PageData(Quiet(now), page, start, image), more[n]);
    GrantedMore(q, start, image, more, n);
    SameEntries(t, q, q.flash, start, image, more);
  }

  /** A walk that started from an idle controller has left both locks open. */
  lemma WalkIsOpen(t: T.Target, now: T.Target, start: nat, image: seq<byte>, cs: seq<CleanUps>)
    requires Placed(Quiet(t), start, |image|) && |image| > 0 && |cs| <= PageCount(start, |image|) && Full(cs)
    requires Quiet(now) == Walked(Quiet(t), start, image, cs)
    ensures Armed(t) ==> Open(now)
  {
    hide Walked, Armed, WordAligned;
    ArmedQuiet(t);
    QuietOpen(now);
    if Armed(t) { WalkLeaves(Quiet(t), start, image, cs); }
  }

  lemma DataIsQuiet(t: T.Target, page: nat, start: nat, image: seq<byte>)
    requires PageInFlash(t, page)
    ensures PageInFlash(Quiet(t), page) && PageData(Quiet(t), page, start, image) == PageData(t, page, start, image)
  {}

  lemma NextAfter(start: nat, n: nat)
    ensures NthPage(start, n + 1) == NthPage(start, n) + T.PAGE
  {}

  lemma ReportMore(reports: seq<nat>, start: nat, length: nat, page: nat)
    requires Meets(page, start, length) && Reported(reports, start, length, page)
    ensures Reported(reports + [if page + T.PAGE >= start + length then length else page + T.PAGE - start],
                     start, length, page + T.PAGE)
  {}

  /** A run of the page loop: the walk, if Ok; the goal or a stop, on a wire that does not come back. */
  ghost predicate Loop(link: Link, s: D.State, status: Status, start: nat, image: seq<byte>, reports: seq<nat>,
                       cs: seq<CleanUps>)
    requires Placed(s.target, start, |image|) && |image| > 0
    reads link, link.wire, link.wire.sim, link.programs
  {
    && |reports| <= PageCount(start, |image|) && Reported(reports, start, |image|, NthPage(start, |reports|))
    && (status == Ok ==>
          |reports| == |cs| == PageCount(start, |image|) && Full(cs) && PlacedQuietly(s.target, start, |image|))
    && (status == Ok ==> Quiet(link.State().target) == Walked(Quiet(s.target), start, image, cs))
    && (status == Ok && Armed(s.target) ==> link.State().target.errors == 0)
    && Bounded(s.target, link.State().target, ImageZone(start, |image|))
    && (link.wire.Clean() ==> AllClean(cs))
    && (link.wire.FailStop() && status == Ok ==> link.State().target.flash == Goal(s.target, start, image))
    && (link.wire.FailStop() && status != Ok ==> Stopped(link.State().target.flash, s.target, start, image))
  }

  /** The page loop, from an unlocked controller on. */
  method WritePages(link: Link, start: nat, image: seq<byte>)
    returns (status: Status, reports: seq<nat>, ghost cs: seq<CleanUps>, ghost lost: nat)
    requires CanStart(link) && Placed(link.State().target, start, |image|) && |image| > 0
    modifies link.wire, link.wire.sim, link.programs
    ensures FlashConduct(link, status) && CanStart(link)
    ensures Loop(link, old(link.State()), status, start, image, reports, cs)
    ensures |cs| <= PageCount(start, |image|)
    ensures Tally(link, status, lost, Fit(old(link.State())) && Granted(old(link.State()).target, start, image, cs))
    ensures CanLose(old(link.State())) && Covers(start, |image|, FirstPage(start)) ==>
      FirstLost(link, lost, BEFORE_CLEANUP, cs)
  {
    hide OnlyScratch, ProgramsBuilt, Prompt, StoppedIn, Goal, Reported, CanStart, Base, WordAligned, Walking, Usable,
      Reached, Walked, CleanUps.All, Bounded, ImageZone, Fit, Granted, PageCount, LosesAt, CanLose, Covers;
    ghost var s, failed0, sent0 := link.State(), link.wire.failed, link.wire.sent;
    var merged := new byte[MERGE_MAX];
    var end := (start + |image| % WORD_LIMIT) % WORD_LIMIT;
    var page := FirstPage(start);
    status, reports, cs, lost := Ok, [], [], 0;
    LoopStart(link, start, image);
    while page < end
      invariant page == NthPage(start, |cs|) && page < end + T.PAGE && status == Ok
      invariant Walking(link, s, failed0, lost, start, image, reports, cs)
      invariant cs == [] ==> link.State() == s && link.wire.sent == sent0 && lost == 0
      invariant cs != [] && CanLose(s) && Covers(start, |image|, FirstPage(start)) &&
                LosesAt(link, sent0, BEFORE_CLEANUP) ==>
        !cs[0].erase && lost > 0
      decreases end - page
    {
      LeftToDo(start, |image|, |cs|);
      WalkSoFar(link, s, failed0, lost, start, image, reports, cs);
      status, reports, cs, lost := Turn(link, page, start, end, image, merged, reports, cs, s, failed0, lost);
      if status != Ok {
        return;
      }
      page := (page + T.PAGE) % WORD_LIMIT;
    }
    WalkEnds(link, s, failed0, lost, start, image, page, reports, cs);
  }

  lemma LeftToDo(start: nat, length: nat, n: nat)
    requires length > 0
    ensures NthPage(start, n) < start + length <==> n < PageCount(start, length)
    ensures NthPage(start, n + 1) == NthPage(start, n) + T.PAGE
  {}

  lemma LoopStart(link: Link, start: nat, image: seq<byte>)
    requires CanStart(link) && Placed(link.State().target, start, |image|) && |image| > 0
    ensures start + |image| <= 0x900_0000 && NthPage(start, 0) == FirstPage(start)
    ensures Walking(link, link.State(), link.wire.failed, 0, start, image, [], [])
  {
    hide Prompt, Bounded;
    var t := link.State().target;
    if Fit(link.State()) { ArmedSound(t); }
    BoundedRefl(t, ImageZone(start, |image|));
    ScratchRefl(link.State());
    NthMeets(t, start, |image|, 0);
    MetPage(t, start, |image|, FirstPage(start));
    var q := NthPage(start, 0) - Base(start);
    assert t.flash == Goal(t, start, image)[..q] + t.flash[q..];
  }

  lemma WalkSoFar(link: Link, s: D.State, failed0: nat, lost: nat, start: nat, image: seq<byte>, reports: seq<nat>,
                  cs: seq<CleanUps>)
    requires Placed(s.target, start, |image|) && |image| > 0
    requires Walking(link, s, failed0, lost, start, image, reports, cs)
    ensures |cs| == |reports| <= PageCount(start, |image|) && CanStart(link)
    ensures NthPage(start, |cs|) + T.PAGE < WORD_LIMIT
  {
    hide OnlyScratch, ProgramsBuilt, Prompt, Goal, Reported, CanStart, Reached, Walked, Bounded;
    NthMeets(s.target, start, |image|, 0);
  }

  /** What the walk has come to once it is past the last page. */
  lemma WalkEnds(link: Link, s: D.State, failed0: nat, lost: nat, start: nat, image: seq<byte>, page: nat,
                 reports: seq<nat>, cs: seq<CleanUps>)
    requires Placed(s.target, start, |image|) && |image| > 0 && start + |image| <= page < start + |image| + T.PAGE
    requires Walking(link, s, failed0, lost, start, image, reports, cs) && page == NthPage(start, |cs|)
    ensures Usable(link) && OnlyScratch(s, link.State()) && link.State().dm.lag == s.dm.lag && CanStart(link)
    ensures T.SameShape(s.target, link.State().target) && link.wire.failed == failed0 + lost
    ensures link.wire.FailStop() ==> failed0 == 0
    ensures Loop(link, s, Ok, start, image, reports, cs)
  {
    hide OnlyScratch, ProgramsBuilt, Prompt, Reported, Walked, WordAligned, Bounded;
    NthMeets(s.target, start, |image|, 0);
    LeftToDo(start, |image|, |cs|);
    if |cs| < PageCount(start, |image|) { assert false; }
    LastReaches(s.target, start, |image|, PageCount(start, |image|) - 1);
    if link.wire.FailStop() {
      ProgressIsGoal(s.target.flash, link.State().target.flash, T.FlashOffset(start), image, page - Base(start));
    }
  }

  // The writer.

  predicate PowerOfTwo(n: nat) {
    n == 1 || (n > 1 && n % 2 == 0 && PowerOfTwo(n / 2))
  }

  /** What the writer will not accept for a page. */
  predicate BadEraseSize(n: nat) {
    !PowerOfTwo(n) || n % 4 != 0 || n > MERGE_MAX
  }

  lemma PageIsGood()
    ensures !BadEraseSize(T.PAGE)
  {}

  /** Before the first page is touched, a run counts as stopped there. */
  lemma StoppedBefore(t: T.Target, start: nat, image: seq<byte>)
    requires Placed(t, start, |image|) && |image| > 0
    ensures Stopped(t.flash, t, start, image)
  {
    hide WordAligned;
    NthMeets(t, start, |image|, 0);
    var page := NthPage(start, 0);
    var q := page - Base(start);
    MetPage(t, start, |image|, page);
    assert t.flash == Goal(t, start, image)[..q] + t.flash[q..];
    NextPage(t.flash, t.flash, Goal(t, start, image), q, t.flash);
    assert StoppedIn(t.flash, t, start, image, page);
  }

  /** A run that was finished counts as stopped in its last page. */
  lemma FinishedIsStopped(t: T.Target, start: nat, image: seq<byte>)
    requires Placed(t, start, |image|) && |image| > 0
    ensures Stopped(Goal(t, start, image), t, start, image)
  {
    hide WordAligned, Overlay;
    var n := PageCount(start, |image|) - 1;
    LastReaches(t, start, |image|, n);
    var page, goal := NthPage(start, n), Goal(t, start, image);
    var q := page - Base(start);
    MetPage(t, start, |image|, page);
    PastTheEnd(t.flash, goal, q, image, T.FlashOffset(start), goal[q..q + T.PAGE]);
    OverlaySame(goal, q, goal[q..q + T.PAGE]);
    assert StoppedWith(goal, t.flash, goal, q, goal[q..q + T.PAGE]);
    assert StoppedIn(goal, t, start, image, page);
  }

  /**
   A run that returned Ok on any wire at all, from a controller as a tool finds it.
   Every page holds its entry and nothing else has changed; flash is the goal exactly
   when every entry is what its page was meant to hold.  If every clean-up took effect,
   it is, with each page erased once and then programmed once, in ascending order and
   with the controller idle.
   */
  ghost predicate Accounted(t: T.Target, t': T.Target, start: nat, image: seq<byte>, cs: seq<CleanUps>)
    requires Placed(t, start, |image|) && |image| > 0
  {
    var n := PageCount(start, |image|);
    && |cs| == n > 0 && NthPage(start, n) < WORD_LIMIT
    && (Quiescent(t) ==>
          && Granted(t, start, image, cs) && Holds(t'.flash, t, start, image, cs)
          && (t'.flash == Goal(t, start, image) <==> AllMeant(t, start, image, cs)))
    && (Quiescent(t) && AllClean(cs) ==>
          t'.flash == Goal(t, start, image) && Armed(t') && Flashed(Opened(Quiet(t)), Quiet(t'), FirstPage(start), n))
  }

  lemma WalkAccounts(t: T.Target, t1: T.Target, t': T.Target, start: nat, image: seq<byte>, cs: seq<CleanUps>)
    requires Placed(t, start, |image|) && |image| > 0 && Quiet(t1) == Opened(Quiet(t))
    requires Placed(Quiet(t1), start, |image|)
    requires |cs| == PageCount(start, |image|) && Full(cs) && Quiet(t') == Walked(Quiet(t1), start, image, cs)
    requires Armed(t1) ==> t'.errors == 0
    ensures Accounted(t, t', start, image, cs)
  {
    hide Walked, Goal, Flashed, WordAligned, Overlay, CleanUps.All, Done, Progress, Holds, AllMeant, Armed, Granted;
    var q, n := Quiet(t1), PageCount(start, |image|);
    NthMeets(t, start, |image|, 0);
    LastReaches(t, start, |image|, n - 1);
    SameGoals(t, q, start, image, NthPage(start, n - 1));
    if Quiescent(t) {
      OpenedArmed(t, q);
      ArmedQuiet(t1);
      ArmedQuiet(t');
      QuietFields(t');
      QuietOpen(t');
      WalkHolds(q, start, image, cs);
      WalkGranted(q, start, image, cs);
      GoalIff(t'.flash, q, start, image, cs);
      SameEntries(t, q, t'.flash, start, image, cs);
      if AllClean(cs) {
        CleanWalk(q, start, image, cs);
        AllDone(q, Quiet(t'), start, image);
        DoneFacts(q, Quiet(t'), start, image, n);
      }
    }
  }

  lemma OpenedArmed(t: T.Target, q: T.Target)
    requires Quiescent(t) && WordAligned(t) && q == Opened(Quiet(t))
    ensures Armed(q)
  {}

  lemma DoneFacts(t: T.Target, t': T.Target, start: nat, image: seq<byte>, n: nat)
    requires Placed(t, start, |image|) && NthPage(start, n) < WORD_LIMIT && Done(t, t', start, image, n)
    ensures Armed(t') && Flashed(t, t', FirstPage(start), n)
  {}

  /** The goal depends on nothing but flash. */
  lemma SameGoals(t: T.Target, t': T.Target, start: nat, image: seq<byte>, page: nat)
    requires Placed(t, start, |image|) && Placed(t', start, |image|) && t'.flash == t.flash
    requires Meets(page, start, |image|)
    ensures Goal(t, start, image) == Goal(t', start, image)
    ensures GoalPage(t, page, start, image) == GoalPage(t', page, start, image)
  {}

  lemma StoppedOnlyFlash(t: T.Target, t': T.Target, start: nat, image: seq<byte>, flash: seq<byte>)
    requires Placed(t, start, |image|) && Placed(t', start, |image|) && t'.flash == t.flash
    ensures Goal(t, start, image) == Goal(t', start, image)
    ensures Stopped(flash, t', start, image) ==> Stopped(flash, t, start, image)
  {}

  /** The locks opened, and what the loop over the pages starts from. */
  method UnlockFor(link: Link, start: nat, image: seq<byte>, ghost z: Zone) returns (status: Status)
    requires CanUnlock(link) && Placed(link.State().target, start, |image|) && |image| > 0
    modifies link.wire, link.wire.sim, link.programs
    ensures FlashConduct(link, status) && CanStart(link) && Tally(link, status, 0, Prompt(old(link.State().dm)))
    ensures Bounded(old(link.State().target), link.State().target, z)
    ensures link.State().target.flash == old(link.State().target.flash) || !link.wire.FailStop()
    ensures status == Ok ==> var t, t' := old(link.State().target), link.State().target;
      Quiet(t') == Opened(Quiet(t)) && t'.flash == t.flash && Placed(t', start, |image|)
    ensures status == Ok && Undisturbed(old(link.State())) ==> Fit(link.State())
    ensures Undisturbed(old(link.State())) && Swift(old(link.State().dm)) && Idling(old(link.State().target)) &&
            LosesAt(link, old(link.wire.sent), UNLOCK + BEFORE_CLEANUP) ==>
      status == Ok && CanLose(link.State()) && LosesAt(link, link.wire.sent, BEFORE_CLEANUP)
  {
    hide OnlyScratch, ProgramsBuilt, Prompt, WordAligned, Usable, T.IsFlash, T.FlashOffset, CanStart, Bounded,
      CtrlPrompt, Fit, Undisturbed, LosesAt, Swift, Idling, CanLose, AllAnswered;
    ghost var s := link.State();
    UndisturbedPrompt(s);
    UnlockCounted(link);
    SplitLoss(link, link.wire.sent, UNLOCK, BEFORE_CLEANUP);
    status := Unlock(link, z);
    if Swift(s.dm) { UnlockAnswered(link, old(link.wire.sent), old(link.wire.failed)); }
    if status == Ok {
      PlacedAgain(link, s.target, start, image);
      if Undisturbed(s) {
        UnlockedFit(s, link.State());
        if Swift(s.dm) && Idling(s.target) { UnlockedCanLose(s, link.State()); }
      }
    }
  }

  /**
   wl_flash_ch32v0_write: flash becomes what it was, overlaid with the image.

   On a wire that does not come back once it has failed, Ok means that flash is the
   goal, even if the clean-up of the last page was lost; on any other, `Accounted`
   says what it means.  If no request failed but those of clean-ups, Ok is the result
   exactly when the walk was granted.  Whatever the wire and the
   status, nothing has changed outside the pages the image touches.
   */
  method WriteCh32v0(link: Link, chip: Chip, start: nat, image: seq<byte>)
    returns (status: Status, reports: seq<nat>, ghost cs: seq<CleanUps>, ghost lost: nat)
    requires CanUnlock(link) && Placed(link.State().target, start, |image|) && |image| > 0
    requires chip.eraseSize == T.PAGE || BadEraseSize(chip.eraseSize)
    modifies link.wire, link.wire.sim, link.programs
    ensures CanUnlock(link)
    ensures BadEraseSize(chip.eraseSize) ==>
      status == Usage && link.State() == old(link.State()) && link.wire.Clean() == old(link.wire.Clean())
    ensures !BadEraseSize(chip.eraseSize) ==>
      FlashConduct(link, status) && (link.wire.Clean() ==> CanStart(link) && AllClean(cs))
    ensures var t, t' := old(link.State().target), link.State().target;
      && (status == Ok ==> Accounted(t, t', start, image, cs))
      && (link.wire.FailStop() && status == Ok ==> t'.flash == Goal(t, start, image))
      && (link.wire.FailStop() && status != Ok ==> Stopped(t'.flash, t, start, image))
    ensures Reported(reports, start, |image|, NthPage(start, |reports|))
    ensures status == Ok ==> |reports| == PageCount(start, |image|)
    ensures Contained(old(link.State().target), link.State().target, start, |image|)
    ensures |cs| <= PageCount(start, |image|)
    ensures Tally(link, status, lost, !BadEraseSize(chip.eraseSize) && Undisturbed(old(link.State())) &&
      Granted(old(link.State().target), start, image, cs))
    ensures !BadEraseSize(chip.eraseSize) && Undisturbed(old(link.State())) && Swift(old(link.State().dm)) &&
            Idling(old(link.State().target)) && Covers(start, |image|, FirstPage(start)) ==>
      FirstLost(link, lost, UNLOCK + BEFORE_CLEANUP, cs)
  {
    hide OnlyScratch, ProgramsBuilt, Prompt, Goal, Stopped, Flashed, WordAligned, Usable, BadEraseSize, Armed, Idle,
      Quiescent, Accounted, Walked, Reported, AllClean, Full, T.IsFlash, T.FlashOffset, CanStart, GoalPage, Bounded,
      ImageZone, Contained, Granted, PageCount, CtrlPrompt, Fit, Undisturbed, LosesAt, Swift, Idling, CanLose,
      AllAnswered;
    ghost var s, z := link.State(), ImageZone(start, |image|);
    BoundedRefl(s.target, z);
    BoundedContained(s.target, link.State().target, start, |image|);
    reports, cs, lost := [], [], 0;
    NothingReported(start, |image|);
    StoppedBefore(s.target, start, image);
    if BadEraseSize(chip.eraseSize) {
      return Usage, [], [], 0;
    }
    UndisturbedPrompt(s);
    status := UnlockFor(link, start, image, z);
    if status != Ok {
      UnlockAgain(link, s.target);
      BoundedContained(s.target, link.State().target, start, |image|);
      return;
    }
    ghost var mid := link.State();
    status, reports, cs, lost := WritePages(link, start, image);
    ScratchTrans(s, mid, link.State());
    BoundedTrans(s.target, mid.target, link.State().target, z);
    BoundedContained(s.target, link.State().target, start, |image|);
    StoppedOnlyFlash(s.target, mid.target, start, image, link.State().target.flash);
    SameEntries(s.target, mid.target, s.target.flash, start, image, cs);
    UnlockAgain(link, s.target);
    if status == Ok {
      WalkAccounts(s.target, mid.target, link.State().target, start, image, cs);
    }
  }

  /**
   A write during which only requests of clean-ups fail, to a controller as a tool finds
   it.  The tool is told Ok exactly if the walk was granted.  Every page then holds its
   entry: one whose erase was not cleaned up after is blank, whatever was meant for it.
   */
  method WriteThroughLoss(link: Link, chip: Chip, start: nat, image: seq<byte>)
    returns (status: Status, ghost cs: seq<CleanUps>, ghost lost: nat)
    requires CanUnlock(link) && Placed(link.State().target, start, |image|) && |image| > 0
    requires chip.eraseSize == T.PAGE && Undisturbed(link.State())
    modifies link.wire, link.wire.sim, link.programs
    ensures |cs| <= PageCount(start, |image|)
    ensures link.wire.failed == old(link.wire.failed) + lost ==>
      (status == Ok <==> Granted(old(link.State().target), start, image, cs))
    ensures status == Ok ==>
      var t, t' := old(link.State().target), link.State().target;
      && link.wire.failed == old(link.wire.failed) + lost
      && |cs| == PageCount(start, |image|) && Holds(t'.flash, t, start, image, cs)
      && (t'.flash == Goal(t, start, image) <==> AllMeant(t, start, image, cs))
      && forall k :: 0 <= k < |cs| && cs[k].reset && !cs[k].erase ==> HoldsAt(t'.flash, Spot(start, k), T.Blank(T.PAGE))
  {
    hide OnlyScratch, ProgramsBuilt, Prompt, Goal, Stopped, Flashed, WordAligned, Usable, Armed, Idle, Granted,
      Walked, Reported, AllClean, CanStart, Contained, BadEraseSize, Meant, Before, HoldsAt;
    PageIsGood();
    var reports;
    status, reports, cs, lost := WriteCh32v0(link, chip, start, image);
  }

  /** From a controller as a tool finds it, nothing outside the pages of the image has changed. */
  ghost predicate Contained(t: T.Target, t': T.Target, start: nat, length: nat) {
    Quiescent(t) ==> SameOutside(t.flash, t'.flash, ImageZone(start, length))
  }

  /** A controller as a tool finds it, and neither it nor the debug module busy for ever. */
  ghost predicate Undisturbed(s: D.State) { Quiescent(s.target) && CtrlPrompt(s.target) && Prompt(s.dm) }

  lemma UndisturbedPrompt(s: D.State)
    ensures Undisturbed(s) ==> Prompt(s.dm)
  {}

  lemma UnlockCounted(link: Link)
    requires CanUnlock(link)
    ensures link.wire.failed == link.wire.Failures(link.wire.sent)
  {}

  lemma UnlockAnswered(link: Link, from: nat, failed0: nat)
    requires CanStart(link) && failed0 == link.wire.Failures(from) && failed0 <= link.wire.failed
    requires link.wire.sent <= from + UNLOCK
    ensures AllAnswered(link, from, UNLOCK) ==> link.wire.failed == failed0
  {
    NoneFailed(link, from, UNLOCK, failed0);
  }

  /** A loss after n + m requests is a loss m requests after the first n. */
  lemma SplitLoss(link: Link, from: nat, n: nat, m: nat)
    ensures LosesAt(link, from, n + m) ==> AllAnswered(link, from, n) && LosesAt(link, from + n, m)
  {}

  lemma UnlockedCanLose(s: D.State, s': D.State)
    requires Undisturbed(s) && Swift(s.dm) && Idling(s.target) && s'.dm.lag == s.dm.lag && WordAligned(s.target)
    requires Quiet(s'.target) == Opened(Quiet(s.target))
    ensures CanLose(s')
  {
    hide Has;
    UnlockedFit(s, s');
    SameSwift(s.dm, s'.dm);
    ArmedSound(s'.target);
    assert Quiet(s'.target).busy == s'.target.busy && Quiet(s'.target).lag == s'.target.lag;
  }

  lemma UnlockedFit(s: D.State, s': D.State)
    requires Undisturbed(s) && s'.dm.lag == s.dm.lag && WordAligned(s.target)
    requires Quiet(s'.target) == Opened(Quiet(s.target))
    ensures Fit(s')
  {
    hide Has;
    SamePrompt(s.dm, s'.dm);
    OpenedIsArmed(s.target, s'.target);
  }

  lemma BoundedContained(t: T.Target, t': T.Target, start: nat, length: nat)
    requires Placed(t, start, length) && Bounded(t, t', ImageZone(start, length))
    ensures Contained(t, t', start, length)
  {
    hide Has, PageInZone, Modest, ImageZone;
    if Quiescent(t) { IdleConfined(t, ImageZone(start, length)); }
  }

  lemma NothingReported(start: nat, length: nat)
    ensures Reported([], start, length, NthPage(start, 0)) && AllClean([])
  {}

  /** What Unlock leaves behind has the image's place in it still. */
  lemma PlacedAgain(link: Link, t: T.Target, start: nat, image: seq<byte>)
    requires CanStart(link) && Placed(t, start, |image|) && Quiet(link.State().target) == Opened(Quiet(t))
    ensures Placed(link.State().target, start, |image|) && link.State().target.flash == t.flash
  {
    StartIsUsable(link);
    assert Quiet(link.State().target).flash == link.State().target.flash;
    assert Quiet(link.State().target).ram == link.State().target.ram;
    assert Quiet(link.State().target).ramBase == link.State().target.ramBase;
  }

  lemma UnlockAgain(link: Link, t: T.Target)
    requires CanStart(link) && T.SameShape(t, link.State().target) && |t.flash| <= 0x100_0000
    ensures CanUnlock(link)
  {}
}
