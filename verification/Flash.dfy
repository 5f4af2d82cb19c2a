/**
 Writing and verifying an image (src/flash.c), and the command that does both
 (wl_linke_read_memory and wl_linke_write_flash in src/linke.c).
 */
module Flash {
  import opened Words
  import opened Chips
  import opened Linke
  import opened DmHost
  import opened BlockRead
  import opened FlashSteps
  import opened FlashPages
  import opened FlashImage
  import opened FlashController
  import opened FlashWrite
  import opened Interface
  import Transport
  import T = Target
  import D = DebugModule

  // Addresses.

  /** The one spelling that every address of a V-series array is brought to. */
  function Normalise(chip: Chip, address: nat): nat {
    if chip.flashBase == FB_V && address / 0x100_0000 == 0 then address + FB_V else address
  }

  predicate RangeOk(chip: Chip, address: nat, length: nat) {
    var start := Normalise(chip, address);
    chip.flashSize != 0 && chip.flashBase <= start && start + length <= chip.flashBase + chip.flashSize
  }

  /** Both spellings of a flash address mean the same byte, and normalising settles on one of them. */
  lemma AliasesMeet(chip: Chip, address: nat)
    requires chip.flashBase == FB_V
    ensures Normalise(chip, Normalise(chip, address)) == Normalise(chip, address)
    ensures address < 0x100_0000 ==> Normalise(chip, address) == Normalise(chip, address + FB_V) == address + FB_V
    ensures T.FlashOffset(Normalise(chip, address)) == T.FlashOffset(address)
    ensures T.IsFlash(address) <==> Normalise(chip, address) / 0x100_0000 == 8
  {}

  predicate Writable(chip: Chip) {
    chip.flashBase == FB_V && chip.eraseSize == T.PAGE && chip.flashSize in {16384, 32768, 63488}
  }

  lemma RowsAreWritable()
    ensures forall i :: 0 <= i < |CHIPS| && CHIPS[i].algo == Ch32v0 ==> Writable(CHIPS[i])
  {}

  /** What the writer relies on in the rows it writes for. */
  lemma WritableRows(chip: Chip)
    requires chip in CHIPS && chip.algo == Ch32v0
    ensures chip.flashBase == FB_V && chip.eraseSize == T.PAGE && chip.flashSize % T.PAGE == 0
    ensures 0 < chip.flashSize < 0x100_0000
  {
    RowsAreWritable();
    hide CHIPS;
    assert Writable(chip);
  }

  /** The part on the wire is the part selected. */
  ghost predicate Fits(t: T.Target, chip: Chip) {
    |t.flash| == chip.flashSize && WordAligned(t)
  }

  /** The range check lets through exactly the images that lie inside the part's flash. */
  lemma RangeIsPlaced(t: T.Target, chip: Chip, address: nat, length: nat)
    requires chip in CHIPS && chip.algo == Ch32v0 && Fits(t, chip)
    ensures RangeOk(chip, address, length) <==> T.IsFlash(address) && T.FlashOffset(address) + length <= |t.flash|
    ensures RangeOk(chip, address, length) ==> Placed(t, Normalise(chip, address), length)
  {
    hide CHIPS, WordAligned, T.FlashOffset, T.IsFlash;
    WritableRows(chip);
    AliasesMeet(chip, address);
    InWindow(Normalise(chip, address), length, chip.flashSize);
  }

  /** Flash is smaller than its window. */
  lemma InWindow(start: nat, length: nat, size: nat)
    requires size < 0x100_0000
    ensures FB_V <= start && start + length <= FB_V + size <==>
      start / 0x100_0000 == 8 && T.FlashOffset(start) + length <= size
    ensures start / 0x100_0000 == 8 ==> T.IsFlash(start)
  {}

  // Writing.

  /** Why a write is refused before anything is sent; Ok when it is not. */
  function Refusal(chip: Chip, address: nat, length: nat): Status {
    if length == 0 then Usage
    else if chip.algo == Unsupported then NotImplemented
    else if !RangeOk(chip, address, length) then Usage
    else Ok
  }

  /** What the check lets through lies inside the part on the wire, whichever part was selected. */
  ghost predicate InReach(t: T.Target, chip: Chip, address: nat, length: nat) {
    Refusal(chip, address, length) == Ok ==> Placed(t, Normalise(chip, address), length)
  }

  lemma FitsReach(t: T.Target, chip: Chip, address: nat, length: nat)
    requires chip in CHIPS && (chip.algo == Ch32v0 ==> Fits(t, chip))
    ensures InReach(t, chip, address, length)
  {
    hide CHIPS, Normalise, RangeOk;
    if chip.algo == Ch32v0 { RangeIsPlaced(t, chip, address, length); }
  }

  /** What a write may come to on a wire that does not come back once it has failed. */
  ghost predicate WroteTo(t: T.Target, flash: seq<byte>, start: nat, image: seq<byte>, status: Status) {
    Placed(t, start, |image|) &&
    (if status == Ok then flash == Goal(t, start, image) else Stopped(flash, t, start, image))
  }

  /** What Ok means on any wire. */
  ghost predicate WroteWith(t: T.Target, t': T.Target, start: nat, image: seq<byte>, cs: seq<CleanUps>) {
    Placed(t, start, |image|) && |image| > 0 && Accounted(t, t', start, image, cs)
  }

  method WriteFlash(link: Link, chip: Chip, address: nat, image: seq<byte>)
    returns (status: Status, reports: seq<nat>, ghost cs: seq<CleanUps>)
    requires CanUnlock(link) && chip in CHIPS && InReach(link.State().target, chip, address, |image|)
    modifies link.wire, link.wire.sim, link.programs
    ensures var refusal := Refusal(chip, address, |image|);
      refusal != Ok ==>
        && status == refusal && link.State() == old(link.State()) && link.wire.Clean() == old(link.wire.Clean())
        && reports == []
    ensures CanUnlock(link)
    ensures Refusal(chip, address, |image|) == Ok ==>
      var t, t', start := old(link.State().target), link.State().target, Normalise(chip, address);
      && FlashConduct(link, status)
      && (link.wire.FailStop() ==> WroteTo(t, t'.flash, start, image, status))
      && (status == Ok ==> WroteWith(t, t', start, image, cs) && |reports| == PageCount(start, |image|))
      && (link.wire.Clean() ==> CanStart(link) && AllClean(cs))
      && Contained(t, t', start, |image|)
      && Reported(reports, start, |image|, NthPage(start, |reports|))
  {
    hide CHIPS, Armed, OnlyScratch, ProgramsBuilt, Prompt, Goal, Stopped, Accounted, WordAligned, BadEraseSize,
      Reported, Usable, AllClean, Contained;
    reports, cs := [], [];
    if |image| == 0 {
      return Usage, [], [];
    }
    if chip.algo == Unsupported {
      return NotImplemented, [], [];
    }
    var start := Normalise(chip, address);
    if !RangeOk(chip, address, |image|) {
      return Usage, [], [];
    }
    WritableRows(chip);
    PageIsGood();
    ghost var lost;
    status, reports, cs, lost := WriteCh32v0(link, chip, start, image);
  }

  // Reading.

  /**
   Only debug-module scratch, x8 and x9, the programmer and the list of accesses have
   changed, and no busy poll has been added.
   */
  ghost predicate OnlyRead(s: D.State, s': D.State) {
    && OnlyScratch(s.(programmer := s'.programmer), s') && s'.target.busy <= s.target.busy
    && Quiet(s'.target) == Quiet(s.target).(busy := s'.target.busy)
  }

  /** The debug module and the programs are in order, and the tool knows whether it has told the programmer anything. */
  ghost predicate Reachable(link: Link)
    reads link, link.wire, link.wire.sim, link.programs
  {
    link.Valid() && link.State().dm.cmderr == 0 && ProgramsBuilt(link.programs) && Informed(ViewOf(link))
  }

  /** Tell the programmer the part, and stop it. */
  method Select(link: Link, chip: Chip) returns (status: Status)
    requires Reachable(link)
    modifies link, link.wire, link.wire.sim
    ensures Reachable(link) && SameTarget(old(link.State()), link.State())
    ensures status == Ok ==> link.Ready()
    ensures chip in CHIPS && old(Agrees(ViewOf(link))) && status == Ok ==> Agrees(ViewOf(link))
    ensures link.wire.Clean() ==> old(link.wire.Clean()) && status == Ok
    ensures (status == Ok ==> link.wire.Clean() == old(link.wire.Clean())) && status != VerifyError
    ensures old(link.wire.Dead()) ==> link.wire.Dead()
    ensures Sends(old(ViewOf(link)), chip) ==> var n := old(link.wire.sent);
      && (status == Ok ==> link.wire.sent == n + 2)
      && (status == Ok <==>
            FaultOf(link, n) == Transport.Answered && FaultOf(link, n + 1) == Transport.Answered)
  {
    hide CHIPS, Agrees, ProgramsBuilt;
    if chip in CHIPS && Agrees(ViewOf(link)) { AgreesUnless(ViewOf(link), Set(chip, FaultOf(link, link.wire.sent))); }
    status := SetInterface(link, chip);
    if status != Ok {
      return;
    }
    status := Halt(link);
  }

  /** Select the part and stop it, if a part is given; read. */
  method ReadMemory(link: Link, chip: Option<Chip>, address: nat, buffer: array<byte>, length: nat)
    returns (status: Status)
    requires Reachable(link) && (chip.None? ==> link.Ready()) && address < WORD_LIMIT && length <= buffer.Length
    modifies link, link.wire, link.wire.sim, link.programs, buffer
    ensures Reachable(link) && OnlyRead(old(link.State()), link.State())
    ensures status == Ok ==> link.Ready()
    ensures Plain(address, length) ==> Quiet(link.State().target) == Quiet(old(link.State().target))
    ensures status == Ok && Steady(old(link.State().target), address, length) ==>
      buffer[..length] == Peek(old(link.State().target), address, length)
    ensures status == Ok ==> buffer[length..] == old(buffer[length..])
    ensures chip.None? ==> link.State().programmer == old(link.State().programmer)
    ensures chip.Some? && chip.value in CHIPS && old(Agrees(ViewOf(link))) && status == Ok ==> Agrees(ViewOf(link))
    ensures link.wire.Clean() && Prompt(old(link.State().dm)) ==> status == Ok
    ensures link.wire.Clean() ==> old(link.wire.Clean())
    ensures (status == Ok ==> link.wire.Clean() == old(link.wire.Clean())) && status != VerifyError
  {
    hide CHIPS, Agrees, OnlyScratch, OnlyLoads, ProgramsBuilt, Prompt, Peek, WordAligned, Plain, OnlyRead;
    ghost var s := link.State();
    ScratchOfSame(s, s);
    if chip.Some? {
      status := Select(link, chip.value);
      ScratchOfSame(s, link.State());
      if status != Ok {
        return;
      }
    }
    ghost var mid := link.State();
    status := ReadBlock(link, address, buffer, length);
    LoadsAreQuiet(s, mid, link.State(), address, length);
  }

  lemma ScratchOfSame(s: D.State, s': D.State)
    requires SameTarget(s, s')
    ensures OnlyRead(s, s')
  {}

  lemma LoadsAreQuiet(s: D.State, mid: D.State, s': D.State, address: nat, length: nat)
    requires address < WORD_LIMIT && SameTarget(s, mid) && OnlyScratch(mid, s')
    requires OnlyLoads(mid.target, s'.target, address, length)
    ensures OnlyRead(s, s') && s'.programmer == mid.programmer
    ensures Plain(address, length) ==> Quiet(s'.target) == Quiet(s.target)
  {}

  // Verifying.

  /** The bytes of one chunk, compared one by one. */
  method Matches(buffer: array<byte>, image: seq<byte>, done: nat, chunk: nat) returns (same: bool)
    requires chunk <= buffer.Length && done + chunk <= |image|
    ensures same <==> buffer[..chunk] == image[done..done + chunk]
  {
    var i := 0;
    while i < chunk
      invariant i <= chunk
      invariant forall k :: 0 <= k < i ==> buffer[k] == image[done + k]
    {
      if buffer[i] != image[done + i] {
        assert buffer[..chunk][i] != image[done..done + chunk][i];
        return false;
      }
      i := i + 1;
    }
    same := true;
  }

  const CHUNK := 256

  /** How far the verification has come after n chunks. */
  function Checked(n: nat, length: nat): nat { if CHUNK * n < length then CHUNK * n else length }

  /** Progress is reported after every chunk that matched. */
  ghost predicate Checks(reports: seq<nat>, length: nat) {
    forall i :: 0 <= i < |reports| ==> CHUNK * i < length && reports[i] == Checked(i + 1, length)
  }

  /** One chunk read and compared. */
  method VerifyChunk(link: Link, chip: Chip, start: nat, image: seq<byte>, done: nat, chunk: nat, buffer: array<byte>)
    returns (status: Status)
    requires Reachable(link) && 0 < chunk <= buffer.Length && done + chunk <= |image|
    modifies link, link.wire, link.wire.sim, link.programs, buffer
    ensures Reachable(link) && OnlyRead(old(link.State()), link.State())
    ensures var t := old(link.State().target);
      Steady(t, start, |image|) ==>
        && Quiet(link.State().target) == Quiet(t)
        && (status == Ok ==> Peek(t, start + done, chunk) == image[done..done + chunk])
        && (status == VerifyError ==> Peek(t, start + done, chunk) != image[done..done + chunk])
    ensures link.wire.Clean() && Prompt(old(link.State().dm)) ==> status == Ok || status == VerifyError
    ensures link.wire.Clean() ==> old(link.wire.Clean())
    ensures status == Ok ==> link.wire.Clean() == old(link.wire.Clean())
    ensures chip in CHIPS && old(Agrees(ViewOf(link))) && (status == Ok || status == VerifyError) ==>
      Agrees(ViewOf(link))
  {
    hide CHIPS, Agrees, Prompt, Peek, Plain, WordAligned, Quiet, OnlyRead, Reachable;
    ghost var t := link.State().target;
    if Steady(t, start, |image|) { ChunkPeek(t, t, start, |image|, done, chunk); }
    status := ReadMemory(link, Some(chip), (start + done) % WORD_LIMIT, buffer, chunk);
    if status != Ok {
      return;
    }
    var same := Matches(buffer, image, done, chunk);
    if !same {
      return VerifyError;
    }
  }

  /**
   Reads the image's range back in chunks of 256 bytes.  Ok means that every byte
   is there and VerifyError that one is not, whatever the wire did; on a wire that
   answers, one of the two is the result.  What was reported as checked did match.
   */
  method Verify(link: Link, chip: Chip, address: nat, image: seq<byte>) returns (status: Status, reports: seq<nat>)
    requires Reachable(link) && address < WORD_LIMIT
    modifies link, link.wire, link.wire.sim, link.programs
    ensures Reachable(link) && OnlyRead(old(link.State()), link.State())
    ensures Checks(reports, |image|) && (status == Ok ==> Checked(|reports|, |image|) == |image|)
    ensures var t, start, checked := old(link.State().target), Normalise(chip, address), Checked(|reports|, |image|);
      Steady(t, start, |image|) ==>
        && Quiet(link.State().target) == Quiet(t)
        && Peek(t, start, checked) == image[..checked]
        && (status == Ok ==> Peek(t, start, |image|) == image)
        && (status == VerifyError ==> Peek(t, start, |image|) != image)
    ensures link.wire.Clean() && Prompt(old(link.State().dm)) ==> status == Ok || status == VerifyError
    ensures chip in CHIPS && old(Agrees(ViewOf(link))) && link.wire.Clean() && Prompt(old(link.State().dm)) ==>
      Agrees(ViewOf(link))
    ensures link.wire.Clean() ==> old(link.wire.Clean())
  {
    hide CHIPS, Agrees, OnlyScratch, ProgramsBuilt, Prompt, Peek, Normalise, Steady, Quiet, OnlyRead,
      Reachable, Checks, ViewOf;
    ghost var s := link.State();
    ScratchOfSame(s, s);
    var buffer := new byte[CHUNK];
    var start := Normalise(chip, address);
    var done := 0;
    status, reports := Ok, [];
    NoChecks(|image|);
    assert Peek(s.target, start, 0) == [];
    while done < |image|
      invariant done == Checked(|reports|, |image|) && status == Ok && Reachable(link) && OnlyRead(s, link.State())
      invariant Checks(reports, |image|)
      invariant Steady(s.target, start, |image|) ==> Quiet(link.State().target) == Quiet(s.target)
      invariant Steady(s.target, start, |image|) ==> Peek(s.target, start, done) == image[..done]
      invariant link.wire.Clean() == old(link.wire.Clean())
      invariant chip in CHIPS && old(Agrees(ViewOf(link))) ==> Agrees(ViewOf(link))
      decreases |image| - done
    {
      var chunk := if |image| - done > buffer.Length then buffer.Length else |image| - done;
      ghost var mid := link.State();
      ReadsNothingAway(s, mid);
      if Quiet(s.target) == Quiet(mid.target) {
        QuietPeek(s.target, mid.target, start, |image|);
        QuietPeek(s.target, mid.target, start + done, chunk);
      }
      status := VerifyChunk(link, chip, start, image, done, chunk, buffer);
      ReadAgain(s, mid, link.State());
      ChunkDecides(s.target, start, image, done, chunk);
      if status != Ok {
        return;
      }
      ChecksMore(reports, |image|, done + chunk);
      done := done + chunk;
      reports := reports + [done];
    }
    assert image[..done] == image;
  }

  lemma NoChecks(length: nat)
    ensures Checks([], length) && Checked(0, length) == 0
  {}

  lemma ChecksMore(reports: seq<nat>, length: nat, done: nat)
    requires Checks(reports, length) && CHUNK * |reports| < length && done == Checked(|reports| + 1, length)
    ensures Checks(reports + [done], length)
  {}

  lemma QuietPeek(t: T.Target, t': T.Target, address: nat, length: nat)
    requires Quiet(t) == Quiet(t')
    ensures Peek(t, address, length) == Peek(t', address, length)
    ensures Steady(t, address, length) == Steady(t', address, length)
  {
    hide Peek;
    assert Quiet(t').flash == t'.flash && Quiet(t').ram == t'.ram && Quiet(t').ramBase == t'.ramBase;
    assert Quiet(t').pageBuf == t'.pageBuf;
    PeekIgnoresBus(t, t', address, length);
  }

  /** A chunk of a range off the controller is one too, and holds that part of it. */
  lemma ChunkPeek(t: T.Target, t': T.Target, start: nat, length: nat, done: nat, chunk: nat)
    requires Steady(t, start, length) && Quiet(t') == Quiet(t) && 0 < chunk && done + chunk <= length
    ensures Steady(t', Wrap(start + done), chunk)
    ensures Peek(t', Wrap(start + done), chunk) == Peek(t, start + done, chunk)
  {
    hide Peek;
    PeekWrapped(t', start + done, chunk);
    assert Quiet(t').flash == t'.flash && Quiet(t').ram == t'.ram && Quiet(t').ramBase == t'.ramBase;
    assert Quiet(t').pageBuf == t'.pageBuf;
    PeekIgnoresBus(t, t', start + done, chunk);
  }

  lemma ReadsNothingAway(s: D.State, s': D.State)
    requires OnlyRead(s, s')
    ensures s'.dm.lag == s.dm.lag && Prompt(s'.dm) == Prompt(s.dm)
  {}

  lemma ReadAgain(s: D.State, mid: D.State, s': D.State)
    requires OnlyRead(s, mid) && OnlyRead(mid, s')
    ensures OnlyRead(s, s')
  {
    hide D.Reg;
  }

  /** One chunk settles the bytes up to its end, or settles the matter. */
  lemma ChunkDecides(t: T.Target, start: nat, image: seq<byte>, done: nat, chunk: nat)
    requires done + chunk <= |image|
    ensures Peek(t, start, done) == image[..done] && Peek(t, start + done, chunk) == image[done..done + chunk] ==>
      Peek(t, start, done + chunk) == image[..done + chunk]
    ensures Peek(t, start + done, chunk) != image[done..done + chunk] ==> Peek(t, start, |image|) != image
  {
    hide Peek;
    PeekExtend(t, start, done, chunk);
    PeekExtend(t, start, done + chunk, |image| - done - chunk);
    var all := Peek(t, start, |image|);
    assert all[done..done + chunk] == Peek(t, start + done, chunk);
  }

  // The command.

  /** As CanUnlock, but the programmer need not have been told the part yet. */
  ghost predicate CanFlash(link: Link)
    reads link, link.wire, link.wire.sim, link.programs
  {
    && Reachable(link) && |link.State().target.flash| <= 0x100_0000
    && (link.wire.Clean() ==>
          Quiescent(link.State().target) && Prompt(link.State().dm) && CtrlPrompt(link.State().target))
  }

  /** Reading back a range that holds the image gives the image. */
  lemma PeekGoal(t: T.Target, t': T.Target, start: nat, image: seq<byte>)
    requires Placed(t, start, |image|) && t'.flash == Goal(t, start, image)
    ensures Peek(t', start, |image|) == image
  {
    var window, offset := start / 0x100_0000, T.FlashOffset(start);
    forall i | 0 <= i < |image| ensures Peek(t', start, |image|)[i] == image[i] {
      assert start + i == 0x100_0000 * window + (offset + i) && offset + i < 0x100_0000;
      assert Wrap(start + i) == start + i;
      assert (start + i) / 0x100_0000 == window && T.FlashOffset(start + i) == offset + i;
      assert PeekByte(t', start + i) == t'.flash[offset + i] == image[i];
    }
  }

  /** An image's place is off the controller's registers. */
  lemma PlacedIsSteady(t: T.Target, t': T.Target, start: nat, length: nat)
    requires Placed(t, start, length) && T.SameShape(t, t') && t'.Valid()
    ensures Steady(t', start, length) && start < WORD_LIMIT
  {}

  /** Registers and RAM are as they were. */
  ghost predicate KeepsRest(s: D.State, s': D.State) {
    OnlyScratch(s.(programmer := s'.programmer), s') && T.SameShape(s.target, s'.target)
  }

  /** The second half: the target runs again whether or not verification passed. */
  method VerifyAndResume(link: Link, chip: Chip, address: nat, image: seq<byte>, verify: bool)
    returns (status: Status, checked: seq<nat>)
    requires Reachable(link) && address < WORD_LIMIT && Steady(link.State().target, Normalise(chip, address), |image|)
    modifies link, link.wire, link.wire.sim, link.programs
    ensures Reachable(link) && OnlyRead(old(link.State()), link.State())
    ensures Quiet(link.State().target) == Quiet(old(link.State().target))
    ensures !verify ==> status == Ok && checked == []
    ensures Checks(checked, |image|) && (verify && status == Ok ==> Checked(|checked|, |image|) == |image|)
    ensures var t, start, done := old(link.State().target), Normalise(chip, address), Checked(|checked|, |image|);
      Peek(t, start, done) == image[..done]
    ensures var there := Peek(old(link.State().target), Normalise(chip, address), |image|) == image;
      && (verify && status == Ok ==> there)
      && (verify && link.wire.Reliable() && Prompt(old(link.State().dm)) ==>
            (status == if there then Ok else VerifyError))
    ensures chip in CHIPS && old(Agrees(ViewOf(link))) && link.wire.Reliable() && Prompt(old(link.State().dm)) ==>
      Agrees(ViewOf(link))
  {
    hide CHIPS, Agrees, OnlyScratch, ProgramsBuilt, Prompt, Plain, Normalise, WordAligned, OnlyRead, Quiet, Checks;
    ghost var s := link.State();
    ScratchOfSame(s, s);
    assert Peek(s.target, Normalise(chip, address), 0) == [];
    hide Peek;
    status, checked := Ok, [];
    NoChecks(|image|);
    if verify {
      status, checked := Verify(link, chip, address, image);
    }
    ghost var mid := link.State();
    if link.wire.Reliable() { link.wire.ReliableIsClean(); }
    var ignored := Resume(link);
    ScratchOfSame(mid, link.State());
    ReadAgain(s, mid, link.State());
  }

  /**
   wl_linke_write_flash: select, stop, write, read back, let run.

   On a wire that answers, an image that fits is always written and its
   verification always succeeds.  On one that stops answering at any request, the
   result is Ok only if every page is final; otherwise flash is untouched outside
   one page that may be blank, and final or original on either side of it.  On any
   wire at all, Ok after verification means that the image is there, and Ok alone
   what `Accounted` says; nothing outside the pages of the image changes, whatever the
   status.  What was reported as written rises page by page, and what was reported as
   checked is there.
   */
  method WriteAndVerify(link: Link, chip: Chip, address: nat, image: seq<byte>, verify: bool)
    returns (status: Status, written: seq<nat>, checked: seq<nat>, ghost cs: seq<CleanUps>)
    requires CanFlash(link) && chip in CHIPS && address < WORD_LIMIT
    requires InReach(link.State().target, chip, address, |image|)
    modifies link, link.wire, link.wire.sim, link.programs
    ensures KeepsRest(old(link.State()), link.State())
    ensures Refusal(chip, address, |image|) != Ok ==>
      && status != Ok && Quiet(link.State().target) == Quiet(old(link.State().target))
      && written == [] && checked == []
    ensures Refusal(chip, address, |image|) == Ok ==>
      var t, t', start := old(link.State().target), link.State().target, Normalise(chip, address);
      && (status == Ok ==> WroteWith(t, t', start, image, cs))
      && (status == Ok && verify ==> Peek(t', start, |image|) == image)
      && Contained(t, t', start, |image|)
      && Reported(written, start, |image|, NthPage(start, |written|))
      && (status == Ok || checked != [] ==> |written| == PageCount(start, |image|))
      && Checks(checked, |image|) && (status == Ok && verify ==> Checked(|checked|, |image|) == |image|)
      && (var done := Checked(|checked|, |image|); Peek(t', start, done) == image[..done])
      && (link.wire.FailStop() ==> WroteTo(t, t'.flash, start, image, status))
    ensures link.wire.Reliable() ==>
      && CanFlash(link) && status == Refusal(chip, address, |image|) && (status == Ok ==> AllClean(cs))
      && (old(Agrees(ViewOf(link))) ==> Agrees(ViewOf(link)))
  {
    hide CHIPS, Agrees, OnlyScratch, ProgramsBuilt, Prompt, Armed, Goal, Stopped, Peek, Plain, RangeOk, Normalise,
      WordAligned, Placed, KeepsRest, OnlyRead, WroteWith, WroteTo, Quiet, AllClean, CtrlPrompt, CanFlash, Reachable,
      Contained, Reported, Checks;
    ghost var s, start := link.State(), Normalise(chip, address);
    checked := [];
    status, written, cs := SelectAndWrite(link, chip, address, image);
    if status != Ok {
      NothingChecked(link.State().target, start, image);
      return;
    }
    ghost var wrote := link.State();
    PlacedIsSteady(s.target, wrote.target, start, |image|);
    if link.wire.Reliable() || link.wire.FailStop() { OkIsGoal(s.target, wrote.target, start, image); }
    status, checked := VerifyAndResume(link, chip, address, image, verify);
    ReadKeeps(s, wrote, link.State());
    WroteQuietly(s.target, wrote.target, link.State().target, start, image, cs);
    QuietPeek(wrote.target, link.State().target, start, Checked(|checked|, |image|));
    if link.wire.Reliable() { StillCanFlash(link, wrote); }
  }

  /** The first half: the part is selected, stopped and written. */
  method SelectAndWrite(link: Link, chip: Chip, address: nat, image: seq<byte>)
    returns (status: Status, reports: seq<nat>, ghost cs: seq<CleanUps>)
    requires CanFlash(link) && chip in CHIPS && InReach(link.State().target, chip, address, |image|)
    modifies link, link.wire, link.wire.sim, link.programs
    ensures KeepsRest(old(link.State()), link.State())
    ensures Reachable(link) && T.SameShape(old(link.State().target), link.State().target) && link.State().target.Valid()
    ensures Refusal(chip, address, |image|) != Ok ==>
      status != Ok && Quiet(link.State().target) == Quiet(old(link.State().target)) && reports == []
    ensures Refusal(chip, address, |image|) == Ok ==>
      var t, t', start := old(link.State().target), link.State().target, Normalise(chip, address);
      && Placed(t, start, |image|) && |image| > 0
      && (status == Ok ==> WroteWith(t, t', start, image, cs) && |reports| == PageCount(start, |image|))
      && Contained(t, t', start, |image|) && Reported(reports, start, |image|, NthPage(start, |reports|))
      && (link.wire.FailStop() || link.wire.Reliable() ==> WroteTo(t, t'.flash, start, image, status))
    ensures link.wire.Reliable() ==>
      && CanFlash(link) && status == Refusal(chip, address, |image|) && Prompt(link.State().dm)
      && (status == Ok ==> AllClean(cs) && Armed(link.State().target) && CtrlPrompt(link.State().target))
      && (old(Agrees(ViewOf(link))) ==> Agrees(ViewOf(link)))
  {
    hide CHIPS, Agrees, OnlyScratch, ProgramsBuilt, Prompt, Armed, Goal, Stopped, RangeOk, Normalise, WordAligned,
      Placed, KeepsRest, WroteWith, WroteTo, Opened, Quiet, AllClean, Quiescent, CtrlPrompt, Contained, Reported;
    ghost var s, start := link.State(), Normalise(chip, address);
    reports, cs := [], [];
    NothingKept(s, chip, address, image);
    if link.wire.Reliable() { link.wire.ReliableIsClean(); }
    status := Select(link, chip);
    if link.wire.Reliable() { link.wire.ReliableIsClean(); }
    ghost var mid := link.State();
    SameKeeps(s, mid);
    if status != Ok {
      return;
    }
    SelectedUnlocks(link);
    status, reports, cs := WriteFlash(link, chip, address, image);
    if link.wire.Reliable() { link.wire.ReliableIsClean(); }
    WriteKeeps(s, mid, link.State());
    SamePrompt(s.dm, link.State().dm);
    UnlockedFlashes(link);
  }

  lemma OkIsGoal(t: T.Target, t': T.Target, start: nat, image: seq<byte>)
    requires Placed(t, start, |image|) && WroteTo(t, t'.flash, start, image, Ok)
    ensures t'.flash == Goal(t, start, image) && Peek(t', start, |image|) == image
  {
    PeekGoal(t, t', start, image);
  }

  lemma UnlockedFlashes(link: Link)
    requires CanUnlock(link) && Informed(ViewOf(link))
    ensures CanFlash(link)
  {}

  lemma SelectedUnlocks(link: Link)
    requires CanFlash(link) && link.Ready()
    ensures CanUnlock(link)
  {}

  lemma NothingKept(s: D.State, chip: Chip, address: nat, image: seq<byte>)
    requires chip in CHIPS && InReach(s.target, chip, address, |image|)
    ensures Refusal(chip, address, |image|) == Ok ==> var start := Normalise(chip, address);
      && Placed(s.target, start, |image|) && |image| > 0
      && Contained(s.target, s.target, start, |image|) && Reported([], start, |image|, NthPage(start, 0))
      && forall e: Status :: e != Ok ==> WroteTo(s.target, s.target.flash, start, image, e)
  {
    hide CHIPS, Normalise, RangeOk;
    if Refusal(chip, address, |image|) == Ok {
      StoppedBefore(s.target, Normalise(chip, address), image);
      NothingReported(Normalise(chip, address), |image|);
    }
  }

  lemma NothingChecked(t: T.Target, start: nat, image: seq<byte>)
    ensures Checks([], |image|) && Checked(0, |image|) == 0 && Peek(t, start, 0) == image[..0]
  {}

  lemma SameKeeps(s: D.State, s': D.State)
    requires SameTarget(s, s')
    ensures KeepsRest(s, s')
  {}

  lemma WriteKeeps(s: D.State, mid: D.State, s': D.State)
    requires SameTarget(s, mid) && (s' == mid || (OnlyScratch(mid, s') && T.SameShape(mid.target, s'.target)))
    ensures KeepsRest(s, s') && s'.dm.lag == s.dm.lag && s'.programmer == mid.programmer
  {}

  lemma ReadKeeps(s: D.State, mid: D.State, s': D.State)
    requires KeepsRest(s, mid) && OnlyRead(mid, s') && Quiet(s'.target) == Quiet(mid.target)
    ensures KeepsRest(s, s') && s'.dm.lag == mid.dm.lag
  {
    hide D.Reg;
    assert Quiet(s'.target).ram == s'.target.ram && Quiet(s'.target).ramBase == s'.target.ramBase;
    assert Quiet(s'.target).flash == s'.target.flash;
  }

  /** Nothing that a write is judged by depends on the list of accesses. */
  lemma WroteQuietly(t: T.Target, t1: T.Target, t2: T.Target, start: nat, image: seq<byte>, cs: seq<CleanUps>)
    requires Quiet(t1) == Quiet(t2) && Placed(t, start, |image|)
    ensures Contained(t, t1, start, |image|) ==> Contained(t, t2, start, |image|)
    ensures WroteWith(t, t1, start, image, cs) ==> WroteWith(t, t2, start, image, cs)
    ensures t1.flash == t2.flash && Peek(t1, start, |image|) == Peek(t2, start, |image|)
    ensures |image| > 0 && t1.flash == Goal(t, start, image) ==> forall e :: WroteTo(t, t2.flash, start, image, e)
  {
    hide Peek, Goal, GoalPage, Flashed, AllClean, Armed, Stopped, Quiescent;
    ArmedQuiet(t1);
    ArmedQuiet(t2);
    QuietPeek(t1, t2, start, |image|);
    assert Quiet(t1).flash == t1.flash && Quiet(t2).flash == t2.flash;
    if |image| > 0 { FinishedIsStopped(t, start, image); }
  }

  /** Reading changes nothing that a later write relies on. */
  lemma StillCanFlash(link: Link, wrote: D.State)
    requires Reachable(link) && OnlyRead(wrote, link.State()) && Quiet(link.State().target) == Quiet(wrote.target)
    requires Armed(wrote.target) && CtrlPrompt(wrote.target) && Prompt(wrote.dm)
    ensures CanFlash(link)
  {
    ArmedQuiet(wrote.target);
    ArmedQuiet(link.State().target);
    SamePrompt(wrote.dm, link.State().dm);
  }
}
