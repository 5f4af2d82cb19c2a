/**
 The software breakpoints of the GDB server (src/gdb_server.c).

 In flash a breakpoint means rewriting a whole page; in RAM it is one store.  Over
 any run of insertions and removals whose live ranges never overlap, the table stays
 an overlay on memory, and clearing it gives the program back.  A second insertion
 over a live range is accepted as well, and what that does is stated too.  On a wire
 that fails, the table keeps its form, and every step that was answered with success
 on a wire that does not come back has been carried out.
 */
module GdbBreakpoints {
  import opened Words
  import opened Chips
  import opened Linke
  import opened DmHost
  import opened BlockRead
  import opened FlashSteps
  import opened FlashPages
  import opened FlashImage
  import opened FlashController
  import opened FlashWrite
  import opened Flash
  import opened GdbOverlay
  import T = Target
  import D = DebugModule

  // Patching.

  /** An attached session, with the part selected on it. */
  ghost predicate Healthy(link: Link, chip: Chip)
    reads link, link.wire, link.wire.sim, link.programs
  {
    CanUnlock(link) && chip in CHIPS && chip.algo == Ch32v0 &&
    Fits(link.State().target, chip) && RamApart(link.State().target)
  }

  /** RAM is neither in a flash window nor on the controller's registers. */
  ghost predicate RamApart(t: T.Target) { 0x900_0000 <= t.ramBase && t.ramBase + |t.ram| <= 0x4002_2000 }

  /** What every step keeps on any wire; on one that has stopped answering, nothing happens any more. */
  twostate predicate Steps(link: Link, chip: Chip, done: bool)
    reads link, link.wire, link.wire.sim, link.programs
  {
    && Healthy(link, chip) && link.State().target.ramBase == old(link.State().target.ramBase)
    && SameSizes(MemoryOf(old(link.State().target)), MemoryOf(link.State().target))
    && (link.wire.Clean() ==> old(link.wire.Clean()) && done)
    && (link.wire.FailStop() && !old(link.wire.Clean()) ==> !done && link.State() == old(link.State()))
  }

  /** A page with some of its bytes replaced, written back over the page it came from. */
  lemma OverlayInPage(m: seq<byte>, q: nat, k: nat, bytes: seq<byte>)
    requires q + T.PAGE <= |m| && k + |bytes| <= T.PAGE
    ensures Overlay(m, q, Overlay(m[q..q + T.PAGE], k, bytes)) == Overlay(m, q + k, bytes)
  {
    var was := m[q..q + T.PAGE];
    var page, whole := Overlay(was, k, bytes), Overlay(m, q + k, bytes);
    forall i | 0 <= i < |m| ensures Overlay(m, q, page)[i] == whole[i] {
      if q <= i < q + T.PAGE { assert was[i - q] == m[i]; }
    }
  }

  /** The patch on the page's copy, as the overlay that the write will be compared with. */
  method CopyInto(page: array<byte>, at: nat, bytes: seq<byte>)
    requires at + |bytes| <= page.Length
    modifies page
    ensures page[..] == Overlay(old(page[..]), at, bytes)
  {
    ghost var was := page[..];
    for i := 0 to |bytes|
      invariant page[..] == Overlay(was, at, bytes[..i])
    {
      page[at + i] := bytes[i];
    }
    assert bytes[..|bytes|] == bytes;
  }

  /** Where the page around an address begins. */
  function PageStart(address: nat): nat { address - address % T.PAGE }

  lemma PieceOfPage(address: nat, kind: nat)
    requires GoodKind(address, kind)
    ensures address % T.PAGE + kind <= T.PAGE
  {}

  lemma PageArithmetic(address: nat)
    ensures var page := PageStart(address);
      && page % T.PAGE == 0 && page / 0x100_0000 == address / 0x100_0000
      && T.FlashOffset(address) == T.FlashOffset(page) + address % T.PAGE
  {}

  /** The page of an aligned piece of flash holds all of it, and can be written back under the normalised address. */
  lemma PageOfPatch(t: T.Target, chip: Chip, address: nat, kind: nat)
    requires chip in CHIPS && chip.algo == Ch32v0 && Fits(t, chip) && T.IsFlash(address)
    requires GoodKind(address, kind) && T.FlashOffset(address) < |t.flash|
    ensures PageInFlash(t, PageStart(address)) && address % T.PAGE + kind <= T.PAGE
    ensures T.FlashOffset(address) == T.FlashOffset(PageStart(address)) + address % T.PAGE
    ensures var start := Normalise(chip, PageStart(address));
      && T.FlashOffset(start) == T.FlashOffset(PageStart(address)) && Normalise(chip, start) == start
      && RangeOk(chip, start, T.PAGE) && Placed(t, start, T.PAGE)
  {
    var page, start := PageStart(address), Normalise(chip, PageStart(address));
    WritableRows(chip);
    PieceOfPage(address, kind);
    PageArithmetic(address);
    AliasesMeet(chip, page);
    WholePages(t, page);
    RangeIsPlaced(t, chip, page, T.PAGE);
    RangeIsPlaced(t, chip, start, T.PAGE);
    hide CHIPS, RangeOk, Normalise, PageStart;
  }

  /** A page that begins inside flash ends inside it. */
  lemma WholePages(t: T.Target, page: nat)
    requires WordAligned(t) && page % T.PAGE == 0 && T.FlashOffset(page) < |t.flash|
    ensures T.FlashOffset(page) + T.PAGE <= |t.flash|
  {}

  // Reading.

  /** Reading on a healthy session changes no memory. */
  method ReadAt(link: Link, chip: Chip, address: nat, buffer: array<byte>, length: nat) returns (status: Status)
    requires Healthy(link, chip) && address < WORD_LIMIT && Plain(address, length) && 0 < length <= buffer.Length
    modifies link.wire, link.wire.sim, link.programs, buffer
    ensures Steps(link, chip, status == Ok) && MemoryOf(link.State().target) == MemoryOf(old(link.State().target))
    ensures status == Ok ==>
      buffer[..length] == Peek(old(link.State().target), address, length) && buffer[length..] == old(buffer[length..])
  {
    hide CHIPS, OnlyScratch, ProgramsBuilt, Prompt, Peek, Plain, WordAligned, Idle;
    ghost var s := link.State();
    if link.wire.FailStop() && !link.wire.Clean() { link.wire.FailStopKills(); }
    AlignedPart(s.target, chip);
    status := ReadBlock(link, address, buffer, length);
    LoadsKeepHealth(s, link, chip, address, length);
  }

  lemma AlignedPart(t: T.Target, chip: Chip)
    requires Fits(t, chip)
    ensures WordAligned(t)
  {}

  lemma LoadsKeepHealth(s: D.State, link: Link, chip: Chip, address: nat, length: nat)
    requires Usable(link) && address < WORD_LIMIT && Plain(address, length)
    requires OnlyScratch(s, link.State()) && OnlyLoads(s.target, link.State().target, address, length)
    requires link.wire.Clean() ==> Quiescent(s.target) && Prompt(s.dm) && CtrlPrompt(s.target)
    requires |s.target.flash| <= 0x100_0000 && Fits(s.target, chip) && RamApart(s.target) && chip in CHIPS
    requires chip.algo == Ch32v0
    ensures Healthy(link, chip)
  {
    hide CHIPS;
    ScratchLag(s, link.State());
    SamePrompt(s.dm, link.State().dm);
  }

  /** What a block read returns is what lies under the place. */
  lemma PeekIsUnder(t: T.Target, address: Address, kind: nat)
    requires WordAligned(t) && RamApart(t) && GoodKind(address, kind)
    ensures Peek(t, address, kind) == Under(MemoryOf(t), PlaceOf(t.ramBase, address), kind)
    ensures Settable(address, kind) ==> Plain(address, kind)
  {
    hide Under, Peek;
    forall i | 0 <= i < kind
      ensures Peek(t, address, kind)[i] == Under(MemoryOf(t), PlaceOf(t.ramBase, address), kind)[i] {
      ByteIsUnder(t, address, kind, i);
    }
  }

  /** A region's byte, and zero outside it. */
  function ByteOr(region: seq<byte>, o: int): byte { if 0 <= o < |region| then region[o] else 0 }

  lemma ByteIsUnder(t: T.Target, address: Address, kind: nat, i: nat)
    requires WordAligned(t) && RamApart(t) && GoodKind(address, kind) && i < kind
    ensures Peek(t, address, kind)[i] == Under(MemoryOf(t), PlaceOf(t.ramBase, address), kind)[i]
  {
    hide T.IsFlash, T.FlashOffset, Under, ByteOr, PeekByte;
    var p, m := PlaceOf(t.ramBase, address), MemoryOf(t);
    StaysInWindow(address, kind, i);
    PeekedByte(t, address, i);
    PlaceAligned(t.ramBase, address, kind);
    WholePages64(|t.flash|);
    UnderByte(m, p, kind, i);
  }

  lemma PeekedByte(t: T.Target, address: nat, i: nat)
    requires T.IsFlash(address + i) == T.IsFlash(address) && T.FlashOffset(address + i) == T.FlashOffset(address) + i
    ensures PeekByte(t, address + i) ==
      ByteOr(Region(MemoryOf(t), T.IsFlash(address)), PlaceOf(t.ramBase, address).offset + i)
  {
    hide T.IsFlash, T.FlashOffset;
  }

  lemma UnderByte(m: Memory, p: Place, kind: nat, i: nat)
    requires (kind == 2 || kind == 4) && p.offset % kind == 0 && |Region(m, p.inFlash)| % 4 == 0 && i < kind
    ensures Under(m, p, kind)[i] == ByteOr(Region(m, p.inFlash), p.offset + i)
  {
    var region := Region(m, p.inFlash);
    if 0 <= p.offset + i < |region| { AlignedFits(p.offset, |region|, kind, p.offset + i); }
  }

  /** An aligned piece does not cross from one window into the next, or the end of the address space. */
  lemma StaysInWindow(address: Address, kind: nat, i: nat)
    requires GoodKind(address, kind) && i < kind
    ensures Wrap(address + i) == address + i && T.IsFlash(address + i) == T.IsFlash(address)
    ensures T.FlashOffset(address + i) == T.FlashOffset(address) + i
    ensures T.IsFlash(address) ==> address < 0x900_0000
  {
    var window, offset := address / 0x100_0000, T.FlashOffset(address);
    assert address == 0x100_0000 * window + offset;
    PieceAligned(address, kind);
    AlignedFits(offset, 0x100_0000, kind, offset);
    assert address + i == 0x100_0000 * window + (offset + i);
  }

  // Writing.

  /** Flash: fetch the page, replace the bytes, write the page. */
  method PatchFlash(link: Link, chip: Chip, address: Address, bytes: seq<byte>) returns (status: Status)
    requires Healthy(link, chip) && GoodKind(address, |bytes|) && T.IsFlash(address)
    requires T.FlashOffset(address) < |link.State().target.flash|
    modifies link.wire, link.wire.sim, link.programs
    ensures Steps(link, chip, status == Ok) && T.FlashOffset(address) + |bytes| <= |old(link.State().target.flash)|
    ensures var t, t' := old(link.State().target), link.State().target;
      t'.ram == t.ram && (status == Ok && (link.wire.FailStop() || link.wire.Clean()) ==>
        t'.flash == Overlay(t.flash, T.FlashOffset(address), bytes))
  {
    hide CHIPS, OnlyScratch, ProgramsBuilt, Prompt, Peek, Plain, Idle, Stopped, Accounted, Reported, RangeOk,
      Normalise, CanStart, Placed, WordAligned, Overlay, AllClean, T.IsFlash, T.FlashOffset, PageStart, WroteTo,
      WroteWith, Quiescent, Fits;
    ghost var t, start := link.State().target, PageStart(address);
    WritableRows(chip);
    AlignedPart(t, chip);
    PageOfPatch(t, chip, address, |bytes|);
    PagePeek(t, start);
    var pageSize := chip.eraseSize;
    if pageSize == 0 || pageSize > 4096 {
      return Usage;
    }
    var page := new byte[pageSize];
    PageBelow(address);
    status := ReadAt(link, chip, PageStart(address), page, pageSize);
    if status != Ok {
      return;
    }
    assert page[..] == page[..pageSize] == PageOf(t, start);
    ghost var mid := link.State().target;
    SameMemory(t, mid);
    CopyInto(page, address - PageStart(address), bytes);
    GoalIsPatch(t, mid, chip, address, bytes, page[..]);
    var reports;
    ghost var cs;
    status, reports, cs := WriteFlash(link, chip, Normalise(chip, PageStart(address)), page[..]);
    StillPart(mid, link.State().target, chip);
    GoalReached(mid, link.State().target, Normalise(chip, start), page[..], cs);
  }

  lemma SameMemory(t: T.Target, t': T.Target)
    requires MemoryOf(t) == MemoryOf(t')
    ensures t.flash == t'.flash && t.ram == t'.ram
  {
    assert MemoryOf(t).flash == MemoryOf(t').flash && MemoryOf(t).ram == MemoryOf(t').ram;
  }

  lemma PageBelow(address: nat)
    ensures PageStart(address) <= address && address - PageStart(address) == address % T.PAGE
  {}

  lemma StillPart(t: T.Target, t': T.Target, chip: Chip)
    requires Fits(t, chip) && RamApart(t) && T.SameShape(t, t') && t'.Valid()
    ensures Fits(t', chip) && RamApart(t')
  {}

  /** Either account of a write that returned Ok says that flash is the goal. */
  lemma GoalReached(t: T.Target, t': T.Target, start: nat, image: seq<byte>, cs: seq<CleanUps>)
    requires Placed(t, start, |image|)
    ensures WroteTo(t, t'.flash, start, image, Ok) ==> t'.flash == Goal(t, start, image)
    ensures WroteWith(t, t', start, image, cs) && Quiescent(t) && AllClean(cs) ==> t'.flash == Goal(t, start, image)
  {
    hide Goal, GoalPage, Flashed, AllClean;
  }

  lemma GoalIsPatch(t: T.Target, mid: T.Target, chip: Chip, address: nat, bytes: seq<byte>, page: seq<byte>)
    requires chip in CHIPS && chip.algo == Ch32v0 && Fits(t, chip) && T.IsFlash(address)
    requires GoodKind(address, |bytes|) && T.FlashOffset(address) < |t.flash|
    requires mid.flash == t.flash && Fits(mid, chip)
    requires PageInFlash(t, PageStart(address)) && address % T.PAGE + |bytes| <= T.PAGE
    requires page == Overlay(PageOf(t, PageStart(address)), address % T.PAGE, bytes)
    ensures T.FlashOffset(address) + |bytes| <= |t.flash|
    ensures var start := Normalise(chip, PageStart(address));
      && Refusal(chip, start, |page|) == Ok && Normalise(chip, start) == start && Placed(mid, start, |page|)
      && Goal(mid, start, page) == Overlay(t.flash, T.FlashOffset(address), bytes)
  {
    hide CHIPS, Overlay, RangeOk, Normalise, PageStart, Placed, Fits, T.FlashOffset, T.IsFlash, GoodKind;
    PageOfPatch(t, chip, address, |bytes|);
    PageOfPatch(mid, chip, address, |bytes|);
    OverlayInPage(t.flash, T.FlashOffset(PageStart(address)), address % T.PAGE, bytes);
  }

  /** Anywhere else: one store of the right width. */
  method PatchPlain(link: Link, chip: Chip, address: Address, bytes: seq<byte>) returns (status: Status)
    requires Healthy(link, chip) && Settable(address, |bytes|)
    requires !(T.IsFlash(address) && T.FlashOffset(address) < |link.State().target.flash|)
    modifies link.wire, link.wire.sim, link.programs
    ensures Steps(link, chip, status == Ok)
    ensures status == Ok ==>
      var t := old(link.State().target);
      MemoryOf(link.State().target) == Patched(MemoryOf(t), PlaceOf(t.ramBase, address), bytes)
  {
    hide Healthy, Join, T.IsFlash, T.FlashOffset, Patched, Steps;
    if |bytes| == 2 {
      status := StoreAt(link, chip, address, 1, Join(bytes[0], bytes[1], 0, 0), bytes);
    } else {
      status := StoreAt(link, chip, address, 2, Join(bytes[0], bytes[1], bytes[2], bytes[3]), bytes);
    }
  }

  method StoreAt(link: Link, chip: Chip, address: Address, size: nat, v: word, ghost bytes: seq<byte>)
    returns (status: Status)
    requires Healthy(link, chip) && Settable(address, |bytes|) && 1 <= size <= 2 && |bytes| == T.Width(size)
    requires !(T.IsFlash(address) && T.FlashOffset(address) < |link.State().target.flash|)
    requires v == Join(bytes[0], bytes[1], if size == 2 then bytes[2] else 0, if size == 2 then bytes[3] else 0)
    modifies link.wire, link.wire.sim, link.programs
    ensures Steps(link, chip, status == Ok)
    ensures status == Ok ==>
      var t := old(link.State().target);
      MemoryOf(link.State().target) == Patched(MemoryOf(t), PlaceOf(t.ramBase, address), bytes)
  {
    hide CHIPS, OnlyScratch, ProgramsBuilt, Prompt, Quiescent, CtrlPrompt, T.AccessStore, Word, Join, T.IsFlash,
      T.FlashOffset, Patched, WordAligned;
    ghost var s := link.State();
    if link.wire.FailStop() && !link.wire.Clean() { link.wire.FailStopKills(); }
    AlignedPart(s.target, chip);
    StoreElsewhere(s.target, address, size, v, bytes);
    status := WriteSized(link, size, address, v);
    ScratchLag(s, link.State());
    StoreKeepsHealth(s, link, chip);
  }

  lemma StoreKeepsHealth(s: D.State, link: Link, chip: Chip)
    requires Usable(link) && OnlyScratch(s, link.State()) && link.State().dm.lag == s.dm.lag
    requires var t, t' := s.target, link.State().target; t' == t.(ram := t'.ram, bus := t'.bus) && |t'.ram| == |t.ram|
    requires link.wire.Clean() ==> Quiescent(s.target) && Prompt(s.dm) && CtrlPrompt(s.target)
    requires |s.target.flash| <= 0x100_0000 && Fits(s.target, chip) && RamApart(s.target) && chip in CHIPS
    requires chip.algo == Ch32v0
    ensures Healthy(link, chip)
  {
    hide CHIPS;
    SamePrompt(s.dm, link.State().dm);
  }

  lemma StoredBytes(size: nat, v: word, bytes: seq<byte>)
    requires 1 <= size <= 2 && |bytes| == T.Width(size)
    requires v == Join(bytes[0], bytes[1], if size == 2 then bytes[2] else 0, if size == 2 then bytes[3] else 0)
    ensures Bytes(v)[..T.Width(size)] == bytes
  {
    SplitJoin(bytes[0], bytes[1], if size == 2 then bytes[2] else 0, if size == 2 then bytes[3] else 0);
    hide Join, B0, B1, B2, B3;
  }

  /** A store of an aligned piece to RAM, or to no memory at all. */
  lemma StoreElsewhere(t: T.Target, address: Address, size: nat, v: word, bytes: seq<byte>)
    requires WordAligned(t) && RamApart(t) && Settable(address, |bytes|) && 1 <= size <= 2 && |bytes| == T.Width(size)
    requires !(T.IsFlash(address) && T.FlashOffset(address) < |t.flash|)
    requires v == Join(bytes[0], bytes[1], if size == 2 then bytes[2] else 0, if size == 2 then bytes[3] else 0)
    ensures var m := Patched(MemoryOf(t), PlaceOf(t.ramBase, address), bytes);
      m.flash == t.flash && |m.ram| == |t.ram| && T.AccessStore(t, address, size, v) ==
        t.(ram := m.ram, bus := t.bus + [T.Put(address, size, v)])
  {
    hide Join, Bytes, T.FlashStore, T.FlashOffset, T.IsFlash, T.CtrlWrite, WordAligned;
    StoredBytes(size, v, bytes);
    if T.IsFlash(address) {
    } else if T.IsRam(t, address) && address - t.ramBase + |bytes| <= |t.ram| {
      assert T.StoreTo(t.ram, address - t.ramBase, size, v) == Overlay(t.ram, address - t.ramBase, bytes);
    }
  }

  /** gdb_mem_patch: whichever memory the address is in, exactly these bytes change. */
  method Patch(link: Link, chip: Chip, address: Address, bytes: seq<byte>) returns (status: Status)
    requires Healthy(link, chip) && Settable(address, |bytes|)
    modifies link.wire, link.wire.sim, link.programs
    ensures Steps(link, chip, status == Ok)
    ensures status == Ok && (link.wire.FailStop() || link.wire.Clean()) ==>
      var t := old(link.State().target);
      MemoryOf(link.State().target) == Patched(MemoryOf(t), PlaceOf(t.ramBase, address), bytes)
  {
    RangeIsPlaced(link.State().target, chip, address, 1);
    hide CHIPS, Overlay, RangeOk, CanUnlock, T.FlashOffset;
    if RangeOk(chip, address, 1) {
      status := PatchFlash(link, chip, address, bytes);
    } else {
      status := PatchPlain(link, chip, address, bytes);
    }
  }

  // The session's table.

  class Session {
    const link: Link
    const chip: Chip
    const breakpoints: array<Breakpoint>
    /** The program's memory, underneath the breakpoints. */
    ghost var program: Memory

    constructor (link: Link, chip: Chip)
      requires Healthy(link, chip)
      ensures this.link == link && this.chip == chip && fresh(breakpoints)
      ensures Valid() && program == MemoryOf(link.State().target) && forall i :: 0 <= i < breakpoints.Length ==>
        !breakpoints[i].used
    {
      hide Consistent, Healthy;
      this.link, this.chip, program := link, chip, MemoryOf(link.State().target);
      var slots := new Breakpoint[MAX_BREAKPOINTS](i => Breakpoint(false, 0, 0, [0, 0, 0, 0]));
      breakpoints := slots;
      new;
      WholePart(link, chip);
      EmptyTable(link.State().target.ramBase, breakpoints[..], program);
    }

    /** The session is healthy, and every live entry is one that was accepted; the entries may overlap. */
    ghost predicate Formed()
      reads this, breakpoints, link, link.wire, link.wire.sim, link.programs
    {
      && Healthy(link, chip) && breakpoints.Length == MAX_BREAKPOINTS
      && forall i :: 0 <= i < breakpoints.Length && breakpoints[i].used ==>
         Settable(breakpoints[i].address, breakpoints[i].kind)
    }

    /** And as long as no request has failed, the table is an overlay on the program. */
    ghost predicate Valid()
      reads this, breakpoints, link, link.wire, link.wire.sim, link.programs
    {
      Formed() && (link.wire.Clean() ==> Overlaid())
    }

    ghost predicate Overlaid()
      reads this, breakpoints, link.wire.sim
    {
      Consistent(link.State().target.ramBase, breakpoints[..], Memory(), program)
    }

    ghost function Memory(): Memory
      reads link.wire.sim
    {
      MemoryOf(link.State().target)
    }

    ghost function PlaceAt(address: Address): Place
      reads link.wire.sim
    {
      PlaceOf(link.State().target.ramBase, address)
    }

    ghost function Spots(): (r: seq<Spot>)
      reads this, breakpoints
      ensures |r| == breakpoints.Length
    {
      SpotsOf(breakpoints[..])
    }

    /** What a step that was answered has done, it has done for certain. */
    ghost predicate Certain()
      reads link.wire
    {
      link.wire.FailStop() || link.wire.Clean()
    }

    /** Nothing has been sent. */
    twostate predicate Unmoved()
      reads link.wire, link.wire.sim
    {
      link.State() == old(link.State()) && link.wire.Clean() == old(link.wire.Clean())
    }

    method FindFree() returns (i: nat)
      requires breakpoints.Length == MAX_BREAKPOINTS
      ensures i == FirstFree(Spots())
    {
      i := 0;
      while i < breakpoints.Length && breakpoints[i].used
        invariant i <= breakpoints.Length && FirstFree(Spots()) == i + FirstFree(Spots()[i..])
      {
        assert Spots()[i..][0] == Spots()[i] && Spots()[i..][1..] == Spots()[i + 1..];
        i := i + 1;
      }
      if i < breakpoints.Length {
        assert Spots()[i..][0] == Spots()[i];
      }
    }

    /** What an insertion into slot i does: the slot remembers what was there, and an ebreak is there now. */
    twostate predicate Occupied(i: nat, address: Address, kind: nat)
      requires kind == 2 || kind == 4
      reads this, breakpoints, link.wire.sim
    {
      && i < breakpoints.Length
      && Memory() == Patched(old(Memory()), old(PlaceAt(address)), EbreakBytes(kind))
      && breakpoints[..] == old(breakpoints[..])[i := Breakpoint(true, address, kind, breakpoints[i].original)]
      && breakpoints[i].original[..kind] == Under(old(Memory()), old(PlaceAt(address)), kind)
    }

    /**
     gdb_breakpoint_insert.  On a wire that answers it succeeds exactly when the kind is
     known, the address aligned and a slot free, whatever is live already.  The overlay
     is kept when the range is free of live entries; InsertTwice says what becomes of
     it when it is not.
     */
    method Insert(address: Address, kind: nat) returns (ok: bool)
      requires Formed() && (CanInsert(Spots(), address, kind) ==> Settable(address, kind))
      modifies link.wire, link.wire.sim, link.programs, breakpoints
      ensures Formed()
      ensures if CanInsert(old(Spots()), address, kind) then Steps(link, chip, ok) else !ok && Unmoved()
      ensures Spots() == if ok then Inserted(old(Spots()), address, kind) else old(Spots())
      ensures ok && Certain() ==> Occupied(FirstFree(old(Spots())), address, kind)
      ensures var free := FreeSpot(old(link.State().target.ramBase), old(Spots()), address, kind);
        old(Valid()) && (ok && link.wire.Clean() ==> free) ==> Valid()
    {
      hide Healthy, Overlaid, FirstFree, FreeSpot, Patched, Under, PlaceOf, Settable;
      if (kind != 2 && kind != 4) || address % kind != 0 {
        return false;
      }
      var i := FindFree();
      if i == breakpoints.Length {
        return false;
      }
      ok := InsertAt(i, address, kind);
    }

    /** The rest of an insertion, once a slot has been found. */
    method InsertAt(i: nat, address: Address, kind: nat) returns (ok: bool)
      requires Formed() && Settable(address, kind) && i < breakpoints.Length && !breakpoints[i].used
      modifies link.wire, link.wire.sim, link.programs, breakpoints
      ensures Formed() && Steps(link, chip, ok)
      ensures Spots() == if ok then old(Spots())[i := Spot(true, address, kind)] else old(Spots())
      ensures ok && Certain() ==> Occupied(i, address, kind)
      ensures var free := FreeSpot(old(link.State().target.ramBase), old(Spots()), address, kind);
        old(Valid()) && (ok && link.wire.Clean() ==> free) ==> Valid()
    {
      hide Healthy, Consistent, Peek, Plain, FreeSpot, Patched, Under, T.IsFlash, T.FlashOffset, WordAligned, PlaceOf;
      ghost var t, slots := link.State().target, breakpoints[..];
      HealthyPart(link, chip);
      PeekIsUnder(t, address, kind);
      var original := new byte[4](k requires 0 <= k < 4 reads breakpoints => breakpoints[i].original[k]);
      var status := ReadAt(link, chip, address, original, kind);
      if status != Ok {
        return false;
      }
      status := Patch(link, chip, address, EbreakBytes(kind));
      if status != Ok {
        return false;
      }
      ghost var bp := Breakpoint(true, address, kind, original[..]);
      assert bp.original[..kind] == Under(MemoryOf(t), PlaceOf(t.ramBase, address), kind);
      if old(Valid()) && link.wire.Clean() && FreeSpot(t.ramBase, SpotsOf(slots), address, kind) {
        InsertKeeps(t.ramBase, slots, MemoryOf(t), program, i, bp);
      }
      breakpoints[i] := Breakpoint(true, address, kind, original[..]);
      assert breakpoints[..] == slots[i := bp];
      assert SpotsOf(slots[i := bp]) == SpotsOf(slots)[i := Spot(true, address, kind)];
      ok := true;
    }

    /** gdb_breakpoint_remove: the first entry with this address and kind is undone. */
    method Remove(address: Address, kind: nat) returns (ok: bool)
      requires Formed()
      modifies link.wire, link.wire.sim, link.programs, breakpoints
      ensures Formed() && (old(Valid()) ==> Valid())
      ensures if FirstAt(old(Spots()), address, kind) < |old(Spots())| then Steps(link, chip, ok) else !ok && Unmoved()
      ensures Spots() == if ok then Removed(old(Spots()), address, kind) else old(Spots())
      ensures ok && Certain() ==> Undone(FirstAt(old(Spots()), address, kind))
    {
      hide Healthy, Overlaid, Patched, PlaceOf, Settable;
      var i := 0;
      ghost var spots := Spots();
      while i < breakpoints.Length
        invariant i <= breakpoints.Length && FirstAt(spots, address, kind) == i + FirstAt(spots[i..], address, kind)
      {
        assert spots[i..][0] == spots[i] == Spot(breakpoints[i].used, breakpoints[i].address, breakpoints[i].kind);
        assert spots[i..][1..] == spots[i + 1..];
        if breakpoints[i].used && breakpoints[i].address == address && breakpoints[i].kind == kind {
          ok := Undo(i);
          return;
        }
        i := i + 1;
      }
      ok := false;
    }

    /** What undoing slot i does: what it remembers is there again, and it is free. */
    twostate predicate Undone(i: nat)
      reads this, breakpoints, link.wire.sim
    {
      && i < |old(breakpoints[..])| && old(breakpoints[i]).kind <= 4
      && breakpoints[..] == Freed(old(breakpoints[..]), i)
      && Memory() == Patched(old(Memory()), old(PlaceAt(breakpoints[i].address)),
                             old(breakpoints[i]).original[..old(breakpoints[i]).kind])
    }

    /** Put back what slot i remembers, and free it if that worked. */
    method Undo(i: nat) returns (ok: bool)
      requires Formed() && i < breakpoints.Length && breakpoints[i].used
      modifies link.wire, link.wire.sim, link.programs, breakpoints
      ensures Formed() && Steps(link, chip, ok) && (old(Valid()) ==> Valid())
      ensures breakpoints[..] == if ok then Freed(old(breakpoints[..]), i) else old(breakpoints[..])
      ensures var b := old(breakpoints[i]);
        Spots() == if ok then old(Spots())[i := Spot(false, b.address, b.kind)] else old(Spots())
      ensures ok && Certain() ==> Undone(i)
    {
      hide Healthy, Consistent, Patched, PlaceOf, T.IsCtrl;
      ghost var t, slots := link.State().target, breakpoints[..];
      if old(Valid()) && link.wire.Clean() { RemoveKeeps(t.ramBase, slots, MemoryOf(t), program, i); }
      var bp := breakpoints[i];
      var status := Patch(link, chip, bp.address, bp.original[..bp.kind]);
      if status != Ok {
        return false;
      }
      breakpoints[i] := bp.(used := false);
      assert breakpoints[..] == Freed(slots, i);
      assert SpotsOf(breakpoints[..]) == SpotsOf(slots)[i := Spot(false, bp.address, bp.kind)];
      ok := true;
    }

    /** Free slot i, whether or not what it remembers could be put back. */
    method ClearSlot(i: nat)
      requires Formed() && i < breakpoints.Length && breakpoints[i].used
      modifies link.wire, link.wire.sim, link.programs, breakpoints
      ensures Formed() && Steps(link, chip, link.wire.Clean()) && (old(Valid()) ==> Valid())
      ensures breakpoints[..] == Freed(old(breakpoints[..]), i)
      ensures link.wire.Clean() ==> Undone(i)
    {
      hide Healthy, Consistent, Patched, PlaceOf, T.IsCtrl;
      ghost var t, slots := link.State().target, breakpoints[..];
      if old(Valid()) && link.wire.Clean() { RemoveKeeps(t.ramBase, slots, MemoryOf(t), program, i); }
      var bp := breakpoints[i];
      var ignored := Patch(link, chip, bp.address, bp.original[..bp.kind]);
      breakpoints[i] := bp.(used := false);
      assert breakpoints[..] == Freed(slots, i);
    }

    /**
     gdb_breakpoints_clear, on detach, kill and disconnect.  No entry is left, and on a
     wire that answers each has been undone, in the order of the slots: the program is
     back if the entries were an overlay on it.
     */
    method ClearAll()
      requires Formed()
      modifies link.wire, link.wire.sim, link.programs, breakpoints
      ensures Formed() && (forall i :: 0 <= i < breakpoints.Length ==> !breakpoints[i].used)
      ensures link.wire.Clean() ==> old(link.wire.Clean())
      ensures link.wire.Clean() ==>
        Memory() == Cleared(old(link.State().target.ramBase), old(breakpoints[..]), old(Memory()), MAX_BREAKPOINTS)
      ensures old(Valid()) ==> Valid() && (link.wire.Clean() ==> Memory() == program)
    {
      hide Consistent, Healthy, Patched, PlaceOf, T.IsCtrl;
      ghost var ramBase, slots, m := link.State().target.ramBase, breakpoints[..], Memory();
      var i := 0;
      while i < breakpoints.Length
        invariant i <= breakpoints.Length && Formed() && (old(Valid()) ==> Valid())
        invariant link.State().target.ramBase == ramBase && (link.wire.Clean() ==> old(link.wire.Clean()))
        invariant link.wire.Clean() ==> Memory() == Cleared(ramBase, slots, m, i)
        invariant forall k :: 0 <= k < i ==> !breakpoints[k].used
        invariant breakpoints[i..] == slots[i..]
      {
        assert breakpoints[i] == breakpoints[i..][0] == slots[i];
        assert breakpoints[i + 1..] == breakpoints[i..][1..] && slots[i + 1..] == slots[i..][1..];
        if breakpoints[i].used {
          ghost var now := breakpoints[..];
          ClearSlot(i);
          assert forall k :: 0 <= k < breakpoints.Length && k != i ==> breakpoints[..][k] == now[k];
        }
        i := i + 1;
      }
      if old(Valid()) && link.wire.Clean() { NoEntriesNoOverlay(ramBase, breakpoints[..], Memory(), program); }
    }

    /**
     Inserting the same breakpoint twice and removing it twice leaves the ebreak behind:
     the second insertion remembers the ebreak of the first, and removals go through
     the slots in order.  Memory survives exactly when it held that ebreak already, or
     when there is none at that address.
     */
    method InsertTwice(address: Address, kind: nat)
      requires Formed() && link.wire.Reliable() && Settable(address, kind)
      requires FirstAt(Spots(), address, kind) == |Spots()|
      requires CanInsert(Spots(), address, kind) && CanInsert(Inserted(Spots(), address, kind), address, kind)
      modifies link.wire, link.wire.sim, link.programs, breakpoints
      ensures Formed() && forall k :: 0 <= k < breakpoints.Length ==> Spots()[k].used == old(Spots())[k].used
      ensures Memory() == Patched(old(Memory()), old(PlaceAt(address)), EbreakBytes(kind))
      ensures Memory() == old(Memory()) <==>
        Under(old(Memory()), old(PlaceAt(address)), kind) == EbreakBytes(kind) ||
        !Inside(old(Memory()), old(PlaceAt(address)), kind)
    {
      hide Healthy, Overlaid, Patched, Under, PlaceOf, Settable, Inserted, Removed, FirstAt, FirstFree, Inside,
        EbreakBytes;
      TwoInsertions(Spots(), address, kind);
      UndoneInOrder(Memory(), PlaceAt(address), kind);
      ReliableFrom();
      var ok := Insert(address, kind);
      ReliableFrom();
      ok := Insert(address, kind);
      ReliableFrom();
      ok := Remove(address, kind);
      ReliableFrom();
      ok := Remove(address, kind);
      ReliableFrom();
    }

    lemma ReliableFrom()
      requires Formed() && link.wire.Reliable()
      ensures link.wire.Clean()
    {
      link.wire.ReliableIsClean();
    }

    // Runs.

    /** What a client asks for, from the first request to the last; then it detaches, kills or hangs up. */
    method Serve(requests: seq<Request>)
      requires Valid() && NeverOverlaps(link.State().target.ramBase, Spots(), requests)
      requires link.wire.Reliable() || KeepsOff(requests)
      modifies link.wire, link.wire.sim, link.programs, breakpoints
      ensures Valid() && (forall i :: 0 <= i < breakpoints.Length ==> !breakpoints[i].used)
      ensures link.wire.Clean() ==> Memory() == program
    {
      RunAll(requests);
      ClearAll();
    }

    /**
     After any run of insertions and removals on a wire that answers the overlay holds,
     with exactly the entries asked for.
     */
    method RunAll(requests: seq<Request>)
      requires Valid() && NeverOverlaps(link.State().target.ramBase, Spots(), requests)
      requires link.wire.Reliable() || KeepsOff(requests)
      modifies link.wire, link.wire.sim, link.programs, breakpoints
      ensures Valid() && link.State().target.ramBase == old(link.State().target.ramBase)
      ensures link.wire.Clean() ==> old(link.wire.Clean()) && Spots() == AfterAll(old(Spots()), requests)
    {
      hide Healthy, Overlaid, Inserted, Removed, FreeSpot, CanInsert, FirstAt, Settable;
      ghost var ramBase := link.State().target.ramBase;
      var i := 0;
      assert requests[0..] == requests;
      while i < |requests|
        invariant i <= |requests| && Valid() && link.State().target.ramBase == ramBase
        invariant link.wire.Clean() ==> old(link.wire.Clean())
        invariant link.wire.Clean() ==> NeverOverlaps(ramBase, Spots(), requests[i..])
        invariant link.wire.Clean() ==> AfterAll(old(Spots()), requests) == AfterAll(Spots(), requests[i..])
      {
        var r := requests[i];
        assert requests[i..][0] == r && requests[i..][1..] == requests[i + 1..];
        var ignored;
        if link.wire.Reliable() { ReliableFrom(); }
        RefusedStays(Spots(), r.address, r.kind);
        if r.insert {
          if CanInsert(Spots(), r.address, r.kind) { InsertionSettable(Spots(), r.address, r.kind); }
          ignored := Insert(r.address, r.kind);
        } else {
          ignored := Remove(r.address, r.kind);
        }
        i := i + 1;
      }
      assert requests[i..] == [];
    }
  }

  /** No insertion names a register of the flash controller. */
  predicate KeepsOff(requests: seq<Request>) {
    forall i :: 0 <= i < |requests| && requests[i].insert ==> !T.IsCtrl(requests[i].address)
  }

  lemma InsertionSettable(spots: seq<Spot>, address: Address, kind: nat)
    requires CanInsert(spots, address, kind)
    ensures !T.IsCtrl(address) ==> Settable(address, kind)
  {}

  lemma WholePart(link: Link, chip: Chip)
    requires Healthy(link, chip)
    ensures WholeWords(link.State().target.ramBase, MemoryOf(link.State().target))
  {
    hide CanUnlock, CHIPS;
    WholePages64(|link.State().target.flash|);
  }

  lemma WholePages64(n: nat)
    requires n % T.PAGE == 0
    ensures n % 4 == 0
  {
    assert n == 4 * (16 * (n / T.PAGE));
  }

  lemma HealthyPart(link: Link, chip: Chip)
    requires Healthy(link, chip)
    ensures WordAligned(link.State().target) && RamApart(link.State().target)
  {}
}
