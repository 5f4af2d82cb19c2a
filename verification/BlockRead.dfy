/**
 Reading a run of bytes with byte and word loads (wl_dm_read_block in src/dm.c).

 Whatever the range, only loads inside it are made and no memory changes.  The bytes
 are those of memory for every range that keeps off the flash controller, whose
 registers change when read; the range may wrap past the end of the address space.
 */
module BlockRead {
  import opened Words
  import opened Chips
  import opened Linke
  import opened DmHost
  import T = Target
  import D = DebugModule

  /** The byte the core would load from `address`. */
  function PeekByte(t: T.Target, address: nat): byte {
    if T.IsFlash(address) then
      if T.FlashOffset(address) < |t.flash| then t.flash[T.FlashOffset(address)] else 0
    else if T.IsRam(t, address) then t.ram[address - t.ramBase]
    else 0
  }

  /** Memory, byte by byte: what a block read is supposed to return. */
  function Peek(t: T.Target, address: nat, length: nat): (bs: seq<byte>)
    ensures |bs| == length
  {
    seq(length, i requires 0 <= i < length => PeekByte(t, Wrap(address + i)))
  }

  /** The memories begin and end on word boundaries, as every row of the chip table has it. */
  ghost predicate WordAligned(t: T.Target) {
    |t.flash| % 64 == 0 && |t.flash| <= 0x100_0000 && t.ramBase % 4 == 0 && |t.ram| % 4 == 0 && t.Valid()
  }

  /** A range that does not touch the flash controller; it may wrap. */
  predicate Plain(address: nat, length: nat) {
    address + length <= 0x4002_2000 ||
    (0x4002_2400 <= address < WORD_LIMIT && address + length <= WORD_LIMIT + 0x4002_2000)
  }

  /** The range is one whose bytes do not change when they are read. */
  ghost predicate Steady(t: T.Target, address: nat, length: nat) {
    WordAligned(t) && Plain(address, length)
  }

  /** How far into a range an address lies. */
  function Into(address: nat, first: nat): nat
    requires address < WORD_LIMIT && first < WORD_LIMIT
  {
    if address >= first then address - first else address + WORD_LIMIT - first
  }

  /** An aligned byte or word load that lies inside the range. */
  predicate InRange(b: T.Bus, first: nat, length: nat)
    requires first < WORD_LIMIT
  {
    && b.Fetch? && (b.size == 0 || b.size == 2) && b.address < WORD_LIMIT
    && Into(b.address, first) + T.Width(b.size) <= length && b.address % T.Width(b.size) == 0
  }

  /** The target is as it was, except that the core made some more loads, all of them inside the range. */
  ghost predicate OnlyLoads(t: T.Target, t': T.Target, first: nat, length: nat)
    requires first < WORD_LIMIT
  {
    && t' == t.(bus := t'.bus, busy := t'.busy) && t'.busy <= t.busy && (Plain(first, length) ==> t'.busy == t.busy)
    && |t.bus| <= |t'.bus| && t'.bus[..|t.bus|] == t.bus
    && (forall k :: |t.bus| <= k < |t'.bus| ==> InRange(t'.bus[k], first, length))
  }

  /** A load that hits the controller can at most use up a busy poll. */
  lemma LoadAnywhere(t: T.Target, address: nat, size: nat)
    requires t.Valid()
    ensures var r := T.AccessLoad(t, address, size).0;
      r == t.(bus := t.bus + [T.Fetch(address, size)], busy := r.busy) &&
      r.busy <= t.busy && (!T.IsCtrl(address) ==> r.busy == t.busy)
  {
    hide T.PlainLoad, T.StatrValue, T.CtlrValue;
  }

  lemma LoadOutsideCtrl(t: T.Target, address: nat, size: nat)
    requires t.Valid() && !T.IsCtrl(address)
    ensures T.AccessLoad(t, address, size).1 == T.PlainLoad(t, address, size)
  {
    hide T.PlainLoad;
  }

  lemma ByteLoad(t: T.Target, address: nat)
    ensures B0(D.Loaded(0, T.PlainLoad(t, address, 0))) == PeekByte(t, address)
  {
    assert T.PlainLoad(t, address, 0) == PeekByte(t, address) as word;
    WidenNarrow(PeekByte(t, address));
  }

  lemma WidenNarrow(b: byte)
    ensures B0((b as word) & 0xff) == b
  {}

  lemma FlashWord(t: T.Target, address: nat)
    requires WordAligned(t) && address % 4 == 0 && T.IsFlash(address)
    ensures T.PlainLoad(t, address, 2) ==
      Join(PeekByte(t, address), PeekByte(t, address + 1), PeekByte(t, address + 2), PeekByte(t, address + 3))
  {
    hide Join;
    SameWindow(address, 1);
    SameWindow(address, 2);
    SameWindow(address, 3);
    ZeroWord();
  }

  lemma RamWord(t: T.Target, address: nat)
    requires WordAligned(t) && address % 4 == 0 && !T.IsFlash(address)
    ensures T.PlainLoad(t, address, 2) ==
      Join(PeekByte(t, address), PeekByte(t, address + 1), PeekByte(t, address + 2), PeekByte(t, address + 3))
  {
    hide Join;
    SameWindow(address, 1);
    SameWindow(address, 2);
    SameWindow(address, 3);
    ZeroWord();
  }

  /** An aligned word is four neighbouring bytes. */
  lemma WordLoad(t: T.Target, address: nat)
    requires WordAligned(t) && address % 4 == 0 && address < WORD_LIMIT
    ensures Bytes(D.Loaded(2, T.PlainLoad(t, address, 2))) == Peek(t, address, 4)
  {
    hide Join, B0, B1, B2, B3, PeekByte, T.PlainLoad, T.IsFlash, Wrap;
    assert address + 3 < WORD_LIMIT;
    forall i | 0 <= i < 4 ensures Peek(t, address, 4)[i] == PeekByte(t, address + i) {
      assert Wrap(address + i) == address + i;
    }
    assert Peek(t, address, 4) ==
           [PeekByte(t, address), PeekByte(t, address + 1), PeekByte(t, address + 2), PeekByte(t, address + 3)];
    if T.IsFlash(address) {
      FlashWord(t, address);
    } else {
      RamWord(t, address);
    }
    SplitJoin(PeekByte(t, address), PeekByte(t, address + 1), PeekByte(t, address + 2), PeekByte(t, address + 3));
  }

  lemma ZeroWord()
    ensures Join(0, 0, 0, 0) == 0
  {}

  lemma SameWindow(address: nat, i: nat)
    requires address % 4 == 0 && i < 4
    ensures (address + i) / 0x100_0000 == address / 0x100_0000 && (address + i) % 0x100_0000 == address % 0x100_0000 + i
  {}

  // Ranges.

  /** The byte at `at` lies no farther into the range, and keeps off the controller if the range does. */
  lemma AtInto(first: nat, at: nat, width: nat, length: nat)
    requires first < WORD_LIMIT && at + width <= length && (width == 1 || width == 4)
    requires width == 4 ==> (first + at) % 4 == 0
    ensures Into(Wrap(first + at), first) <= at && Wrap(first + at) % width == 0
    ensures Plain(first, length) ==> !T.IsCtrl(Wrap(first + at))
  {
    var m, r := at / WORD_LIMIT, at % WORD_LIMIT;
    assert first + at == WORD_LIMIT * m + (first + r);
    if first + r < WORD_LIMIT {
      assert Wrap(first + at) == first + r;
    } else {
      assert first + at == WORD_LIMIT * (m + 1) + (first + r - WORD_LIMIT);
      assert Wrap(first + at) == first + r - WORD_LIMIT;
    }
    WrapKeepsWords(first + at);
  }

  lemma WrapKeepsWords(n: nat)
    ensures n % 4 == 0 ==> Wrap(n) % 4 == 0
  {
    if n % 4 == 0 {
      var q, k := n / WORD_LIMIT, n / 4;
      assert n == 4 * k && Wrap(n) == n - WORD_LIMIT * q;
      assert Wrap(n) == 4 * (k - 0x4000_0000 * q);
    }
  }

  lemma LoadsGrow(t: T.Target, t1: T.Target, t2: T.Target, first: nat, length: nat, b: T.Bus)
    requires first < WORD_LIMIT && OnlyLoads(t, t1, first, length) && InRange(b, first, length)
    requires t2 == t1.(bus := t1.bus + [b], busy := t2.busy) && t2.busy <= t1.busy
    requires (Plain(first, length) ==> t2.busy == t1.busy)
    ensures OnlyLoads(t, t2, first, length)
  {
    hide Plain, InRange;
  }

  /** The state after a block read that may have stopped half way. */
  ghost predicate ReadFrame(link: Link, s: D.State, first: nat, length: nat)
    requires first < WORD_LIMIT
    reads link, link.wire, link.wire.sim, link.programs
  {
    Usable(link) && OnlyScratch(s, link.State()) && OnlyLoads(s.target, link.State().target, first, length)
  }

  /** One load, as a step of a block read: it is made or it is not, and nothing else happens. */
  method LoadInRange(link: Link, size: nat, at: nat, ghost first: nat, ghost length: nat, ghost s: D.State,
                     address: nat)
    returns (status: Status, word: word)
    requires (size == 0 || size == 2) && first < WORD_LIMIT && ReadFrame(link, s, first, length)
    requires at + T.Width(size) <= length && address == Wrap(first + at) && (size == 2 ==> (first + at) % 4 == 0)
    modifies link.wire, link.wire.sim, link.programs
    ensures ReadFrame(link, s, first, length)
    ensures status == Ok && Steady(s.target, first, length) ==>
      !T.IsCtrl(address) && word == D.Loaded(size, T.PlainLoad(old(link.State().target), address, size))
    ensures link.wire.failed == old(link.wire.failed) && Prompt(s.dm) ==> status == Ok
    ensures old(link.wire.failed) <= link.wire.failed
    ensures status == Ok ==> link.wire.failed == old(link.wire.failed)
    ensures status != VerifyError
    ensures old(link.wire.Dead()) ==> link.wire.Dead() && status != Ok && link.State() == old(link.State())
  {
    hide T.AccessLoad, Word, D.Loaded, T.PlainLoad, Plain, OnlyLoads, WordAligned, T.IsCtrl, Wrap, Prompt,
      ProgramsBuilt, OnlyScratch;
    ghost var mid := link.State();
    AtInto(first, at, T.Width(size), length);
    LoadAnywhere(mid.target, address, size);
    if !T.IsCtrl(address) { LoadOutsideCtrl(mid.target, address, size); }
    LoadsGrow(s.target, mid.target, T.AccessLoad(mid.target, address, size).0, first, length, T.Fetch(address, size));
    status, word := ReadSized(link, size, address);
    ScratchTrans(s, mid, link.State());
    ScratchLag(s, mid);
    SamePrompt(s.dm, mid.dm);
  }

  // The three loops.

  lemma PeekIgnoresBus(t: T.Target, t': T.Target, address: nat, length: nat)
    requires t'.flash == t.flash && t'.ram == t.ram && t'.ramBase == t.ramBase
    ensures Peek(t, address, length) == Peek(t', address, length)
  {
    forall i | 0 <= i < length ensures Peek(t, address, length)[i] == Peek(t', address, length)[i] {
      assert PeekByte(t, Wrap(address + i)) == PeekByte(t', Wrap(address + i));
    }
  }

  lemma PeekExtend(t: T.Target, address: nat, done: nat, more: nat)
    ensures Peek(t, address, done) + Peek(t, address + done, more) == Peek(t, address, done + more)
  {
    hide PeekByte, Wrap;
  }

  /** Where a read starts does not depend on when its address is wrapped. */
  lemma PeekWrapped(t: T.Target, address: nat, length: nat)
    ensures Peek(t, Wrap(address), length) == Peek(t, address, length)
  {
    hide PeekByte;
    forall i | 0 <= i < length ensures Peek(t, Wrap(address), length)[i] == Peek(t, address, length)[i] {
      assert Wrap(Wrap(address) + i) == Wrap(address + i);
    }
  }

  /**
   The first `at` bytes have been read, and nothing else has happened: the rest of the
   buffer is as it was.
   */
  ghost predicate Half(link: Link, s: D.State, first: nat, length: nat, now: seq<byte>, was: seq<byte>, at: nat)
    requires first < WORD_LIMIT
    reads link, link.wire, link.wire.sim, link.programs
  {
    && ReadFrame(link, s, first, length)
    && at <= length <= |was| == |now| && now[at..] == was[at..]
    && (Steady(s.target, first, length) ==> now[..at] == Peek(s.target, first, at))
  }

  /** More bytes are in place. */
  lemma HalfMore(t: T.Target, first: nat, at: nat, was: seq<byte>, now: seq<byte>, next: seq<byte>, more: seq<byte>)
    requires at + |more| <= |was| == |now| && now[at..] == was[at..]
    requires next == now[..at] + more + now[at + |more|..]
    ensures |next| == |was| && next[at + |more|..] == was[at + |more|..]
    ensures now[..at] == Peek(t, first, at) && more == Peek(t, Wrap(first + at), |more|) ==>
      next[..at + |more|] == Peek(t, first, at + |more|)
  {
    hide Peek, Wrap;
    assert now[at..][|more|..] == now[at + |more|..] && was[at..][|more|..] == was[at + |more|..];
    assert next[..at + |more|] == now[..at] + more;
    PeekExtend(t, first, at, |more|);
    PeekWrapped(t, first + at, |more|);
  }

  /** One byte into buffer[at]. */
  method ReadByteInto(link: Link, first: nat, buffer: array<byte>, at: nat, ghost length: nat, ghost s: D.State,
                      ghost was: seq<byte>)
    returns (status: Status)
    requires first < WORD_LIMIT && at < length && Half(link, s, first, length, buffer[..], was, at)
    modifies link.wire, link.wire.sim, link.programs, buffer
    ensures ReadFrame(link, s, first, length)
    ensures status == Ok ==> Half(link, s, first, length, buffer[..], was, at + 1)
    ensures link.wire.failed == old(link.wire.failed) && Prompt(s.dm) ==> status == Ok
    ensures old(link.wire.failed) <= link.wire.failed
    ensures status == Ok ==> link.wire.failed == old(link.wire.failed)
    ensures status != VerifyError
    ensures old(link.wire.Dead()) ==> link.wire.Dead() && status != Ok && link.State() == old(link.State())
  {
    hide T.AccessLoad, D.Loaded, T.PlainLoad, B0, Plain, WordAligned, Wrap, Peek, Prompt, ProgramsBuilt, OnlyScratch;
    ghost var t, address := link.State().target, Wrap(first + at);
    ByteLoad(t, address);
    PeekIgnoresBus(t, s.target, address, 1);
    var word;
    status, word := LoadInRange(link, 0, at, first, length, s, Wrap(first + at));
    if status == Ok {
      ghost var now := buffer[..];
      buffer[at] := B0(word);
      PeekOne(t, address);
      assert buffer[..] == now[..at] + [B0(word)] + now[at + 1..];
      HalfMore(s.target, first, at, was, now, buffer[..], [B0(word)]);
    }
  }

  lemma PeekOne(t: T.Target, address: nat)
    requires address < WORD_LIMIT
    ensures Peek(t, address, 1) == [PeekByte(t, address)]
  {
    hide PeekByte;
    assert Peek(t, address, 1)[0] == PeekByte(t, Wrap(address));
  }

  /** One aligned word into buffer[at..at + 4], least significant byte first. */
  method ReadWordInto(link: Link, first: nat, buffer: array<byte>, at: nat, ghost length: nat, ghost s: D.State,
                      ghost was: seq<byte>)
    returns (status: Status)
    requires first < WORD_LIMIT && at + 4 <= length && (first + at) % 4 == 0
    requires Half(link, s, first, length, buffer[..], was, at)
    modifies link.wire, link.wire.sim, link.programs, buffer
    ensures ReadFrame(link, s, first, length)
    ensures status == Ok ==> Half(link, s, first, length, buffer[..], was, at + 4)
    ensures link.wire.failed == old(link.wire.failed) && Prompt(s.dm) ==> status == Ok
    ensures old(link.wire.failed) <= link.wire.failed
    ensures status == Ok ==> link.wire.failed == old(link.wire.failed)
    ensures status != VerifyError
    ensures old(link.wire.Dead()) ==> link.wire.Dead() && status != Ok && link.State() == old(link.State())
  {
    hide T.AccessLoad, D.Loaded, T.PlainLoad, B0, B1, B2, B3, Plain, WordAligned, Wrap, Peek, Prompt, ProgramsBuilt,
      OnlyScratch;
    ghost var t, address := link.State().target, Wrap(first + at);
    WrapKeepsWords(first + at);
    if Steady(s.target, first, length) {
      SteadyStays(s.target, t, first, length);
      WordLoad(t, address);
    }
    PeekIgnoresBus(t, s.target, address, 4);
    var word;
    status, word := LoadInRange(link, 2, at, first, length, s, Wrap(first + at));
    if status == Ok {
      ghost var now := buffer[..];
      StoreWord(buffer, at, word);
      HalfMore(s.target, first, at, was, now, buffer[..], Bytes(word));
    }
  }

  lemma SteadyStays(t: T.Target, t': T.Target, first: nat, length: nat)
    requires first < WORD_LIMIT && Steady(t, first, length) && OnlyLoads(t, t', first, length)
    ensures WordAligned(t')
  {}

  method StoreWord(buffer: array<byte>, at: nat, word: word)
    requires at + 4 <= buffer.Length
    modifies buffer
    ensures buffer[..] == old(buffer[..at]) + Bytes(word) + old(buffer[at + 4..])
  {
    hide B0, B1, B2, B3;
    var i := 0;
    while i < 4
      invariant i <= 4
      invariant buffer[..] == old(buffer[..at]) + Bytes(word)[..i] + old(buffer[at + i..])
    {
      buffer[at + i] := Bytes(word)[i];
      i := i + 1;
    }
  }

  /** Single bytes, up to a word boundary. */
  method ReadHead(link: Link, first: nat, buffer: array<byte>, length: nat, ghost s: D.State, ghost was: seq<byte>)
    returns (status: Status, at: nat)
    requires first < WORD_LIMIT && Half(link, s, first, length, buffer[..], was, 0)
    modifies link.wire, link.wire.sim, link.programs, buffer
    ensures ReadFrame(link, s, first, length)
    ensures status == Ok ==>
      Half(link, s, first, length, buffer[..], was, at) && (at == length || (first + at) % 4 == 0)
    ensures link.wire.failed == old(link.wire.failed) && Prompt(s.dm) ==> status == Ok
    ensures old(link.wire.failed) <= link.wire.failed
    ensures status == Ok ==> link.wire.failed == old(link.wire.failed)
    ensures status != VerifyError
    ensures old(link.wire.Dead()) ==>
      link.wire.Dead() && link.State() == old(link.State()) && (status == Ok ==> at == 0)
  {
    hide Half, ReadFrame, Prompt, Usable;
    HalfFrames(link, s, first, length, buffer[..], was, 0);
    status, at := Ok, 0;
    while at < length && (first + at) % 4 != 0
      invariant status == Ok && Half(link, s, first, length, buffer[..], was, at) && ReadFrame(link, s, first, length)
      invariant link.wire.failed == old(link.wire.failed) && at <= length
      invariant old(link.wire.Dead()) ==> at == 0 && link.wire.Dead() && link.State() == old(link.State())
      decreases length - at
    {
      status := ReadByteInto(link, first, buffer, at, length, s, was);
      if status != Ok {
        return;
      }
      at := at + 1;
    }
  }

  lemma HalfFrames(link: Link, s: D.State, first: nat, length: nat, now: seq<byte>, was: seq<byte>, at: nat)
    requires first < WORD_LIMIT && Half(link, s, first, length, now, was, at)
    ensures ReadFrame(link, s, first, length) && at <= length
  {}

  /** Whole words, while four bytes are left. */
  method ReadWords(link: Link, first: nat, buffer: array<byte>, start: nat, length: nat, ghost s: D.State,
                   ghost was: seq<byte>)
    returns (status: Status, at: nat)
    requires first < WORD_LIMIT && Half(link, s, first, length, buffer[..], was, start)
    requires start == length || (first + start) % 4 == 0
    modifies link.wire, link.wire.sim, link.programs, buffer
    ensures ReadFrame(link, s, first, length)
    ensures status == Ok ==> Half(link, s, first, length, buffer[..], was, at) && length - at < 4
    ensures link.wire.failed == old(link.wire.failed) && Prompt(s.dm) ==> status == Ok
    ensures old(link.wire.failed) <= link.wire.failed
    ensures status == Ok ==> link.wire.failed == old(link.wire.failed)
    ensures status != VerifyError
    ensures old(link.wire.Dead()) ==>
      link.wire.Dead() && link.State() == old(link.State()) && (status == Ok ==> at == start)
  {
    hide Half, ReadFrame, Prompt, Usable;
    HalfFrames(link, s, first, length, buffer[..], was, start);
    status, at := Ok, start;
    while length - at >= 4
      invariant status == Ok && Half(link, s, first, length, buffer[..], was, at) && ReadFrame(link, s, first, length)
      invariant (at == length || (first + at) % 4 == 0) && link.wire.failed == old(link.wire.failed) && at <= length
      invariant old(link.wire.Dead()) ==> at == start && link.wire.Dead() && link.State() == old(link.State())
      decreases length - at
    {
      status := ReadWordInto(link, first, buffer, at, length, s, was);
      if status != Ok {
        return;
      }
      at := at + 4;
    }
  }

  /** The bytes that are left. */
  method ReadTail(link: Link, first: nat, buffer: array<byte>, start: nat, length: nat, ghost s: D.State,
                  ghost was: seq<byte>)
    returns (status: Status)
    requires first < WORD_LIMIT && Half(link, s, first, length, buffer[..], was, start)
    modifies link.wire, link.wire.sim, link.programs, buffer
    ensures ReadFrame(link, s, first, length)
    ensures status == Ok ==> Half(link, s, first, length, buffer[..], was, length)
    ensures link.wire.failed == old(link.wire.failed) && Prompt(s.dm) ==> status == Ok
    ensures old(link.wire.failed) <= link.wire.failed
    ensures status == Ok ==> link.wire.failed == old(link.wire.failed)
    ensures status != VerifyError
    ensures old(link.wire.Dead()) ==>
      link.wire.Dead() && link.State() == old(link.State()) && (status == Ok ==> start == length)
  {
    hide Half, ReadFrame, Prompt, Usable;
    HalfFrames(link, s, first, length, buffer[..], was, start);
    status := Ok;
    var at := start;
    while at < length
      invariant status == Ok && Half(link, s, first, length, buffer[..], was, at) && ReadFrame(link, s, first, length)
      invariant link.wire.failed == old(link.wire.failed) && at <= length
      invariant old(link.wire.Dead()) ==> at == start && link.wire.Dead() && link.State() == old(link.State())
      decreases length - at
    {
      status := ReadByteInto(link, first, buffer, at, length, s, was);
      if status != Ok {
        return;
      }
      at := at + 1;
    }
  }

  /** Reads `length` bytes: bytes up to a word boundary, then words, then bytes. */
  method ReadBlock(link: Link, address: nat, buffer: array<byte>, length: nat) returns (status: Status)
    requires Usable(link) && address < WORD_LIMIT && length <= buffer.Length
    modifies link.wire, link.wire.sim, link.programs, buffer
    ensures ReadFrame(link, old(link.State()), address, length)
    ensures status == Ok && Steady(old(link.State().target), address, length) ==>
      buffer[..length] == Peek(old(link.State().target), address, length)
    ensures status == Ok ==> buffer[length..] == old(buffer[length..])
    ensures link.wire.failed == old(link.wire.failed) && Prompt(old(link.State().dm)) ==> status == Ok
    ensures old(link.wire.failed) <= link.wire.failed
    ensures status == Ok ==> link.wire.failed == old(link.wire.failed)
    ensures status != VerifyError
    ensures old(link.wire.Dead()) ==>
      link.wire.Dead() && link.State() == old(link.State()) && (length > 0 ==> status != Ok)
  {
    hide OnlyScratch, ProgramsBuilt, OnlyLoads, WordAligned, Plain, Prompt;
    ghost var s, was := link.State(), buffer[..];
    StartOfRead(s, address, length);
    assert buffer[..0] == Peek(s.target, address, 0);
    var at;
    status, at := ReadHead(link, address, buffer, length, s, was);
    if status != Ok {
      return;
    }
    status, at := ReadWords(link, address, buffer, at, length, s, was);
    if status != Ok {
      return;
    }
    status := ReadTail(link, address, buffer, at, length, s, was);
  }

  lemma StartOfRead(s: D.State, address: nat, length: nat)
    requires address < WORD_LIMIT
    ensures OnlyScratch(s, s) && OnlyLoads(s.target, s.target, address, length)
  {}
}
