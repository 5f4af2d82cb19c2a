/**
 The breakpoint table of the GDB server as an overlay on memory (src/gdb_server.c).

 A breakpoint is an ebreak written over the program, and the bytes it hides.  Memory
 shows an ebreak at each live entry and the program everywhere else; undoing the
 entries gives the program back, as long as no two of them overlap.
 */
module GdbOverlay {
  import opened Words
  import opened FlashPages
  import RiscV
  import T = Target

  const MAX_BREAKPOINTS := 8

  type Address = n: nat | n < WORD_LIMIT witness 0

  // Where breakpoints live.

  /** What the core can fetch from: flash under either of its addresses, and RAM. */
  datatype Memory = Memory(flash: seq<byte>, ram: seq<byte>)

  function MemoryOf(t: T.Target): Memory { Memory(t.flash, t.ram) }

  /** An address with the flash alias folded away. */
  datatype Place = Place(inFlash: bool, offset: int)

  function PlaceOf(ramBase: nat, address: nat): Place {
    if T.IsFlash(address) then Place(true, T.FlashOffset(address)) else Place(false, address - ramBase)
  }

  function Region(m: Memory, inFlash: bool): seq<byte> { if inFlash then m.flash else m.ram }

  predicate SameSizes(m: Memory, m': Memory) { |m'.flash| == |m.flash| && |m'.ram| == |m.ram| }

  predicate Inside(m: Memory, p: Place, length: nat) {
    0 <= p.offset && p.offset + length <= |Region(m, p.inFlash)|
  }

  /** A store of these bytes; where there is no memory it is lost. */
  function Patched(m: Memory, p: Place, bytes: seq<byte>): (r: Memory)
    ensures SameSizes(m, r)
  {
    if !Inside(m, p, |bytes|) then m
    else if p.inFlash then m.(flash := Overlay(m.flash, p.offset, bytes))
    else m.(ram := Overlay(m.ram, p.offset, bytes))
  }

  function Zeros(n: nat): (r: seq<byte>)
    ensures |r| == n
  {
    seq(n, i => 0)
  }

  /** What a load finds there; where there is no memory, zeros. */
  function Under(m: Memory, p: Place, length: nat): (r: seq<byte>)
    ensures |r| == length
  {
    if Inside(m, p, length) then Region(m, p.inFlash)[p.offset..p.offset + length] else Zeros(length)
  }

  /** Both memories begin and end on word boundaries. */
  predicate WholeWords(ramBase: nat, m: Memory) { ramBase % 4 == 0 && |m.ram| % 4 == 0 && |m.flash| % 4 == 0 }

  // The table.

  type Saved = s: seq<byte> | |s| == 4 witness [0, 0, 0, 0]

  datatype Breakpoint = Breakpoint(used: bool, address: Address, kind: nat, original: Saved)

  /** What a slot says, apart from what it remembers. */
  datatype Spot = Spot(used: bool, address: Address, kind: nat)

  function SpotsOf(slots: seq<Breakpoint>): (r: seq<Spot>)
    ensures |r| == |slots|
  {
    seq(|slots|, i requires 0 <= i < |slots| => Spot(slots[i].used, slots[i].address, slots[i].kind))
  }

  predicate GoodKind(address: nat, kind: nat) { (kind == 2 || kind == 4) && address % kind == 0 }

  /** A breakpoint that can be carried out: not on a register of the flash controller. */
  predicate Settable(address: nat, kind: nat) { GoodKind(address, kind) && !T.IsCtrl(address) }

  /** c.ebreak and ebreak. */
  function EbreakBytes(kind: nat): (r: seq<byte>)
    requires kind == 2 || kind == 4
    ensures |r| == kind
  {
    if kind == 2 then [0x02, 0x90] else [0x73, 0x00, 0x10, 0x00]
  }

  lemma EbreakIsEbreak()
    ensures FromBytes(EbreakBytes(4)) == RiscV.Ebreak() && RiscV.Decode(FromBytes(EbreakBytes(4))) == RiscV.Break
  {}

  predicate Covers(ramBase: nat, b: Breakpoint, inFlash: bool, o: int) {
    var p := PlaceOf(ramBase, b.address);
    b.used && p.inFlash == inFlash && p.offset <= o < p.offset + b.kind
  }

  predicate Uncovered(ramBase: nat, slots: seq<Breakpoint>, f: bool, o: int) {
    forall i :: 0 <= i < |slots| ==> !Covers(ramBase, slots[i], f, o)
  }

  /** Two ranges have no byte in common, once the alias is folded. */
  predicate Apart(ramBase: nat, a: nat, k: nat, b: nat, l: nat) {
    Disjoint(PlaceOf(ramBase, a), k, PlaceOf(ramBase, b), l)
  }

  predicate Disjoint(p: Place, k: nat, q: Place, l: nat) {
    p.inFlash != q.inFlash || p.offset + k <= q.offset || q.offset + l <= p.offset
  }

  /** The range is free of live entries. */
  predicate FreeSpot(ramBase: nat, spots: seq<Spot>, address: nat, kind: nat) {
    forall i :: 0 <= i < |spots| && spots[i].used ==> Apart(ramBase, spots[i].address, spots[i].kind, address, kind)
  }

  /**
   The overlay: memory shows an ebreak at every live entry and the program
   everywhere else, and every live entry remembers the program underneath it.
   */
  ghost predicate Consistent(ramBase: nat, slots: seq<Breakpoint>, m: Memory, program: Memory) {
    && |slots| == MAX_BREAKPOINTS && SameSizes(m, program) && WholeWords(ramBase, program)
    && (forall i :: 0 <= i < |slots| && slots[i].used ==> Entry(ramBase, slots[i], m, program))
    && (forall i, j :: 0 <= i < j < |slots| && slots[i].used && slots[j].used ==>
          Apart(ramBase, slots[i].address, slots[i].kind, slots[j].address, slots[j].kind))
    && (forall f, o :: 0 <= o < |Region(program, f)| && Uncovered(ramBase, slots, f, o) ==>
          Region(m, f)[o] == Region(program, f)[o])
  }

  ghost predicate Entry(ramBase: nat, b: Breakpoint, m: Memory, program: Memory) {
    var p := PlaceOf(ramBase, b.address);
    && GoodKind(b.address, b.kind) && b.original[..b.kind] == Under(program, p, b.kind)
    && (Inside(program, p, b.kind) ==> Under(m, p, b.kind) == EbreakBytes(b.kind))
  }

  /** An aligned entry is inside its memory or wholly outside it. */
  lemma CoveredIsInside(ramBase: nat, m: Memory, b: Breakpoint, f: bool, o: int)
    requires WholeWords(ramBase, m) && GoodKind(b.address, b.kind) && Covers(ramBase, b, f, o)
    requires 0 <= o < |Region(m, f)|
    ensures Inside(m, PlaceOf(ramBase, b.address), b.kind)
  {
    hide T.IsFlash, T.FlashOffset;
    PlaceAligned(ramBase, b.address, b.kind);
    AlignedFits(PlaceOf(ramBase, b.address).offset, |Region(m, f)|, b.kind, o);
  }

  lemma Window4(n: nat)
    requires n % 4 == 0
    ensures n % 0x100_0000 % 4 == 0
  {
    var q, w := n / 4, n / 0x100_0000;
    assert n % 0x100_0000 == 4 * (q - 0x40_0000 * w);
  }

  lemma Window2(n: nat)
    requires n % 2 == 0
    ensures n % 0x100_0000 % 2 == 0
  {
    var q, w := n / 2, n / 0x100_0000;
    assert n % 0x100_0000 == 2 * (q - 0x80_0000 * w);
  }

  lemma PieceAligned(address: nat, kind: nat)
    requires GoodKind(address, kind)
    ensures T.FlashOffset(address) % kind == 0
  {
    if kind == 4 {
      Window4(address);
    } else {
      Window2(address);
    }
  }

  lemma Difference4(a: nat, b: nat)
    requires a % 4 == 0 && b % 4 == 0
    ensures (a - b) % 4 == 0
  {
    var p, q := a / 4, b / 4;
    assert a - b == 4 * (p - q);
  }

  lemma Difference2(a: nat, b: nat)
    requires a % 2 == 0 && b % 4 == 0
    ensures (a - b) % 2 == 0
  {
    var p, q := a / 2, b / 4;
    assert a - b == 2 * (p - 2 * q);
  }

  lemma PlaceAligned(ramBase: nat, address: nat, kind: nat)
    requires ramBase % 4 == 0 && GoodKind(address, kind)
    ensures PlaceOf(ramBase, address).offset % kind == 0
  {
    hide T.IsFlash, T.FlashOffset;
    PieceAligned(address, kind);
    if kind == 4 {
      Difference4(address, ramBase);
    } else {
      Difference2(address, ramBase);
    }
  }

  lemma AlignedFits(offset: int, n: nat, kind: nat, o: int)
    requires (kind == 2 || kind == 4) && offset % kind == 0 && n % 4 == 0 && offset <= o < offset + kind && 0 <= o < n
    ensures 0 <= offset && offset + kind <= n
  {
    if kind == 4 {
      Fits4(offset / 4, n / 4, o);
    } else {
      Fits2(offset / 2, n / 4, o);
    }
  }

  lemma Fits4(a: int, b: nat, o: int)
    requires 4 * a <= o < 4 * a + 4 && 0 <= o < 4 * b
    ensures 0 <= 4 * a && 4 * a + 4 <= 4 * b
  {}

  lemma Fits2(a: int, b: nat, o: int)
    requires 2 * a <= o < 2 * a + 2 && 0 <= o < 4 * b
    ensures 0 <= 2 * a && 2 * a + 2 <= 4 * b
  {}

  // One patch.

  /** Patching one range leaves everything outside it alone. */
  lemma PatchedElsewhere(m: Memory, p: Place, bytes: seq<byte>, f: bool, o: int)
    requires 0 <= o < |Region(m, f)| && !(f == p.inFlash && p.offset <= o < p.offset + |bytes|)
    ensures Region(Patched(m, p, bytes), f)[o] == Region(m, f)[o]
  {}

  lemma PatchedThere(m: Memory, p: Place, bytes: seq<byte>)
    requires Inside(m, p, |bytes|)
    ensures Under(Patched(m, p, bytes), p, |bytes|) == bytes
  {}

  lemma PatchedByte(m: Memory, p: Place, bytes: seq<byte>, o: int)
    requires Inside(m, p, |bytes|) && p.offset <= o < p.offset + |bytes|
    ensures Region(Patched(m, p, bytes), p.inFlash)[o] == bytes[o - p.offset]
  {}

  /** What lies apart from a patch is read as before. */
  lemma UnderElsewhere(m: Memory, p: Place, bytes: seq<byte>, q: Place, k: nat)
    requires Disjoint(p, |bytes|, q, k)
    ensures Under(Patched(m, p, bytes), q, k) == Under(m, q, k)
  {
    hide Patched;
    var r := Patched(m, p, bytes);
    if Inside(m, q, k) {
      forall i | 0 <= i < k ensures Under(r, q, k)[i] == Under(m, q, k)[i] {
        PatchedElsewhere(m, p, bytes, q.inFlash, q.offset + i);
      }
    }
  }

  lemma EntrySurvives(ramBase: nat, b: Breakpoint, m: Memory, program: Memory, p: Place, bytes: seq<byte>)
    requires Entry(ramBase, b, m, program) && Disjoint(p, |bytes|, PlaceOf(ramBase, b.address), b.kind)
    ensures Entry(ramBase, b, Patched(m, p, bytes), program)
  {
    hide Patched, Under, T.IsFlash, T.FlashOffset;
    UnderElsewhere(m, p, bytes, PlaceOf(ramBase, b.address), b.kind);
  }

  /** The last patch of a range is the one that counts. */
  lemma RepatchedIs(m: Memory, p: Place, a: seq<byte>, b: seq<byte>)
    requires |a| == |b|
    ensures Patched(Patched(m, p, a), p, b) == Patched(m, p, b)
  {}

  lemma UnderIsNoPatch(m: Memory, p: Place, kind: nat)
    ensures Patched(m, p, Under(m, p, kind)) == m
  {}

  // The table and the patch together.

  /** What is read from a free range is the program. */
  lemma FreeSpotShowsProgram(ramBase: nat, slots: seq<Breakpoint>, m: Memory, program: Memory, address: nat, kind: nat)
    requires Consistent(ramBase, slots, m, program) && FreeSpot(ramBase, SpotsOf(slots), address, kind)
    ensures Under(m, PlaceOf(ramBase, address), kind) == Under(program, PlaceOf(ramBase, address), kind)
  {
    hide T.IsFlash, T.FlashOffset;
    var p := PlaceOf(ramBase, address);
    if Inside(program, p, kind) {
      forall k | 0 <= k < kind ensures Under(m, p, kind)[k] == Under(program, p, kind)[k] {
        FreeIsUncovered(ramBase, slots, address, kind, p.offset + k);
      }
    }
  }

  lemma FreeIsUncovered(ramBase: nat, slots: seq<Breakpoint>, address: nat, kind: nat, o: int)
    requires FreeSpot(ramBase, SpotsOf(slots), address, kind)
    requires var p := PlaceOf(ramBase, address); p.offset <= o < p.offset + kind
    ensures Uncovered(ramBase, slots, PlaceOf(ramBase, address).inFlash, o)
  {
    hide T.IsFlash, T.FlashOffset;
    var f := PlaceOf(ramBase, address).inFlash;
    forall i | 0 <= i < |slots| ensures !Covers(ramBase, slots[i], f, o) {
      assert SpotsOf(slots)[i].used == slots[i].used;
    }
  }

  lemma FreeEntriesApart(ramBase: nat, slots: seq<Breakpoint>, address: nat, kind: nat, i: nat)
    requires FreeSpot(ramBase, SpotsOf(slots), address, kind) && i < |slots| && slots[i].used
    ensures Apart(ramBase, slots[i].address, slots[i].kind, address, kind)
  {
    hide Apart;
    assert SpotsOf(slots)[i].used;
  }

  /** A byte that no entry covers after an insertion was covered by none before, and has not been patched. */
  lemma InsertShows(ramBase: nat, slots: seq<Breakpoint>, m: Memory, program: Memory, i: nat, b: Breakpoint, f: bool,
                    o: int)
    requires Consistent(ramBase, slots, m, program) && i < |slots| && !slots[i].used && b.used
    requires GoodKind(b.address, b.kind)
    requires 0 <= o < |Region(program, f)| && Uncovered(ramBase, slots[i := b], f, o)
    ensures Region(Patched(m, PlaceOf(ramBase, b.address), EbreakBytes(b.kind)), f)[o] == Region(program, f)[o]
  {
    hide T.IsFlash, T.FlashOffset, Patched;
    assert !Covers(ramBase, slots[i := b][i], f, o);
    PatchedElsewhere(m, PlaceOf(ramBase, b.address), EbreakBytes(b.kind), f, o);
    assert Uncovered(ramBase, slots, f, o) by {
      forall k | 0 <= k < |slots| ensures !Covers(ramBase, slots[k], f, o) {
        assert k != i ==> !Covers(ramBase, slots[i := b][k], f, o);
      }
    }
  }

  /** Inserting into a free slot, over a free range, keeps the overlay. */
  lemma InsertKeeps(ramBase: nat, slots: seq<Breakpoint>, m: Memory, program: Memory, i: nat, b: Breakpoint)
    requires Consistent(ramBase, slots, m, program) && i < |slots| && !slots[i].used
    requires b.used && GoodKind(b.address, b.kind) && FreeSpot(ramBase, SpotsOf(slots), b.address, b.kind)
    requires b.original[..b.kind] == Under(m, PlaceOf(ramBase, b.address), b.kind)
    ensures Consistent(ramBase, slots[i := b], Patched(m, PlaceOf(ramBase, b.address), EbreakBytes(b.kind)), program)
  {
    hide Patched, EbreakBytes, Uncovered, T.IsFlash, T.FlashOffset, FreeSpot, Under;
    var p, bytes := PlaceOf(ramBase, b.address), EbreakBytes(b.kind);
    var slots', m' := slots[i := b], Patched(m, p, bytes);
    FreeSpotShowsProgram(ramBase, slots, m, program, b.address, b.kind);
    if Inside(m, p, b.kind) { PatchedThere(m, p, bytes); }
    forall k | 0 <= k < |slots| && slots[k].used
      ensures Apart(ramBase, slots[k].address, slots[k].kind, b.address, b.kind)
      ensures Entry(ramBase, slots[k], m', program)
    {
      FreeEntriesApart(ramBase, slots, b.address, b.kind, k);
      EntrySurvives(ramBase, slots[k], m, program, p, bytes);
    }
    forall f, o | 0 <= o < |Region(program, f)| && Uncovered(ramBase, slots', f, o)
      ensures Region(m', f)[o] == Region(program, f)[o]
    {
      InsertShows(ramBase, slots, m, program, i, b, f, o);
    }
  }

  /** The table with slot i freed. */
  function Freed(slots: seq<Breakpoint>, i: nat): seq<Breakpoint>
    requires i < |slots|
  {
    slots[i := slots[i].(used := false)]
  }

  /** Freeing slot i leaves exactly the bytes it covered to be accounted for. */
  lemma UncoveredBefore(ramBase: nat, slots: seq<Breakpoint>, i: nat, f: bool, o: int)
    requires i < |slots| && Uncovered(ramBase, Freed(slots, i), f, o) && !Covers(ramBase, slots[i], f, o)
    ensures Uncovered(ramBase, slots, f, o)
  {
    hide Covers;
    forall k | 0 <= k < |slots| ensures !Covers(ramBase, slots[k], f, o) {
      assert k != i ==> !Covers(ramBase, Freed(slots, i)[k], f, o);
    }
  }

  /** A byte under the removed entry shows what the entry remembered. */
  lemma RemoveUncovers(ramBase: nat, m: Memory, program: Memory, b: Breakpoint, f: bool, o: int)
    requires SameSizes(m, program) && WholeWords(ramBase, program) && Entry(ramBase, b, m, program)
    requires 0 <= o < |Region(program, f)| && Covers(ramBase, b, f, o)
    ensures Region(Patched(m, PlaceOf(ramBase, b.address), b.original[..b.kind]), f)[o] == Region(program, f)[o]
  {
    hide T.IsFlash, T.FlashOffset, Patched, EbreakBytes;
    CoveredIsInside(ramBase, program, b, f, o);
    PatchedByte(m, PlaceOf(ramBase, b.address), b.original[..b.kind], o);
  }

  /** Any other byte that nothing covers now was covered by nothing before. */
  lemma RemoveLeaves(ramBase: nat, slots: seq<Breakpoint>, m: Memory, program: Memory, i: nat, f: bool, o: int)
    requires Consistent(ramBase, slots, m, program) && i < |slots| && slots[i].used && slots[i].kind <= 4
    requires 0 <= o < |Region(program, f)| && Uncovered(ramBase, Freed(slots, i), f, o)
    requires !Covers(ramBase, slots[i], f, o)
    ensures Region(Patched(m, PlaceOf(ramBase, slots[i].address), slots[i].original[..slots[i].kind]), f)[o] ==
      Region(program, f)[o]
  {
    hide T.IsFlash, T.FlashOffset, Patched, Uncovered, Entry, Apart;
    UncoveredBefore(ramBase, slots, i, f, o);
    PatchedElsewhere(m, PlaceOf(ramBase, slots[i].address), slots[i].original[..slots[i].kind], f, o);
  }

  /** Putting back what an entry remembers, and freeing its slot, keeps the overlay. */
  lemma RemoveKeeps(ramBase: nat, slots: seq<Breakpoint>, m: Memory, program: Memory, i: nat)
    requires Consistent(ramBase, slots, m, program) && i < |slots| && slots[i].used
    ensures var b := slots[i];
      b.kind <= 4 &&
      Consistent(ramBase, Freed(slots, i), Patched(m, PlaceOf(ramBase, b.address), b.original[..b.kind]), program)
  {
    hide Patched, Uncovered, Covers, T.IsFlash, T.FlashOffset, Under, EbreakBytes;
    var b := slots[i];
    assert Entry(ramBase, b, m, program);
    var p, bytes := PlaceOf(ramBase, b.address), b.original[..b.kind];
    var slots', m' := Freed(slots, i), Patched(m, p, bytes);
    forall k | 0 <= k < |slots'| && slots'[k].used ensures Entry(ramBase, slots'[k], m', program) {
      assert Apart(ramBase, slots[k].address, slots[k].kind, b.address, b.kind) ||
             Apart(ramBase, b.address, b.kind, slots[k].address, slots[k].kind);
      EntrySurvives(ramBase, slots[k], m, program, p, bytes);
    }
    forall f, o | 0 <= o < |Region(program, f)| && Uncovered(ramBase, slots', f, o)
      ensures Region(m', f)[o] == Region(program, f)[o]
    {
      if Covers(ramBase, b, f, o) {
        RemoveUncovers(ramBase, m, program, b, f, o);
      } else {
        RemoveLeaves(ramBase, slots, m, program, i, f, o);
      }
    }
  }

  /** With no live entry, memory is the program. */
  lemma NoEntriesNoOverlay(ramBase: nat, slots: seq<Breakpoint>, m: Memory, program: Memory)
    requires Consistent(ramBase, slots, m, program) && forall i :: 0 <= i < |slots| ==> !slots[i].used
    ensures m == program
  {
    forall f, o | 0 <= o < |Region(program, f)| ensures Region(m, f)[o] == Region(program, f)[o] {
      assert Uncovered(ramBase, slots, f, o);
    }
    assert m.flash == program.flash by {
      forall o | 0 <= o < |m.flash| ensures m.flash[o] == program.flash[o] {
        assert Region(m, true)[o] == Region(program, true)[o];
      }
    }
    assert m.ram == program.ram by {
      forall o | 0 <= o < |m.ram| ensures m.ram[o] == program.ram[o] {
        assert Region(m, false)[o] == Region(program, false)[o];
      }
    }
  }

  lemma EmptyTable(ramBase: nat, slots: seq<Breakpoint>, program: Memory)
    requires |slots| == MAX_BREAKPOINTS && WholeWords(ramBase, program) && forall i :: 0 <= i < |slots| ==>
      !slots[i].used
    ensures Consistent(ramBase, slots, program, program)
  {}

  /**
   Two entries over the same range, undone in the order they were made: the second
   remembers the ebreak of the first, and puts it back last.  What was there survives
   exactly when it was that ebreak already, or when there is no memory there.
   */
  lemma UndoneInOrder(m: Memory, p: Place, kind: nat)
    requires kind == 2 || kind == 4
    ensures var first := Under(m, p, kind); var m1 := Patched(m, p, EbreakBytes(kind));
      var second := Under(m1, p, kind); var m2 := Patched(m1, p, EbreakBytes(kind));
      var end := Patched(Patched(m2, p, first), p, second);
      end == m1 && (end == m <==> first == EbreakBytes(kind) || !Inside(m, p, kind))
  {
    var first, m1 := Under(m, p, kind), Patched(m, p, EbreakBytes(kind));
    RepatchedIs(m1, p, EbreakBytes(kind), first);
    RepatchedIs(m, p, EbreakBytes(kind), EbreakBytes(kind));
    RepatchedIs(m, p, EbreakBytes(kind), first);
    UnderIsNoPatch(m, p, kind);
    UnderIsNoPatch(m1, p, kind);
    if Inside(m, p, kind) {
      PatchedThere(m, p, EbreakBytes(kind));
      RepatchedIs(m, p, first, EbreakBytes(kind));
    }
    hide Patched, Under, EbreakBytes;
  }

  // What the table does for a client.

  /** The first free slot; the length if there is none. */
  function FirstFree(spots: seq<Spot>): (i: nat)
    ensures i <= |spots| && (i < |spots| ==> !spots[i].used) && forall k :: 0 <= k < i ==> spots[k].used
  {
    if spots == [] || !spots[0].used then 0 else 1 + FirstFree(spots[1..])
  }

  predicate IsAt(s: Spot, address: Address, kind: nat) { s == Spot(true, address, kind) }

  /** The first entry with this address and kind; the length if there is none. */
  function FirstAt(spots: seq<Spot>, address: Address, kind: nat): (i: nat)
    ensures i <= |spots| && (i < |spots| ==> IsAt(spots[i], address, kind))
    ensures forall k :: 0 <= k < i ==> !IsAt(spots[k], address, kind)
  {
    if spots == [] || IsAt(spots[0], address, kind) then 0 else 1 + FirstAt(spots[1..], address, kind)
  }

  predicate CanInsert(spots: seq<Spot>, address: Address, kind: nat) {
    GoodKind(address, kind) && FirstFree(spots) < |spots|
  }

  function Inserted(spots: seq<Spot>, address: Address, kind: nat): (r: seq<Spot>)
    ensures |r| == |spots|
  {
    if CanInsert(spots, address, kind) then spots[FirstFree(spots) := Spot(true, address, kind)] else spots
  }

  function Removed(spots: seq<Spot>, address: Address, kind: nat): (r: seq<Spot>)
    ensures |r| == |spots|
  {
    var i := FirstAt(spots, address, kind);
    if i < |spots| then spots[i := Spot(false, address, kind)] else spots
  }

  lemma RefusedStays(spots: seq<Spot>, address: Address, kind: nat)
    ensures !CanInsert(spots, address, kind) ==> Inserted(spots, address, kind) == spots
    ensures FirstAt(spots, address, kind) == |spots| ==> Removed(spots, address, kind) == spots
  {}

  /** Where two insertions of one breakpoint go, and which of them a removal finds. */
  lemma TwoInsertions(spots: seq<Spot>, address: Address, kind: nat)
    requires FirstAt(spots, address, kind) == |spots| && CanInsert(spots, address, kind)
    requires CanInsert(Inserted(spots, address, kind), address, kind)
    ensures var s1 := Inserted(spots, address, kind); var i, j := FirstFree(spots), FirstFree(s1);
      var s2 := Inserted(s1, address, kind); var s3 := Removed(s2, address, kind);
      && i < j < |spots| && FirstAt(s2, address, kind) == i && FirstAt(s3, address, kind) == j
      && (forall k :: 0 <= k < |spots| ==> Removed(s3, address, kind)[k].used == spots[k].used)
  {
    var s1 := Inserted(spots, address, kind);
    var i, j := FirstFree(spots), FirstFree(s1);
    hide FirstFree, FirstAt;
    assert s1[i].used && forall k :: 0 <= k < i ==> s1[k].used;
    assert i < j;
    var s2 := Inserted(s1, address, kind);
    assert IsAt(s2[i], address, kind) && forall k :: 0 <= k < i ==> s2[k] == spots[k];
    var a := FirstAt(s2, address, kind);
    assert a == i;
    var s3 := Removed(s2, address, kind);
    assert forall k :: 0 <= k < j && k != i ==> s3[k] == spots[k];
    assert IsAt(s3[j], address, kind) && !IsAt(s3[i], address, kind);
    var b := FirstAt(s3, address, kind);
    assert b == j;
  }

  /** Memory after the first n slots have been undone, in order. */
  function Cleared(ramBase: nat, slots: seq<Breakpoint>, m: Memory, n: nat): (r: Memory)
    requires n <= |slots| && forall i :: 0 <= i < |slots| ==> slots[i].used ==> slots[i].kind <= 4
    ensures SameSizes(m, r)
  {
    if n == 0 then m
    else
      var before, b := Cleared(ramBase, slots, m, n - 1), slots[n - 1];
      if b.used then Patched(before, PlaceOf(ramBase, b.address), b.original[..b.kind]) else before
  }

  datatype Request = Request(insert: bool, address: Address, kind: nat)

  function AfterOne(spots: seq<Spot>, r: Request): (s: seq<Spot>)
    ensures |s| == |spots|
  {
    if r.insert then Inserted(spots, r.address, r.kind) else Removed(spots, r.address, r.kind)
  }

  function AfterAll(spots: seq<Spot>, requests: seq<Request>): (s: seq<Spot>)
    ensures |s| == |spots|
    decreases |requests|
  {
    if requests == [] then spots else AfterAll(AfterOne(spots, requests[0]), requests[1..])
  }

  /**
   Every insertion that will be carried out keeps off the flash controller and
   overlaps no entry that is live at that moment.  Of those that are refused nothing
   is asked.
   */
  predicate NeverOverlaps(ramBase: nat, spots: seq<Spot>, requests: seq<Request>)
    decreases |requests|
  {
    requests == [] ||
    (var r := requests[0];
     && (r.insert && CanInsert(spots, r.address, r.kind) ==>
           Settable(r.address, r.kind) && FreeSpot(ramBase, spots, r.address, r.kind))
     && NeverOverlaps(ramBase, AfterOne(spots, r), requests[1..]))
  }
}
