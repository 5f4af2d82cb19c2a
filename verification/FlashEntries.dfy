/**
 What every page of the walk holds in the end, whichever clean-ups took effect.

 The walk starts from an idle controller and ends without a refusal.  A page is what it
 was meant to be, blank, or what it was before, as its own clean-ups and those of the
 page before it decide; nothing outside the pages of the walk changes.
 */
module FlashEntries {
  import opened Words
  import opened BlockRead
  import opened FlashSteps
  import opened FlashPages
  import opened FlashLeftovers
  import opened FlashImage
  import T = Target

  /** Where the n-th page of the walk lies in the array. */
  function Spot(start: nat, n: nat): nat { T.FlashOffset(FirstPage(start)) + T.PAGE * n }

  lemma SpotIs(t: T.Target, start: nat, length: nat, n: nat)
    requires Placed(t, start, length) && length > 0 && n < PageCount(start, length)
    ensures T.FlashOffset(NthPage(start, n)) == Spot(start, n) && Spot(start, n) + T.PAGE <= |t.flash|
    ensures Spot(start, n) == NthPage(start, n) - Base(start) && Meets(NthPage(start, n), start, length)
    ensures PageInFlash(t, NthPage(start, n))
  {
    NthMeets(t, start, length, 0);
    NthMeets(t, start, length, n);
  }

  /** What the n-th page held before. */
  ghost function Before(t: T.Target, start: nat, image: seq<byte>, n: nat): (r: seq<byte>)
    requires Placed(t, start, |image|) && |image| > 0 && n < PageCount(start, |image|)
    ensures |r| == T.PAGE
  {
    SpotIs(t, start, |image|, n);
    t.flash[Spot(start, n)..Spot(start, n) + T.PAGE]
  }

  /** What it is meant to hold. */
  ghost function Meant(t: T.Target, start: nat, image: seq<byte>, n: nat): (r: seq<byte>)
    requires Placed(t, start, |image|) && |image| > 0 && n < PageCount(start, |image|)
    ensures |r| == T.PAGE
  {
    SpotIs(t, start, |image|, n);
    GoalPage(t, NthPage(start, n), start, image)
  }

  /**
   What the n-th page holds after the walk.  If its reset was not cleaned up, nothing
   was programmed, and if that of the page before was not either, it was not even
   erased.  A lost clean-up of its erase erases it again in place of the program; one
   of its program has the first write of the next page's turn do so.
   */
  ghost function Entry(t: T.Target, start: nat, image: seq<byte>, cs: seq<CleanUps>, n: nat): (r: seq<byte>)
    requires Placed(t, start, |image|) && |image| > 0 && n < |cs| <= PageCount(start, |image|)
    ensures |r| == T.PAGE
    ensures r == Before(t, start, image, n) || r == T.Blank(T.PAGE) || r == Meant(t, start, image, n)
  {
    if !cs[n].reset then if n > 0 && !cs[n - 1].reset then Before(t, start, image, n) else T.Blank(T.PAGE)
    else if !cs[n].erase || (!cs[n].program && n + 1 < |cs|) then T.Blank(T.PAGE)
    else Meant(t, start, image, n)
  }

  /**
   So a page is what it is meant to be exactly when the clean-ups of its erase and its
   reset took effect, and that of its program too unless it is the last page; or when
   what it is left with happens to be the same.
   */
  lemma EntryIsMeantIff(t: T.Target, start: nat, image: seq<byte>, cs: seq<CleanUps>, n: nat)
    requires Placed(t, start, |image|) && |image| > 0 && n < |cs| <= PageCount(start, |image|)
    ensures Entry(t, start, image, cs, n) == Meant(t, start, image, n) <==>
      || (cs[n].reset && cs[n].erase && (cs[n].program || n + 1 == |cs|))
      || Meant(t, start, image, n) ==
         if n > 0 && !cs[n].reset && !cs[n - 1].reset then Before(t, start, image, n) else T.Blank(T.PAGE)
  {
    hide Before, Meant, WordAligned, T.IsFlash, T.FlashOffset, PageCount;
  }

  ghost predicate Holds(flash: seq<byte>, t: T.Target, start: nat, image: seq<byte>, cs: seq<CleanUps>)
    requires Placed(t, start, |image|) && |image| > 0 && |cs| <= PageCount(start, |image|)
  {
    && |flash| == |t.flash| && Spot(start, |cs|) <= |flash|
    && flash[..Spot(start, 0)] == t.flash[..Spot(start, 0)]
    && flash[Spot(start, |cs|)..] == t.flash[Spot(start, |cs|)..]
    && forall n :: 0 <= n < |cs| ==> HoldsAt(flash, Spot(start, n), Entry(t, start, image, cs, n))
  }

  ghost predicate HoldsAt(flash: seq<byte>, q: nat, data: seq<byte>) {
    q + |data| <= |flash| && flash[q..q + |data|] == data
  }

  // Arrays.

  lemma ErasedElsewhere(flash: seq<byte>, offset: nat, a: nat, b: nat)
    requires a <= b <= |flash| && (b <= offset || offset + T.PAGE <= a)
    ensures T.Erased(flash, offset, T.PAGE)[a..b] == flash[a..b]
  {}

  lemma ErasedThere(flash: seq<byte>, offset: nat)
    requires offset + T.PAGE <= |flash|
    ensures T.Erased(flash, offset, T.PAGE)[offset..offset + T.PAGE] == T.Blank(T.PAGE)
  {}

  lemma OverlaidElsewhere(flash: seq<byte>, offset: nat, data: seq<byte>, a: nat, b: nat)
    requires offset + |data| <= |flash| && a <= b <= |flash| && (b <= offset || offset + |data| <= a)
    ensures Overlay(flash, offset, data)[a..b] == flash[a..b]
  {}

  lemma OverlaidThere(flash: seq<byte>, offset: nat, data: seq<byte>)
    requires offset + |data| <= |flash|
    ensures Overlay(flash, offset, data)[offset..offset + |data|] == data
  {}

  // One turn.

  /** A turn touches its own page, and the page in ADDR if STRT was left over alone. */
  lemma TurnElsewhere(t: T.Target, offset: nat, data: seq<byte>, c: CleanUps, a: nat, b: nat)
    requires |data| == T.PAGE && offset + T.PAGE <= |t.flash| && a <= b <= |t.flash|
    requires b <= offset || offset + T.PAGE <= a
    requires var l := BitsOf(t.ctlr); l.strt && !l.rst ==> b <= OldOffset(t) || OldOffset(t) + T.PAGE <= a
    ensures |TurnFlash(t, offset, data, c)| == |t.flash| && TurnFlash(t, offset, data, c)[a..b] == t.flash[a..b]
  {
    hide BitsOf, OldOffset, T.Erased, Overlay;
    var l := BitsOf(t.ctlr);
    var first := if l.strt then T.Erased(t.flash, OldOffset(t), T.PAGE) else t.flash;
    if l.strt && !l.rst { ErasedElsewhere(t.flash, OldOffset(t), a, b); }
    ErasedElsewhere(first, offset, a, b);
    var erased := AfterErase(t, offset);
    ErasedElsewhere(erased, offset, a, b);
    OverlaidElsewhere(erased, offset, data, a, b);
  }

  /** What it makes of the page in ADDR. */
  lemma TurnOldPage(t: T.Target, offset: nat, data: seq<byte>, c: CleanUps)
    requires |data| == T.PAGE && offset + T.PAGE <= |t.flash| && OldOffset(t) + T.PAGE <= offset
    requires var l := BitsOf(t.ctlr); l.strt && !l.rst
    ensures var q := OldOffset(t); TurnFlash(t, offset, data, c)[q..q + T.PAGE] == T.Blank(T.PAGE)
  {
    hide BitsOf, OldOffset, T.Erased, Overlay;
    var q := OldOffset(t);
    var first := T.Erased(t.flash, q, T.PAGE);
    ErasedThere(t.flash, q);
    ErasedElsewhere(first, offset, q, q + T.PAGE);
    var erased := AfterErase(t, offset);
    ErasedElsewhere(erased, offset, q, q + T.PAGE);
    OverlaidElsewhere(erased, offset, data, q, q + T.PAGE);
  }

  /** What it makes of its own page. */
  lemma TurnOwnPage(t: T.Target, offset: nat, data: seq<byte>, c: CleanUps)
    requires |data| == T.PAGE && offset + T.PAGE <= |t.flash|
    ensures TurnFlash(t, offset, data, c)[offset..offset + T.PAGE] ==
      if !c.reset then if BitsOf(t.ctlr).rst then t.flash[offset..offset + T.PAGE] else T.Blank(T.PAGE)
      else if !c.erase then T.Blank(T.PAGE)
      else data
  {
    hide BitsOf, OldOffset, T.Erased, Overlay;
    var l := BitsOf(t.ctlr);
    ErasedThere(if l.strt then T.Erased(t.flash, OldOffset(t), T.PAGE) else t.flash, offset);
    var erased := AfterErase(t, offset);
    ErasedThere(erased, offset);
    OverlaidThere(erased, offset, data);
  }

  // The walk.

  /** The bits and the page register that the walk so far has left. */
  ghost predicate LeftBy(r: T.Target, start: nat, cs: seq<CleanUps>) {
    var n, b := |cs|, BitsOf(r.ctlr);
    if n == 0 then !b.strt && !b.rst
    else
      b.strt == !cs[n - 1].program && b.rst == !cs[n - 1].reset && NthPage(start, n - 1) < WORD_LIMIT &&
      r.addr == Word(NthPage(start, n - 1))
  }

  lemma {:induction false} WalkLeaves(t: T.Target, start: nat, image: seq<byte>, cs: seq<CleanUps>)
    requires Placed(t, start, |image|) && |image| > 0 && |cs| <= PageCount(start, |image|) && Full(cs) && Armed(t)
    ensures var r := Walked(t, start, image, cs); Onward(t, r) && LeftBy(r, start, cs)
    decreases |cs|
  {
    hide Has, Paging, PageData, BitsOf, WordAligned, T.IsFlash, T.FlashOffset, Walked, Word;
    if cs == [] {
      NoTurns(t, start, image);
      IdleBits(t);
    } else {
      var n := |cs| - 1;
      WalkLeaves(t, start, image, cs[..n]);
      LastTurn(t, start, image, cs, n);
      var before, page := Walked(t, start, image, cs[..n]), NthPage(start, n);
      TurnBits(before, page, PageData(before, page, start, image), cs[n]);
    }
  }

  /** Entries do not look ahead, except that a page stops being the last. */
  lemma EarlierEntry(t: T.Target, start: nat, image: seq<byte>, cs: seq<CleanUps>, n: nat, k: nat)
    requires Placed(t, start, |image|) && |image| > 0 && |cs| == n + 1 <= PageCount(start, |image|) && k < n
    ensures Entry(t, start, image, cs, k) ==
      if k == n - 1 && cs[k].reset && !cs[k].program then T.Blank(T.PAGE) else Entry(t, start, image, cs[..n], k)
  {
    hide Before, Meant, WordAligned, T.IsFlash, T.FlashOffset, PageCount;
  }

  /** The page whose turn it is is untouched. */
  lemma StillBefore(flash: seq<byte>, t: T.Target, start: nat, image: seq<byte>, cs: seq<CleanUps>)
    requires Placed(t, start, |image|) && |image| > 0 && |cs| < PageCount(start, |image|)
    requires Holds(flash, t, start, image, cs)
    ensures HoldsAt(flash, Spot(start, |cs|), Before(t, start, image, |cs|))
  {
    hide Entry, WordAligned, T.IsFlash;
    var q := Spot(start, |cs|);
    SpotIs(t, start, |image|, |cs|);
    assert flash[q..q + T.PAGE] == flash[q..][..T.PAGE] && t.flash[q..q + T.PAGE] == t.flash[q..][..T.PAGE];
  }

  /** One more turn on flash that is as the entries say. */
  lemma OneMoreHolds(t: T.Target, u: T.Target, start: nat, image: seq<byte>, cs: seq<CleanUps>, n: nat)
    requires Placed(t, start, |image|) && |image| > 0 && |cs| == n + 1 <= PageCount(start, |image|)
    requires Holds(u.flash, t, start, image, cs[..n]) && LeftBy(u, start, cs[..n])
    requires Spot(start, n) + T.PAGE <= |u.flash|
    ensures Holds(TurnFlash(u, Spot(start, n), Meant(t, start, image, n), cs[n]), t, start, image, cs)
  {
    hide Entry, Before, Meant, BitsOf, TurnFlash, OldOffset, WordAligned, T.IsFlash, Word;
    var q, data, c := Spot(start, n), Meant(t, start, image, n), cs[n];
    var after := TurnFlash(u, q, data, c);
    SpotIs(t, start, |image|, n);
    OldSpot(t, u, start, |image|, cs[..n]);
    TurnElsewhere(u, q, data, c, 0, Spot(start, 0));
    TurnElsewhere(u, q, data, c, Spot(start, n + 1), |u.flash|);
    SuffixOf(u.flash, t.flash, q);
    StillBefore(u.flash, t, start, image, cs[..n]);
    OwnEntry(t, u, start, image, cs, n);
    forall k | 0 <= k < n ensures HoldsAt(after, Spot(start, k), Entry(t, start, image, cs, k)) {
      OldEntry(t, u, start, image, cs, n, k);
    }
  }

  lemma SuffixOf(flash: seq<byte>, flash': seq<byte>, q: nat)
    requires q + T.PAGE <= |flash| == |flash'| && flash[q..] == flash'[q..]
    ensures flash[q + T.PAGE..|flash|] == flash'[q + T.PAGE..]
  {
    assert flash[q..][T.PAGE..] == flash[q + T.PAGE..] && flash'[q..][T.PAGE..] == flash'[q + T.PAGE..];
  }

  /** ADDR still names the page before. */
  lemma OldSpot(t: T.Target, u: T.Target, start: nat, length: nat, cs: seq<CleanUps>)
    requires Placed(t, start, length) && length > 0 && |cs| <= PageCount(start, length) && LeftBy(u, start, cs)
    ensures cs != [] ==> OldOffset(u) == Spot(start, |cs| - 1)
    ensures cs == [] ==> !BitsOf(u.ctlr).strt
  {
    hide BitsOf, Word, Nat;
    if cs != [] {
      SpotIs(t, start, length, |cs| - 1);
      NatWord(NthPage(start, |cs| - 1));
    }
  }

  lemma OwnEntry(t: T.Target, u: T.Target, start: nat, image: seq<byte>, cs: seq<CleanUps>, n: nat)
    requires Placed(t, start, |image|) && |image| > 0 && |cs| == n + 1 <= PageCount(start, |image|)
    requires LeftBy(u, start, cs[..n]) && HoldsAt(u.flash, Spot(start, n), Before(t, start, image, n))
    requires |u.flash| == |t.flash|
    ensures var after := TurnFlash(u, Spot(start, n), Meant(t, start, image, n), cs[n]);
      HoldsAt(after, Spot(start, n), Entry(t, start, image, cs, n))
  {
    hide Before, Meant, BitsOf, TurnFlash, WordAligned, T.IsFlash, Word, Spot;
    TurnOwnPage(u, Spot(start, n), Meant(t, start, image, n), cs[n]);
    TurnLength(u, Spot(start, n), Meant(t, start, image, n), cs[n]);
  }

  lemma TurnLength(t: T.Target, offset: nat, data: seq<byte>, c: CleanUps)
    requires offset + |data| <= |t.flash|
    ensures |TurnFlash(t, offset, data, c)| == |t.flash|
  {}

  lemma OldEntry(t: T.Target, u: T.Target, start: nat, image: seq<byte>, cs: seq<CleanUps>, n: nat, k: nat)
    requires Placed(t, start, |image|) && |image| > 0 && k < n && |cs| == n + 1 <= PageCount(start, |image|)
    requires Holds(u.flash, t, start, image, cs[..n]) && LeftBy(u, start, cs[..n])
    requires Spot(start, n) + T.PAGE <= |u.flash|
    requires OldOffset(u) == Spot(start, n - 1)
    ensures var after := TurnFlash(u, Spot(start, n), Meant(t, start, image, n), cs[n]);
      HoldsAt(after, Spot(start, k), Entry(t, start, image, cs, k))
  {
    hide Entry, Before, Meant, BitsOf, TurnFlash, OldOffset, WordAligned, T.IsFlash, Word;
    var q, data, c := Spot(start, n), Meant(t, start, image, n), cs[n];
    TurnLength(u, q, data, c);
    EarlierEntry(t, start, image, cs, n, k);
    assert HoldsAt(u.flash, Spot(start, k), Entry(t, start, image, cs[..n], k));
    if k == n - 1 && cs[k].reset && !cs[k].program {
      TurnOldPage(u, q, data, c);
    } else {
      TurnElsewhere(u, q, data, c, Spot(start, k), Spot(start, k) + T.PAGE);
    }
  }

  /** After a walk that was not refused, every page holds its entry. */
  lemma {:induction false} WalkHolds(t: T.Target, start: nat, image: seq<byte>, cs: seq<CleanUps>)
    requires Placed(t, start, |image|) && |image| > 0 && |cs| <= PageCount(start, |image|) && Full(cs) && Armed(t)
    requires Walked(t, start, image, cs).errors == 0
    ensures Holds(Walked(t, start, image, cs).flash, t, start, image, cs)
    decreases |cs|
  {
    hide Has, Paging, PageData, BitsOf, WordAligned, T.IsFlash, Walked, Word, TurnFlash, Entry, LeftBy, Meant, Before;
    if cs == [] {
      NoTurns(t, start, image);
      SpotIs(t, start, |image|, 0);
    } else {
      var n := |cs| - 1;
      var before, page := Walked(t, start, image, cs[..n]), NthPage(start, n);
      SpotIs(t, start, |image|, n);
      WalkLeaves(t, start, image, cs[..n]);
      LastTurn(t, start, image, cs, n);
      TurnBits(before, page, PageData(before, page, start, image), cs[n]);
      WalkHolds(t, start, image, cs[..n]);
      StillBefore(before.flash, t, start, image, cs[..n]);
      DataIsMeant(t, before, start, image, n);
      TurnOutcome(before, page, PageData(before, page, start, image), cs[n]);
      OneMoreHolds(t, before, start, image, cs, n);
    }
  }

  lemma DataIsMeant(t: T.Target, u: T.Target, start: nat, image: seq<byte>, n: nat)
    requires Placed(t, start, |image|) && |image| > 0 && n < PageCount(start, |image|)
    requires PageInFlash(u, NthPage(start, n)) && HoldsAt(u.flash, Spot(start, n), Before(t, start, image, n))
    ensures PageData(u, NthPage(start, n), start, image) == Meant(t, start, image, n)
  {
    hide PageData, GoalPage, WordAligned, T.IsFlash;
    SpotIs(t, start, |image|, n);
    DataOfPage(t, u, start, image, NthPage(start, n));
  }

  // Refusals.

  /** Programming `data` over `was` asks for no bit that is clear. */
  predicate FitsOver(was: seq<byte>, data: seq<byte>)
    requires |data| == T.PAGE
  {
    T.SetRequests(was, 0, data, T.PAGE) == 0
  }

  /**
   No page is programmed that a lost clean-up of the reset before has kept from being
   erased, unless what it is meant to hold fits over what it held.
   */
  ghost predicate Granted(t: T.Target, start: nat, image: seq<byte>, cs: seq<CleanUps>)
    requires Placed(t, start, |image|) && |image| > 0 && |cs| <= PageCount(start, |image|)
  {
    forall k :: 0 < k < |cs| && cs[k].erase && cs[k].reset && !cs[k - 1].reset ==>
      FitsOver(Before(t, start, image, k), Meant(t, start, image, k))
  }

  lemma {:induction false} AskedInPage(flash: seq<byte>, q: nat, data: seq<byte>, k: nat)
    requires q + T.PAGE <= |flash| && |data| == T.PAGE && k <= T.PAGE
    ensures T.SetRequests(flash, q, data, k) == T.SetRequests(flash[q..q + T.PAGE], 0, data, k)
  {
    hide T.AsksToSet;
    if k > 0 { AskedInPage(flash, q, data, k - 1); }
  }

  /** What the next turn is refused for, once the pages before it hold their entries. */
  lemma NextRefused(t: T.Target, u: T.Target, start: nat, image: seq<byte>, cs: seq<CleanUps>, c: CleanUps)
    requires Placed(t, start, |image|) && |image| > 0 && |cs| < PageCount(start, |image|)
    requires Holds(u.flash, t, start, image, cs) && LeftBy(u, start, cs) && PageInFlash(u, NthPage(start, |cs|))
    ensures var n, page := |cs|, NthPage(start, |cs|);
      Refuses(u, T.FlashOffset(page), PageData(u, page, start, image), c) <==>
        && n > 0 && c.erase && c.reset && !cs[n - 1].reset
        && !FitsOver(Before(t, start, image, n), Meant(t, start, image, n))
  {
    hide Entry, Before, Meant, BitsOf, PageData, WordAligned, T.IsFlash, T.SetRequests, Word;
    var n := |cs|;
    SpotIs(t, start, |image|, n);
    StillBefore(u.flash, t, start, image, cs);
    DataIsMeant(t, u, start, image, n);
    AskedInPage(u.flash, Spot(start, n), Meant(t, start, image, n), T.PAGE);
  }

  /** The last turn of a list of turns, as far as refusals go. */
  lemma GrantedMore(t: T.Target, start: nat, image: seq<byte>, cs: seq<CleanUps>, n: nat)
    requires Placed(t, start, |image|) && |image| > 0 && |cs| == n + 1 <= PageCount(start, |image|)
    ensures Granted(t, start, image, cs) <==>
      && Granted(t, start, image, cs[..n])
      && (n > 0 && cs[n].erase && cs[n].reset && !cs[n - 1].reset ==>
            FitsOver(Before(t, start, image, n), Meant(t, start, image, n)))
  {
    hide Before, Meant, FitsOver, WordAligned, T.IsFlash, PageCount;
    var less := cs[..n];
    if Granted(t, start, image, cs) {
      forall k | 0 < k < n && less[k].erase && less[k].reset && !less[k - 1].reset
        ensures FitsOver(Before(t, start, image, k), Meant(t, start, image, k)) {
        assert cs[k].erase && cs[k].reset && !cs[k - 1].reset;
      }
    } else {
      var k :| 0 < k < |cs| && cs[k].erase && cs[k].reset && !cs[k - 1].reset &&
               !FitsOver(Before(t, start, image, k), Meant(t, start, image, k));
      if k < n { assert less[k].erase && less[k].reset && !less[k - 1].reset; }
    }
  }

  /** A walk is refused nothing exactly if it is granted. */
  lemma {:induction false} WalkGranted(t: T.Target, start: nat, image: seq<byte>, cs: seq<CleanUps>)
    requires Placed(t, start, |image|) && |image| > 0 && |cs| <= PageCount(start, |image|) && Full(cs) && Armed(t)
    ensures Walked(t, start, image, cs).errors == 0 <==> Granted(t, start, image, cs)
    decreases |cs|
  {
    hide Has, Paging, PageData, BitsOf, WordAligned, T.IsFlash, T.FlashOffset, Walked, Word, TurnFlash, Entry, LeftBy,
      Meant, Before, Granted, Refuses, Holds, FitsOver;
    if cs == [] {
      NoTurns(t, start, image);
      NoneGranted(t, start, image);
    } else {
      var n := |cs| - 1;
      var before, page := Walked(t, start, image, cs[..n]), NthPage(start, n);
      WalkGranted(t, start, image, cs[..n]);
      WalkLeaves(t, start, image, cs[..n]);
      LastTurn(t, start, image, cs, n);
      GrantedMore(t, start, image, cs, n);
      TurnBits(before, page, PageData(before, page, start, image), cs[n]);
      if before.errors == 0 {
        WalkHolds(t, start, image, cs[..n]);
        NextRefused(t, before, start, image, cs[..n], cs[n]);
        TurnOutcome(before, page, PageData(before, page, start, image), cs[n]);
      }
    }
  }

  lemma NoneGranted(t: T.Target, start: nat, image: seq<byte>)
    requires Placed(t, start, |image|) && |image| > 0
    ensures Armed(t) ==> t.errors == 0
    ensures Granted(t, start, image, [])
  {}

  // The goal.

  /** The goal differs from what was there in the pages of the walk alone. */
  lemma GoalHolds(t: T.Target, start: nat, image: seq<byte>, n: nat)
    requires Placed(t, start, |image|) && |image| > 0 && n < PageCount(start, |image|)
    ensures HoldsAt(Goal(t, start, image), Spot(start, n), Meant(t, start, image, n))
  {
    hide WordAligned, T.IsFlash, Goal;
    SpotIs(t, start, |image|, n);
    MetPage(t, start, |image|, NthPage(start, n));
  }

  lemma GoalOutside(t: T.Target, start: nat, image: seq<byte>)
    requires Placed(t, start, |image|) && |image| > 0
    ensures var goal, m := Goal(t, start, image), PageCount(start, |image|);
      && Spot(start, 0) <= Spot(start, m) <= |goal|
      && goal[..Spot(start, 0)] == t.flash[..Spot(start, 0)] && goal[Spot(start, m)..] == t.flash[Spot(start, m)..]
  {
    hide WordAligned, T.IsFlash;
    SpotIs(t, start, |image|, 0);
    LastReaches(t, start, |image|, PageCount(start, |image|) - 1);
    SpotIs(t, start, |image|, PageCount(start, |image|) - 1);
  }

  lemma {:induction false} SamePieces(f: seq<byte>, g: seq<byte>, q: nat, m: nat)
    requires q + T.PAGE * m <= |f| == |g| && f[..q] == g[..q]
    requires forall n :: 0 <= n < m ==> SameAt(f, g, q + T.PAGE * n)
    ensures f[..q + T.PAGE * m] == g[..q + T.PAGE * m]
  {
    if m > 0 {
      var a := q + T.PAGE * (m - 1);
      SamePieces(f, g, q, m - 1);
      assert SameAt(f, g, a);
      assert f[..a + T.PAGE] == f[..a] + f[a..a + T.PAGE] && g[..a + T.PAGE] == g[..a] + g[a..a + T.PAGE];
    }
  }

  ghost predicate SameAt(f: seq<byte>, g: seq<byte>, a: nat) {
    a + T.PAGE <= |f| == |g| && f[a..a + T.PAGE] == g[a..a + T.PAGE]
  }

  /** Every page is what it was meant to be. */
  ghost predicate AllMeant(t: T.Target, start: nat, image: seq<byte>, cs: seq<CleanUps>)
    requires Placed(t, start, |image|) && |image| > 0 && |cs| <= PageCount(start, |image|)
  {
    forall n :: 0 <= n < |cs| ==> Entry(t, start, image, cs, n) == Meant(t, start, image, n)
  }

  /** Flash is the goal exactly when the entry of every page is what the page was meant to hold. */
  lemma GoalIff(flash: seq<byte>, t: T.Target, start: nat, image: seq<byte>, cs: seq<CleanUps>)
    requires Placed(t, start, |image|) && |image| > 0 && |cs| == PageCount(start, |image|)
    requires Holds(flash, t, start, image, cs)
    ensures flash == Goal(t, start, image) <==> AllMeant(t, start, image, cs)
  {
    hide Entry, Meant, Goal, WordAligned, T.IsFlash, PageCount, Placed;
    var goal, m := Goal(t, start, image), |cs|;
    GoalOutside(t, start, image);
    forall n | 0 <= n < m
      ensures HoldsAt(flash, Spot(start, n), Entry(t, start, image, cs, n))
      ensures HoldsAt(goal, Spot(start, n), Meant(t, start, image, n))
    {
      GoalHolds(t, start, image, n);
    }
    if AllMeant(t, start, image, cs) {
      forall n | 0 <= n < m ensures SameAt(flash, goal, Spot(start, 0) + T.PAGE * n) {
        assert HoldsAt(flash, Spot(start, n), Entry(t, start, image, cs, n));
      }
      SamePieces(flash, goal, Spot(start, 0), m);
      assert flash == flash[..Spot(start, m)] + flash[Spot(start, m)..];
      assert goal == goal[..Spot(start, m)] + goal[Spot(start, m)..];
    }
    if flash == goal {
      forall n | 0 <= n < m ensures Entry(t, start, image, cs, n) == Meant(t, start, image, n) {
        assert HoldsAt(flash, Spot(start, n), Entry(t, start, image, cs, n));
      }
    }
  }

  /** All of this depends on nothing but flash. */
  lemma SameEntries(t: T.Target, t': T.Target, flash: seq<byte>, start: nat, image: seq<byte>, cs: seq<CleanUps>)
    requires Placed(t, start, |image|) && Placed(t', start, |image|) && |image| > 0 && t'.flash == t.flash
    requires |cs| <= PageCount(start, |image|)
    ensures Holds(flash, t', start, image, cs) ==> Holds(flash, t, start, image, cs)
    ensures AllMeant(t', start, image, cs) <==> AllMeant(t, start, image, cs)
    ensures Granted(t', start, image, cs) <==> Granted(t, start, image, cs)
  {
    hide Before, Meant, WordAligned, T.IsFlash, T.FlashOffset, PageCount, Entry, Placed, FitsOver;
    forall n | 0 <= n < |cs|
      ensures Entry(t, start, image, cs, n) == Entry(t', start, image, cs, n)
      ensures Meant(t, start, image, n) == Meant(t', start, image, n)
      ensures Before(t, start, image, n) == Before(t', start, image, n)
    {
      SameEntry(t, t', start, image, cs, n);
    }
    if Holds(flash, t', start, image, cs) {
      forall n | 0 <= n < |cs| ensures HoldsAt(flash, Spot(start, n), Entry(t, start, image, cs, n)) {
        assert HoldsAt(flash, Spot(start, n), Entry(t', start, image, cs, n));
      }
    }
  }

  lemma SameEntry(t: T.Target, t': T.Target, start: nat, image: seq<byte>, cs: seq<CleanUps>, n: nat)
    requires Placed(t, start, |image|) && Placed(t', start, |image|) && |image| > 0 && t'.flash == t.flash
    requires n < |cs| <= PageCount(start, |image|)
    ensures Entry(t, start, image, cs, n) == Entry(t', start, image, cs, n)
    ensures Meant(t, start, image, n) == Meant(t', start, image, n)
    ensures Before(t, start, image, n) == Before(t', start, image, n)
  {
    hide WordAligned, T.IsFlash, T.FlashOffset, PageCount, Overlay;
  }

  // Inputs on which Ok does not mean the goal.

  /** A page whose erase was not cleaned up after comes out blank. */
  lemma LostEraseBlanks(t: T.Target, start: nat, image: seq<byte>, cs: seq<CleanUps>, k: nat)
    requires Placed(t, start, |image|) && |image| > 0 && |cs| == PageCount(start, |image|) && Full(cs) && Armed(t)
    requires k < |cs| && cs[k].reset && !cs[k].erase && Granted(t, start, image, cs)
    ensures Walked(t, start, image, cs).errors == 0
    ensures HoldsAt(Walked(t, start, image, cs).flash, Spot(start, k), T.Blank(T.PAGE))
    ensures Meant(t, start, image, k) != T.Blank(T.PAGE) ==> Walked(t, start, image, cs).flash != Goal(t, start, image)
  {
    hide Has, Walked, Before, Meant, Goal, WordAligned, T.IsFlash, T.FlashOffset, Granted;
    WalkGranted(t, start, image, cs);
    WalkHolds(t, start, image, cs);
    assert Entry(t, start, image, cs, k) == T.Blank(T.PAGE);
    GoalHolds(t, start, image, k);
  }

  /** A page whose program's clean-up alone is lost comes out blank if another page follows. */
  lemma LostProgramBlanks(t: T.Target, start: nat, image: seq<byte>, cs: seq<CleanUps>, k: nat)
    requires Placed(t, start, |image|) && |image| > 0 && |cs| == PageCount(start, |image|) && Full(cs) && Armed(t)
    requires k + 1 < |cs| && cs[k].reset && !cs[k].program && Granted(t, start, image, cs)
    ensures Walked(t, start, image, cs).errors == 0
    ensures HoldsAt(Walked(t, start, image, cs).flash, Spot(start, k), T.Blank(T.PAGE))
    ensures Meant(t, start, image, k) != T.Blank(T.PAGE) ==> Walked(t, start, image, cs).flash != Goal(t, start, image)
  {
    hide Has, Walked, Before, Meant, Goal, WordAligned, T.IsFlash, T.FlashOffset, Granted;
    WalkGranted(t, start, image, cs);
    WalkHolds(t, start, image, cs);
    assert Entry(t, start, image, cs, k) == T.Blank(T.PAGE);
    GoalHolds(t, start, image, k);
  }

  /** With the clean-ups of two neighbouring resets lost, the second page is not even erased. */
  lemma LostResetsKeep(t: T.Target, start: nat, image: seq<byte>, cs: seq<CleanUps>, k: nat)
    requires Placed(t, start, |image|) && |image| > 0 && |cs| == PageCount(start, |image|) && Full(cs) && Armed(t)
    requires 0 < k < |cs| && !cs[k - 1].reset && !cs[k].reset && Granted(t, start, image, cs)
    ensures Walked(t, start, image, cs).errors == 0
    ensures HoldsAt(Walked(t, start, image, cs).flash, Spot(start, k), Before(t, start, image, k))
  {
    hide Has, Walked, Before, Meant, Goal, WordAligned, T.IsFlash, T.FlashOffset, Granted;
    WalkGranted(t, start, image, cs);
    WalkHolds(t, start, image, cs);
    assert Entry(t, start, image, cs, k) == Before(t, start, image, k);
  }
}
