/**
 Where an image goes, page by page, and what writing it comes to.

 `Walked` is the whole writer as a function of the state it starts from and of the
 clean-ups that took effect.  From an idle controller every page is final, erased once
 and then programmed once, if all of them did; FlashEntries says what every page holds
 if some did not.
 */
module FlashImage {
  import opened Words
  import opened BlockRead
  import opened FlashSteps
  import opened FlashPages
  import T = Target

  // The frontier between pages that are done and pages that are not.

  /** What the array holds when the pages before offset q are done and the others are untouched. */
  ghost predicate Progress(flash: seq<byte>, before: seq<byte>, goal: seq<byte>, q: nat) {
    |goal| == |before| && q <= |before| && flash == goal[..q] + before[q..]
  }

  /** As Progress, but with `now` in the page at q. */
  function Frontier(before: seq<byte>, goal: seq<byte>, q: nat, now: seq<byte>): seq<byte>
    requires |goal| == |before| && q + |now| <= |before|
  {
    goal[..q] + now + before[q + |now|..]
  }

  /** As Progress, but the page at q may be at any moment of its rewriting. */
  ghost predicate StoppedAt(flash: seq<byte>, before: seq<byte>, goal: seq<byte>, q: nat) {
    && |goal| == |before| && q + T.PAGE <= |before| && q % T.PAGE == 0
    && exists now: seq<byte> :: StoppedWith(flash, before, goal, q, now)
  }

  ghost predicate StoppedWith(flash: seq<byte>, before: seq<byte>, goal: seq<byte>, q: nat, now: seq<byte>)
    requires |goal| == |before| && q + T.PAGE <= |before|
  {
    && |now| == T.PAGE && flash == Frontier(before, goal, q, now)
    && (now == before[q..q + T.PAGE] || now == T.Blank(T.PAGE) || now == goal[q..q + T.PAGE])
  }

  /** What a page holds while it is being rewritten: what it held, nothing, or what it is meant to hold. */
  ghost predicate PageContents(flash: seq<byte>, before: seq<byte>, offset: nat, data: seq<byte>)
    requires offset + |data| <= |before|
  {
    flash == before || flash == Overlay(before, offset, T.Blank(|data|)) || flash == Overlay(before, offset, data)
  }

  /** A page written at the frontier. */
  lemma AtFrontier(flash: seq<byte>, before: seq<byte>, goal: seq<byte>, q: nat, data: seq<byte>)
    requires Progress(flash, before, goal, q) && q + |data| <= |before|
    ensures Overlay(flash, q, data) == Frontier(before, goal, q, data)
    ensures q + |data| <= |goal| && data == goal[q..q + |data|] ==>
      Progress(Overlay(flash, q, data), before, goal, q + |data|)
  {
    assert flash[..q] == goal[..q] && flash[q + |data|..] == before[q + |data|..];
    if data == goal[q..q + |data|] {
      assert goal[..q] + data == goal[..q + |data|];
    }
  }

  /** Rewriting the next page with its part of the goal moves the frontier on by a page. */
  lemma NextPage(flash: seq<byte>, before: seq<byte>, goal: seq<byte>, q: nat, after: seq<byte>)
    requires Progress(flash, before, goal, q) && q + T.PAGE <= |before| && q % T.PAGE == 0
    requires PageContents(after, flash, q, goal[q..q + T.PAGE])
    ensures StoppedAt(after, before, goal, q) && |after| == |before|
    ensures after == Overlay(flash, q, goal[q..q + T.PAGE]) ==> Progress(after, before, goal, q + T.PAGE)
  {
    hide Overlay, Frontier;
    var data, was := goal[q..q + T.PAGE], before[q..q + T.PAGE];
    AtFrontier(flash, before, goal, q, data);
    AtFrontier(flash, before, goal, q, T.Blank(T.PAGE));
    AtFrontier(flash, before, goal, q, was);
    Untouched(flash, before, goal, q);
    if after == flash {
      assert StoppedWith(after, before, goal, q, was);
    } else if after == Overlay(flash, q, data) {
      assert StoppedWith(after, before, goal, q, data);
    } else {
      assert StoppedWith(after, before, goal, q, T.Blank(T.PAGE));
    }
  }

  lemma Untouched(flash: seq<byte>, before: seq<byte>, goal: seq<byte>, q: nat)
    requires Progress(flash, before, goal, q) && q + T.PAGE <= |before|
    ensures flash == Frontier(before, goal, q, before[q..q + T.PAGE])
    ensures flash[q..q + T.PAGE] == before[q..q + T.PAGE]
  {
    assert before[q..] == before[q..q + T.PAGE] + before[q + T.PAGE..];
  }

  // Merging.

  /** The image bytes that fall into the page, over what the buffer held. */
  function Merged(was: seq<byte>, page: nat, start: nat, image: seq<byte>): (r: seq<byte>)
    requires |was| == T.PAGE
    ensures |r| == T.PAGE
  {
    seq(T.PAGE, i requires 0 <= i < T.PAGE =>
      if start <= page + i < start + |image| then image[page + i - start] else was[i])
  }

  /** Merging a page, or a page that is entirely covered, gives its part of the goal. */
  lemma MergedIsGoal(was: seq<byte>, page: nat, start: nat, image: seq<byte>, flash: seq<byte>, base: nat)
    requires |was| == T.PAGE && base <= start && base <= page && page - base + T.PAGE <= |flash|
    requires start - base + |image| <= |flash|
    requires (start <= page && page + T.PAGE <= start + |image|) || was == flash[page - base..page - base + T.PAGE]
    ensures Merged(was, page, start, image) == Overlay(flash, start - base, image)[page - base..page - base + T.PAGE]
  {
    var q := page - base;
    var goal := Overlay(flash, start - base, image);
    forall i | 0 <= i < T.PAGE ensures Merged(was, page, start, image)[i] == goal[q..q + T.PAGE][i] {
      assert goal[q..q + T.PAGE][i] == goal[q + i];
    }
  }

  // Where the image goes.

  /** What a page of flash holds. */
  function PageOf(t: T.Target, page: nat): (r: seq<byte>)
    requires PageInFlash(t, page)
    ensures |r| == T.PAGE
  {
    t.flash[T.FlashOffset(page)..T.FlashOffset(page) + T.PAGE]
  }

  /** The image lies inside the flash array behind this address. */
  ghost predicate Placed(t: T.Target, start: nat, length: nat) {
    WordAligned(t) && T.IsFlash(start) && T.FlashOffset(start) + length <= |t.flash|
  }

  /** Where the array begins in the window that `start` belongs to. */
  function Base(start: nat): nat { start - T.FlashOffset(start) }

  /** What flash is meant to hold in the end. */
  ghost function Goal(t: T.Target, start: nat, image: seq<byte>): (r: seq<byte>)
    requires Placed(t, start, |image|)
    ensures |r| == |t.flash|
  {
    Overlay(t.flash, T.FlashOffset(start), image)
  }

  /** What one page is meant to hold in the end. */
  ghost function GoalPage(t: T.Target, page: nat, start: nat, image: seq<byte>): (r: seq<byte>)
    requires Placed(t, start, |image|) && Meets(page, start, |image|)
    ensures |r| == T.PAGE
  {
    MetPage(t, start, |image|, page);
    Goal(t, start, image)[page - Base(start)..page - Base(start) + T.PAGE]
  }

  /** `page` is one of the pages the image touches. */
  predicate Meets(page: nat, start: nat, length: nat) {
    page % T.PAGE == 0 && page < start + length && start < page + T.PAGE
  }

  lemma MetPage(t: T.Target, start: nat, length: nat, page: nat)
    requires Placed(t, start, length) && Meets(page, start, length)
    ensures Base(start) <= page && PageInFlash(t, page) && T.FlashOffset(page) == page - Base(start)
    ensures start + length <= 0x900_0000 && Base(start) <= start && (page - Base(start)) % T.PAGE == 0
  {}

  /** The image covers the page, so that nothing of what it held matters. */
  predicate Covers(start: nat, length: nat, page: nat) {
    start <= page && page + T.PAGE <= start + length
  }

  /** What the writer puts into a page: image bytes over what the page holds at that moment. */
  function PageData(t: T.Target, page: nat, start: nat, image: seq<byte>): (r: seq<byte>)
    requires PageInFlash(t, page)
    ensures |r| == T.PAGE
  {
    Merged(if Covers(start, |image|, page) then T.Blank(T.PAGE) else PageOf(t, page), page, start, image)
  }

  /** As long as the page holds what it held at first, that is what the page is meant to hold. */
  lemma DataOfPage(t0: T.Target, t: T.Target, start: nat, image: seq<byte>, page: nat)
    requires Placed(t0, start, |image|) && Meets(page, start, |image|) && PageInFlash(t, page) && PageInFlash(t0, page)
    requires PageOf(t, page) == PageOf(t0, page)
    ensures PageData(t, page, start, image) == GoalPage(t0, page, start, image)
  {
    hide Merged, Overlay;
    MetPage(t0, start, |image|, page);
    var was := if Covers(start, |image|, page) then T.Blank(T.PAGE) else PageOf(t, page);
    MergedIsGoal(was, page, start, image, t0.flash, Base(start));
  }

  /** So it is at the frontier. */
  lemma DataIsGoal(t0: T.Target, t: T.Target, start: nat, image: seq<byte>, page: nat)
    requires Placed(t0, start, |image|) && Meets(page, start, |image|) && PageInFlash(t, page) && Base(start) <= page
    requires Progress(t.flash, t0.flash, Goal(t0, start, image), page - Base(start))
    ensures PageData(t, page, start, image) == GoalPage(t0, page, start, image)
  {
    hide PageData, GoalPage;
    MetPage(t0, start, |image|, page);
    Untouched(t.flash, t0.flash, Goal(t0, start, image), page - Base(start));
    DataOfPage(t0, t, start, image, page);
  }

  // The pages of the walk.

  /** The first page the image touches, and how many there are. */
  function FirstPage(start: nat): nat { start - start % T.PAGE }

  function PageCount(start: nat, length: nat): nat { (start % T.PAGE + length + T.PAGE - 1) / T.PAGE }

  function NthPage(start: nat, n: nat): nat { FirstPage(start) + T.PAGE * n }

  /** The pages the loop walks are exactly those the image touches. */
  lemma PagesAreThoseMet(start: nat, length: nat, page: nat)
    requires length > 0
    ensures Meets(page, start, length) <==> exists k: nat :: k < PageCount(start, length) && page == NthPage(start, k)
  {
    if Meets(page, start, length) {
      var k := (page - FirstPage(start)) / T.PAGE;
      assert page == NthPage(start, k);
      assert k < PageCount(start, length);
    }
  }

  /** Every image byte lands in exactly one of those pages. */
  lemma BytesLandOnce(start: nat, length: nat, at: nat, k: nat)
    requires start <= at < start + length
    ensures NthPage(start, k) <= at < NthPage(start, k + 1) <==> k == (at - FirstPage(start)) / T.PAGE
    ensures (at - FirstPage(start)) / T.PAGE < PageCount(start, length)
  {}

  /** The n-th page, as far as there is one, is one the image touches. */
  lemma NthMeets(t: T.Target, start: nat, length: nat, n: nat)
    requires Placed(t, start, length) && length > 0 && n < PageCount(start, length)
    ensures var page := NthPage(start, n); Meets(page, start, length) && Base(start) <= page && PageInFlash(t, page)
    ensures T.FlashOffset(NthPage(start, n)) == NthPage(start, n) - Base(start)
    ensures NthPage(start, PageCount(start, length)) < WORD_LIMIT
  {
    MetPage(t, start, length, NthPage(start, n));
  }

  // The whole writer, as a function.

  /** Every page was seen through to its end. */
  ghost predicate Full(cs: seq<CleanUps>) { forall i :: 0 <= i < |cs| ==> |cs[i].loads| == WORDS }

  /** Every clean-up took effect. */
  ghost predicate AllClean(cs: seq<CleanUps>) { forall i :: 0 <= i < |cs| ==> cs[i].All() }

  ghost function Walked(t: T.Target, start: nat, image: seq<byte>, cs: seq<CleanUps>): (r: T.Target)
    requires Placed(t, start, |image|) && |image| > 0 && |cs| <= PageCount(start, |image|) && Full(cs)
    ensures T.SameShape(t, r) && r.Valid()
    decreases |cs|
  {
    if cs == [] then t
    else
      var n := |cs| - 1;
      NthMeets(t, start, |image|, n);
      var before, page := Walked(t, start, image, cs[..n]), NthPage(start, n);
      Paging(before, page, PageData(before, page, start, image), cs[n])
  }

  /** n pages from `first` on were each erased once and then programmed once, in ascending order. */
  ghost predicate Rewrote(before: seq<T.Start>, after: seq<T.Start>, first: nat, n: nat)
    requires first + T.PAGE * n < WORD_LIMIT
  {
    && |after| == |before| + 2 * n && after[..|before|] == before
    && forall k :: 0 <= k < n ==> PagePair(after, |before| + 2 * k, first + T.PAGE * k)
  }

  /** What a run over n pages did to the target, its flash apart, when every clean-up took effect. */
  ghost predicate Flashed(t: T.Target, t': T.Target, first: nat, n: nat)
    requires first + T.PAGE * n < WORD_LIMIT
  {
    && t' == t.(flash := t'.flash, ctlr := t'.ctlr, addr := t'.addr, pageBuf := t'.pageBuf, busy := t'.busy,
                erases := t.erases + n, programs := t.programs + n, started := t'.started, starts := t'.starts)
    && Rewrote(t.starts, t'.starts, first, n)
  }

  lemma FlashedMore(t: T.Target, t1: T.Target, t2: T.Target, first: nat, n: nat, data: seq<byte>)
    requires first + T.PAGE * (n + 1) < WORD_LIMIT && Flashed(t, t1, first, n) && |data| == T.PAGE
    requires T.FlashOffset(first + T.PAGE * n) + T.PAGE <= |t1.flash| && PageDone(t1, t2, first + T.PAGE * n, data)
    ensures Flashed(t, t2, first, n + 1)
  {
    hide StartsErase, StartsProgram, Word, Overlay;
    assert t2.starts[..|t.starts|] == t1.starts[..|t.starts|] == t.starts;
    forall k | 0 <= k < n + 1 ensures PagePair(t2.starts, |t.starts| + 2 * k, first + T.PAGE * k) {
      if k < n {
        assert PagePair(t1.starts, |t.starts| + 2 * k, first + T.PAGE * k);
        assert t2.starts[..|t1.starts|][|t.starts| + 2 * k] == t1.starts[|t.starts| + 2 * k];
        assert t2.starts[..|t1.starts|][|t.starts| + 2 * k + 1] == t1.starts[|t.starts| + 2 * k + 1];
      }
    }
  }

  /** n pages are done, and the controller is idle. */
  ghost predicate Done(t: T.Target, t': T.Target, start: nat, image: seq<byte>, n: nat)
    requires Placed(t, start, |image|) && NthPage(start, n) < WORD_LIMIT
  {
    && Base(start) <= NthPage(start, n)
    && Progress(t'.flash, t.flash, Goal(t, start, image), NthPage(start, n) - Base(start))
    && Armed(t') && Flashed(t, t', FirstPage(start), n) && T.SameShape(t, t')
  }

  lemma NoneDone(t: T.Target, start: nat, image: seq<byte>)
    requires Placed(t, start, |image|) && |image| > 0 && Armed(t)
    ensures NthPage(start, 0) < WORD_LIMIT && Done(t, t, start, image, 0)
  {
    hide Armed;
    NthMeets(t, start, |image|, 0);
    var q := NthPage(start, 0) - Base(start);
    assert t.flash == Goal(t, start, image)[..q] + t.flash[q..];
  }

  /** One more page, every clean-up of it taking effect. */
  lemma OneMoreDone(t: T.Target, t1: T.Target, start: nat, image: seq<byte>, n: nat, c: CleanUps)
    requires Placed(t, start, |image|) && |image| > 0 && n < PageCount(start, |image|)
    requires NthPage(start, n + 1) < WORD_LIMIT
    requires Done(t, t1, start, image, n) && PageInFlash(t1, NthPage(start, n)) && t1.Valid() && |c.loads| == WORDS
    requires c.All()
    ensures var page := NthPage(start, n);
      Done(t, Paging(t1, page, PageData(t1, page, start, image), c), start, image, n + 1)
  {
    hide Paging, Armed, PageData, T.IsFlash, T.FlashOffset, Overlay, PagePair, WordAligned, Progress, Goal, Base,
      CleanUps.All;
    NthMeets(t, start, |image|, n);
    var page := NthPage(start, n);
    var t2 := Paging(t1, page, PageData(t1, page, start, image), c);
    DataIsGoal(t, t1, start, image, page);
    CleanPage(t1, page, PageData(t1, page, start, image), c);
    FlashedMore(t, t1, t2, FirstPage(start), n, PageData(t1, page, start, image));
    AtFrontier(t1.flash, t.flash, Goal(t, start, image), page - Base(start), PageData(t1, page, start, image));
  }

  lemma LastTurn(t: T.Target, start: nat, image: seq<byte>, cs: seq<CleanUps>, n: nat)
    requires Placed(t, start, |image|) && |image| > 0 && |cs| == n + 1 <= PageCount(start, |image|) && Full(cs)
    ensures var before, page := Walked(t, start, image, cs[..n]), NthPage(start, n);
      PageInFlash(before, page) &&
      Walked(t, start, image, cs) == Paging(before, page, PageData(before, page, start, image), cs[n])
  {
    hide Paging, PageData, PageInFlash, WordAligned, T.IsFlash, T.FlashOffset;
    NthStays(t, Walked(t, start, image, cs[..n]), start, |image|, n);
  }

  lemma NthStays(t: T.Target, t': T.Target, start: nat, length: nat, n: nat)
    requires Placed(t, start, length) && length > 0 && n < PageCount(start, length) && T.SameShape(t, t')
    ensures PageInFlash(t', NthPage(start, n))
  {
    NthMeets(t, start, length, n);
  }

  /** With every clean-up in effect, each page walked is done. */
  lemma {:induction false} CleanWalk(t: T.Target, start: nat, image: seq<byte>, cs: seq<CleanUps>)
    requires Placed(t, start, |image|) && |image| > 0 && |cs| <= PageCount(start, |image|) && Full(cs) && AllClean(cs)
    requires Armed(t)
    ensures NthPage(start, |cs|) < WORD_LIMIT && Done(t, Walked(t, start, image, cs), start, image, |cs|)
    decreases |cs|
  {
    hide Paging, Armed, PageData, PageInFlash, Done, WordAligned, T.IsFlash, T.FlashOffset, CleanUps.All, Walked;
    NthMeets(t, start, |image|, 0);
    if cs == [] {
      NoneDone(t, start, image);
      NoTurns(t, start, image);
    } else {
      var n := |cs| - 1;
      CleanWalk(t, start, image, cs[..n]);
      LastTurn(t, start, image, cs, n);
      OneMoreDone(t, Walked(t, start, image, cs[..n]), start, image, n, cs[n]);
    }
  }

  lemma NoTurns(t: T.Target, start: nat, image: seq<byte>)
    requires Placed(t, start, |image|) && |image| > 0
    ensures Walked(t, start, image, []) == t
  {}

  /** Past the last page there is nothing left to do. */
  lemma PastTheEnd(before: seq<byte>, goal: seq<byte>, q: nat, image: seq<byte>, offset: nat, now: seq<byte>)
    requires offset + |image| <= |before| && goal == Overlay(before, offset, image)
    requires q + |now| <= |before| && offset + |image| <= q + |now|
    ensures Frontier(before, goal, q, now) == Overlay(goal, q, now)
    ensures Progress(goal, before, goal, q + |now|)
  {
    assert goal[q + |now|..] == before[q + |now|..];
  }

  /** The last page is the one that the end of the image falls into. */
  lemma LastReaches(t: T.Target, start: nat, length: nat, n: nat)
    requires Placed(t, start, length) && length > 0 && n + 1 == PageCount(start, length)
    ensures Meets(NthPage(start, n), start, length)
    ensures 0 <= NthPage(start, n) - Base(start)
    ensures T.FlashOffset(start) + length <= NthPage(start, n) - Base(start) + T.PAGE <= |t.flash|
  {
    NthMeets(t, start, length, n);
  }

  /** All pages done: flash is the goal. */
  lemma AllDone(t: T.Target, t': T.Target, start: nat, image: seq<byte>)
    requires Placed(t, start, |image|) && |image| > 0 && NthPage(start, PageCount(start, |image|)) < WORD_LIMIT
    requires Done(t, t', start, image, PageCount(start, |image|))
    ensures t'.flash == Goal(t, start, image)
  {
    hide Armed, Flashed, Overlay;
    LastReaches(t, start, |image|, PageCount(start, |image|) - 1);
    ProgressIsGoal(t.flash, t'.flash, T.FlashOffset(start), image,
                   NthPage(start, PageCount(start, |image|)) - Base(start));
  }

  lemma ProgressIsGoal(before: seq<byte>, flash: seq<byte>, offset: nat, image: seq<byte>, q: nat)
    requires offset + |image| <= |before| && offset + |image| <= q
    requires Progress(flash, before, Overlay(before, offset, image), q)
    ensures flash == Overlay(before, offset, image)
  {}

  /** Writing over a part changes nothing exactly when that part holds it already. */
  lemma OverlaySame(m: seq<byte>, q: nat, now: seq<byte>)
    requires q + |now| <= |m|
    ensures Overlay(m, q, now) == m <==> now == m[q..q + |now|]
  {
    assert Overlay(m, q, now)[q..q + |now|] == now;
    assert m == m[..q] + m[q..q + |now|] + m[q + |now|..];
  }
}
