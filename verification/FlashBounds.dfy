/**
 How far the flash sequences reach, whatever becomes of their requests.

 Flash changes only by an operation that is started while ADDR names the page it is
 about.  As long as ADDR names a page of the zone whenever STRT is set, and neither of
 the modes that would reach farther is on, nothing outside the zone changes.
 */
module FlashBounds {
  import opened Words
  import opened FlashSteps
  import T = Target

  /** A stretch of the array. */
  datatype Zone = Zone(lo: nat, hi: nat)

  predicate PageInZone(addr: word, z: Zone) {
    z.lo <= T.FlashOffset(Nat(addr)) && T.FlashOffset(Nat(addr)) + T.PAGE <= z.hi
  }

  /** Neither halfword programming nor sector erase. */
  predicate Modest(v: word) { !Has(v, T.CTLR_PG) && !Has(v, T.CTLR_PER) }

  ghost predicate Confined(t: T.Target, z: Zone) {
    t.Valid() && Modest(t.ctlr) && (Has(t.ctlr, T.CTLR_STRT) ==> PageInZone(t.addr, z))
  }

  ghost predicate SameOutside(flash: seq<byte>, flash': seq<byte>, z: Zone) {
    |flash'| == |flash| && forall i :: 0 <= i < |flash| && !(z.lo <= i < z.hi) ==> flash'[i] == flash[i]
  }

  /** Some steps that keep a confined controller confined, and flash as it was outside the zone. */
  ghost predicate Bounded(t: T.Target, t': T.Target, z: Zone) {
    Confined(t, z) ==> Confined(t', z) && SameOutside(t.flash, t'.flash, z)
  }

  lemma BoundedRefl(t: T.Target, z: Zone)
    ensures Bounded(t, t, z)
  {}

  lemma BoundedTrans(t: T.Target, t1: T.Target, t2: T.Target, z: Zone)
    requires Bounded(t, t1, z) && Bounded(t1, t2, z)
    ensures Bounded(t, t2, z)
  {
    hide PageInZone, Modest, Has;
  }

  lemma QuietBounded(t: T.Target, t': T.Target, z: Zone)
    ensures Bounded(Quiet(t), Quiet(t'), z) == Bounded(t, t', z)
  {
    hide PageInZone, Modest, Has;
  }

  // The steps.

  lemma UpdatedModest(t: T.Target, set_: word, clear: word)
    requires Modest(t.ctlr) && Modest(set_)
    ensures Modest(Updated(t, set_, clear))
    ensures Has(Updated(t, set_, clear), T.CTLR_STRT) ==> Has(t.ctlr, T.CTLR_STRT) || Has(set_, T.CTLR_STRT)
  {
    var shown := T.CtlrValue(t);
    LockIsNoStart(t.ctlr);
    OnlyWhatIsThere(shown, set_, clear);
    hide Has, Or, AndNot;
  }

  lemma LockIsNoStart(c: word)
    ensures Has(Or(c, T.CTLR_LOCK), T.CTLR_STRT) == Has(c, T.CTLR_STRT) == Has(AndNot(c, T.CTLR_LOCK), T.CTLR_STRT)
    ensures Modest(c) ==> Modest(Or(c, T.CTLR_LOCK)) && Modest(AndNot(c, T.CTLR_LOCK))
  {}

  lemma OnlyWhatIsThere(c: word, set_: word, clear: word)
    ensures Has(AndNot(Or(c, set_), clear), T.CTLR_STRT) ==> Has(c, T.CTLR_STRT) || Has(set_, T.CTLR_STRT)
    ensures Modest(c) && Modest(set_) ==> Modest(AndNot(Or(c, set_), clear))
  {
    OneBit(c, set_, clear, T.CTLR_STRT);
    OneBit(c, set_, clear, T.CTLR_PG);
    OneBit(c, set_, clear, T.CTLR_PER);
    hide Has, Or, AndNot;
  }

  lemma OneBit(c: word, set_: word, clear: word, mask: word)
    ensures !Has(c, mask) && !Has(set_, mask) ==> !Has(AndNot(Or(c, set_), clear), mask)
  {}

  lemma WriteBounded(t: T.Target, v: word, z: Zone)
    requires t.Valid() && Modest(v) && (Has(v, T.CTLR_STRT) ==> PageInZone(t.addr, z))
    ensures var r := T.WriteCtlr(t, v); r.Valid() && r.ctlr == v && r.addr == t.addr && SameOutside(t.flash, r.flash, z)
  {
    hide Has, Nat, T.ClearBits, T.SetRequests;
  }

  lemma CtlBounded(t: T.Target, set_: word, clear: word, z: Zone)
    requires Modest(set_) && (Has(set_, T.CTLR_STRT) ==> PageInZone(t.addr, z))
    ensures Bounded(t, Ctl(t, set_, clear), z)
  {
    hide Has, Modest, PageInZone, Updated, T.WriteCtlr;
    if Confined(t, z) {
      UpdatedModest(t, set_, clear);
      WriteBounded(t, Updated(t, set_, clear), z);
    }
  }

  lemma AddrBounded(t: T.Target, addr: word, z: Zone)
    requires PageInZone(addr, z)
    ensures Bounded(t, t.(addr := addr), z)
  {
    hide Has, Modest, PageInZone;
  }

  lemma StoreBounded(t: T.Target, address: nat, word: word, z: Zone)
    requires t.Valid() && InFlash(t, address)
    ensures Bounded(t, StoreWordTo(t, address, word), z)
  {
    hide Has, PageInZone, T.Programmed, T.SetRequests, T.StoreTo;
  }

  lemma KeyBounded(t: T.Target, address: nat, v: word, z: Zone)
    requires address == T.KEYR || address == T.MODEKEYR
    ensures Bounded(t, T.CtrlWrite(t, address, v), z)
  {
    hide Has, Modest, PageInZone;
  }

  /** What the tool sets in CTLR is modest, and only STRT starts anything. */
  lemma ModestSets()
    ensures Modest(T.CTLR_PAGE_ER) && Modest(T.CTLR_PAGE_PG) && Modest(T.CTLR_STRT) && Modest(T.CTLR_BUF_RST)
    ensures Modest(T.CTLR_BUF_LOAD) && Modest(0)
    ensures !Has(T.CTLR_PAGE_ER, T.CTLR_STRT) && !Has(T.CTLR_PAGE_PG, T.CTLR_STRT) && !Has(T.CTLR_BUF_RST, T.CTLR_STRT)
    ensures !Has(T.CTLR_BUF_LOAD, T.CTLR_STRT) && !Has(0, T.CTLR_STRT)
  {}

  lemma IdleConfined(t: T.Target, z: Zone)
    requires Idle(t) && t.Valid()
    ensures Confined(t, z)
  {
    hide PageInZone;
  }

  // The same for what a request has come to, made or not.

  /** Nothing but the list of accesses and the busy polls. */
  lemma PollBounds(t0: T.Target, t: T.Target, t': T.Target, z: Zone)
    requires Bounded(t0, t, z) && Quiet(t') == Quiet(t).(busy := Quiet(t').busy)
    ensures Bounded(t0, t', z)
  {
    hide PageInZone, Modest, Has, SameOutside;
    assert t'.flash == Quiet(t').flash && t'.ctlr == Quiet(t').ctlr && t'.addr == Quiet(t').addr;
    assert t'.pageBuf == Quiet(t').pageBuf;
  }

  lemma UpdateBounds(t0: T.Target, t: T.Target, t': T.Target, set_: word, clear: word, z: Zone)
    requires Bounded(t0, t, z) && Modest(set_) && (Has(set_, T.CTLR_STRT) ==> PageInZone(t.addr, z))
    requires Quiet(t') == Quiet(t) || Quiet(t') == Ctl(Quiet(t), set_, clear)
    ensures Bounded(t0, t', z)
  {
    hide Ctl, Bounded, PageInZone, Modest, Has;
    CtlBounded(Quiet(t), set_, clear, z);
    BoundedRefl(Quiet(t), z);
    QuietBounded(t, t', z);
    BoundedTrans(t0, t, t', z);
  }

  lemma StoreBounds(t0: T.Target, t: T.Target, t': T.Target, stored: T.Target, z: Zone)
    requires Bounded(t0, t, z) && Bounded(Quiet(t), Quiet(stored), z)
    requires Quiet(t') == Quiet(t) || Quiet(t') == Quiet(stored)
    ensures Bounded(t0, t', z)
  {
    hide Bounded;
    BoundedRefl(Quiet(t), z);
    QuietBounded(t, t', z);
    BoundedTrans(t0, t, t', z);
  }
}
