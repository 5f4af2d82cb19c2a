/**
 The terminal's mailbox (the loop of cmd_terminal in src/main.c): two debug-module
 registers that a running target posts messages in and the tool takes them out of.

 The target waits for DATA0 to be zero, writes DATA1 and then DATA0.  Before each of
 the tool's accesses it may take any number of steps; `schedule` says how many, so a
 run of the tool against every schedule is a run under every interleaving.  Any access
 may fail, and standard output may take less than it is given.

 On a link that answers, to a target that gets to run, every message is printed in
 order, whole, and once, up to the first word the tool takes for no message at all: it
 is never cleared, and the target waits for ever.  A message whose clear of DATA0 is lost
 is printed again, and what DATA1 held of it may be zeros the second time.
 */
module Terminal {
  import opened Words
  import Transport

  /**
   A message as the target lays it out, where bytes past its length are whatever was
   there; a reply to the host, which carries no text; or a word that is not zero and
   that the tool takes for an empty mailbox.
   */
  datatype Message =
    | Text(tag: byte, length: nat, body: seq<byte>)
    | Reply(low: word, high: word)
    | Odd(low: word, high: word)
  {
    predicate Valid() {
      match this
      case Text(tag, length, body) => Announced(tag) == Length(length) && |body| == 7
      case Reply(low, _) => Announced(B0(low)) == Nothing
      case Odd(low, _) => low != 0 && Announced(B0(low)) == Empty
    }

    function Payload(): (r: seq<byte>)
      requires Valid()
    {
      if Text? then body[..length] else []
    }
  }

  datatype Announcement = Empty | Nothing | Length(n: nat)

  /** What the low byte of DATA0 says: nothing there, nothing to print, or a length in either packet shape. */
  function Announced(low: byte): (r: Announcement)
    ensures r.Length? ==> 1 <= r.n <= 7
  {
    if low & 0x80 != 0 then
      var n := Val(low & 0x3f) - 4;
      if 1 <= n <= 7 then Length(n) else Nothing
    else if 1 <= Val(low) <= 7 then Length(Val(low))
    else Empty
  }

  /** The second shape as its documentation has it: the length is in the low nibble alone. */
  function NibbleLength(low: byte): Announcement {
    var n := Val(low & 0xf) - 4;
    if 1 <= n <= 7 then Length(n) else Nothing
  }

  /** The code takes six bits for it, which comes to the same exactly when the other two are clear or no length fits. */
  lemma NibbleAgrees(low: byte)
    requires low & 0x80 != 0
    ensures Announced(low) == NibbleLength(low) <==> low & 0x30 == 0 || NibbleLength(low) == Nothing
  {
    SixBits(low);
  }

  /** Low byte 0x95 is a message of one byte by its low nibble, and none by its six low bits. */
  lemma NibbleDisagrees()
    ensures NibbleLength(0x95) == Length(1) && Announced(0x95) == Nothing
  {
    assert 0x95 as byte & 0xf == 5 && 0x95 as byte & 0x3f == 0x15;
    assert Val(5) == 5 && Val(0x15) == 21;
  }

  lemma SixBits(low: byte)
    ensures low & 0x30 == 0 ==> low & 0x3f == low & 0xf
    ensures low & 0x30 != 0 ==> Val(low & 0x3f) >= 16
  {}

  function Data0(m: Message): word
    requires m.Valid()
  {
    if m.Text? then Join(m.tag, m.body[0], m.body[1], m.body[2]) else m.low
  }

  function Data1(m: Message): word
    requires m.Valid()
  {
    if m.Text? then Join(m.body[3], m.body[4], m.body[5], m.body[6]) else m.high
  }

  /** The two packet shapes: a plain length, and 0x80 with the length plus four. */
  lemma ShapesAreRead(length: nat)
    requires 1 <= length <= 7
    ensures Announced(Byte(length)) == Announced(Byte(0x80 + length + 4)) == Length(length)
  {}

  /** What the low byte of a message says when it is read back. */
  lemma LengthIsRead(m: Message)
    requires m.Valid()
    ensures Announced(B0(Data0(m))) == if m.Text? then Length(m.length) else if m.Reply? then Nothing else Empty
  {
    hide Announced, Join, B0, B1, B2, B3;
    if m.Text? { SplitJoin(m.tag, m.body[0], m.body[1], m.body[2]); }
  }

  /** Whatever the target posts is one of these, unless DATA0 is zero. */
  lemma WordsAreMessages(low: word, high: word)
    requires low != 0
    ensures exists m: Message :: m.Valid() && Data0(m) == low && Data1(m) == high
  {
    hide Announced, Join, B0, B1, B2, B3;
    var a := Announced(B0(low));
    var m := if a.Length? then Text(B0(low), a.n, [B1(low), B2(low), B3(low), B0(high), B1(high), B2(high), B3(high)])
             else if a == Nothing then Reply(low, high) else Odd(low, high);
    JoinSplit(low);
    JoinSplit(high);
    assert m.Valid() && Data0(m) == low && Data1(m) == high;
  }

  // The target.

  datatype Step = Poll | PostHigh | PostLow

  datatype Mailbox = Mailbox(data0: word, data1: word, step: Step, posted: nat)

  ghost predicate AllValid(posts: seq<Message>) {
    forall i :: 0 <= i < |posts| ==> posts[i].Valid()
  }

  function TargetStep(posts: seq<Message>, s: Mailbox): Mailbox
    requires forall i :: 0 <= i < |posts| ==> posts[i].Valid()
  {
    if s.posted >= |posts| then s
    else
      match s.step
      case Poll => if s.data0 == 0 then s.(step := PostHigh) else s
      case PostHigh => s.(data1 := Data1(posts[s.posted]), step := PostLow)
      case PostLow => s.(data0 := Data0(posts[s.posted]), step := Poll, posted := s.posted + 1)
  }

  function TargetSteps(posts: seq<Message>, s: Mailbox, n: nat): Mailbox
    requires forall i :: 0 <= i < |posts| ==> posts[i].Valid()
    decreases n
  {
    if n == 0 then s else TargetSteps(posts, TargetStep(posts, s), n - 1)
  }

  /** The mailbox holds the last message posted, and the target waits. */
  ghost predicate Holds(posts: seq<Message>, s: Mailbox) {
    && AllValid(posts) && s.step == Poll && 0 < s.posted <= |posts|
    && s.data0 == Data0(posts[s.posted - 1]) && s.data1 == Data1(posts[s.posted - 1])
  }

  /** The mailbox is free, and whatever the target has put into it so far is the next message's. */
  ghost predicate Free(posts: seq<Message>, s: Mailbox) {
    && AllValid(posts) && s.posted <= |posts| && s.data0 == 0
    && (s.step != Poll ==> s.posted < |posts|)
    && (s.step == PostLow ==> s.data1 == Data1(posts[s.posted]))
  }

  /** As soon as the mailbox is free and the target gets to run, it gets its next message in. */
  lemma {:induction false} FreeFills(posts: seq<Message>, s: Mailbox, n: nat)
    requires Free(posts, s) && s.posted < |posts|
    requires n >= if s.step == Poll then 3 else if s.step == PostHigh then 2 else 1
    ensures TargetSteps(posts, s, n).posted == s.posted + 1
    decreases n
  {
    hide Data0, Data1;
    var t := TargetStep(posts, s);
    if t.posted == s.posted {
      FreeFills(posts, t, n - 1);
    } else {
      PostedIsSeen(posts[s.posted]);
      TakenIsFrozen(posts, t, n - 1);
    }
  }

  /** A posted message is never all zeros. */
  lemma PostedIsSeen(m: Message)
    requires m.Valid()
    ensures Data0(m) != 0
  {}

  lemma ZeroIsEmpty()
    ensures Announced(B0(0)) == Empty
  {}

  /** While DATA0 is taken the target does nothing. */
  lemma {:induction false} TakenIsFrozen(posts: seq<Message>, s: Mailbox, n: nat)
    requires AllValid(posts) && s.step == Poll && s.data0 != 0
    ensures TargetSteps(posts, s, n) == s
  {
    if n > 0 {
      TakenIsFrozen(posts, s, n - 1);
    }
  }

  /** From a free mailbox the target gets at most one message in, and gets it in whole. */
  lemma {:induction false} FreeFillsOnce(posts: seq<Message>, s: Mailbox, n: nat)
    requires Free(posts, s)
    ensures var s' := TargetSteps(posts, s, n);
      (Free(posts, s') && s'.posted == s.posted) || (Holds(posts, s') && s'.posted == s.posted + 1)
    decreases n
  {
    hide Data0, Data1;
    if n > 0 {
      var t := TargetStep(posts, s);
      if t.posted == s.posted {
        FreeFillsOnce(posts, t, n - 1);
      } else {
        PostedIsSeen(posts[s.posted]);
        TakenIsFrozen(posts, t, n - 1);
      }
    }
  }

  /** The first k payloads, one after the other. */
  function Concat(posts: seq<Message>, k: nat): seq<byte>
    requires k <= |posts| && forall i :: 0 <= i < |posts| ==> posts[i].Valid()
  {
    if k == 0 then [] else Concat(posts, k - 1) + posts[k - 1].Payload()
  }

  /** The first k messages are all ones the tool takes out. */
  ghost predicate NoneOdd(posts: seq<Message>, k: nat) {
    k <= |posts| && forall i :: 0 <= i < k ==> !posts[i].Odd?
  }

  /** How many messages come before the first word that the tool takes for no message; all, if there is none. */
  function BeforeOdd(posts: seq<Message>): (k: nat)
    ensures NoneOdd(posts, k) && (k < |posts| ==> posts[k].Odd?)
  {
    if posts == [] || posts[0].Odd? then 0
    else
      var k := BeforeOdd(posts[1..]);
      assert forall i :: 0 < i < 1 + k ==> posts[i] == posts[1..][i - 1];
      1 + k
  }

  lemma OnlyOneBefore(posts: seq<Message>, k: nat)
    requires NoneOdd(posts, k)
    ensures k <= BeforeOdd(posts) && (k < |posts| && posts[k].Odd? ==> k == BeforeOdd(posts))
  {}

  lemma AllBefore(posts: seq<Message>)
    ensures BeforeOdd(posts) == |posts| <==> NoneOdd(posts, |posts|)
  {}

  // What has been printed.

  /** One message handled: which one, and whether DATA1 had been cleared under it. */
  datatype Print = Print(index: nat, torn: bool)

  function Shown(m: Message, torn: bool): seq<byte>
    requires m.Valid()
  {
    if m.Text? && torn && m.length > 3 then m.body[..3] + seq(m.length - 3, i => 0) else m.Payload()
  }

  predicate InPosts(posts: seq<Message>, log: seq<Print>) {
    (forall i :: 0 <= i < |posts| ==> posts[i].Valid()) && forall j :: 0 <= j < |log| ==> log[j].index < |posts|
  }

  function Rendered(posts: seq<Message>, log: seq<Print>): seq<byte>
    requires InPosts(posts, log)
  {
    if log == [] then []
    else
      var p := log[|log| - 1];
      Rendered(posts, log[..|log| - 1]) + Shown(posts[p.index], p.torn)
  }

  /** Messages are handled in order, none is left out, and the first time they are whole. */
  predicate InOrder(log: seq<Print>) {
    && (log != [] ==> log[0] == Print(0, false))
    && forall j :: 0 < j < |log| ==> log[j].index == log[j - 1].index || log[j] == Print(log[j - 1].index + 1, false)
  }

  /** How many messages have been handled at least once. */
  function Handled(log: seq<Print>): nat { if log == [] then 0 else log[|log| - 1].index + 1 }

  lemma {:induction false} HandledAtMost(log: seq<Print>)
    requires InOrder(log)
    ensures Handled(log) <= |log|
    decreases |log|
  {
    if |log| > 1 {
      HandledAtMost(log[..|log| - 1]);
      assert log[|log| - 1].index == log[|log| - 2].index || log[|log| - 1] == Print(log[|log| - 2].index + 1, false);
    }
  }

  lemma LastIsNew(log: seq<Print>, n: nat)
    requires InOrder(log) && Handled(log) == |log| == n + 1
    ensures InOrder(log[..n]) && Handled(log[..n]) == n && log[n] == Print(n, false)
  {
    HandledAtMost(log[..n]);
    if n > 0 { assert log[n].index == log[n - 1].index || log[n] == Print(log[n - 1].index + 1, false); }
  }

  /** If nothing was handled twice, what was printed is the payloads, whole, in order and each once. */
  lemma {:induction false} OnceEach(posts: seq<Message>, log: seq<Print>)
    requires InPosts(posts, log) && InOrder(log) && Handled(log) == |log|
    ensures |log| <= |posts| && Rendered(posts, log) == Concat(posts, |log|)
    decreases |log|
  {
    hide Shown, InOrder, Handled;
    if log != [] {
      var n := |log| - 1;
      LastIsNew(log, n);
      OnceEach(posts, log[..n]);
      ShownWhole(posts[n]);
    }
  }

  lemma ShownWhole(m: Message)
    requires m.Valid()
    ensures Shown(m, false) == m.Payload()
  {}

  /** A second print differs from the first exactly when DATA1 carried anything but zeros. */
  lemma TornDiffers(m: Message)
    requires m.Valid() && m.Text?
    ensures Shown(m, true) == m.Payload() <==> forall i :: 3 <= i < m.length ==> m.body[i] == 0
  {
    var torn, whole := Shown(m, true), m.Payload();
    assert |torn| == |whole| && forall i :: 0 <= i < |whole| && i < 3 ==> torn[i] == whole[i];
    if m.length > 3 {
      assert forall i :: 3 <= i < m.length ==> torn[i] == 0 && whole[i] == m.body[i];
    }
  }

  lemma PrintMore(posts: seq<Message>, log: seq<Print>, p: Print)
    requires InPosts(posts, log) && InOrder(log) && p.index < |posts|
    requires p == Print(Handled(log), false) || (log != [] && p.index + 1 == Handled(log))
    ensures InPosts(posts, log + [p]) && InOrder(log + [p]) && Handled(log + [p]) == p.index + 1
    ensures Rendered(posts, log + [p]) == Rendered(posts, log) + Shown(posts[p.index], p.torn)
  {
    hide Shown;
    var more := log + [p];
    assert more[..|log|] == log;
  }

  // The tool.

  class Box {
    const posts: seq<Message>
    const schedule: nat -> nat
    /** What becomes of the n-th access to a register, and how much of the n-th print is taken. */
    const fault: nat -> Transport.Fault
    const room: nat -> nat
    var mail: Mailbox
    var tick: nat
    var accesses: nat
    var prints: nat
    var output: seq<byte>
    /** The messages handled, what the last print left out, and how many clears of DATA0 have been lost. */
    ghost var log: seq<Print>
    ghost var missing: seq<byte>
    ghost var lost: nat

    constructor (posts: seq<Message>, schedule: nat -> nat, fault: nat -> Transport.Fault, room: nat -> nat)
      requires AllValid(posts)
      ensures this.posts == posts && this.schedule == schedule && this.fault == fault && this.room == room
      ensures mail == Mailbox(0, 0, Poll, 0) && output == missing == [] && log == [] && lost == 0 && Between()
    {
      this.posts, this.schedule, this.fault, this.room := posts, schedule, fault, room;
      mail, tick, accesses, prints, output := Mailbox(0, 0, Poll, 0), 0, 0, 0, [];
      log, missing, lost := [], [], 0;
    }

    /** Everything posted has been handled, and the mailbox is free. */
    ghost predicate Waiting()
      reads this
    {
      Free(posts, mail) && mail.posted == Handled(log)
    }

    /** There is a message that has not been handled. */
    ghost predicate Fresh()
      reads this
    {
      Holds(posts, mail) && mail.posted == Handled(log) + 1
    }

    /** What is there is a word that the tool takes for no message. */
    ghost predicate Jammed()
      reads this
    {
      Fresh() && posts[mail.posted - 1].Odd?
    }

    /** The message handled last is still there, because a clear of DATA0 was lost. */
    ghost predicate Stale()
      reads this
    {
      && AllValid(posts) && mail.step == Poll && 0 < mail.posted <= |posts| && mail.posted == Handled(log)
      && mail.data0 == Data0(posts[mail.posted - 1]) && (mail.data1 == Data1(posts[mail.posted - 1]) || mail.data1 == 0)
    }

    /** The log is as it should be, and the mailbox is as the log says. */
    ghost predicate Kept()
      reads this
    {
      && InPosts(posts, log) && InOrder(log) && NoneOdd(posts, Handled(log)) && (Waiting() || Fresh() || Stale())
      && |log| + (if mail.data0 != 0 && Stale() then 1 else 0) == Handled(log) + lost
    }

    twostate lemma StaysKept()
      requires old(Kept()) && mail == old(mail) && log == old(log) && lost == old(lost)
      ensures Kept()
    {
      hide Data0, Data1, InPosts, InOrder, NoneOdd, Handled, Free;
    }

    /** Between two turns of the loop. */
    ghost predicate Between()
      reads this
    {
      Kept() && output + missing == Rendered(posts, log)
    }

    // What a stretch of accesses, prints or turns of the target is like.

    ghost predicate NoneLost(from: nat, to: nat) {
      forall n: nat :: from <= n < to ==> fault(n) != Transport.RequestLost
    }

    ghost predicate AllAnswered(from: nat, to: nat) {
      forall n: nat :: from <= n < to ==> fault(n) == Transport.Answered
    }

    ghost predicate AllTaken(from: nat, to: nat) { forall n: nat :: from <= n < to ==> room(n) >= 7 }

    /** The target takes three steps or more before each read of DATA0. */
    ghost predicate Fair() { forall n: nat :: schedule(n) >= 3 }

    /** The target runs for a while. */
    method Elapse()
      requires AllValid(posts)
      modifies this`mail, this`tick
      ensures mail == TargetSteps(posts, old(mail), schedule(old(tick))) && tick == old(tick) + 1
    {
      var n := schedule(tick);
      tick := tick + 1;
      while n > 0
        invariant tick == old(tick) + 1
        invariant TargetSteps(posts, mail, n) == TargetSteps(posts, old(mail), schedule(old(tick)))
      {
        mail := TargetStep(posts, mail);
        n := n - 1;
      }
    }

    /** Byte k of a register. */
    static function ByteOf(v: word, k: nat): byte {
      if k == 0 then B0(v) else if k == 1 then B1(v) else if k == 2 then B2(v) else B3(v)
    }

    /** Bytes `shift` and up of a register, into the buffer from `at` on. */
    static method Fill(buffer: array<byte>, at: nat, end: nat, v: word, shift: nat)
      requires at <= end <= buffer.Length
      modifies buffer
      ensures forall i :: 0 <= i < at ==> buffer[i] == old(buffer[i])
      ensures forall i :: at <= i < end ==> buffer[i] == ByteOf(v, i - at + shift)
    {
      hide ByteOf;
      var i := at;
      while i < end
        invariant at <= i <= end
        invariant forall k :: 0 <= k < at ==> buffer[k] == old(buffer[k])
        invariant forall k :: at <= k < i ==> buffer[k] == ByteOf(v, k - at + shift)
      {
        buffer[i] := ByteOf(v, i - at + shift);
        i := i + 1;
      }
    }

    static lemma BytesOfText(m: Message)
      requires m.Valid() && m.Text?
      ensures forall i :: 0 <= i < 3 ==> ByteOf(Data0(m), i + 1) == m.body[i]
      ensures forall i :: 3 <= i < 7 ==> ByteOf(Data1(m), i - 3) == m.body[i]
    {
      SplitJoin(m.tag, m.body[0], m.body[1], m.body[2]);
      SplitJoin(m.body[3], m.body[4], m.body[5], m.body[6]);
      hide Join, B0, B1, B2, B3, Val;
    }

    static lemma BytesOfNothing()
      ensures forall i :: 0 <= i < 4 ==> ByteOf(0, i) == 0
    {}

    /** Whether the request of the next access arrives, and whether its answer does. */
    method Access() returns (arrives: bool, ok: bool)
      modifies this`accesses
      ensures accesses == old(accesses) + 1 && (ok ==> arrives)
      ensures arrives <==> fault(old(accesses)) != Transport.RequestLost
      ensures ok <==> fault(old(accesses)) == Transport.Answered
    {
      arrives, ok := fault(accesses) != Transport.RequestLost, fault(accesses) == Transport.Answered;
      accesses := accesses + 1;
    }

    /** The read at the head of the loop: whatever the target does first, then the access. */
    method ReadData0() returns (ok: bool, v: word)
      requires Between() && missing == []
      modifies this`mail, this`tick, this`accesses
      ensures Between() && mail.posted >= old(mail.posted)
      ensures v == mail.data0 && (v == 0 <==> Waiting()) && (v != 0 ==> Fresh() || Stale())
      ensures accesses == old(accesses) + 1 && (ok <==> fault(old(accesses)) == Transport.Answered)
      ensures old(mail.data0) != 0 ==> mail == old(mail)
      ensures schedule(old(tick)) >= 3 && v == 0 ==> Handled(log) == |posts|
    {
      hide TargetSteps, Data0, Data1, Rendered;
      HeldIsSeen();
      if mail.data0 == 0 {
        FreeFillsOnce(posts, mail, schedule(tick));
        if schedule(tick) >= 3 && mail.posted < |posts| { FreeFills(posts, mail, schedule(tick)); }
      } else {
        TakenIsFrozen(posts, mail, schedule(tick));
      }
      Elapse();
      HeldIsSeen();
      v := mail.data0;
      var arrives;
      arrives, ok := Access();
    }

    lemma HeldIsSeen()
      requires AllValid(posts)
      ensures Waiting() ==> mail.data0 == 0
      ensures Fresh() || Stale() ==> mail.data0 != 0
      ensures !(Fresh() && Stale())
    {
      hide Data0, Data1;
      if Fresh() || Stale() { PostedIsSeen(posts[mail.posted - 1]); }
    }

    /** While DATA0 is taken, time passing changes nothing. */
    method ElapseTaken()
      requires AllValid(posts) && mail.step == Poll && mail.data0 != 0
      modifies this`mail, this`tick
      ensures mail == old(mail)
    {
      TakenIsFrozen(posts, mail, schedule(tick));
      Elapse();
    }

    /** The message that is there may be logged as p: it is new, or it is the last one again. */
    ghost predicate Releasable(p: Print)
      reads this
    {
      CanRelease(posts, log, lost, mail, p)
    }

    static ghost predicate CanRelease(posts: seq<Message>, log: seq<Print>, lost: nat, mail: Mailbox, p: Print) {
      && InPosts(posts, log) && InOrder(log) && AllValid(posts) && mail.step == Poll && 0 < mail.posted <= |posts|
      && p.index + 1 == mail.posted && NoneOdd(posts, mail.posted) && mail.data0 == Data0(posts[mail.posted - 1])
      && (mail.data1 == Data1(posts[mail.posted - 1]) || mail.data1 == 0)
      && ((p == Print(Handled(log), false) && |log| == Handled(log) + lost) ||
          (log != [] && p.index + 1 == Handled(log) && |log| + 1 == Handled(log) + lost))
    }

    /** Whether DATA1 has been cleared does not matter for that. */
    static lemma StillReleasable(posts: seq<Message>, log: seq<Print>, lost: nat, mail: Mailbox, mail': Mailbox,
                                 p: Print)
      requires CanRelease(posts, log, lost, mail, p) && mail' == mail.(data1 := mail'.data1)
      requires mail'.data1 == mail.data1 || mail'.data1 == 0
      ensures CanRelease(posts, log, lost, mail', p)
    {
      hide Data0, Data1, InPosts, InOrder, NoneOdd;
    }

    lemma HeldIsReleasable()
      requires Between() && (Fresh() || Stale()) && !Jammed()
      ensures Releasable(Print(mail.posted - 1, mail.data1 != Data1(posts[mail.posted - 1])))
      ensures !posts[mail.posted - 1].Text? ==> Releasable(Print(mail.posted - 1, false))
    {
      hide Data0, Data1, Rendered, InOrder;
      HeldIsSeen();
    }

    /** The message is handled: DATA0 is cleared, unless that request is lost. */
    method Release(ghost p: Print)
      requires Releasable(p)
      modifies this`mail, this`tick, this`accesses, this`log, this`lost
      ensures Kept() && log == old(log) + [p] && InPosts(posts, log) && InPosts(posts, old(log)) && p.index < |posts|
      ensures Handled(log) == mail.posted == old(mail.posted) && accesses == old(accesses) + 1
      ensures Rendered(posts, log) == Rendered(posts, old(log)) + Shown(posts[p.index], p.torn)
      ensures lost == old(lost) + if fault(old(accesses)) == Transport.RequestLost then 1 else 0
    {
      hide Data0, Data1, TargetSteps, Rendered, Shown;
      PostedIsSeen(posts[mail.posted - 1]);
      ElapseTaken();
      PrintMore(posts, log, p);
      log := log + [p];
      var arrives, ignored := Access();
      if arrives {
        mail := mail.(data0 := 0);
      } else {
        lost := lost + 1;
      }
    }

    /** What the low byte of DATA0 says is true. */
    lemma HeldAnnounces()
      requires Between()
      ensures Fresh() || Stale() ==> 0 < mail.posted <= |posts| && posts[mail.posted - 1].Valid() && mail.data0 != 0
      ensures Fresh() || Stale() ==> var m := posts[mail.posted - 1];
        Announced(B0(mail.data0)) == if m.Text? then Length(m.length) else if m.Reply? then Nothing else Empty
      ensures Waiting() ==> mail.posted == Handled(log) && Announced(B0(mail.data0)) == Empty
    {
      hide Announced, Data0, Data1, B0, Rendered, Handled, InOrder;
      HeldIsSeen();
      ZeroIsEmpty();
      if Fresh() || Stale() { LengthIsRead(posts[mail.posted - 1]); }
    }

    /**
     One turn of the loop.  It goes on unless a read failed or a print was cut
     short, and then every message posted before it has been handled, unless there is a
     word the tool takes for no message.  If the target gets to run and no clear has been
     lost, one message more has been.  A clear that fails does not stop the loop.
     */
    method Turn() returns (go: bool)
      requires Between() && missing == []
      modifies this
      ensures Between() && |old(log)| <= |log| <= |old(log)| + 1 && log[..|old(log)|] == old(log) && lost >= old(lost)
      ensures mail.posted >= old(mail.posted) && accesses > old(accesses) && prints >= old(prints)
      ensures go ==> missing == [] && (Handled(log) >= old(mail.posted) || Jammed())
      ensures fault(old(accesses)) != Transport.Answered ==> !go && log == old(log) && output == old(output)
      ensures NoneLost(old(accesses), accesses) ==> lost == old(lost)
      ensures AllAnswered(old(accesses), accesses) && AllTaken(old(prints), prints) ==> go
      ensures !go ==> missing != [] || (log == old(log) && fault(accesses - 1) != Transport.Answered)
      ensures go && lost == 0 && schedule(old(tick)) >= 3 ==>
        Jammed() || Handled(log) == Handled(old(log)) + 1 || Handled(log) == Handled(old(log)) == |posts|
      ensures old(Jammed()) ==> Jammed() && mail == old(mail) && log == old(log) && output == old(output)
    {
      hide Announced, Data0, Data1, Val, B0, B1, B2, B3, TargetSteps, Rendered, Shown, Fresh, Stale, Waiting, Handled,
        InOrder;
      HeldNow();
      var ok, data0 := ReadData0();
      HeldNow();
      if !ok {
        return false;
      }
      HeldAnnounces();
      var announced := Announced(B0(data0));
      if announced == Empty {
        return true;
      }
      if announced == Nothing {
        Skip();
        return true;
      }
      go := ShowText(data0, announced.n);
    }

    /** What the state says about the message that is there, if there is one. */
    lemma HeldNow()
      requires Between()
      ensures Jammed() ==> Fresh() && mail.data0 != 0 && posts[mail.posted - 1].Odd?
      ensures Fresh() ==> mail.posted == Handled(log) + 1 && mail.posted <= |posts|
      ensures Stale() ==> mail.posted == Handled(log) && lost > 0 && !Fresh()
      ensures Fresh() && posts[mail.posted - 1].Odd? ==> Jammed()
      ensures Waiting() ==> mail.posted == Handled(log)
    {
      hide Data0, Data1, Rendered, InOrder;
      HeldIsSeen();
      if Stale() { LogAtMost(); }
    }

    lemma LogAtMost()
      requires InOrder(log)
      ensures Handled(log) <= |log|
    {
      HandledAtMost(log);
    }

    /** A reply to the host is taken out of the mailbox, and nothing is printed. */
    method Skip()
      requires Between() && missing == [] && (Fresh() || Stale()) && posts[mail.posted - 1].Reply?
      modifies this`mail, this`tick, this`accesses, this`log, this`lost
      ensures Between() && |log| == |old(log)| + 1 && log[..|old(log)|] == old(log)
      ensures mail.posted == old(mail.posted) == Handled(log) && accesses == old(accesses) + 1
      ensures lost == old(lost) + if fault(old(accesses)) == Transport.RequestLost then 1 else 0
    {
      hide Data0, Data1, Rendered, Shown, Waiting, InOrder, Handled, Free;
      HeldIsReleasable();
      NothingToShow(posts[mail.posted - 1]);
      Release(Print(mail.posted - 1, false));
    }

    static lemma NothingToShow(m: Message)
      requires m.Valid() && !m.Text?
      ensures Shown(m, false) == []
    {}

    /** What is shown, byte by byte, is what the two registers hold. */
    static lemma ShownByte(m: Message, data1: word, i: nat)
      requires m.Valid() && m.Text? && (data1 == Data1(m) || data1 == 0) && i < m.length
      ensures |Shown(m, data1 != Data1(m))| == m.length
      ensures Shown(m, data1 != Data1(m))[i] == if i < 3 then ByteOf(Data0(m), i + 1) else ByteOf(data1, i - 3)
    {
      BytesOfText(m);
      BytesOfNothing();
      hide ByteOf, Data0, Data1;
    }

    /** The text of the message that is there, and DATA1 cleared behind it if it was needed. */
    method FetchText(data0: word, length: nat) returns (ok: bool, buffer: array<byte>)
      requires (Fresh() || Stale()) && data0 == mail.data0 && data0 != 0
      requires posts[mail.posted - 1].Text? && length == posts[mail.posted - 1].length
      modifies this`mail, this`tick, this`accesses
      ensures fresh(buffer) && buffer.Length == 8 && mail == old(mail).(data1 := mail.data1)
      ensures !ok ==> mail == old(mail)
      ensures mail.data1 == old(mail.data1) || mail.data1 == 0
      ensures ok <==> (length > 3 ==> fault(old(accesses)) == Transport.Answered)
      ensures accesses == old(accesses) + if length <= 3 then 0 else if ok then 2 else 1
      ensures ok ==> buffer[..length] == Shown(posts[mail.posted - 1], old(mail.data1) != Data1(posts[mail.posted - 1]))
    {
      hide Data0, Data1, B0, B1, B2, B3, TargetStep, TargetSteps, ByteOf, Free, Handled, Shown, Announced;
      ghost var m := posts[mail.posted - 1];
      var fromData0 := if length > 3 then 3 else length;
      buffer := new byte[8];
      Fill(buffer, 0, fromData0, data0, 1);
      ok := true;
      if length > 3 {
        ElapseTaken();
        var arrives;
        arrives, ok := Access();
        if !ok {
          return;
        }
        Fill(buffer, 3, length, mail.data1, 0);
        ElapseTaken();
        var ignored;
        arrives, ignored := Access();
        if arrives {
          mail := mail.(data1 := 0);
        }
      }
      ShownIs(m, old(mail.data1), buffer[..length]);
    }

    static lemma ShownIs(m: Message, data1: word, bytes: seq<byte>)
      requires m.Valid() && m.Text? && (data1 == Data1(m) || data1 == 0) && |bytes| == m.length
      requires forall i :: 0 <= i < |bytes| ==>
        bytes[i] == if i < 3 then ByteOf(Data0(m), i + 1) else ByteOf(data1, i - 3)
      ensures bytes == Shown(m, data1 != Data1(m))
    {
      hide ByteOf, Data0, Data1, Shown;
      var shown := Shown(m, data1 != Data1(m));
      LengthFits(m);
      ShownByte(m, data1, 0);
      forall i | 0 <= i < |bytes| ensures bytes[i] == shown[i] { ShownByte(m, data1, i); }
      assert bytes == shown;
    }

    static lemma LengthFits(m: Message)
      requires m.Valid() && m.Text?
      ensures 1 <= m.length <= 7
    {}

    /**
     The rest of a turn that has found a text: fetch it, free the mailbox, print.  The
     loop goes on exactly if the read of DATA1, where there is one, was answered and all
     of the text was taken; a clear that fails does not stop it.
     */
    method ShowText(data0: word, length: nat) returns (go: bool)
      requires Between() && missing == [] && (Fresh() || Stale()) && data0 == mail.data0 && data0 != 0
      requires posts[mail.posted - 1].Text? && length == posts[mail.posted - 1].length
      modifies this
      ensures Between() && |old(log)| <= |log| <= |old(log)| + 1 && log[..|old(log)|] == old(log)
      ensures mail.posted == old(mail.posted) && (go ==> missing == [] && Handled(log) == mail.posted)
      ensures accesses > old(accesses) && prints >= old(prints)
      ensures go <==> (length > 3 ==> fault(old(accesses)) == Transport.Answered) && length <= room(old(prints))
      ensures !go ==> missing != [] || (log == old(log) && fault(accesses - 1) != Transport.Answered)
      ensures prints == old(prints) + if length > 3 && fault(old(accesses)) != Transport.Answered then 0 else 1
      ensures lost == old(lost) +
        if prints > old(prints) && fault(accesses - 1) == Transport.RequestLost then 1 else 0
    {
      hide Data0, Data1, Rendered, Shown, Free, InOrder, Handled, InPosts, NoneOdd, CanRelease, Kept;
      HeldIsReleasable();
      ghost var was, p := mail, Print(mail.posted - 1, mail.data1 != Data1(posts[mail.posted - 1]));
      var ok, buffer := FetchText(data0, length);
      if !ok {
        StaysKept();
        return false;
      }
      StillReleasable(posts, log, lost, was, mail, p);
      Release(p);
      label released:
      go := Put(buffer[..length]);
      StaysKept@released();
    }

    /** fwrite: the loop ends if less than everything was taken. */
    method Put(bytes: seq<byte>) returns (go: bool)
      requires missing == []
      modifies this`prints, this`output, this`missing
      ensures output + missing == old(output) + bytes && (go <==> missing == [])
      ensures prints == old(prints) + 1 && (go <==> |bytes| <= room(old(prints)))
    {
      var n := room(prints);
      prints := prints + 1;
      if |bytes| <= n {
        output := output + bytes;
        go := true;
        assert output + missing == output;
      } else {
        output, missing := output + bytes[..n], bytes[n..];
        go := false;
        assert bytes[..n] + bytes[n..] == bytes;
      }
    }

    /**
     The loop, for as many turns as it is left to run.  What is printed is every message
     handled, in order and the first time whole; and if no clear of DATA0 has been lost,
     the payloads posted, each once, short of at most the one still in the mailbox.  The
     loop is stopped by nothing but a failed access or a print that was cut short.  If it
     was not, what it has handled includes all that was posted when its last turn began,
     up to a word it takes for no message; and if the target gets to run, one message more
     for every turn.
     */
    method Run(turns: nat) returns (go: bool)
      requires Between() && missing == []
      modifies this
      ensures Between() && lost >= old(lost) && (go ==> missing == [])
      ensures accesses >= old(accesses) && prints >= old(prints)
      ensures NoneLost(old(accesses), accesses) ==> lost == old(lost)
      ensures AllAnswered(old(accesses), accesses) && AllTaken(old(prints), prints) ==> go
      ensures !go ==> accesses > 0 && (missing != [] || fault(accesses - 1) != Transport.Answered)
      ensures go && turns > 0 ==> Handled(log) >= old(mail.posted) || Jammed()
      ensures go && lost == 0 && Fair() ==>
        Handled(log) >= Handled(old(log)) + turns || Handled(log) == BeforeOdd(posts)
      ensures Handled(log) <= BeforeOdd(posts)
      ensures lost == 0 ==> Handled(log) <= |posts| && output + missing == Concat(posts, Handled(log))
      ensures lost == 0 ==> mail.posted <= Handled(log) + 1
      ensures old(Jammed()) ==> Jammed() && mail == old(mail) && log == old(log) && output == old(output)
    {
      hide Waiting, Fresh, Stale, Rendered, InPosts, InOrder, Handled;
      go := true;
      var i := 0;
      while i < turns && go
        invariant Between() && lost >= old(lost) && i <= turns && (go ==> missing == [])
        invariant accesses >= old(accesses) && prints >= old(prints)
        invariant NoneLost(old(accesses), accesses) ==> lost == old(lost)
        invariant AllAnswered(old(accesses), accesses) && AllTaken(old(prints), prints) ==> go
        invariant !go ==> accesses > 0 && (missing != [] || fault(accesses - 1) != Transport.Answered)
        invariant mail.posted >= old(mail.posted)
        invariant go && i > 0 ==> Handled(log) >= old(mail.posted) || Jammed()
        invariant go && lost == 0 && Fair() ==>
          Jammed() || Handled(log) >= Handled(old(log)) + i || Handled(log) == |posts|
        invariant old(Jammed()) ==> Jammed() && mail == old(mail) && log == old(log) && output == old(output)
      {
        go := Turn();
        i := i + 1;
      }
      HeldNow();
      OnlyOneBefore(posts, Handled(log));
      if lost == 0 { NothingTwice(); }
    }

    lemma NothingTwice()
      requires Between() && lost == 0
      ensures Handled(log) <= |posts| && output + missing == Concat(posts, Handled(log))
      ensures mail.posted <= Handled(log) + 1
    {
      hide Rendered, Data0, Data1;
      HandledAtMost(log);
      OnceEach(posts, log);
    }
  }

  /**
   The terminal on a link that answers, with a standard output that takes what it is
   given and a target that gets to run: no message is lost and none comes twice.  What
   is printed is every message, whole, in order and once, up to the first word that the
   tool takes for no message, and all of them exactly if there is none.
   */
  method Deliver(posts: seq<Message>, schedule: nat -> nat, fault: nat -> Transport.Fault, room: nat -> nat, turns: nat)
    returns (box: Box, go: bool)
    requires AllValid(posts) && turns >= |posts|
    requires forall n: nat :: schedule(n) >= 3 && fault(n) == Transport.Answered && room(n) >= 7
    ensures go && box.lost == 0 && box.missing == []
    ensures box.output == Concat(posts, BeforeOdd(posts)) && Handled(box.log) == BeforeOdd(posts)
    ensures Handled(box.log) == |posts| <==> NoneOdd(posts, |posts|)
  {
    hide Concat, InPosts, Rendered, Handled, InOrder, NoneOdd, AllValid, Box.Between, Box.Jammed, BeforeOdd;
    AllBefore(posts);
    AtMostAll(posts);
    box := new Box(posts, schedule, fault, room);
    EmptyLog();
    go := box.Run(turns);
    assert box.output + box.missing == box.output;
  }

  lemma EmptyLog()
    ensures Handled([]) == 0
  {}

  lemma AtMostAll(posts: seq<Message>)
    ensures BeforeOdd(posts) <= |posts|
  {}
}
