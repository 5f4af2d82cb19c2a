/**
 What reaches a client that reads the server's packets off the wire (GDB manual,
 Appendix E, section E.1).

 The server sums a payload before it escapes it; the client sums what it receives.  So
 a packet gets through exactly when the bytes that had to be escaped are a multiple of
 256 in number, and one that does not is never going to: every repeat is the same.
 Console text has none such, and always arrives; a document arrives exactly when every
 piece of it gets through.
 */
module GdbClient {
  import opened Words
  import opened GdbHex
  import opened GdbPacket
  import opened GdbReplies

  // One packet.

  /** As Receive, by a client that has room for a body of any length. */
  function Reads(stream: seq<byte>): (r: Received)
    ensures stream != [] ==> |r.rest| < |stream|
  {
    hide IsHex, HexNibble, Unescape, Sum;
    var d := Find(stream, DOLLAR);
    if d == |stream| then Received(None, [], [])
    else
      var s := stream[d + 1..];
      var h := Find(s, HASH);
      if h == |s| then Received(None, [], []) else Judge(s[..h], s[h + 1..])
  }

  /** A body without delimiters, between them. */
  lemma ReadsBody(junk: seq<byte>, body: seq<byte>, tail: seq<byte>)
    requires DOLLAR !in junk && HASH !in body
    ensures Reads(junk + [DOLLAR] + body + [HASH] + tail) == Judge(body, tail)
  {
    hide Judge;
    var s := body + [HASH] + tail;
    var stream := junk + [DOLLAR] + s;
    assert stream == junk + [DOLLAR] + body + [HASH] + tail;
    FindFirst(junk, DOLLAR, s);
    FindFirst(body, HASH, tail);
    assert stream[|junk| + 1..] == s && s[..|body|] == body && s[|body| + 1..] == tail;
  }

  /** The packet gets through. */
  predicate Passes(p: seq<byte>) { Specials(p) % 256 == 0 }

  /** The client takes a frame of the server's exactly if it passes, and refuses it otherwise. */
  lemma FrameReadIff(junk: seq<byte>, p: seq<byte>, rest: seq<byte>)
    requires DOLLAR !in junk
    ensures Reads(junk + Frame(p) + rest) ==
      if Passes(p) then Received(Some(p), [PLUS], rest) else Received(None, [MINUS], rest)
  {
    EscapedIsOneBody(p);
    UnescapeInvertsEscape(p);
    SumsAgree(p);
    FrameSplit(junk, p, rest);
    ReadsBody(junk, Escape(p), Checksum(p) + rest);
    JudgeChecksum(Escape(p), p, rest);
    hide Reads, Escape, Unescape, Sum, Checksum, Judge, Specials, Frame;
  }

  ghost predicate AllPassed(payloads: seq<seq<byte>>) {
    forall i :: 0 <= i < |payloads| ==> Passes(payloads[i])
  }

  // A stream of packets.

  /** The payloads a client takes out of a stream. */
  function Understood(stream: seq<byte>): seq<seq<byte>>
    decreases |stream|
  {
    hide Reads;
    if stream == [] then []
    else
      var r := Reads(stream);
      (if r.payload.Some? then [r.payload.value] else []) + Understood(r.rest)
  }

  function Passing(payloads: seq<seq<byte>>): seq<seq<byte>> {
    if payloads == [] then [] else (if Passes(payloads[0]) then [payloads[0]] else []) + Passing(payloads[1..])
  }

  /** Of a stream of packets the client understands those that pass, in order. */
  lemma {:induction false} StreamIsUnderstood(payloads: seq<seq<byte>>)
    ensures Understood(Frames(payloads)) == Passing(payloads)
  {
    hide Reads, Frame, Passes;
    if payloads != [] {
      var p, rest := payloads[0], Frames(payloads[1..]);
      FrameReadIff([], p, rest);
      assert [] + Frame(p) + rest == Frame(p) + rest;
      StreamIsUnderstood(payloads[1..]);
      FrameIsSomething(p);
    }
  }

  lemma FrameIsSomething(p: seq<byte>)
    ensures Frame(p) != []
  {}

  /** A packet that does not pass is refused however often it is repeated. */
  lemma {:induction false} RefusedForEver(p: seq<byte>, n: nat)
    requires !Passes(p)
    ensures Understood(Repeated(Frame(p), n)) == []
  {
    hide Reads, Frame, Passes;
    if n > 0 {
      var rest := Repeated(Frame(p), n - 1);
      OneFirst(Frame(p), n);
      FrameReadIff([], p, rest);
      assert [] + Frame(p) + rest == Frame(p) + rest;
      FrameIsSomething(p);
      RefusedForEver(p, n - 1);
    }
  }

  lemma {:induction false} OneFirst(frame: seq<byte>, n: nat)
    requires n > 0
    ensures Repeated(frame, n) == frame + Repeated(frame, n - 1)
  {
    if n > 1 { OneFirst(frame, n - 1); }
  }

  // Console output.

  lemma {:induction false} NothingToEscape(p: seq<byte>)
    requires forall k :: 0 <= k < |p| ==> !Special(p[k])
    ensures Specials(p) == 0
  {
    if p != [] { NothingToEscape(p[1..]); }
  }

  lemma OutputPasses(payload: seq<byte>)
    requires IsOutput(payload)
    ensures Passes(payload)
  {
    forall k | 0 <= k < |payload| ensures !Special(payload[k]) {
      if k > 0 { assert IsHex(payload[k]); }
    }
    NothingToEscape(payload);
  }

  lemma {:induction false} AllUnderstood(payloads: seq<seq<byte>>)
    requires AllPassed(payloads)
    ensures Passing(payloads) == payloads
  {
    hide Passes;
    if payloads != [] { AllUnderstood(payloads[1..]); }
  }

  /** The packets of console output are all understood. */
  lemma OutputArrives(payloads: seq<seq<byte>>)
    requires forall i :: 0 <= i < |payloads| ==> IsOutput(payloads[i])
    ensures Understood(Frames(payloads)) == payloads
  {
    forall i | 0 <= i < |payloads| ensures Passes(payloads[i]) { OutputPasses(payloads[i]); }
    hide IsOutput, Passes;
    StreamIsUnderstood(payloads);
    AllUnderstood(payloads);
  }

  // Documents.

  /** What a client holds that asks until it is told that it has everything; nothing, if a reply does not pass. */
  function Obtained(data: seq<byte>, offset: nat, ask: nat -> nat, n: nat): Option<seq<byte>>
    requires (forall k: nat :: ask(k) > 0) && offset <= |data|
    decreases |data| - offset
  {
    hide Reads, Frame, Specials;
    var reply := QxferPayload(data, offset, ask(n));
    assert ask(n) > 0;
    FrameReadIff([], reply, []);
    assert [] + Frame(reply) + [] == Frame(reply);
    var taken := Reads(Frame(reply)).payload;
    if taken.None? then None
    else if taken.value[0] == LETTER_L then Some(taken.value[1..])
    else
      match Obtained(data, offset + |taken.value| - 1, ask, n + 1)
      case None => None
      case Some(rest) => Some(taken.value[1..] + rest)
  }

  /** The replies to that client, up to the final one. */
  function Replies(data: seq<byte>, offset: nat, ask: nat -> nat, n: nat): seq<seq<byte>>
    requires (forall k: nat :: ask(k) > 0) && offset <= |data|
    decreases |data| - offset
  {
    var reply := QxferPayload(data, offset, ask(n));
    assert ask(n) > 0;
    [reply] + if reply[0] == LETTER_L then [] else Replies(data, offset + |reply| - 1, ask, n + 1)
  }

  lemma ReplyMoves(data: seq<byte>, offset: nat, requested: nat)
    requires offset <= |data| && requested > 0
    ensures var r := QxferPayload(data, offset, requested);
      && (r[0] == LETTER_L || (r[0] == LETTER_M && |r| > 1))
      && (r[0] == LETTER_L ==> r[1..] == data[offset..])
  {}

  /** One reply: the last one ends the document, any other moves on. */
  lemma OneReply(data: seq<byte>, offset: nat, ask: nat -> nat, n: nat)
    requires (forall k: nat :: ask(k) > 0) && offset <= |data|
    ensures var reply := QxferPayload(data, offset, ask(n));
      var next := offset + |reply| - 1;
      && (if reply[0] == LETTER_L then next == |data| else offset < next < |data|)
      && Obtained(data, offset, ask, n) ==
        (if !Passes(reply) then None
         else if reply[0] == LETTER_L then Some(data[offset..])
         else PrependAll(data[offset..next], Obtained(data, next, ask, n + 1)))
      && Replies(data, offset, ask, n) ==
        [reply] + (if reply[0] == LETTER_L then [] else Replies(data, next, ask, n + 1))
  {
    hide Reads, Frame, Passes;
    assert ask(n) > 0;
    var reply := QxferPayload(data, offset, ask(n));
    FrameReadIff([], reply, []);
    assert [] + Frame(reply) + [] == Frame(reply);
    FinalIsMarked(data, offset, ask(n));
    ReplyMoves(data, offset, ask(n));
  }

  lemma FirstPasses(payload: seq<byte>, payloads: seq<seq<byte>>)
    ensures AllPassed([payload] + payloads) <==> Passes(payload) && AllPassed(payloads)
  {
    hide Passes;
    var all := [payload] + payloads;
    if AllPassed(all) {
      assert all[0] == payload;
      forall i | 0 <= i < |payloads| ensures Passes(payloads[i]) { assert all[i + 1] == payloads[i]; }
    }
  }

  /** The client gets the rest of the document exactly if every reply passes, and nothing otherwise. */
  lemma {:induction false} ObtainedIff(data: seq<byte>, offset: nat, ask: nat -> nat, n: nat)
    requires (forall k: nat :: ask(k) > 0) && offset <= |data|
    ensures Obtained(data, offset, ask, n) ==
      if AllPassed(Replies(data, offset, ask, n)) then Some(data[offset..]) else None
    decreases |data| - offset
  {
    hide Obtained, Replies, QxferPayload, Passes, AllPassed;
    OneReply(data, offset, ask, n);
    var reply := QxferPayload(data, offset, ask(n));
    var next := offset + |reply| - 1;
    if reply[0] == LETTER_L {
      FirstPasses(reply, []);
      NonePassed();
    } else {
      ObtainedIff(data, next, ask, n + 1);
      FirstPasses(reply, Replies(data, next, ask, n + 1));
      assert data[offset..] == data[offset..next] + data[next..];
    }
  }

  lemma NonePassed()
    ensures AllPassed([])
  {}

  lemma {:induction false} SpecialsAppend(a: seq<byte>, b: seq<byte>)
    ensures Specials(a + b) == Specials(a) + Specials(b)
  {
    if a == [] {
      assert a + b == b;
    } else {
      assert (a + b)[0] == a[0] && (a + b)[1..] == a[1..] + b;
      SpecialsAppend(a[1..], b);
    }
  }

  /** What has to be escaped in a reply is what has to be escaped in its piece of the document. */
  lemma ReplySpecials(data: seq<byte>, offset: nat, requested: nat)
    requires offset <= |data| && requested > 0
    ensures var r := QxferPayload(data, offset, requested);
      var next := offset + |r| - 1;
      && next <= |data| && Specials(r) == Specials(data[offset..next])
      && Specials(data[offset..]) == Specials(r) + Specials(data[next..])
  {
    FinalIsMarked(data, offset, requested);
    var r := QxferPayload(data, offset, requested);
    var next := offset + |r| - 1;
    assert r[1..] == data[offset..next] && !Special(r[0]);
    assert data[offset..] == data[offset..next] + data[next..];
    SpecialsAppend(data[offset..next], data[next..]);
  }

  /**
   So a document without any such byte always arrives, and one with fewer than 256 of
   them never does, whatever sizes are asked for.
   */
  lemma {:induction false} FewNeverArrive(data: seq<byte>, offset: nat, ask: nat -> nat, n: nat)
    requires (forall k: nat :: ask(k) > 0) && offset <= |data|
    ensures Specials(data[offset..]) == 0 ==> Obtained(data, offset, ask, n) == Some(data[offset..])
    ensures 0 < Specials(data[offset..]) < 256 ==> Obtained(data, offset, ask, n) == None
    decreases |data| - offset
  {
    hide Obtained, Replies, QxferPayload, Specials;
    OneReply(data, offset, ask, n);
    assert ask(n) > 0;
    ReplySpecials(data, offset, ask(n));
    var reply := QxferPayload(data, offset, ask(n));
    var next := offset + |reply| - 1;
    NoBytesNoSpecials();
    if reply[0] != LETTER_L {
      FewNeverArrive(data, next, ask, n + 1);
      assert data[offset..] == data[offset..next] + data[next..];
    } else {
      assert data[next..] == [];
    }
  }

  lemma NoBytesNoSpecials()
    ensures Specials([]) == 0
  {}

  /** The whole document, from the first request on. */
  lemma DocumentArrivesIff(data: seq<byte>, ask: nat -> nat)
    requires forall k: nat :: ask(k) > 0
    ensures Obtained(data, 0, ask, 0) == if AllPassed(Replies(data, 0, ask, 0)) then Some(data) else None
    ensures Specials(data) == 0 ==> Obtained(data, 0, ask, 0) == Some(data)
    ensures 0 < Specials(data) < 256 ==> Obtained(data, 0, ask, 0) == None
  {
    hide Obtained, Replies, AllPassed, Specials;
    ObtainedIff(data, 0, ask, 0);
    FewNeverArrive(data, 0, ask, 0);
    assert data[0..] == data;
  }
}
