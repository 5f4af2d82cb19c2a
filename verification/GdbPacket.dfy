/**
 Packet framing of the GDB server (src/gdb_server.c): GDB manual, Appendix E,
 section E.1.  A connection is the bytes still to come from the client and the
 bytes sent to it.
 */
module GdbPacket {
  import opened Words
  import opened GdbHex

  const PACKET_MAX := 4096

  const DOLLAR: byte := 0x24
  const HASH: byte := 0x23
  const BRACE: byte := 0x7d
  const STAR: byte := 0x2a
  const PLUS: byte := 0x2b
  const MINUS: byte := 0x2d

  class Conn {
    /** What the client has still to send; when it runs out, the connection is closed. */
    var incoming: seq<byte>
    var sent: seq<byte>
    var quit: bool
    /** How many bytes of the n-th buffer the socket takes before it fails, if the buffer is longer. */
    const takes: nat -> nat
    var buffers: nat
    /** The payloads handed over so far. */
    ghost var packets: seq<seq<byte>>

    constructor (incoming: seq<byte>, takes: nat -> nat)
      ensures this.incoming == incoming && this.takes == takes && sent == [] && !quit && buffers == 0 && packets == []
    {
      this.incoming, this.takes, sent, quit, buffers, packets := incoming, takes, [], false, 0, [];
    }

    /** gdb_send_all: a whole buffer, or what the socket took of it. */
    method SendAll(bytes: seq<byte>) returns (ok: bool)
      modifies this`sent, this`buffers
      ensures buffers == old(buffers) + 1 && sent == old(sent) + Taken(bytes, takes(old(buffers)))
      ensures ok <==> |bytes| <= takes(old(buffers))
    {
      ok := |bytes| <= takes(buffers);
      sent := sent + Taken(bytes, takes(buffers));
      buffers := buffers + 1;
    }
  }

  function Taken(bytes: seq<byte>, n: nat): seq<byte> { if |bytes| <= n then bytes else bytes[..n] }

  // Escaping.

  predicate Special(c: byte) { c == DOLLAR || c == HASH || c == BRACE || c == STAR }

  function Flip(c: byte): byte { c ^ 0x20 }

  lemma FlipSpecial(c: byte)
    requires Special(c)
    ensures Flip(Flip(c)) == c && Flip(c) != DOLLAR && Flip(c) != HASH
    ensures Val(BRACE) + Val(Flip(c)) == Val(c) + 93
  {}

  function Escaped(c: byte): (r: seq<byte>)
    ensures 1 <= |r| <= 2
  {
    if Special(c) then [BRACE, Flip(c)] else [c]
  }

  function Escape(p: seq<byte>): (r: seq<byte>)
    ensures |p| <= |r| <= 2 * |p|
  {
    if p == [] then [] else Escaped(p[0]) + Escape(p[1..])
  }

  /** How many bytes of the payload have to be escaped. */
  function Specials(p: seq<byte>): nat {
    if p == [] then 0 else (if Special(p[0]) then 1 else 0) + Specials(p[1..])
  }

  function Prepend(c: byte, r: Option<seq<byte>>): Option<seq<byte>> {
    match r
    case None => None
    case Some(p) => Some([c] + p)
  }

  /** A brace with nothing after it is malformed. */
  function Unescape(raw: seq<byte>): (r: Option<seq<byte>>)
    ensures r.Some? ==> |r.value| <= |raw|
    decreases |raw|
  {
    if raw == [] then Some([])
    else if raw[0] != BRACE then Prepend(raw[0], Unescape(raw[1..]))
    else if |raw| < 2 then None
    else Prepend(Flip(raw[1]), Unescape(raw[2..]))
  }

  function Sum(bs: seq<byte>): nat {
    hide Val;
    if bs == [] then 0 else Val(bs[0]) + Sum(bs[1..])
  }

  lemma SumAppend(a: seq<byte>, b: seq<byte>)
    ensures Sum(a + b) == Sum(a) + Sum(b)
  {
    hide Val;
    if a == [] {
      assert a + b == b;
    } else {
      assert (a + b)[0] == a[0] && (a + b)[1..] == a[1..] + b;
      SumAppend(a[1..], b);
    }
  }

  /** An escaped body holds no packet delimiter. */
  lemma {:induction false} EscapedIsOneBody(p: seq<byte>)
    ensures DOLLAR !in Escape(p) && HASH !in Escape(p)
  {
    if p != [] {
      EscapedIsOneBody(p[1..]);
      if Special(p[0]) { FlipSpecial(p[0]); }
      hide Flip;
    }
  }

  /** Unescaping inverts escaping. */
  lemma {:induction false} UnescapeInvertsEscape(p: seq<byte>)
    ensures Unescape(Escape(p)) == Some(p)
  {
    if p != [] {
      UnescapeInvertsEscape(p[1..]);
      var e := Escape(p);
      assert [p[0]] + p[1..] == p;
      if Special(p[0]) {
        FlipSpecial(p[0]);
        assert e[0] == BRACE && e[1] == Flip(p[0]) && e[2..] == Escape(p[1..]);
      } else {
        assert e[0] == p[0] && e[1..] == Escape(p[1..]);
      }
      hide Flip;
    }
  }

  /** Every escaped byte adds 93 to the sum of the bytes on the wire. */
  lemma {:induction false} EscapingAdds(p: seq<byte>)
    ensures Sum(Escape(p)) == Sum(p) + 93 * Specials(p)
  {
    if p != [] {
      EscapingAdds(p[1..]);
      SumAppend(Escaped(p[0]), Escape(p[1..]));
      if Special(p[0]) { FlipSpecial(p[0]); }
      hide Flip, Val;
      SumOfTwo(Escaped(p[0]));
    }
  }

  lemma SumOfTwo(bs: seq<byte>)
    requires 1 <= |bs| <= 2
    ensures Sum(bs) == Val(bs[0]) + if |bs| == 2 then Val(bs[1]) else 0
  {}

  /** 93 is invertible modulo 256. */
  lemma NinetyThree(k: nat)
    ensures 93 * k % 256 == 0 <==> k % 256 == 0
  {
    if 93 * k % 256 == 0 {
      var m := 93 * k / 256;
      assert 93 * k == 256 * m;
      assert k == 245 * (93 * k) - 256 * (89 * k);
      assert k == 256 * (245 * m - 89 * k);
    }
    if k % 256 == 0 {
      assert 93 * k == 256 * (93 * (k / 256));
    }
  }

  // Sending.

  function Checksum(body: seq<byte>): (r: seq<byte>)
    ensures |r| == 2
  {
    FormatByte(Byte(Sum(body) % 256))
  }

  /** The sender's frame: the checksum is that of the payload before escaping. */
  function Frame(p: seq<byte>): seq<byte> {
    [DOLLAR] + Escape(p) + [HASH] + Checksum(p)
  }

  /** What waiting for an acknowledgement takes in: how many repeats are asked for, and whether one comes. */
  datatype Wait = Wait(repeats: nat, rest: seq<byte>, acknowledged: bool)

  function Acknowledge(incoming: seq<byte>): Wait {
    if incoming == [] then Wait(0, [], false)
    else if incoming[0] == PLUS then Wait(0, incoming[1..], true)
    else
      var w := Acknowledge(incoming[1..]);
      if incoming[0] == MINUS then w.(repeats := w.repeats + 1) else w
  }

  /** n copies of a frame, each as far as the socket takes it; the first is buffer number `from`. */
  function Copies(frame: seq<byte>, takes: nat -> nat, from: nat, n: nat): seq<byte> {
    if n == 0 then [] else Copies(frame, takes, from, n - 1) + Taken(frame, takes(from + n - 1))
  }

  /** The socket takes all of them. */
  predicate AllTaken(frame: seq<byte>, takes: nat -> nat, from: nat, n: nat) {
    forall i :: from <= i < from + n ==> |frame| <= takes(i)
  }

  function Repeated(frame: seq<byte>, n: nat): seq<byte> {
    if n == 0 then [] else Repeated(frame, n - 1) + frame
  }

  /** On a socket that takes everything, that is the frame, n times over. */
  lemma {:induction false} CopiesAreWhole(frame: seq<byte>, takes: nat -> nat, from: nat, n: nat)
    requires AllTaken(frame, takes, from, n)
    ensures Copies(frame, takes, from, n) == Repeated(frame, n)
  {
    if n > 0 {
      CopiesAreWhole(frame, takes, from, n - 1);
    }
  }

  lemma OneByte(c: byte)
    ensures Escape([c]) == Escaped(c) && Sum([c]) == Val(c)
  {
    hide Escaped, Val;
    assert [c][1..] == [];
    assert Escape([c]) == Escaped(c) + Escape([]);
  }

  /** The next payload byte, in both of its roles. */
  lemma NextByte(p: seq<byte>, i: nat)
    requires i < |p|
    ensures Escape(p[..i + 1]) == Escape(p[..i]) + Escaped(p[i])
    ensures Sum(p[..i + 1]) % 256 == (Sum(p[..i]) % 256 + Val(p[i])) % 256
  {
    hide Escaped, Val, Escape, Sum;
    assert p[..i + 1] == p[..i] + [p[i]];
    EscapeAppend(p[..i], [p[i]]);
    SumAppend(p[..i], [p[i]]);
    OneByte(p[i]);
  }

  lemma EscapeAppend(a: seq<byte>, b: seq<byte>)
    ensures Escape(a + b) == Escape(a) + Escape(b)
  {
    hide Escaped;
    if a == [] {
      assert a + b == b;
    } else {
      assert (a + b)[0] == a[0] && (a + b)[1..] == a[1..] + b;
      EscapeAppend(a[1..], b);
    }
  }

  /** The opening '$' and the escaped payload. */
  method EscapeInto(framed: array<byte>, payload: seq<byte>) returns (used: nat, checksum: nat)
    requires framed.Length >= 2 * |payload| + 4
    modifies framed
    ensures used <= 2 * |payload| + 1 && framed[..used] == [DOLLAR] + Escape(payload)
    ensures checksum == Sum(payload) % 256
  {
    hide Val, Flip, Special, Escape, Sum;
    EmptyBody();
    framed[0] := DOLLAR;
    used, checksum := 1, 0;
    var i := 0;
    ghost var done: seq<byte> := [];
    assert payload[..0] == [];
    while i < |payload|
      invariant i <= |payload| && 1 <= used <= 2 * i + 1 && done == payload[..i]
      invariant framed[..used] == [DOLLAR] + Escape(done)
      invariant checksum == Sum(done) % 256
    {
      ghost var was := framed[..used];
      NextByte(payload, i);
      var c := payload[i];
      if Special(c) {
        framed[used] := BRACE;
        used := used + 1;
        c := Flip(c);
      }
      framed[used] := c;
      used := used + 1;
      assert framed[..used] == was + Escaped(payload[i]);
      checksum := (checksum + Val(payload[i])) % 256;
      i := i + 1;
      done := payload[..i];
    }
    assert done == payload;
  }

  /** The whole frame; it fits the buffer. */
  method BuildFrame(payload: seq<byte>) returns (framed: array<byte>, used: nat)
    requires |payload| <= PACKET_MAX + 1
    ensures fresh(framed) && used <= framed.Length && framed[..used] == Frame(payload)
  {
    hide Val, Byte, FormatByte, Escape, Sum;
    framed := new byte[2 * PACKET_MAX + 8];
    var checksum;
    used, checksum := EscapeInto(framed, payload);
    ghost var was := framed[..used];
    var digits := FormatByte(Byte(checksum));
    framed[used], framed[used + 1], framed[used + 2] := HASH, digits[0], digits[1];
    used := used + 3;
    assert framed[..used] == was + [HASH] + digits;
  }

  lemma EmptyBody()
    ensures Escape([]) == [] && Sum([]) == 0
  {}

  lemma CopiesMore(frame: seq<byte>, takes: nat -> nat, from: nat, n: nat)
    ensures Copies(frame, takes, from, n + 1) == Copies(frame, takes, from, n) + Taken(frame, takes(from + n))
    ensures Copies(frame, takes, from, 0) == []
    ensures AllTaken(frame, takes, from, n + 1) <==> AllTaken(frame, takes, from, n) && |frame| <= takes(from + n)
  {
    hide Taken;
  }

  lemma AcknowledgeStep(s: seq<byte>)
    ensures s == [] ==> Acknowledge(s) == Wait(0, [], false)
    ensures s != [] && s[0] == PLUS ==> Acknowledge(s) == Wait(0, s[1..], true)
    ensures s != [] && s[0] != PLUS ==> var w := Acknowledge(s[1..]);
      Acknowledge(s) == w.(repeats := w.repeats + if s[0] == MINUS then 1 else 0)
  {}

  /**
   One packet out, repeated for every '-', until a '+' comes or the connection ends.
   A first copy that fails ends the connection at once; a later one ends it too, but
   only after the acknowledgement that is still being waited for.
   */
  method SendPacket(conn: Conn, payload: seq<byte>)
    requires |payload| <= PACKET_MAX + 1
    modifies conn
    ensures var frame, w, n := Frame(payload), Acknowledge(old(conn.incoming)), old(conn.buffers);
      if |frame| <= conn.takes(n) then
        && conn.incoming == w.rest && conn.buffers == n + 1 + w.repeats
        && conn.sent == old(conn.sent) + Copies(frame, conn.takes, n, 1 + w.repeats)
        && (conn.quit <==> old(conn.quit) || !w.acknowledged || !AllTaken(frame, conn.takes, n, 1 + w.repeats))
      else
        && conn.incoming == old(conn.incoming) && conn.buffers == n + 1 && conn.quit
        && conn.sent == old(conn.sent) + Taken(frame, conn.takes(n))
    ensures conn.packets == old(conn.packets) + [payload]
  {
    hide Frame, Copies, Acknowledge, AllTaken, Taken;
    var framed, used := BuildFrame(payload);
    var frame := framed[..used];
    ghost var n := conn.buffers;
    conn.packets := conn.packets + [payload];
    var ok := conn.SendAll(frame);
    if !ok {
      conn.quit := true;
      return;
    }
    ghost var repeats := 0;
    NoCopies(frame, conn.takes, n);
    CopiesMore(frame, conn.takes, n, 0);
    while true
      invariant conn.packets == old(conn.packets) + [payload] && conn.buffers == n + 1 + repeats
      invariant Acknowledge(old(conn.incoming)).repeats == repeats + Acknowledge(conn.incoming).repeats
      invariant Acknowledge(old(conn.incoming)).rest == Acknowledge(conn.incoming).rest
      invariant Acknowledge(old(conn.incoming)).acknowledged == Acknowledge(conn.incoming).acknowledged
      invariant conn.sent == old(conn.sent) + Copies(frame, conn.takes, n, 1 + repeats)
      invariant conn.quit <==> old(conn.quit) || !AllTaken(frame, conn.takes, n, 1 + repeats)
      decreases |conn.incoming|
    {
      AcknowledgeStep(conn.incoming);
      CopiesMore(frame, conn.takes, n, 1 + repeats);
      if conn.incoming == [] {
        conn.quit := true;
        return;
      }
      var reply := conn.incoming[0];
      conn.incoming := conn.incoming[1..];
      if reply == PLUS {
        return;
      }
      if reply == MINUS {
        ok := conn.SendAll(frame);
        if !ok {
          conn.quit := true;
        }
        repeats := repeats + 1;
      }
    }
  }

  // Packets that go straight through.

  /** One frame after the other. */
  function Frames(payloads: seq<seq<byte>>): seq<byte> {
    if payloads == [] then [] else Frame(payloads[0]) + Frames(payloads[1..])
  }

  lemma {:induction false} FramesAppend(payloads: seq<seq<byte>>, payload: seq<byte>)
    ensures Frames(payloads + [payload]) == Frames(payloads) + Frame(payload)
  {
    hide Frame;
    var more := payloads + [payload];
    if payloads == [] {
      assert more[0] == payload && more[1..] == [];
    } else {
      assert more[0] == payloads[0] && more[1..] == payloads[1..] + [payload];
      FramesAppend(payloads[1..], payload);
    }
  }

  /** The client acknowledges whatever comes, and the socket takes it. */
  ghost predicate Smooth(incoming: seq<byte>, takes: nat -> nat) {
    && (forall i :: 0 <= i < |incoming| ==> incoming[i] == PLUS)
    && forall i: nat :: takes(i) >= 2 * PACKET_MAX + 8
  }

  /** One packet is then one frame and one acknowledgement. */
  lemma SmoothPacket(incoming: seq<byte>, takes: nat -> nat, from: nat, payload: seq<byte>)
    requires Smooth(incoming, takes) && incoming != [] && |payload| <= PACKET_MAX + 1
    ensures var frame := Frame(payload);
      && |frame| <= takes(from) && AllTaken(frame, takes, from, 1) && Copies(frame, takes, from, 1) == frame
    ensures Acknowledge(incoming) == Wait(0, incoming[1..], true) && Smooth(incoming[1..], takes)
  {
    hide Escape, Checksum;
    var frame := Frame(payload);
    AcknowledgeStep(incoming);
    NoCopies(frame, takes, from);
    CopiesMore(frame, takes, from, 0);
    assert Copies(frame, takes, from, 0) == [];
  }

  /** A client that answers "--+" is sent the frame three times, not twice. */
  lemma TwoRefusals(frame: seq<byte>)
    ensures Acknowledge([MINUS, MINUS, PLUS]) == Wait(2, [], true)
    ensures Repeated(frame, 1 + Acknowledge([MINUS, MINUS, PLUS]).repeats) == frame + frame + frame
  {
    var s := [MINUS, MINUS, PLUS];
    assert s[1..] == [MINUS, PLUS] && s[1..][1..] == [PLUS] && s[1..][1..][1..] == [];
    AcknowledgeStep(s);
    AcknowledgeStep(s[1..]);
    AcknowledgeStep(s[1..][1..]);
    assert Repeated(frame, 3) == Repeated(frame, 2) + frame && Repeated(frame, 2) == Repeated(frame, 1) + frame;
    assert Repeated(frame, 1) == Repeated(frame, 0) + frame == frame;
  }

  lemma NoCopies(frame: seq<byte>, takes: nat -> nat, from: nat)
    ensures AllTaken(frame, takes, from, 0)
  {}

  // Receiving.

  /** Where c first occurs; the length if it does not. */
  function Find(s: seq<byte>, c: byte): (i: nat)
    ensures i <= |s| && c !in s[..i] && (i < |s| ==> s[i] == c)
  {
    if s == [] || s[0] == c then 0
    else
      assert s[..1 + Find(s[1..], c)] == [s[0]] + s[1..][..Find(s[1..], c)];
      1 + Find(s[1..], c)
  }

  /** What the receiver makes of a stream: its verdict, what it answers, and what it leaves unread. */
  datatype Received = Received(payload: Option<seq<byte>>, answer: seq<byte>, rest: seq<byte>)

  /** The receiver keeps this many bytes of a body and drops the others. */
  const KEPT := PACKET_MAX - 1

  function Kept(body: seq<byte>): seq<byte> {
    if |body| > KEPT then body[..KEPT] else body
  }

  /** The two checksum digits, and the verdict. */
  function Judge(raw: seq<byte>, tail: seq<byte>): Received {
    if |tail| == 0 then Received(None, [], [])
    else if !IsHex(tail[0]) then Received(None, [], tail[1..])
    else if |tail| == 1 then Received(None, [], [])
    else if !IsHex(tail[1]) then Received(None, [], tail[2..])
    else if Sum(raw) % 256 != 16 * HexNibble(tail[0]) + HexNibble(tail[1]) then Received(None, [MINUS], tail[2..])
    else Received(Unescape(raw), [PLUS], tail[2..])
  }

  function Receive(incoming: seq<byte>): Received {
    var d := Find(incoming, DOLLAR);
    if d == |incoming| then Received(None, [], [])
    else
      var s := incoming[d + 1..];
      var h := Find(s, HASH);
      if h == |s| then Received(None, [], []) else Judge(Kept(s[..h]), s[h + 1..])
  }

  /** A frame around any body without delimiters is judged by its own checksum. */
  lemma ReceiveFrame(junk: seq<byte>, body: seq<byte>, tail: seq<byte>)
    requires DOLLAR !in junk && HASH !in body
    ensures Receive(junk + [DOLLAR] + body + [HASH] + tail) == Judge(Kept(body), tail)
  {
    hide Judge, Kept;
    var s := body + [HASH] + tail;
    var incoming := junk + [DOLLAR] + s;
    assert incoming == junk + [DOLLAR] + body + [HASH] + tail;
    FindFirst(junk, DOLLAR, s);
    FindFirst(body, HASH, tail);
    assert incoming[|junk| + 1..] == s && s[..|body|] == body && s[|body| + 1..] == tail;
  }

  lemma {:induction false} FindFirst(before: seq<byte>, c: byte, after: seq<byte>)
    requires c !in before
    ensures Find(before + [c] + after, c) == |before|
  {
    var s := before + [c] + after;
    if before != [] {
      assert s[0] == before[0] && s[1..] == before[1..] + [c] + after;
      FindFirst(before[1..], c, after);
    }
  }

  lemma ChecksumDigits(body: seq<byte>)
    ensures var digits := Checksum(body);
      IsHex(digits[0]) && IsHex(digits[1]) && 16 * HexNibble(digits[0]) + HexNibble(digits[1]) == Sum(body) % 256
  {}

  /** What the receiver says to a body that comes with the checksum of `summed`. */
  lemma JudgeChecksum(raw: seq<byte>, summed: seq<byte>, rest: seq<byte>)
    ensures Judge(raw, Checksum(summed) + rest) ==
      if Sum(raw) % 256 == Sum(summed) % 256 then Received(Unescape(raw), [PLUS], rest)
      else Received(None, [MINUS], rest)
  {
    ChecksumDigits(summed);
    var tail := Checksum(summed) + rest;
    assert tail[0] == Checksum(summed)[0] && tail[1] == Checksum(summed)[1] && tail[2..] == rest;
    hide Checksum, HexNibble, IsHex, Sum, Unescape;
    assert !(|tail| == 0) && !(|tail| == 1);
    assert IsHex(tail[0]) && IsHex(tail[1]);
  }

  /** A frame whose checksum is that of the bytes on the wire, as section E.1 asks, is accepted. */
  lemma ConformingFrameAccepted(junk: seq<byte>, p: seq<byte>, rest: seq<byte>)
    requires DOLLAR !in junk && |Escape(p)| <= KEPT
    ensures Receive(junk + [DOLLAR] + Escape(p) + [HASH] + (Checksum(Escape(p)) + rest)) ==
      Received(Some(p), [PLUS], rest)
  {
    EscapedIsOneBody(p);
    UnescapeInvertsEscape(p);
    ReceiveFrame(junk, Escape(p), Checksum(Escape(p)) + rest);
    JudgeChecksum(Escape(p), Escape(p), rest);
    hide Receive, Escape, Unescape, Sum, Checksum, Judge;
  }

  /**
   The sender's own frames are accepted exactly when the number of escaped bytes is
   a multiple of 256: the sender sums the payload, the receiver the wire.
   */
  lemma OwnFrameAcceptedIff(junk: seq<byte>, p: seq<byte>, rest: seq<byte>)
    requires DOLLAR !in junk && |Escape(p)| <= KEPT
    ensures Receive(junk + Frame(p) + rest) ==
      if Specials(p) % 256 == 0 then Received(Some(p), [PLUS], rest) else Received(None, [MINUS], rest)
  {
    EscapedIsOneBody(p);
    UnescapeInvertsEscape(p);
    SumsAgree(p);
    var tail := Checksum(p) + rest;
    FrameSplit(junk, p, rest);
    ReceiveFrame(junk, Escape(p), tail);
    JudgeChecksum(Escape(p), p, rest);
    hide Receive, Escape, Unescape, Sum, Checksum, Judge, Specials;
  }

  /** The two ways of summing agree exactly when the number of escaped bytes is a multiple of 256. */
  lemma SumsAgree(p: seq<byte>)
    ensures Sum(Escape(p)) % 256 == Sum(p) % 256 <==> Specials(p) % 256 == 0
  {
    EscapingAdds(p);
    NinetyThree(Specials(p));
    SameResidue(Sum(p), 93 * Specials(p));
  }

  lemma FrameSplit(junk: seq<byte>, p: seq<byte>, rest: seq<byte>)
    ensures junk + Frame(p) + rest == junk + [DOLLAR] + Escape(p) + [HASH] + (Checksum(p) + rest)
  {}

  lemma SameResidue(a: nat, b: nat)
    ensures (a + b) % 256 == a % 256 <==> b % 256 == 0
  {}

  /** The smallest payload its own receiver refuses. */
  lemma OneEscapeIsRefused()
    ensures Receive(Frame([BRACE])) == Received(None, [MINUS], [])
  {
    hide Receive, Sum, Checksum, Frame, Unescape, Flip, Val;
    assert Specials([BRACE]) == 1 + Specials([]);
    OwnFrameAcceptedIff([], [BRACE], []);
    assert [] + Frame([BRACE]) + [] == Frame([BRACE]);
  }

  method RecvByte(conn: Conn) returns (ok: bool, c: byte)
    modifies conn`incoming
    ensures ok <==> old(conn.incoming) != []
    ensures ok ==> old(conn.incoming) == [c] + conn.incoming
    ensures !ok ==> conn.incoming == []
  {
    if conn.incoming == [] {
      return false, 0;
    }
    ok, c := true, conn.incoming[0];
    conn.incoming := conn.incoming[1..];
  }

  lemma FindNone(s: seq<byte>, c: byte)
    requires c !in s
    ensures Find(s, c) == |s|
  {}

  /** Everything before the '$' is ignored. */
  method SkipToDollar(conn: Conn) returns (ok: bool)
    modifies conn`incoming
    ensures var d := Find(old(conn.incoming), DOLLAR);
      (ok <==> d < |old(conn.incoming)|) && conn.incoming == if ok then old(conn.incoming)[d + 1..] else []
  {
    ghost var was, done := conn.incoming, [];
    while true
      invariant was == done + conn.incoming && DOLLAR !in done
      decreases |conn.incoming|
    {
      var c;
      ghost var now := conn.incoming;
      ok, c := RecvByte(conn);
      if !ok {
        FindNone(was, DOLLAR);
        return;
      }
      assert was == done + [c] + conn.incoming;
      if c == DOLLAR {
        FindFirst(done, DOLLAR, conn.incoming);
        return;
      }
      done := done + [c];
    }
  }

  /** The body up to the '#'; what does not fit the buffer is dropped. */
  method ReadBody(conn: Conn, raw: array<byte>) returns (ok: bool, rawLen: nat)
    requires raw.Length == PACKET_MAX
    modifies conn`incoming, raw
    ensures var h := Find(old(conn.incoming), HASH);
      && (ok <==> h < |old(conn.incoming)|)
      && conn.incoming == (if ok then old(conn.incoming)[h + 1..] else [])
      && rawLen <= KEPT && (ok ==> raw[..rawLen] == Kept(old(conn.incoming)[..h]))
  {
    ghost var was, done := conn.incoming, [];
    rawLen := 0;
    while true
      invariant was == done + conn.incoming && HASH !in done
      invariant rawLen < raw.Length && raw[..rawLen] == Kept(done)
      decreases |conn.incoming|
    {
      var c;
      ok, c := RecvByte(conn);
      if !ok {
        FindNone(was, HASH);
        return;
      }
      assert was == done + [c] + conn.incoming;
      if c == HASH {
        FindFirst(done, HASH, conn.incoming);
        assert was[..|done|] == done;
        return;
      }
      if rawLen + 1 < raw.Length {
        raw[rawLen] := c;
        rawLen := rawLen + 1;
      }
      done := done + [c];
    }
  }

  /** Unescapes into the caller's buffer. */
  method UnescapeInto(raw: array<byte>, rawLen: nat, out: array<byte>) returns (ok: bool, outLen: nat)
    requires rawLen <= raw.Length && out.Length == PACKET_MAX && rawLen <= KEPT && raw != out
    modifies out
    ensures outLen <= KEPT && (ok <==> Unescape(raw[..rawLen]).Some?)
    ensures ok ==> Some(out[..outLen]) == Unescape(raw[..rawLen])
  {
    hide Flip;
    ghost var body := raw[..rawLen];
    outLen := 0;
    var i := 0;
    assert body[0..] == body && out[..0] == [];
    PrependNothing(Unescape(body));
    while i < rawLen
      invariant outLen <= i <= rawLen && raw[..rawLen] == body
      invariant Unescape(body) == PrependAll(out[..outLen], Unescape(body[i..]))
    {
      ghost var was := out[..outLen];
      var c := raw[i];
      assert body[i..][0] == c && body[i..][1..] == body[i + 1..];
      if c == BRACE {
        i := i + 1;
        if i >= rawLen {
          return false, outLen;
        }
        assert body[i - 1..][1] == body[i] && body[i - 1..][2..] == body[i + 1..];
        c := Flip(raw[i]);
      }
      if outLen + 1 < out.Length {
        out[outLen] := c;
        outLen := outLen + 1;
      }
      i := i + 1;
      assert out[..outLen] == was + [c];
      PrependOne(was, c, Unescape(body[i..]));
    }
    assert body[i..] == [];
    ghost var result := out[..outLen];
    assert Unescape(body) == Some(result + []);
    out[outLen] := 0;
    assert out[..outLen] == result == result + [];
    ok := true;
  }

  function PrependAll(done: seq<byte>, r: Option<seq<byte>>): Option<seq<byte>> {
    match r
    case None => None
    case Some(p) => Some(done + p)
  }

  lemma PrependNothing(r: Option<seq<byte>>)
    ensures PrependAll([], r) == r
  {
    if r.Some? {
      assert [] + r.value == r.value;
    }
  }

  lemma PrependOne(done: seq<byte>, c: byte, r: Option<seq<byte>>)
    ensures PrependAll(done, Prepend(c, r)) == PrependAll(done + [c], r)
  {
    if r.Some? {
      assert done + ([c] + r.value) == done + [c] + r.value;
    }
  }

  method SumBody(raw: array<byte>, rawLen: nat) returns (checksum: nat)
    requires rawLen <= raw.Length
    ensures checksum == Sum(raw[..rawLen]) % 256
  {
    hide Val, Escape;
    EmptyBody();
    checksum := 0;
    ghost var body := raw[..rawLen];
    for i := 0 to rawLen
      invariant checksum == Sum(body[..i]) % 256 && body == raw[..rawLen]
    {
      NextByte(body, i);
      checksum := (checksum + Val(raw[i])) % 256;
    }
    assert body[..rawLen] == body;
  }

  /** The two digits after the '#', the comparison, and the answer. */
  method CheckBody(conn: Conn, raw: array<byte>, rawLen: nat) returns (ok: bool)
    requires rawLen <= raw.Length
    modifies conn`incoming, conn`sent, conn`buffers
    ensures var r := Judge(raw[..rawLen], old(conn.incoming));
      && conn.incoming == r.rest && conn.sent == old(conn.sent) + Taken(r.answer, conn.takes(old(conn.buffers)))
      && (ok <==> r.answer == [PLUS]) && (!ok ==> r.payload == None) && (ok ==> r.payload == Unescape(raw[..rawLen]))
  {
    hide HexNibble, Unescape, Sum;
    var c;
    ghost var was := conn.incoming;
    ok, c := RecvByte(conn);
    if !ok {
      return;
    }
    assert was[0] == c && was[1..] == conn.incoming;
    if !IsHex(c) {
      return false;
    }
    var received := HexNibble(c);
    ok, c := RecvByte(conn);
    if !ok {
      return;
    }
    assert was[1] == c && was[2..] == conn.incoming;
    if !IsHex(c) {
      return false;
    }
    received := 16 * received + HexNibble(c);
    var checksum := SumBody(raw, rawLen);
    if checksum != received {
      var ignored := conn.SendAll([MINUS]);
      return false;
    }
    var ignored := conn.SendAll([PLUS]);
  }

  /** One packet in: acknowledged or refused by its checksum, then unescaped. */
  method RecvPacket(conn: Conn, out: array<byte>) returns (ok: bool, outLen: nat)
    requires out.Length == PACKET_MAX
    modifies conn`incoming, conn`sent, conn`buffers, out
    ensures var r := Receive(old(conn.incoming));
      && conn.incoming == r.rest && conn.sent == old(conn.sent) + Taken(r.answer, conn.takes(old(conn.buffers)))
      && (ok <==> r.payload.Some?) && outLen <= KEPT && (ok ==> out[..outLen] == r.payload.value)
  {
    hide Judge, Unescape, Find, Kept;
    outLen := 0;
    ok := SkipToDollar(conn);
    if !ok {
      return;
    }
    var raw := new byte[PACKET_MAX];
    var rawLen;
    ok, rawLen := ReadBody(conn, raw);
    if !ok {
      return;
    }
    ok := CheckBody(conn, raw, rawLen);
    if !ok {
      return;
    }
    ok, outLen := UnescapeInto(raw, rawLen, out);
  }
}
