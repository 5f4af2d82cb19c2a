/** Long replies of the GDB server (src/gdb_server.c): console output and qXfer pieces. */
module GdbReplies {
  import opened Words
  import opened GdbHex
  import opened GdbPacket

  const LETTER_O: byte := 0x4f
  const LETTER_L: byte := 0x6c
  const LETTER_M: byte := 0x6d

  // Console output.

  /** Two digits a byte, after the 'O'. */
  const CHUNK := (PACKET_MAX - 1) / 2

  function OutputPayload(piece: seq<byte>): seq<byte> {
    [LETTER_O] + Hex(piece)
  }

  /** A payload that carries console output. */
  predicate IsOutput(payload: seq<byte>) {
    |payload| <= PACKET_MAX - 1 && |payload| % 2 == 1 && payload[0] == LETTER_O &&
    forall k :: 1 <= k < |payload| ==> IsHex(payload[k])
  }

  /** What a client prints for a list of output payloads. */
  function Printed(payloads: seq<seq<byte>>): seq<byte>
    requires forall i :: 0 <= i < |payloads| ==> IsOutput(payloads[i])
  {
    if payloads == [] then []
    else
      var last := payloads[|payloads| - 1];
      assert IsOutput(last);
      Printed(payloads[..|payloads| - 1]) + Decoded(last[1..])
  }

  lemma HexIsOutput(hex: seq<byte>)
    requires |hex| % 2 == 0 && |hex| <= PACKET_MAX - 2 && forall k :: 0 <= k < |hex| ==> IsHex(hex[k])
    ensures IsOutput([LETTER_O] + hex) && ([LETTER_O] + hex)[1..] == hex
  {
    hide IsHex;
    var payload := [LETTER_O] + hex;
    forall k | 1 <= k < |payload| ensures IsHex(payload[k]) {
      assert payload[k] == hex[k - 1];
    }
  }

  lemma OutputDecodes(piece: seq<byte>)
    requires |piece| <= CHUNK
    ensures IsOutput(OutputPayload(piece)) && Decoded(OutputPayload(piece)[1..]) == piece
  {
    AllHex(piece);
    DecodeInvertsFormat(piece, |piece| + 1);
    HexIsOutput(Hex(piece));
    hide Hex, IsHex, Decoded, IsOutput;
  }

  /**
   gdb_send_output: any text is sent whole and in order, in packets that fit; to a
   client that acknowledges each of them, as one frame each.
   */
  method SendOutput(conn: Conn, text: seq<byte>) returns (ghost payloads: seq<seq<byte>>)
    modifies conn
    ensures conn.packets == old(conn.packets) + payloads
    ensures forall i :: 0 <= i < |payloads| ==> IsOutput(payloads[i])
    ensures Printed(payloads) == text
    ensures Smooth(old(conn.incoming), conn.takes) && |payloads| <= |old(conn.incoming)| ==>
      conn.sent == old(conn.sent) + Frames(payloads) && conn.quit == old(conn.quit)
  {
    hide IsOutput, Decoded, Acknowledge, AllTaken, Copies, Frame, Frames, Hex, Smooth, Taken;
    payloads := [];
    NoFrames();
    var offset := 0;
    while offset < |text|
      invariant offset <= |text| && conn.packets == old(conn.packets) + payloads
      invariant forall i :: 0 <= i < |payloads| ==> IsOutput(payloads[i])
      invariant Printed(payloads) == text[..offset]
      invariant Smooth(old(conn.incoming), conn.takes) && |payloads| <= |old(conn.incoming)| ==>
        && Smooth(conn.incoming, conn.takes) && |conn.incoming| == |old(conn.incoming)| - |payloads|
        && conn.sent == old(conn.sent) + Frames(payloads) && conn.quit == old(conn.quit)
    {
      var count := |text| - offset;
      if count > CHUNK {
        count := CHUNK;
      }
      var piece := text[offset..offset + count];
      OutputDecodes(piece);
      if Smooth(conn.incoming, conn.takes) && conn.incoming != [] {
        SmoothPacket(conn.incoming, conn.takes, conn.buffers, OutputPayload(piece));
      }
      SendPacket(conn, OutputPayload(piece));
      FramesAppend(payloads, OutputPayload(piece));
      PrintedMore(payloads, OutputPayload(piece));
      assert text[..offset + count] == text[..offset] + piece;
      payloads := payloads + [OutputPayload(piece)];
      offset := offset + count;
    }
    assert text[..offset] == text;
  }

  lemma NoFrames()
    ensures Frames([]) == []
  {}

  lemma PrintedMore(payloads: seq<seq<byte>>, payload: seq<byte>)
    requires (forall i :: 0 <= i < |payloads| ==> IsOutput(payloads[i])) && IsOutput(payload)
    ensures forall i :: 0 <= i < |payloads + [payload]| ==> IsOutput((payloads + [payload])[i])
    ensures Printed(payloads + [payload]) == Printed(payloads) + Decoded(payload[1..])
  {}

  // Documents.

  /** The piece of a document that a request is answered with. */
  function QxferPayload(data: seq<byte>, offset: nat, requested: nat): (r: seq<byte>)
    ensures 1 <= |r| <= PACKET_MAX
  {
    var room := if requested > PACKET_MAX - 1 then PACKET_MAX - 1 else requested;
    var count := if |data| - offset > room then room else |data| - offset;
    if offset >= |data| || count == 0 then [LETTER_L]
    else [if offset + count >= |data| then LETTER_L else LETTER_M] + data[offset..offset + count]
  }

  method QxferReply(conn: Conn, data: seq<byte>, offset: nat, requested: nat)
    modifies conn
    ensures conn.packets == old(conn.packets) + [QxferPayload(data, offset, requested)]
  {
    hide Frame, Copies, Acknowledge;
    if offset >= |data| {
      SendPacket(conn, [LETTER_L]);
      return;
    }
    var room := requested;
    if room > PACKET_MAX - 1 {
      room := PACKET_MAX - 1;
    }
    var count := |data| - offset;
    if count > room {
      count := room;
    }
    if count == 0 {
      SendPacket(conn, [LETTER_L]);
      return;
    }
    SendPacket(conn, [if offset + count >= |data| then LETTER_L else LETTER_M] + data[offset..offset + count]);
  }

  /**
   What a client holds that asks until it is told that it has everything: request
   number n asks for ask(n) bytes, from where the last reply ended.
   */
  function Collected(data: seq<byte>, offset: nat, ask: nat -> nat, n: nat): seq<byte>
    requires forall k: nat :: ask(k) > 0
    requires offset <= |data|
    decreases |data| - offset
  {
    var reply := QxferPayload(data, offset, ask(n));
    assert ask(n) > 0;
    if reply[0] == LETTER_L then reply[1..] else reply[1..] + Collected(data, offset + |reply| - 1, ask, n + 1)
  }

  /** The replies make up the rest of the document, whatever sizes are asked for. */
  lemma {:induction false} CollectedIsDocument(data: seq<byte>, offset: nat, ask: nat -> nat, n: nat)
    requires (forall k: nat :: ask(k) > 0) && offset <= |data|
    ensures Collected(data, offset, ask, n) == data[offset..]
    decreases |data| - offset
  {
    var reply := QxferPayload(data, offset, ask(n));
    assert ask(n) > 0;
    if reply[0] != LETTER_L {
      CollectedIsDocument(data, offset + |reply| - 1, ask, n + 1);
      assert reply[1..] == data[offset..offset + |reply| - 1];
    }
  }

  /** A reply is marked final exactly when it ends the document. */
  lemma FinalIsMarked(data: seq<byte>, offset: nat, requested: nat)
    requires offset <= |data| && requested > 0
    ensures var r := QxferPayload(data, offset, requested);
      && (r[0] == LETTER_L <==> offset + (|r| - 1) == |data|)
      && (r[0] == LETTER_M <==> offset + (|r| - 1) < |data|)
      && r[1..] == data[offset..offset + (|r| - 1)]
  {}

  /** The whole document, from the first request on. */
  lemma DocumentReassembles(data: seq<byte>, ask: nat -> nat)
    requires forall k: nat :: ask(k) > 0
    ensures Collected(data, 0, ask, 0) == data
  {
    CollectedIsDocument(data, 0, ask, 0);
    assert data[0..] == data;
  }
}
