/** The memory packets of the GDB server (gdb_handle_m and gdb_handle_M in src/gdb_server.c). */
module GdbMemory {
  import opened Words
  import opened Chips
  import opened Linke
  import opened DmHost
  import opened BlockRead
  import opened FlashPages
  import opened GdbHex
  import opened GdbPacket
  import T = Target

  const MEMORY_MAX := 1024

  const E01: seq<byte> := [0x45, 0x30, 0x31]
  const OK: seq<byte> := [0x4f, 0x4b]

  /** Address and length of a memory packet, and where the text goes on. */
  datatype Request = Request(address: nat, length: nat, next: nat)

  function RequestOf(payload: seq<byte>): (r: Option<Request>)
    requires |payload| > 0
    ensures r.Some? ==> r.value.next <= |payload| && r.value.address < WORD_LIMIT && r.value.length < WORD_LIMIT
  {
    hide IsHex;
    DigitsAreHex(payload, 1);
    var i := 1 + Digits(payload, 1);
    if i == 1 || At(payload, i) != COMMA then None
    else
      DigitsAreHex(payload, i + 1);
      var j := i + 1 + Digits(payload, i + 1);
      if j == i + 1 then None
      else Some(Request(Number(payload, 1, i) % WORD_LIMIT, Number(payload, i + 1, j) % WORD_LIMIT, j))
  }

  method ParseRequest(payload: seq<byte>) returns (r: Option<Request>)
    requires |payload| > 0
    ensures r == RequestOf(payload)
  {
    hide IsHex;
    var ok, end, address := ParseU32(payload, 1);
    if !ok || At(payload, end) != COMMA {
      return None;
    }
    var length;
    ok, end, length := ParseU32(payload, end + 1);
    if !ok {
      return None;
    }
    r := Some(Request(address, length, end));
  }

  /** A request the server will carry out. */
  predicate Readable(payload: seq<byte>)
    requires |payload| > 0
  {
    RequestOf(payload).Some? && RequestOf(payload).value.length <= MEMORY_MAX
  }

  /** Two lower-case digits a byte. */
  method FormatBytes(buffer: array<byte>, length: nat) returns (text: seq<byte>)
    requires length <= buffer.Length
    ensures text == Hex(buffer[..length])
  {
    hide FormatByte;
    text := [];
    for i := 0 to length
      invariant text == Hex(buffer[..i])
    {
      assert buffer[..i + 1] == buffer[..i] + [buffer[i]];
      HexAppend(buffer[..i], [buffer[i]]);
      assert Hex([buffer[i]]) == FormatByte(buffer[i]) + Hex([]);
      text := text + FormatByte(buffer[i]);
    }
  }

  /** 'm': the bytes of the range, or an error; `room` says whether there is memory for the reply. */
  method HandleRead(conn: Conn, link: Link, payload: seq<byte>, room: bool) returns (ghost reply: seq<byte>)
    requires Usable(link) && |payload| > 0
    modifies conn, link.wire, link.wire.sim, link.programs
    ensures Usable(link) && OnlyScratch(old(link.State()), link.State())
    ensures var t, t' := old(link.State().target), link.State().target;
      && t' == t.(bus := t'.bus, busy := t'.busy) && t'.busy <= t.busy
      && (Readable(payload) && Plain(RequestOf(payload).value.address, RequestOf(payload).value.length) ==>
            t'.busy == t.busy)
    ensures conn.packets == old(conn.packets) + [reply]
    ensures !Readable(payload) ==> reply == E01 && link.State() == old(link.State())
    ensures Readable(payload) ==>
      var t, a, n := old(link.State().target), RequestOf(payload).value.address, RequestOf(payload).value.length;
      && (reply == E01 || |reply| == 2 * n)
      && (link.wire.Clean() && Prompt(old(link.State().dm)) && room ==> |reply| == 2 * n)
      && (!room ==> reply == E01)
      && (Steady(t, a, n) && |reply| == 2 * n ==> reply == Hex(Peek(t, a, n)))
    ensures link.wire.Clean() ==> old(link.wire.Clean())
  {
    hide Frame, Copies, Acknowledge, RequestOf, Prompt, Peek, Hex, ProgramsBuilt, OnlyScratch, WordAligned;
    ScratchRefl(link.State());
    reply := E01;
    var request := ParseRequest(payload);
    if request == None {
      SendPacket(conn, E01);
      return;
    }
    var length := request.value.length;
    var buffer := new byte[MEMORY_MAX];
    if length > buffer.Length {
      SendPacket(conn, E01);
      return;
    }
    ghost var t := link.State().target;
    var ok, text := ReadText(link, request.value.address, buffer, length);
    if ok && !room {
      text := E01;
    }
    SendPacket(conn, text);
    reply := text;
  }

  /** The bytes of the range as text, or the error. */
  method ReadText(link: Link, address: nat, buffer: array<byte>, length: nat) returns (ok: bool, text: seq<byte>)
    requires Usable(link) && address < WORD_LIMIT && length <= buffer.Length
    modifies link.wire, link.wire.sim, link.programs, buffer
    ensures Usable(link) && OnlyScratch(old(link.State()), link.State())
    ensures OnlyLoads(old(link.State().target), link.State().target, address, length)
    ensures if ok then |text| == 2 * length else text == E01
    ensures ok && Steady(old(link.State().target), address, length) ==>
      text == Hex(Peek(old(link.State().target), address, length))
    ensures link.wire.Clean() ==> old(link.wire.Clean())
    ensures link.wire.Clean() && Prompt(old(link.State().dm)) ==> ok
  {
    hide Prompt, Peek, Hex, ProgramsBuilt, OnlyScratch, OnlyLoads, Steady;
    var status := ReadBlock(link, address, buffer, length);
    if status != Ok {
      return false, E01;
    }
    text := FormatBytes(buffer, length);
    ok := true;
  }

  // Writing.

  /** The target after the first k bytes have been stored one by one. */
  ghost function Stored(t: T.Target, address: nat, bytes: seq<byte>, k: nat): (r: T.Target)
    requires t.Valid() && k <= |bytes|
    ensures r.Valid()
    decreases k
  {
    if k == 0 then t
    else T.AccessStore(Stored(t, address, bytes, k - 1), (address + k - 1) % WORD_LIMIT, 0, bytes[k - 1] as word)
  }

  predicate AllPairs(text: seq<byte>, i: nat, count: nat) {
    i + 2 * count <= |text| && forall k :: i <= k < i + 2 * count ==> IsHex(text[k])
  }

  /** The bytes spelled by the first count pairs of the text. */
  function Pairs(text: seq<byte>, count: nat): (r: seq<byte>)
    requires AllPairs(text, 0, count)
    ensures |r| == count
  {
    seq(count, k requires 0 <= k < count => ByteAt(text, k))
  }

  /** A write packet the server will carry out. */
  predicate Storable(payload: seq<byte>)
    requires |payload| > 0
  {
    Readable(payload) && var r := RequestOf(payload).value;
    At(payload, r.next) == COLON && AllPairs(payload[r.next + 1..], 0, r.length)
  }

  function Contents(payload: seq<byte>): (r: seq<byte>)
    requires |payload| > 0 && Storable(payload)
    ensures |r| == RequestOf(payload).value.length
  {
    var r := RequestOf(payload).value;
    Pairs(payload[r.next + 1..], r.length)
  }

  /** 'M': byte stores, in order, up to the first that fails. */
  method HandleWrite(conn: Conn, link: Link, payload: seq<byte>) returns (ghost reply: seq<byte>)
    requires Usable(link) && |payload| > 0
    modifies conn, link.wire, link.wire.sim, link.programs
    ensures Usable(link) && OnlyScratch(old(link.State()), link.State())
    ensures conn.packets == old(conn.packets) + [reply]
    ensures !Storable(payload) ==> reply == E01 && link.State() == old(link.State())
    ensures Storable(payload) ==>
      var t, a, bytes := old(link.State().target), RequestOf(payload).value.address, Contents(payload);
      && (reply == OK ==> link.State().target == Stored(t, a, bytes, |bytes|))
      && (exists k: nat :: k <= |bytes| && link.State().target == Stored(t, a, bytes, k))
      && (link.wire.Clean() && Prompt(old(link.State().dm)) ==> reply == OK)
    ensures reply == OK || reply == E01
    ensures link.wire.Clean() ==> old(link.wire.Clean())
  {
    hide Frame, Copies, Acknowledge, RequestOf, Prompt, ProgramsBuilt, OnlyScratch, Stored, T.AccessStore, Word,
      ByteAt, IsHex;
    ScratchRefl(link.State());
    reply := E01;
    var request := ParseRequest(payload);
    if request == None || At(payload, request.value.next) != COLON {
      SendPacket(conn, E01);
      return;
    }
    var length := request.value.length;
    var buffer := new byte[MEMORY_MAX];
    if length > buffer.Length {
      SendPacket(conn, E01);
      return;
    }
    var ok := ParseBytes(payload[request.value.next + 1..], 0, buffer, length);
    if !ok {
      SendPacket(conn, E01);
      return;
    }
    assert payload[request.value.next + 1..][0..] == payload[request.value.next + 1..];
    ghost var bytes := Contents(payload);
    assert buffer[..length] == bytes;
    ghost var k;
    ok, k := StoreBytes(link, request.value.address, buffer, length);
    if !ok {
      SendPacket(conn, E01);
      return;
    }
    reply := OK;
    SendPacket(conn, OK);
  }

  method StoreBytes(link: Link, address: nat, buffer: array<byte>, length: nat) returns (ok: bool, ghost k: nat)
    requires Usable(link) && length <= buffer.Length
    modifies link.wire, link.wire.sim, link.programs
    ensures Usable(link) && OnlyScratch(old(link.State()), link.State())
    ensures var t, bytes := old(link.State().target), buffer[..length];
      k <= length && (ok ==> k == length) && link.State().target == Stored(t, address, bytes, k)
    ensures link.wire.Clean() && Prompt(old(link.State().dm)) ==> ok
    ensures link.wire.Clean() ==> old(link.wire.Clean())
  {
    hide Prompt, ProgramsBuilt, OnlyScratch, T.AccessStore, Word, Stored;
    ghost var s, bytes := link.State(), buffer[..length];
    ScratchRefl(s);
    StoredNone(s.target, address, bytes);
    var i := 0;
    while i < length
      invariant i <= length && Usable(link) && OnlyScratch(s, link.State())
      invariant link.State().target == Stored(s.target, address, bytes, i)
      invariant link.wire.Clean() == old(link.wire.Clean())
    {
      ghost var mid := link.State();
      ScratchLag(s, mid);
      SamePrompt(s.dm, mid.dm);
      StoredOneMore(s.target, address, bytes, i);
      var status := WriteSized(link, 0, (address + i) % WORD_LIMIT, buffer[i] as word);
      ScratchTrans(s, mid, link.State());
      if status != Ok {
        ok := false;
        k := if link.State().target == mid.target then i else i + 1;
        return;
      }
      i := i + 1;
    }
    ok, k := true, i;
  }

  lemma StoredNone(t: T.Target, address: nat, bytes: seq<byte>)
    requires t.Valid()
    ensures Stored(t, address, bytes, 0) == t
  {}

  lemma StoredOneMore(t: T.Target, address: nat, bytes: seq<byte>, i: nat)
    requires t.Valid() && i < |bytes|
    ensures Stored(t, address, bytes, i + 1) ==
      T.AccessStore(Stored(t, address, bytes, i), (address + i) % WORD_LIMIT, 0, bytes[i] as word)
  {}

  // What a write packet puts into RAM, a read packet takes out again.

  /** A range of RAM, which is neither flash nor the flash controller. */
  ghost predicate RamRange(t: T.Target, address: nat, length: nat) {
    && 0x900_0000 <= t.ramBase && t.ramBase + |t.ram| <= 0x4002_2000
    && t.ramBase <= address && address + length <= t.ramBase + |t.ram|
  }

  lemma StoreByteInRam(t: T.Target, address: nat, b: byte)
    requires t.Valid() && RamRange(t, address, 1)
    ensures T.AccessStore(t, address, 0, b as word) ==
      t.(ram := t.ram[address - t.ramBase := b], bus := t.bus + [T.Put(address, 0, b as word)])
  {}

  /** The target with bytes written over its RAM, and some history of accesses. */
  ghost predicate RamOverlaid(t: T.Target, t': T.Target, address: nat, bytes: seq<byte>)
    requires RamRange(t, address, |bytes|)
  {
    t' == t.(ram := Overlay(t.ram, address - t.ramBase, bytes), bus := t'.bus)
  }

  lemma OneMoreInRam(t: T.Target, t1: T.Target, address: nat, bytes: seq<byte>, k: nat)
    requires t.Valid() && RamRange(t, address, |bytes|) && 0 < k <= |bytes|
    requires RamOverlaid(t, t1, address, bytes[..k - 1])
    ensures t1.Valid()
    ensures RamOverlaid(t, T.AccessStore(t1, address + k - 1, 0, bytes[k - 1] as word), address, bytes[..k])
  {
    hide T.AccessStore, Overlay;
    OverlayGrows(t.ram, address - t.ramBase, bytes, k);
    StoreByteInRam(t1, address + k - 1, bytes[k - 1]);
  }

  lemma {:induction false} StoredInRam(t: T.Target, address: nat, bytes: seq<byte>, k: nat)
    requires t.Valid() && RamRange(t, address, |bytes|) && k <= |bytes|
    ensures RamOverlaid(t, Stored(t, address, bytes, k), address, bytes[..k])
    decreases k
  {
    hide T.AccessStore, Overlay, Stored;
    StoredNone(t, address, bytes);
    if k > 0 {
      StoredOneMore(t, address, bytes, k - 1);
      StoredInRam(t, address, bytes, k - 1);
      OneMoreInRam(t, Stored(t, address, bytes, k - 1), address, bytes, k);
    } else {
      OverlayGrows(t.ram, address - t.ramBase, bytes, 0);
    }
  }

  /** An overlay, byte by byte. */
  lemma OverlayGrows(m: seq<byte>, offset: nat, bytes: seq<byte>, k: nat)
    requires offset + |bytes| <= |m| && k <= |bytes|
    ensures Overlay(m, offset, bytes[..0]) == m
    ensures k > 0 ==>
      Overlay(m, offset, bytes[..k]) == Overlay(m, offset, bytes[..k - 1])[offset + k - 1 := bytes[k - 1]]
  {
    assert k > 0 ==> bytes[..k] == bytes[..k - 1] + [bytes[k - 1]];
  }

  lemma PeekRam(t: T.Target, ram: seq<byte>, address: nat, bytes: seq<byte>)
    requires RamRange(t, address, |bytes|) && |ram| == |t.ram|
    requires t.ram == Overlay(ram, address - t.ramBase, bytes)
    ensures Peek(t, address, |bytes|) == bytes && Plain(address, |bytes|)
  {
    forall i | 0 <= i < |bytes| ensures Peek(t, address, |bytes|)[i] == bytes[i] {
      assert Wrap(address + i) == address + i && PeekByte(t, address + i) == t.ram[address + i - t.ramBase];
    }
  }

  // The packets, as a client writes them.

  function RangeText(letter: byte, address: nat, length: nat): (r: seq<byte>)
    ensures |r| > 0
  {
    [letter] + NumberText(address) + ([COMMA] + NumberText(length))
  }

  function ReadPacket(address: nat, length: nat): (r: seq<byte>)
    ensures |r| > 0
  {
    RangeText(0x6d, address, length)
  }

  function WritePacket(address: nat, bytes: seq<byte>): (r: seq<byte>)
    ensures |r| > 0
  {
    RangeText(0x4d, address, |bytes|) + ([COLON] + Hex(bytes))
  }

  lemma RequestIs(p: seq<byte>, i: nat, j: nat, address: nat, length: nat)
    requires 1 < i && i + 1 < j <= |p| && At(p, i) == COMMA
    requires i == 1 + Digits(p, 1) && j == i + 1 + Digits(p, i + 1)
    requires (forall k :: 1 <= k < i ==> IsHex(p[k])) && (forall k :: i + 1 <= k < j ==> IsHex(p[k]))
    requires Number(p, 1, i) == address < WORD_LIMIT && Number(p, i + 1, j) == length < WORD_LIMIT
    ensures RequestOf(p) == Some(Request(address, length, j))
  {
    hide IsHex, Digits, Number;
  }

  lemma RangeReadsBack(letter: byte, address: nat, length: nat, after: seq<byte>)
    requires address < WORD_LIMIT && length < WORD_LIMIT && !IsHex(At(after, 0))
    ensures var text := RangeText(letter, address, length);
      RequestOf(text + after) == Some(Request(address, length, |text|))
  {
    PunctuationIsNotHex();
    hide IsHex, NumberText, RequestOf, Digits, Number;
    var text := RangeText(letter, address, length) + after;
    var tail := [COMMA] + NumberText(length) + after;
    assert text == [letter] + NumberText(address) + tail;
    NumberReadsBack([letter], address, tail);
    var head := [letter] + NumberText(address) + [COMMA];
    assert text == head + NumberText(length) + after;
    NumberReadsBack(head, length, after);
    RequestIs(text, |head| - 1, |head| + |NumberText(length)|, address, length);
  }

  lemma PunctuationIsNotHex()
    ensures !IsHex(COMMA) && !IsHex(COLON) && !IsHex(0)
  {}

  lemma WritePacketSays(address: nat, bytes: seq<byte>)
    requires address < WORD_LIMIT && |bytes| <= MEMORY_MAX
    ensures var p := WritePacket(address, bytes);
      Storable(p) && RequestOf(p).value.address == address && Contents(p) == bytes
  {
    PunctuationIsNotHex();
    AllHex(bytes);
    hide IsHex, RequestOf, ByteAt, Hex, RangeText;
    RangeReadsBack(0x4d, address, |bytes|, [COLON] + Hex(bytes));
    var p, next := WritePacket(address, bytes), |RangeText(0x4d, address, |bytes|)|;
    assert p[next + 1..] == Hex(bytes);
    forall i | 0 <= i < |bytes| ensures ByteAt(Hex(bytes), i) == bytes[i] {
      HexIsHex(bytes, i);
    }
    assert Contents(p) == bytes;
  }

  lemma ReadPacketSays(address: nat, length: nat)
    requires address < WORD_LIMIT && length <= MEMORY_MAX
    ensures var p := ReadPacket(address, length);
      Readable(p) && RequestOf(p).value.address == address && RequestOf(p).value.length == length
  {
    PunctuationIsNotHex();
    hide IsHex, RequestOf, RangeText;
    RangeReadsBack(0x6d, address, length, []);
    assert ReadPacket(address, length) + [] == ReadPacket(address, length);
  }

  /** An M packet and then an m packet on the same RAM range: the same bytes come back. */
  method WriteThenRead(conn: Conn, link: Link, address: nat, bytes: seq<byte>)
    requires Usable(link) && WordAligned(link.State().target) && RamRange(link.State().target, address, |bytes|)
    requires |bytes| <= MEMORY_MAX && link.wire.Reliable() && Prompt(link.State().dm)
    modifies conn, link.wire, link.wire.sim, link.programs
    ensures conn.packets == old(conn.packets) + [OK, Hex(bytes)]
    ensures var t, t' := old(link.State().target), link.State().target;
      t' == t.(ram := Overlay(t.ram, address - t.ramBase, bytes), bus := t'.bus)
  {
    hide Readable, Storable, Contents, RequestOf, Prompt, OnlyScratch, ProgramsBuilt, Stored, Peek, Overlay, Hex,
      WritePacket, ReadPacket;
    ghost var s := link.State();
    WritePacketSays(address, bytes);
    ReadPacketSays(address, |bytes|);
    ghost var reply := HandleWrite(conn, link, WritePacket(address, bytes));
    link.wire.ReliableIsClean();
    ghost var mid := link.State();
    StoredInRam(s.target, address, bytes, |bytes|);
    assert bytes[..|bytes|] == bytes;
    ScratchLag(s, mid);
    SamePrompt(s.dm, mid.dm);
    PeekRam(mid.target, s.target.ram, address, bytes);
    ghost var memory := HandleRead(conn, link, ReadPacket(address, |bytes|), true);
    link.wire.ReliableIsClean();
    assert memory == Hex(bytes);
  }
}
