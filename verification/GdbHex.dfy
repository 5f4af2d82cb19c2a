/** Hexadecimal text, as src/gdb_server.c reads and writes it. */
module GdbHex {
  import opened Words

  const COMMA: byte := 0x2c
  const COLON: byte := 0x3a

  /** The digit's value, or -1. */
  function HexNibble(c: byte): (n: int)
    ensures -1 <= n < 16
  {
    hide Val;
    var v := Val(c);
    if 48 <= v <= 57 then v - 48
    else if 97 <= v <= 102 then v - 97 + 10
    else if 65 <= v <= 70 then v - 65 + 10
    else -1
  }

  predicate IsHex(c: byte) { HexNibble(c) >= 0 }

  /** "0123456789abcdef"[n]. */
  function HexDigit(n: nat): (c: byte)
    requires n < 16
    ensures HexNibble(c) == n
  {
    hide Val, Byte;
    Byte(if n < 10 then 48 + n else 87 + n)
  }

  /** Two lower-case digits, most significant first. */
  function FormatByte(b: byte): (r: seq<byte>)
    ensures |r| == 2
  {
    hide Val, Byte;
    [HexDigit(Val(b) / 16), HexDigit(Val(b) % 16)]
  }

  function Hex(bs: seq<byte>): (r: seq<byte>)
    ensures |r| == 2 * |bs|
  {
    if bs == [] then [] else FormatByte(bs[0]) + Hex(bs[1..])
  }

  /** What the two digits at 2 * i stand for. */
  function ByteAt(text: seq<byte>, i: nat): byte
    requires 2 * i + 1 < |text| && IsHex(text[2 * i]) && IsHex(text[2 * i + 1])
  {
    Byte(16 * HexNibble(text[2 * i]) + HexNibble(text[2 * i + 1]))
  }

  lemma {:induction false} HexIsHex(bs: seq<byte>, i: nat)
    requires i < |bs|
    ensures IsHex(Hex(bs)[2 * i]) && IsHex(Hex(bs)[2 * i + 1]) && ByteAt(Hex(bs), i) == bs[i]
  {
    hide Val, Byte, HexNibble, HexDigit;
    if i == 0 {
      assert Val(bs[0]) == 16 * (Val(bs[0]) / 16) + Val(bs[0]) % 16;
      ValInjective(ByteAt(Hex(bs), 0), bs[0]);
    } else {
      HexIsHex(bs[1..], i - 1);
      assert Hex(bs)[2 * i] == Hex(bs[1..])[2 * (i - 1)] && Hex(bs)[2 * i + 1] == Hex(bs[1..])[2 * (i - 1) + 1];
    }
  }

  lemma HexAppend(a: seq<byte>, b: seq<byte>)
    ensures Hex(a + b) == Hex(a) + Hex(b)
  {
    hide FormatByte;
    if a == [] {
      assert a + b == b;
    } else {
      assert (a + b)[0] == a[0] && (a + b)[1..] == a[1..] + b;
      HexAppend(a[1..], b);
    }
  }

  // Reading.

  /** The text's byte at i; C strings end in a zero byte. */
  function At(text: seq<byte>, i: nat): byte {
    if i < |text| then text[i] else 0
  }

  /** How many hexadecimal digits there are from i on. */
  function Digits(text: seq<byte>, i: nat): (n: nat)
    requires i <= |text|
    ensures i + n <= |text|
    decreases |text| - i
  {
    if i < |text| && IsHex(text[i]) then 1 + Digits(text, i + 1) else 0
  }

  /** The number that digits i to j spell. */
  function Number(text: seq<byte>, i: nat, j: nat): nat
    requires i <= j <= |text| && forall k :: i <= k < j ==> IsHex(text[k])
    decreases j - i
  {
    if i == j then 0
    else
      assert IsHex(text[j - 1]);
      16 * Number(text, i, j - 1) + HexNibble(text[j - 1])
  }

  lemma DigitsAreHex(text: seq<byte>, i: nat)
    requires i <= |text|
    ensures forall k :: i <= k < i + Digits(text, i) ==> IsHex(text[k])
    ensures !IsHex(At(text, i + Digits(text, i)))
    decreases |text| - i
  {
    hide HexNibble;
    ZeroIsNoDigit();
    if i < |text| && IsHex(text[i]) {
      DigitsAreHex(text, i + 1);
    }
  }

  lemma ZeroIsNoDigit()
    ensures !IsHex(0)
  {}

  /** parse_hex_u32: the longest run of digits from i on, modulo 2^32. */
  method ParseU32(text: seq<byte>, i: nat) returns (ok: bool, end: nat, value: nat)
    requires i <= |text|
    ensures ok <==> Digits(text, i) > 0
    ensures end == i + Digits(text, i)
    ensures forall k :: i <= k < end ==> IsHex(text[k])
    ensures value == Number(text, i, end) % WORD_LIMIT
  {
    hide HexNibble, IsHex, Digits, Number;
    NumberOfNothing(text, i);
    ok, end, value := false, i, 0;
    while end < |text| && IsHex(text[end])
      invariant i <= end <= |text| && (ok <==> end > i) && Digits(text, i) == end - i + Digits(text, end)
      invariant forall k :: i <= k < end ==> IsHex(text[k])
      invariant value == Number(text, i, end) % WORD_LIMIT
      decreases |text| - end
    {
      NumberStep(text, i, end);
      WrapStep(Number(text, i, end), HexNibble(text[end]));
      value := (16 * value + HexNibble(text[end])) % WORD_LIMIT;
      ok := true;
      end := end + 1;
    }
    NoDigitsLeft(text, end);
  }

  lemma NumberOfNothing(text: seq<byte>, i: nat)
    requires i <= |text|
    ensures Number(text, i, i) == 0
  {}

  /** One more digit. */
  lemma NumberStep(text: seq<byte>, i: nat, end: nat)
    requires i <= end < |text| && IsHex(text[end]) && forall k :: i <= k < end ==> IsHex(text[k])
    ensures Digits(text, end) == 1 + Digits(text, end + 1)
    ensures 0 <= HexNibble(text[end]) && forall k :: i <= k < end + 1 ==> IsHex(text[k])
    ensures Number(text, i, end + 1) == 16 * Number(text, i, end) + HexNibble(text[end])
  {}

  lemma NoDigitsLeft(text: seq<byte>, end: nat)
    requires end <= |text| && (end == |text| || !IsHex(text[end]))
    ensures Digits(text, end) == 0
  {}

  /** Wrapping at every digit is wrapping once. */
  lemma WrapStep(n: nat, digit: nat)
    ensures (16 * (n % WORD_LIMIT) + digit) % WORD_LIMIT == (16 * n + digit) % WORD_LIMIT
  {
    var q := n / WORD_LIMIT;
    assert 16 * n + digit == WORD_LIMIT * (16 * q) + (16 * (n % WORD_LIMIT) + digit);
  }

  /** Reading hexadecimal pairs into a buffer: all of them, or nothing at the first that is not one. */
  method ParseBytes(text: seq<byte>, i: nat, out: array<byte>, count: nat) returns (ok: bool)
    requires i <= |text| && count <= out.Length
    modifies out
    ensures ok <==> i + 2 * count <= |text| && forall k :: i <= k < i + 2 * count ==> IsHex(text[k])
    ensures ok ==> forall k :: 0 <= k < count ==> out[k] == ByteAt(text[i..], k)
  {
    hide HexNibble, Byte;
    ZeroIsNoDigit();
    var k := 0;
    while k < count
      invariant k <= count && i + 2 * k <= |text|
      invariant forall j :: i <= j < i + 2 * k ==> IsHex(text[j])
      invariant forall j :: 0 <= j < k ==> out[j] == ByteAt(text[i..], j)
    {
      var high, low := At(text, i + 2 * k), At(text, i + 2 * k + 1);
      if !IsHex(high) || !IsHex(low) {
        return false;
      }
      assert text[i..][2 * k] == high && text[i..][2 * k + 1] == low;
      out[k] := Byte(16 * HexNibble(high) + HexNibble(low));
      k := k + 1;
    }
    ok := true;
  }

  /** gdb_decode_hex_string: a whole string of pairs, if it fits with its terminator. */
  method DecodeHexString(hex: seq<byte>, out: array<byte>) returns (ok: bool)
    modifies out
    ensures ok <==> Decodes(hex, out.Length)
    ensures ok ==> out[..|hex| / 2] == Decoded(hex) && out[|hex| / 2] == 0
  {
    hide HexNibble, Byte;
    if |hex| % 2 != 0 || out.Length == 0 {
      return false;
    }
    if |hex| / 2 >= out.Length {
      return false;
    }
    var i := 0;
    while i < |hex|
      invariant i <= |hex| && i % 2 == 0
      invariant forall k :: 0 <= k < i ==> IsHex(hex[k])
      invariant forall k :: 0 <= k < i / 2 ==> out[k] == ByteAt(hex, k)
    {
      if !IsHex(hex[i]) || !IsHex(hex[i + 1]) {
        return false;
      }
      assert hex[2 * (i / 2)] == hex[i];
      out[i / 2] := Byte(16 * HexNibble(hex[i]) + HexNibble(hex[i + 1]));
      i := i + 2;
    }
    out[|hex| / 2] := 0;
    ok := true;
  }

  predicate Decodes(hex: seq<byte>, room: nat) {
    |hex| % 2 == 0 && |hex| / 2 < room && forall k :: 0 <= k < |hex| ==> IsHex(hex[k])
  }

  function Decoded(hex: seq<byte>): (r: seq<byte>)
    requires |hex| % 2 == 0 && forall k :: 0 <= k < |hex| ==> IsHex(hex[k])
    ensures |r| == |hex| / 2
  {
    seq(|hex| / 2, i requires 0 <= i < |hex| / 2 => ByteAt(hex, i))
  }

  /** Decoding inverts formatting, on every string that fits. */
  lemma DecodeInvertsFormat(bs: seq<byte>, room: nat)
    ensures |bs| < room <==> Decodes(Hex(bs), room)
    ensures |bs| < room ==> Decoded(Hex(bs)) == bs
  {
    AllHex(bs);
    hide Hex, IsHex, ByteAt;
    forall i | 0 <= i < |bs| ensures Decoded(Hex(bs))[i] == bs[i] {
      HexIsHex(bs, i);
    }
  }

  lemma AllHex(bs: seq<byte>)
    ensures forall k :: 0 <= k < |Hex(bs)| ==> IsHex(Hex(bs)[k])
  {
    hide Hex, IsHex, ByteAt;
    forall k | 0 <= k < |Hex(bs)| ensures IsHex(Hex(bs)[k]) {
      HexIsHex(bs, k / 2);
    }
  }

  // Numbers in a packet, as a client writes them.

  function NumberText(n: nat): (r: seq<byte>)
    ensures |r| > 0
  {
    if n < 16 then [HexDigit(n)] else NumberText(n / 16) + [HexDigit(n % 16)]
  }

  lemma {:induction false} NumberTextSpells(n: nat, before: seq<byte>, after: seq<byte>)
    ensures var text, i := before + NumberText(n) + after, |before|;
      && (forall k :: i <= k < i + |NumberText(n)| ==> IsHex(text[k]))
      && Number(text, i, i + |NumberText(n)|) == n
    decreases n
  {
    hide HexNibble, HexDigit;
    var text, i, j := before + NumberText(n) + after, |before|, |before| + |NumberText(n)|;
    assert text[j - 1] == HexDigit(n % 16);
    if n >= 16 {
      NumberTextSpells(n / 16, before, [HexDigit(n % 16)] + after);
      assert text == before + NumberText(n / 16) + ([HexDigit(n % 16)] + after);
      assert forall k :: i <= k < j - 1 ==> IsHex(text[k]);
      assert Number(text, i, j) == 16 * Number(text, i, j - 1) + HexNibble(text[j - 1]);
    } else {
      assert Number(text, i, i) == 0;
    }
  }

  lemma {:induction false} DigitsOfRun(text: seq<byte>, i: nat, j: nat)
    requires i <= j <= |text| && (forall k :: i <= k < j ==> IsHex(text[k])) && !IsHex(At(text, j))
    ensures Digits(text, i) == j - i
    decreases j - i
  {
    hide HexNibble;
    if i < j {
      assert IsHex(text[i]);
      DigitsOfRun(text, i + 1, j);
    }
  }

  /** A number written into a packet and followed by something else is read back. */
  lemma NumberReadsBack(before: seq<byte>, n: nat, after: seq<byte>)
    requires !IsHex(At(after, 0))
    ensures var text, i := before + NumberText(n) + after, |before|; var j := i + |NumberText(n)|;
      && Digits(text, i) == |NumberText(n)| && (forall k :: i <= k < j ==> IsHex(text[k]))
      && Number(text, i, j) == n && At(text, j) == At(after, 0)
  {
    hide IsHex;
    var text := before + NumberText(n) + after;
    NumberTextSpells(n, before, after);
    assert At(text, |before| + |NumberText(n)|) == At(after, 0);
    DigitsOfRun(text, |before|, |before| + |NumberText(n)|);
  }
}
