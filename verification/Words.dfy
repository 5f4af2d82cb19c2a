/**
 Machine words and bytes, and the bridge between a 32-bit word and the number it
 stands for.

 Register contents are bit vectors, so that masks and shifts mean what they mean
 in C.  Addresses and lengths are numbers, so that loops over memory are ordinary
 arithmetic.  The two meet only where a word is used as an address.
 */
module Words {
  type byte = bv8
  type word = bv32

  datatype Option<T> = None | Some(value: T)

  const WORD_LIMIT := 0x1_0000_0000

  /** uint32_t arithmetic on addresses. */
  function Wrap(n: nat): (r: nat)
    ensures r < WORD_LIMIT && (n < WORD_LIMIT ==> r == n)
  {
    n % WORD_LIMIT
  }

  // The C idioms for flag registers: `v | mask`, `v & ~mask`, `(v & mask) != 0`.

  function Or(v: word, mask: word): word { v | mask }
  function AndNot(v: word, mask: word): word { v & !mask }
  predicate Has(v: word, mask: word) { v & mask != 0 }

  function B0(v: word): byte { (v & 0xff) as byte }
  function B1(v: word): byte { ((v >> 8) & 0xff) as byte }
  function B2(v: word): byte { ((v >> 16) & 0xff) as byte }
  function B3(v: word): byte { ((v >> 24) & 0xff) as byte }

  /** The word whose bytes, least significant first, are b0 to b3. */
  function Join(b0: byte, b1: byte, b2: byte, b3: byte): word {
    (b0 as word) | ((b1 as word) << 8) | ((b2 as word) << 16) | ((b3 as word) << 24)
  }

  lemma JoinSplit(v: word)
    ensures Join(B0(v), B1(v), B2(v), B3(v)) == v
  {}

  lemma SplitJoin(b0: byte, b1: byte, b2: byte, b3: byte)
    ensures B0(Join(b0, b1, b2, b3)) == b0
    ensures B1(Join(b0, b1, b2, b3)) == b1
    ensures B2(Join(b0, b1, b2, b3)) == b2
    ensures B3(Join(b0, b1, b2, b3)) == b3
  {}

  /** The number a byte stands for. */
  function Val(b: byte): (n: nat)
    ensures n < 0x100
  {
    b as nat
  }

  /** One more low bit. */
  function Shifted(b: byte, bit: bool): byte {
    (b << 1) | (if bit then 1 else 0)
  }

  lemma ShiftedVal(b: byte, bit: bool)
    requires Val(b) < 0x80
    ensures Val(Shifted(b, bit)) == 2 * Val(b) + if bit then 1 else 0
  {}

  function Byte(n: nat): (b: byte)
    requires n < 0x100
    ensures Val(b) == n
  {
    hide Val, Shifted;
    if n == 0 then NothingVal(); 0
    else
      ShiftedVal(Byte(n / 2), n % 2 == 1);
      Shifted(Byte(n / 2), n % 2 == 1)
  }

  lemma NothingVal()
    ensures Val(0) == 0
  {}

  lemma ValInjective(b: byte, c: byte)
    requires Val(b) == Val(c)
    ensures b == c
  {}

  /** The number a word stands for. */
  function Nat(v: word): (n: nat)
    ensures n < WORD_LIMIT
  {
    hide Val, B0, B1, B2, B3;
    Val(B0(v)) + 0x100 * Val(B1(v)) + 0x1_0000 * Val(B2(v)) + 0x100_0000 * Val(B3(v))
  }

  function Word(n: nat): word
    requires n < WORD_LIMIT
  {
    Join(Byte(n % 0x100), Byte(n / 0x100 % 0x100), Byte(n / 0x1_0000 % 0x100), Byte(n / 0x100_0000))
  }

  lemma DigitsSum(n: nat)
    requires n < WORD_LIMIT
    ensures n % 0x100 + 0x100 * (n / 0x100 % 0x100) + 0x1_0000 * (n / 0x1_0000 % 0x100) +
      0x100_0000 * (n / 0x100_0000) == n
  {
    var a := n / 0x100;
    var b := a / 0x100;
    assert b == n / 0x1_0000;
    assert b / 0x100 == n / 0x100_0000;
  }

  /** An address survives being carried in a register. */
  lemma NatWord(n: nat)
    requires n < WORD_LIMIT
    ensures Nat(Word(n)) == n
  {
    hide B0, B1, B2, B3, Join, Val, Byte;
    SplitJoin(Byte(n % 0x100), Byte(n / 0x100 % 0x100), Byte(n / 0x1_0000 % 0x100), Byte(n / 0x100_0000));
    DigitsSum(n);
  }

  lemma DigitsUnique(x0: nat, x1: nat, x2: nat, x3: nat, y0: nat, y1: nat, y2: nat, y3: nat)
    requires x0 < 0x100 && x1 < 0x100 && x2 < 0x100 && x3 < 0x100
    requires y0 < 0x100 && y1 < 0x100 && y2 < 0x100 && y3 < 0x100
    requires x0 + 0x100 * x1 + 0x1_0000 * x2 + 0x100_0000 * x3 == y0 + 0x100 * y1 + 0x1_0000 * y2 + 0x100_0000 * y3
    ensures x0 == y0 && x1 == y1 && x2 == y2 && x3 == y3
  {
    LowDigit(x0, x1 + 0x100 * x2 + 0x1_0000 * x3, y0, y1 + 0x100 * y2 + 0x1_0000 * y3);
    LowDigit(x1, x2 + 0x100 * x3, y1, y2 + 0x100 * y3);
    LowDigit(x2, x3, y2, y3);
  }

  lemma LowDigit(a: nat, x: nat, b: nat, y: nat)
    requires a < 0x100 && b < 0x100 && a + 0x100 * x == b + 0x100 * y
    ensures a == b && x == y
  {}

  /** Different words stand for different numbers. */
  lemma NatInjective(v: word, w: word)
    requires Nat(v) == Nat(w)
    ensures v == w
  {
    hide B0, B1, B2, B3, Join, Val;
    DigitsUnique(Val(B0(v)), Val(B1(v)), Val(B2(v)), Val(B3(v)), Val(B0(w)), Val(B1(w)), Val(B2(w)), Val(B3(w)));
    ValInjective(B0(v), B0(w));
    ValInjective(B1(v), B1(w));
    ValInjective(B2(v), B2(w));
    ValInjective(B3(v), B3(w));
    JoinSplit(v);
    JoinSplit(w);
  }

  // The address masks of the source, in arithmetic form.

  lemma SplitMasks(v: word)
    ensures B0(v & 0xff_ffff) == B0(v) && B1(v & 0xff_ffff) == B1(v) && B2(v & 0xff_ffff) == B2(v)
    ensures B3(v & 0xff_ffff) == 0
    ensures B0(v & 0x3f) == B0(v) & 0x3f && B1(v & 0x3f) == 0 && B2(v & 0x3f) == 0 && B3(v & 0x3f) == 0
    ensures B0(v & 0x3) == B0(v) & 0x3 && B1(v & 0x3) == 0 && B2(v & 0x3) == 0 && B3(v & 0x3) == 0
  {}

  lemma ByteMask6(b: byte)
    ensures Val(b & 0x3f) == Val(b) % 64
  {}

  lemma ByteMask2(b: byte)
    ensures Val(b & 0x3) == Val(b) % 4
  {}

  lemma DigitRemainders(x0: nat, x1: nat, x2: nat, x3: nat)
    requires x0 < 0x100 && x1 < 0x100 && x2 < 0x100 && x3 < 0x100
    ensures var n := x0 + 0x100 * x1 + 0x1_0000 * x2 + 0x100_0000 * x3;
      n % 0x100_0000 == x0 + 0x100 * x1 + 0x1_0000 * x2 && n % 64 == x0 % 64 && n % 4 == x0 % 4
  {
    var n := x0 + 0x100 * x1 + 0x1_0000 * x2 + 0x100_0000 * x3;
    assert n == 0x100_0000 * x3 + (x0 + 0x100 * x1 + 0x1_0000 * x2);
    assert n == 64 * (4 * x1 + 0x400 * x2 + 0x4_0000 * x3) + x0;
    assert n == 4 * (64 * x1 + 0x4000 * x2 + 0x40_0000 * x3) + x0;
  }

  /** Masking with 0x00ffffff, 0x3f and 0x3 are remainders: why addresses can be modelled as numbers. */
  lemma MasksAreRemainders(v: word)
    ensures Nat(v & 0xff_ffff) == Nat(v) % 0x100_0000
    ensures Nat(v & 0x3f) == Nat(v) % 64
    ensures Nat(v & 0x3) == Nat(v) % 4
  {
    hide B0, B1, B2, B3, Val;
    SplitMasks(v);
    ByteMask6(B0(v));
    ByteMask2(B0(v));
    NothingVal();
    DigitRemainders(Val(B0(v)), Val(B1(v)), Val(B2(v)), Val(B3(v)));
  }

  /** Comparing the top byte selects a 16 MB window: why the model divides an address to find its memory. */
  lemma HighByteIsWindow(v: word, window: byte)
    ensures (v & 0xff00_0000 == (window as word) << 24) <==> Nat(v) / 0x100_0000 == Val(window)
  {
    assert (v & 0xff00_0000 == (window as word) << 24) <==> B3(v) == window;
    hide B0, B1, B2, B3, Val;
    assert Nat(v) / 0x100_0000 == Val(B3(v));
    if Val(B3(v)) == Val(window) {
      ValInjective(B3(v), window);
    }
  }

  /** The bytes of a word in memory order. */
  function Bytes(v: word): (bs: seq<byte>)
    ensures |bs| == 4
  {
    [B0(v), B1(v), B2(v), B3(v)]
  }

  function FromBytes(bs: seq<byte>): word
    requires |bs| == 4
  {
    Join(bs[0], bs[1], bs[2], bs[3])
  }

  lemma BytesRoundTrip(bs: seq<byte>)
    requires |bs| == 4
    ensures Bytes(FromBytes(bs)) == bs
  {}
}
