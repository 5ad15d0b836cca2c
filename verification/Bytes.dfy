/** Bytes, words made of bytes, and the two byte orders. */
module Bytes {
  type Byte = x: int | 0 <= x < 0x100
  type Word = x: int | 0 <= x < 0x1_0000_0000

  /** The four bytes of a word, lowest first. */
  function LittleBytes(w: Word): (b: seq<Byte>)
    ensures |b| == 4
  {
    [w % 0x100, w / 0x100 % 0x100, w / 0x1_0000 % 0x100, w / 0x100_0000]
  }

  function Digits(b0: int, b1: int, b2: int, b3: int): int {
    b0 + 0x100 * b1 + 0x1_0000 * b2 + 0x100_0000 * b3
  }

  function LittleWord(b: seq<Byte>): Word
    requires |b| == 4
  {
    Digits(b[0], b[1], b[2], b[3])
  }

  lemma LittleWordOfBytes(w: Word)
    ensures LittleWord(LittleBytes(w)) == w
  {
    assert w == w % 0x100 + 0x100 * (w / 0x100);
    assert w / 0x100 == w / 0x100 % 0x100 + 0x100 * (w / 0x1_0000);
    assert w / 0x1_0000 == w / 0x1_0000 % 0x100 + 0x100 * (w / 0x100_0000);
  }

  lemma LowByte(b: Byte, rest: nat)
    ensures (b + 0x100 * rest) % 0x100 == b && (b + 0x100 * rest) / 0x100 == rest
  {
  }

  lemma LittleBytesOfWord(b: seq<Byte>)
    requires |b| == 4
    ensures LittleBytes(LittleWord(b)) == b
  {
    var b1: int, b2: int, b3: int := b[1], b[2], b[3];
    var w, w1, w2: nat := LittleWord(b), b1 + 0x100 * (b2 + 0x100 * b3), b2 + 0x100 * b3;
    LowByte(b[0], w1);
    LowByte(b[1], w2);
    LowByte(b[2], b3);
    assert w / 0x100 == w1;
    assert w / 0x1_0000 == w / 0x100 / 0x100;
    assert w / 0x100_0000 == w / 0x1_0000 / 0x100;
  }

  function Reversed(s: seq<Byte>): (r: seq<Byte>)
    ensures |r| == |s|
    ensures forall k :: 0 <= k < |s| ==> r[k] == s[|s| - 1 - k]
  {
    if s == [] then [] else Reversed(s[1..]) + [s[0]]
  }

  lemma ReversedTwice(s: seq<Byte>)
    ensures Reversed(Reversed(s)) == s
  {
  }

  /** The byte order of the machine that the engine runs on. */
  datatype Host = Little | Big

  /** The bytes of a word in memory. */
  function HostBytes(host: Host, w: Word): (b: seq<Byte>)
    ensures |b| == 4
  {
    if host == Little then LittleBytes(w) else Reversed(LittleBytes(w))
  }

  function HostWord(host: Host, b: seq<Byte>): Word
    requires |b| == 4
  {
    if host == Little then LittleWord(b) else LittleWord(Reversed(b))
  }

  /** Swaps the bytes of a word on a machine that keeps the highest one first. */
  function LittleLong(host: Host, w: Word): Word {
    if host == Little then w else LittleWord(Reversed(LittleBytes(w)))
  }

  lemma LittleLongTwice(host: Host, w: Word)
    ensures LittleLong(host, LittleLong(host, w)) == w
  {
    LittleBytesOfWord(Reversed(LittleBytes(w)));
    ReversedTwice(LittleBytes(w));
    LittleWordOfBytes(w);
  }

  /** A swapped word is stored lowest byte first, whatever the machine. */
  lemma StoredLittle(host: Host, w: Word)
    ensures HostBytes(host, LittleLong(host, w)) == LittleBytes(w)
  {
    LittleBytesOfWord(Reversed(LittleBytes(w)));
    ReversedTwice(LittleBytes(w));
  }

  lemma ReadLittle(host: Host, b: seq<Byte>)
    requires |b| == 4
    ensures LittleLong(host, HostWord(host, b)) == LittleWord(b)
  {
    LittleBytesOfWord(Reversed(b));
    ReversedTwice(b);
  }

  /** A word as a signed number. */
  function Signed(w: Word): int {
    if w < 0x8000_0000 then w else w - 0x1_0000_0000
  }

  function TwoTo(n: nat): nat {
    if n == 0 then 1 else 2 * TwoTo(n - 1)
  }

  /** Exclusive or of the lowest bits. */
  function XorBits(a: nat, b: nat, bits: nat): (r: nat)
    ensures r < TwoTo(bits)
    decreases bits
  {
    if bits == 0 then 0 else XorBit(a, b) + 2 * XorBits(a / 2, b / 2, bits - 1)
  }

  function XorBit(a: nat, b: nat): nat {
    if a % 2 == b % 2 then 0 else 1
  }

  lemma Half(bit: nat, rest: nat)
    requires bit < 2
    ensures (bit + 2 * rest) / 2 == rest && (bit + 2 * rest) % 2 == bit
  {
  }

  lemma {:induction false} XorBitsTwice(a: nat, b: nat, bits: nat)
    requires a < TwoTo(bits)
    ensures XorBits(XorBits(a, b, bits), b, bits) == a
    decreases bits
  {
    if bits > 0 {
      var rest := XorBits(a / 2, b / 2, bits - 1);
      XorBitsTwice(a / 2, b / 2, bits - 1);
      Half(XorBit(a, b), rest);
    }
  }

  function Xor(a: Byte, b: Byte): Byte {
    assert TwoTo(8) == 0x100 by {
      assert TwoTo(4) == 16;
    }
    XorBits(a, b, 8)
  }

  lemma XorTwice(a: Byte, b: Byte)
    ensures Xor(Xor(a, b), b) == a
  {
    assert TwoTo(4) == 16;
    XorBitsTwice(a, b, 8);
  }

  // ----- exclusive or is that of the machine

  ghost function Value(x: bv8): nat {
    x as int
  }

  ghost function Halved(x: bv8): bv8 {
    x / 2
  }

  ghost function Mixed(x: bv8, y: bv8): bv8 {
    x ^ y
  }

  lemma ValueOfHalf(x: bv8)
    ensures Value(Halved(x)) == Value(x) / 2
  {
  }

  lemma ValueOfLow(x: bv8)
    ensures (x % 2) as int == Value(x) % 2
  {
  }

  lemma ValueOfMixed(x: bv8, y: bv8)
    ensures Value(Mixed(x, y)) == XorBit(Value(x), Value(y)) + 2 * Value(Mixed(Halved(x), Halved(y)))
  {
    assert Halved(Mixed(x, y)) == Mixed(Halved(x), Halved(y));
    assert Mixed(x, y) % 2 == if x % 2 == y % 2 then 0 else 1;
    ValueOfHalf(Mixed(x, y));
    ValueOfLow(Mixed(x, y));
    ValueOfLow(x);
    ValueOfLow(y);
  }

  lemma MixedZeros(x: bv8, y: bv8)
    requires Value(x) == Value(y) == 0
    ensures Value(Mixed(x, y)) == 0
  {
  }

  lemma {:induction false} XorBitsOf(x: bv8, y: bv8, bits: nat)
    requires Value(x) < TwoTo(bits) && Value(y) < TwoTo(bits)
    ensures XorBits(Value(x), Value(y), bits) == Value(Mixed(x, y))
    decreases bits
  {
    hide Value, Halved, Mixed;
    if bits == 0 {
      MixedZeros(x, y);
    } else {
      ValueOfHalf(x);
      ValueOfHalf(y);
      XorBitsOf(Halved(x), Halved(y), bits - 1);
      ValueOfMixed(x, y);
    }
  }

  lemma OfValue(x: bv8)
    ensures Value(x) < 0x100 && Value(x) as bv8 == x
  {
  }

  /** Twice some bits, and one more. */
  ghost function Doubled(x: bv8, bit: nat): bv8 {
    if bit == 0 then x << 1 else (x << 1) | 1
  }

  lemma ValueOfDoubled(x: bv8, bit: nat)
    requires Value(x) < 0x80 && bit < 2
    ensures Value(Doubled(x, bit)) == 2 * Value(x) + bit
  {
    var y := Doubled(x, bit);
    assert x < 0x80;
    assert Halved(y) == x;
    assert y % 2 == if bit == 0 then 0 else 1;
    ValueOfHalf(y);
    ValueOfLow(y);
  }

  lemma {:induction false} BitsOfByte(a: int) returns (x: bv8)
    requires 0 <= a < 0x100
    ensures Value(x) == a
    decreases a
  {
    hide Value, Doubled;
    if a == 0 {
      x := 0;
      ValueOfZero();
    } else {
      var h := BitsOfByte(a / 2);
      ValueOfDoubled(h, a % 2);
      x := Doubled(h, a % 2);
    }
  }

  lemma ValueOfZero()
    ensures Value(0) == 0
  {
  }

  /** The exclusive or of two bytes is that of the machine. */
  lemma XorIsBitwise(a: Byte, b: Byte)
    ensures Xor(a, b) == ((a as bv8) ^ (b as bv8)) as int
  {
    hide XorBits;
    var x := BitsOfByte(a);
    var y := BitsOfByte(b);
    OfValue(x);
    OfValue(y);
    assert TwoTo(8) == 0x100 by { assert TwoTo(4) == 16; }
    XorBitsOf(x, y, 8);
  }
}
