/** SHA-1 as FIPS 180-4 defines it: functions and constants (section 4), padding (section 5),
    and the 80-word schedule of section 6.1.2. */
module Sha1Spec {
  type Byte = bv8
  type Word = bv32

  function Rotl1(x: Word): Word { (x << 1) | (x >> 31) }
  function Rotl5(x: Word): Word { (x << 5) | (x >> 27) }
  function Rotl8(x: Word): Word { (x << 8) | (x >> 24) }
  function Rotl24(x: Word): Word { (x << 24) | (x >> 8) }
  function Rotl30(x: Word): Word { (x << 30) | (x >> 2) }

  function Ch(x: Word, y: Word, z: Word): Word { (x & y) ^ (!x & z) }
  function Parity(x: Word, y: Word, z: Word): Word { x ^ y ^ z }
  function Maj(x: Word, y: Word, z: Word): Word { (x & y) ^ (x & z) ^ (y & z) }

  /** Section 4.1.1. */
  function F(t: nat, x: Word, y: Word, z: Word): Word {
    if t < 20 then Ch(x, y, z)
    else if t < 40 then Parity(x, y, z)
    else if t < 60 then Maj(x, y, z)
    else Parity(x, y, z)
  }

  /** Section 4.2.1. */
  function K(t: nat): Word {
    if t < 20 then 0x5A827999
    else if t < 40 then 0x6ED9EBA1
    else if t < 60 then 0x8F1BBCDC
    else 0xCA62C1D6
  }

  /** The constants are the leading 32 bits of square roots of 2, 3, 5 and 10, at a scale of 2 to the 30. */
  lemma ConstantsAreRoots(t: nat)
    ensures var n := if t < 20 then 2 else if t < 40 then 3 else if t < 60 then 5 else 10;
            var k := K(t) as int;
            k * k <= n * 0x1000_0000_0000_0000 < (k + 1) * (k + 1)
  {
  }

  /** The rotations are rotations. */
  lemma RotationsRotate(x: Word)
    ensures Rotl1(x) == x.RotateLeft(1) && Rotl5(x) == x.RotateLeft(5) && Rotl8(x) == x.RotateLeft(8)
    ensures Rotl24(x) == x.RotateLeft(24) && Rotl30(x) == x.RotateLeft(30)
  {
  }

  /** Four bytes, most significant first. */
  function BigEndian(b0: Byte, b1: Byte, b2: Byte, b3: Byte): Word {
    ((b0 as Word) << 24) | ((b1 as Word) << 16) | ((b2 as Word) << 8) | (b3 as Word)
  }

  type Block = b: seq<Byte> | |b| == 64 witness seq(64, _ => 0)

  function MessageWord(b: Block, t: nat): Word
    requires t < 16
  {
    BigEndian(b[4 * t], b[4 * t + 1], b[4 * t + 2], b[4 * t + 3])
  }

  /** The message schedule. */
  function Schedule(b: Block, t: nat): Word {
    if t < 16 then MessageWord(b, t)
    else Rotl1(Schedule(b, t - 3) ^ Schedule(b, t - 8) ^ Schedule(b, t - 14) ^ Schedule(b, t - 16))
  }

  datatype Registers = Registers(a: Word, b: Word, c: Word, d: Word, e: Word)

  /** Addition modulo two to the 32. */
  function Plus(x: Word, y: Word): Word { x + y }

  function Sum5(a: Word, b: Word, c: Word, d: Word, e: Word): Word { a + b + c + d + e }

  /** Counting up in the second summand is counting up in the sum. */
  lemma PlusCounts(x: Word, y: Word)
    ensures Plus(x, 0) == x && Plus(x, y + 1) == Plus(x, y) + 1
  {
  }

  /** Five words are added one by one. */
  lemma SumOfFive(a: Word, b: Word, c: Word, d: Word, e: Word)
    ensures Sum5(a, b, c, d, e) == Plus(Plus(Plus(Plus(a, b), c), d), e)
  {
    calc {
      Sum5(a, b, c, d, e);
      a + b + c + d + e;
      Plus(a + b + c + d, e);
      Plus(Plus(a + b + c, d), e);
      Plus(Plus(Plus(a + b, c), d), e);
      Plus(Plus(Plus(Plus(a, b), c), d), e);
    }
  }

  function Round(r: Registers, t: nat, w: Word): Registers {
    Registers(Sum5(Rotl5(r.a), F(t, r.b, r.c, r.d), r.e, K(t), w), r.a, Rotl30(r.b), r.c, r.d)
  }

  function Rounds(r: Registers, b: Block, n: nat): Registers {
    if n == 0 then r else Round(Rounds(r, b, n - 1), n - 1, Schedule(b, n - 1))
  }

  function Compress(h: Registers, b: Block): Registers {
    var r := Rounds(h, b, 80);
    Registers(Plus(h.a, r.a), Plus(h.b, r.b), Plus(h.c, r.c), Plus(h.d, r.d), Plus(h.e, r.e))
  }

  /** Section 5.3.1. */
  const INITIAL := Registers(0x67452301, 0xEFCDAB89, 0x98BADCFE, 0x10325476, 0xC3D2E1F0)

  /** Byte by byte, the initial value counts the hexadecimal digits up, down, and apart. */
  lemma InitialCounts()
    ensures INITIAL.a == BigEndian(0x67, 0x45, 0x23, 0x01) && INITIAL.b == BigEndian(0xEF, 0xCD, 0xAB, 0x89)
    ensures INITIAL.c == !INITIAL.a && INITIAL.d == !INITIAL.b && INITIAL.e == BigEndian(0xC3, 0xD2, 0xE1, 0xF0)
  {
  }

  /** The hash value after the first `n` blocks of the data. */
  function Chain(data: seq<Byte>, n: nat): Registers
    requires 64 * n <= |data|
  {
    if n == 0 then INITIAL else Compress(Chain(data, n - 1), data[64 * (n - 1)..64 * n])
  }

  /** Byte `i` of a 64-bit length, most significant first. */
  function LengthByte(bits: nat, i: nat): Byte
    requires i < 8
  {
    (bits / (if i == 0 then 0x100_0000_0000_0000 else if i == 1 then 0x1_0000_0000_0000
             else if i == 2 then 0x100_0000_0000 else if i == 3 then 0x1_0000_0000
             else if i == 4 then 0x100_0000 else if i == 5 then 0x1_0000
             else if i == 6 then 0x100 else 1) % 256) as Byte
  }

  function LengthBytes(bits: nat): (r: seq<Byte>)
    ensures |r| == 8
  {
    seq(8, i requires 0 <= i < 8 => LengthByte(bits, i))
  }

  /** The least number of zero bytes that completes a block. */
  function ZeroCount(n: nat): nat {
    (119 - n % 64) % 64
  }

  function Zeros(n: nat): seq<Byte> {
    seq(n, _ => 0)
  }

  /** Section 5.1.1, for messages of whole bytes. */
  function Padded(msg: seq<Byte>): (r: seq<Byte>)
    ensures |r| % 64 == 0
  {
    msg + [0x80] + Zeros(ZeroCount(|msg|)) + LengthBytes(8 * |msg|)
  }

  /** Byte `i` of the digest. */
  function DigestByte(h: Registers, i: nat): Byte
    requires i < 20
  {
    var w := if i < 4 then h.a else if i < 8 then h.b else if i < 12 then h.c else if i < 16 then h.d else h.e;
    WordByte(w, i % 4)
  }

  function WordByte(w: Word, k: nat): Byte
    requires k < 4
  {
    (if k == 0 then (w >> 24) & 0xFF else if k == 1 then (w >> 16) & 0xFF
     else if k == 2 then (w >> 8) & 0xFF else w & 0xFF) as Byte
  }

  /** The bytes of a word, as the digest shows them, are read back as a block's are. */
  lemma WordBytesBack(w: Word)
    ensures BigEndian(WordByte(w, 0), WordByte(w, 1), WordByte(w, 2), WordByte(w, 3)) == w
  {
  }

  function Sha1(msg: seq<Byte>): (r: seq<Byte>)
    ensures |r| == 20
  {
    var p := Padded(msg);
    seq(20, i requires 0 <= i < 20 => DigestByte(Chain(p, |p| / 64), i))
  }

  /** More data does not change the blocks already hashed. */
  lemma {:induction false} ChainPrefix(data: seq<Byte>, more: seq<Byte>, n: nat)
    requires 64 * n <= |data|
    ensures Chain(data + more, n) == Chain(data, n)
  {
    if n > 0 {
      ChainPrefix(data, more, n - 1);
      assert (data + more)[64 * (n - 1)..64 * n] == data[64 * (n - 1)..64 * n];
    }
  }
}
