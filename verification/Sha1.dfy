/** The streaming SHA-1 object: an in-place 16-word schedule, registers rotated by argument
    order, a 64-byte buffer and a bit counter split over two 32-bit words. */
module Sha1 {
  import opened Division
  import opened Sha1Spec

  const WORD: nat := 0x1_0000_0000
  const TWO64: nat := 0x1_0000_0000_0000_0000

  // ---------------------------------------------------------------- the round macros

  /** A word as the little-endian machine loads it. */
  function LittleEndian(b0: Byte, b1: Byte, b2: Byte, b3: Byte): Word {
    (b0 as Word) | ((b1 as Word) << 8) | ((b2 as Word) << 16) | ((b3 as Word) << 24)
  }

  /** SHABLK0: undo the machine's byte order. */
  function SwapBytes(x: Word): Word {
    (Rotl24(x) & 0xFF00FF00) | (Rotl8(x) & 0x00FF00FF)
  }

  function Choose(w: Word, x: Word, y: Word): Word { (w & (x ^ y)) ^ y }
  function Majority(w: Word, x: Word, y: Word): Word { ((w | x) & y) | (w & x) }

  lemma SwapIsBigEndian(b0: Byte, b1: Byte, b2: Byte, b3: Byte)
    ensures SwapBytes(LittleEndian(b0, b1, b2, b3)) == BigEndian(b0, b1, b2, b3)
  {
  }

  lemma ChooseBits(w: Word, x: Word, y: Word)
    ensures (w & (x ^ y)) ^ y == (w & x) ^ (!w & y)
  {
  }

  lemma MajorityBits(w: Word, x: Word, y: Word)
    ensures ((w | x) & y) | (w & x) == (w & x) ^ (w & y) ^ (x & y)
  {
  }

  lemma ChooseIsCh(w: Word, x: Word, y: Word)
    ensures Choose(w, x, y) == Ch(w, x, y)
  {
    calc {
      Choose(w, x, y);
      (w & (x ^ y)) ^ y;
      { ChooseBits(w, x, y); }
      (w & x) ^ (!w & y);
      Ch(w, x, y);
    }
  }

  lemma MajorityIsMaj(w: Word, x: Word, y: Word)
    ensures Majority(w, x, y) == Maj(w, x, y)
  {
    calc {
      Majority(w, x, y);
      ((w | x) & y) | (w & x);
      { MajorityBits(w, x, y); }
      (w & x) ^ (w & y) ^ (x & y);
      Maj(w, x, y);
    }
  }

  lemma SumOrder(z: Word, f: Word, m: Word, k: Word, r: Word)
    ensures StepSum(z, f, m, k, r) == Sum5(r, f, z, k, m)
  {
  }

  /** `z += f + m + k + r`. */
  function StepSum(z: Word, f: Word, m: Word, k: Word, r: Word): Word {
    z + (f + m + k + r)
  }

  function LoadedWord(b: Block, t: nat): Word
    requires t < 16
  {
    LittleEndian(b[4 * t], b[4 * t + 1], b[4 * t + 2], b[4 * t + 3])
  }

  /** The workspace before step `i`: the last sixteen schedule words in their slots, and the
      words not yet reached as they were loaded. */
  ghost predicate Scheduled(m: seq<Word>, b: Block, i: nat) {
    && |m| == 16
    && (forall s: nat | s < i <= s + 16 :: m[s % 16] == Schedule(b, s))
    && (forall s: nat | i <= s < 16 :: m[s] == LoadedWord(b, s))
  }

  lemma FirstWord(m: seq<Word>, b: Block, i: nat)
    requires i < 16 && Scheduled(m, b, i)
    ensures SwapBytes(m[i]) == Schedule(b, i)
    ensures Scheduled(m[i := SwapBytes(m[i])], b, i + 1)
  {
    SwapIsBigEndian(b[4 * i], b[4 * i + 1], b[4 * i + 2], b[4 * i + 3]);
    hide SwapBytes, LittleEndian, BigEndian;
  }

  function NextWord(m: seq<Word>, i: nat): Word
    requires |m| == 16
  {
    Rotl1(m[(i + 13) % 16] ^ m[(i + 8) % 16] ^ m[(i + 2) % 16] ^ m[i % 16])
  }

  /** Overwriting slot `i & 15` in place continues the schedule. */
  lemma LaterWord(m: seq<Word>, b: Block, i: nat)
    requires i >= 16 && Scheduled(m, b, i)
    ensures NextWord(m, i) == Schedule(b, i)
    ensures Scheduled(m[i % 16 := NextWord(m, i)], b, i + 1)
  {
    hide Rotl1;
    SlotsBack(i);
    NextIsSchedule(m, b, i);
    hide NextWord, Schedule;
    SlotsDiffer(i);
  }

  lemma NextIsSchedule(m: seq<Word>, b: Block, i: nat)
    requires i >= 16 && Scheduled(m, b, i)
    ensures NextWord(m, i) == Schedule(b, i)
  {
    SlotsBack(i);
    assert m[(i - 3) % 16] == Schedule(b, i - 3) && m[(i - 8) % 16] == Schedule(b, i - 8);
    assert m[(i - 14) % 16] == Schedule(b, i - 14) && m[(i - 16) % 16] == Schedule(b, i - 16);
    hide Rotl1, Scheduled;
  }

  lemma SlotsBack(i: nat)
    requires i >= 16
    ensures (i - 3) % 16 == (i + 13) % 16 && (i - 8) % 16 == (i + 8) % 16
    ensures (i - 14) % 16 == (i + 2) % 16 && (i - 16) % 16 == i % 16
  {
    SixteenMore(i - 3, i + 13);
    SixteenMore(i - 8, i + 8);
    SixteenMore(i - 14, i + 2);
    SixteenMore(i - 16, i);
  }

  lemma SixteenMore(i: nat, j: nat)
    requires j == i + 16
    ensures i % 16 == j % 16
  {
    AddDivisor(i, 16);
  }

  lemma SlotsDiffer(i: nat)
    ensures forall s: nat | s < i < s + 16 :: s % 16 != i % 16
  {
  }

  /** What the round macro for step `i` adds besides the schedule word and the rotation. */
  function Mixed(i: nat, w: Word, x: Word, y: Word): Word {
    if i < 20 then Choose(w, x, y)
    else if i < 40 then w ^ x ^ y
    else if i < 60 then Majority(w, x, y)
    else w ^ x ^ y
  }

  lemma MixedIsF(i: nat, w: Word, x: Word, y: Word)
    ensures Mixed(i, w, x, y) == F(i, w, x, y)
  {
    ChooseIsCh(w, x, y);
    MajorityIsMaj(w, x, y);
    hide Choose, Majority, Ch, Maj;
  }

  lemma StepIsRound(v: Word, w: Word, x: Word, y: Word, z: Word, i: nat, m: Word)
    ensures Registers(StepSum(z, Mixed(i, w, x, y), m, K(i), Rotl5(v)), v, Rotl30(w), x, y)
            == Round(Registers(v, w, x, y, z), i, m)
  {
    hide Rotl5, Rotl30, F, K, Mixed, StepSum, Sum5;
    MixedIsF(i, w, x, y);
    SumOrder(z, Mixed(i, w, x, y), m, K(i), Rotl5(v));
  }

  lemma ScheduleStart(m: seq<Word>, b: Block)
    requires |m| == 16 && forall t: nat | t < 16 :: m[t] == LoadedWord(b, t)
    ensures Scheduled(m, b, 0)
  {
  }

  lemma RoundsStart(r: Registers, b: Block)
    ensures Rounds(r, b, 0) == r
  {
  }

  lemma NextRound(r: Registers, b: Block, n: nat)
    ensures Rounds(r, b, n + 1) == Round(Rounds(r, b, n), n, Schedule(b, n))
  {
    hide Round, Schedule;
  }

  lemma ChainStart()
    ensures Chain([], 0) == INITIAL
  {
  }

  /** The split counter follows the number of bits, modulo two to the 64. */
  lemma CountGrows(c0: nat, c1: nat, n: nat, len: nat)
    requires c0 < WORD && c1 < WORD && len < WORD && c1 * WORD + c0 == 8 * n % TWO64
    ensures var low := 8 * len % WORD;
            var c0' := (c0 + low) % WORD;
            var c1' := (c1 + (if c0' < low then 1 else 0) + len / 0x2000_0000) % WORD;
            c1' * WORD + c0' == 8 * (n + len) % TWO64
  {
    var low, high := 8 * len % WORD, len / 0x2000_0000;
    assert 8 * len == high * WORD + low;
    var c0' := (c0 + low) % WORD;
    var carry := if c0' < low then 1 else 0;
    assert c0 + low == carry * WORD + c0';
    var t := c1 + carry + high;
    assert c1 * WORD + c0 + 8 * len == t * WORD + c0';
    var k, w := 8 * n / TWO64, t / WORD;
    assert 8 * n == k * TWO64 + (c1 * WORD + c0);
    assert t == w * WORD + t % WORD;
    assert 8 * (n + len) == (k + w) * TWO64 + (t % WORD * WORD + c0');
    WrapSum(8 * (n + len), k + w, t % WORD * WORD + c0');
  }

  lemma WrapSum(x: nat, k: nat, r: nat)
    requires x == k * TWO64 + r && r < TWO64
    ensures x % TWO64 == r
  {
  }

  /** The byte position in the buffer can be read off the low counter word. */
  lemma CountPosition(c0: nat, c1: nat, n: nat)
    requires c0 < WORD && c1 * WORD + c0 == 8 * n % TWO64
    ensures c0 / 8 % 64 == n % 64
  {
    var k := 8 * n / TWO64;
    assert 8 * n == k * TWO64 + c1 * WORD + c0;
    BytePosition(n, k, c1, c0);
    SameRemainder(n, k * 0x80_0000_0000_0000 + c1 * 0x80_0000, c0 / 8);
  }

  lemma BytePosition(n: nat, k: nat, c1: nat, c0: nat)
    requires 8 * n == k * TWO64 + c1 * WORD + c0
    ensures n == 64 * (k * 0x80_0000_0000_0000 + c1 * 0x80_0000) + c0 / 8
  {
    assert c0 == 8 * (n - k * 0x2000_0000_0000_0000 - c1 * 0x2000_0000);
  }

  lemma SameRemainder(n: nat, h: nat, r: nat)
    requires n == 64 * h + r
    ensures n % 64 == r % 64
  {
  }

  /** Hash state, buffer and split counter are those of the bytes `msg`. */
  ghost predicate Streams(h: Registers, buffer: seq<Byte>, c0: nat, c1: nat, msg: seq<Byte>) {
    var j := |msg| % 64;
    && |buffer| == 64 && c0 < WORD && c1 < WORD
    && h == Chain(msg, |msg| / 64)
    && buffer[..j] == msg[|msg| - j..]
    && c1 * WORD + c0 == 8 * |msg| % TWO64
  }

  lemma StreamStart(buffer: seq<Byte>)
    requires |buffer| == 64
    ensures Streams(INITIAL, buffer, 0, 0, [])
  {
    hide Chain;
    ChainStart();
    var none: seq<Byte> := [];
    assert |none| / 64 == 0 && |none| % 64 == 0;
    assert buffer[..0] == none[0..];
  }

  lemma StreamPosition(h: Registers, buffer: seq<Byte>, c0: nat, c1: nat, msg: seq<Byte>)
    requires Streams(h, buffer, c0, c1, msg)
    ensures c0 < WORD && c1 < WORD && c0 / 8 % 64 == |msg| % 64
    ensures c1 * WORD + c0 == 8 * |msg| % TWO64
  {
    hide Chain;
    CountPosition(c0, c1, |msg|);
  }

  function Count0(c0: nat, len: nat): (r: nat)
    ensures r < WORD
  {
    (c0 + 8 * len % WORD) % WORD
  }

  function Count1(c0: nat, c1: nat, len: nat): (r: nat)
    ensures r < WORD
  {
    (c1 + (if Count0(c0, len) < 8 * len % WORD then 1 else 0) + len / 0x2000_0000) % WORD
  }

  /** Data that does not fill the buffer. */
  lemma StreamShort(h: Registers, buffer: seq<Byte>, c0: nat, c1: nat, msg: seq<Byte>, data: seq<Byte>,
                    buffer': seq<Byte>)
    requires Streams(h, buffer, c0, c1, msg) && |msg| % 64 + |data| <= 63 && |buffer'| == 64
    requires buffer'[..|msg| % 64 + |data|] == buffer[..|msg| % 64] + data
    ensures Streams(h, buffer', Count0(c0, |data|), Count1(c0, c1, |data|), msg + data)
  {
    hide Chain;
    var full, n := msg + data, |msg| / 64;
    CountGrows(c0, c1, |msg|, |data|);
    Quotient(|full|, n, |msg| % 64 + |data|);
    ChainPrefix(msg, data, n);
    assert full[64 * n..] == msg[64 * n..] + data;
  }

  lemma Quotient(x: nat, q: nat, r: nat)
    requires x == 64 * q + r && r < 64
    ensures x / 64 == q && x % 64 == r
  {
  }

  /** The first block: the buffered bytes completed from the data. */
  lemma StreamFirst(h: Registers, buffer: seq<Byte>, c0: nat, c1: nat, msg: seq<Byte>, data: seq<Byte>, i: nat)
    requires Streams(h, buffer, c0, c1, msg) && |buffer| == 64 && i == 64 - |msg| % 64 && i <= |data|
    ensures |msg| + i == 64 * (|msg| / 64 + 1)
    ensures Compress(h, buffer[..|msg| % 64] + data[..i]) == Chain(msg + data, |msg| / 64 + 1)
  {
    hide Compress, Chain, Streams;
    var n := |msg| / 64;
    StreamParts(h, buffer, c0, c1, msg);
    ChainPrefix(msg, data, n);
    BlockAcross(msg, data, n, i);
    NextBlock(msg + data, n);
  }

  lemma StreamParts(h: Registers, buffer: seq<Byte>, c0: nat, c1: nat, msg: seq<Byte>)
    requires Streams(h, buffer, c0, c1, msg)
    ensures |buffer| == 64 && 64 * (|msg| / 64) <= |msg| && |msg| == 64 * (|msg| / 64) + |msg| % 64
    ensures h == Chain(msg, |msg| / 64) && buffer[..|msg| % 64] == msg[64 * (|msg| / 64)..]
  {
    hide Chain;
    assert |msg| - |msg| % 64 == 64 * (|msg| / 64);
  }

  lemma BlockAcross(msg: seq<Byte>, data: seq<Byte>, n: nat, i: nat)
    requires 64 * n <= |msg| && |msg| + i == 64 * (n + 1) && i <= |data|
    ensures (msg + data)[64 * n..64 * (n + 1)] == msg[64 * n..] + data[..i]
  {
  }

  lemma NextBlock(data: seq<Byte>, n: nat)
    requires 64 * (n + 1) <= |data|
    ensures Chain(data, n + 1) == Compress(Chain(data, n), data[64 * n..64 * (n + 1)])
  {
    hide Compress;
  }

  /** Each further block comes straight from the data. */
  lemma StreamNext(msg: seq<Byte>, data: seq<Byte>, i: nat, n: nat)
    requires |msg| + i == 64 * n && i + 64 <= |data|
    ensures Compress(Chain(msg + data, n), data[i..i + 64]) == Chain(msg + data, n + 1)
  {
    hide Compress, Chain;
    NextBlock(msg + data, n);
    assert (msg + data)[64 * n..64 * (n + 1)] == data[i..i + 64];
  }

  /** What is left goes to the front of the buffer. */
  lemma StreamLast(buffer: seq<Byte>, c0: nat, c1: nat, msg: seq<Byte>, data: seq<Byte>, i: nat, n: nat)
    requires |msg| + i == 64 * n && i <= |data| < i + 64 && |data| < WORD && |buffer| == 64
    requires c0 < WORD && c1 < WORD && c1 * WORD + c0 == 8 * |msg| % TWO64
    requires buffer[..|data| - i] == data[i..]
    ensures Streams(Chain(msg + data, n), buffer, Count0(c0, |data|), Count1(c0, c1, |data|), msg + data)
  {
    hide Chain;
    CountGrows(c0, c1, |msg|, |data|);
    Quotient(|msg + data|, n, |data| - i);
    assert (msg + data)[64 * n..] == data[i..];
  }

  /** However the bytes were split over calls, the object is in the same state. */
  lemma SplitDoesNotMatter(h: Registers, buffer: seq<Byte>, c0: nat, c1: nat,
                           h': Registers, buffer': seq<Byte>, c0': nat, c1': nat, msg: seq<Byte>)
    requires Streams(h, buffer, c0, c1, msg) && Streams(h', buffer', c0', c1', msg)
    ensures h == h' && c0 == c0' && c1 == c1' && buffer[..|msg| % 64] == buffer'[..|msg| % 64]
  {
    hide Chain;
    SameSplit(c0, c1, c0', c1');
  }

  lemma SameSplit(c0: nat, c1: nat, c0': nat, c1': nat)
    requires c0 < WORD && c0' < WORD && c1 * WORD + c0 == c1' * WORD + c0'
    ensures c0 == c0' && c1 == c1'
  {
  }

  /** `(c >> ((3 - k) * 8)) & 0xFF`. */
  function CountByte(c: nat, k: nat): Byte
    requires k < 4
  {
    (c / (if k == 0 then 0x100_0000 else if k == 1 then 0x1_0000 else if k == 2 then 0x100 else 1) % 256) as Byte
  }

  /** The two counter words give the length bytes of the padding. */
  lemma CountBytes(c0: nat, c1: nat, bits: nat, i: nat)
    requires c0 < WORD && bits == c1 * WORD + c0 && i < 8
    ensures LengthByte(bits, i) == if i < 4 then CountByte(c1, i) else CountByte(c0, i - 4)
  {
    if i < 4 {
      HighByte(c0, c1, bits, i);
    } else {
      LowByte(c0, c1, bits, i - 4);
    }
  }

  lemma HighByte(c0: nat, c1: nat, bits: nat, k: nat)
    requires c0 < WORD && bits == c1 * WORD + c0 && k < 4
    ensures LengthByte(bits, k) == CountByte(c1, k)
  {
    HighWord(c0, c1, bits);
    assert k == 0 || k == 1 || k == 2 || k == 3;
  }

  lemma LowByte(c0: nat, c1: nat, bits: nat, k: nat)
    requires c0 < WORD && bits == c1 * WORD + c0 && k < 4
    ensures LengthByte(bits, k + 4) == CountByte(c0, k)
  {
    LowWord(c0, c1, bits);
    assert k == 0 || k == 1 || k == 2 || k == 3;
  }

  lemma HighWord(c0: nat, c1: nat, bits: nat)
    requires c0 < WORD && bits == c1 * WORD + c0
    ensures bits / 0x1_0000_0000 == c1 && bits / 0x100_0000_0000 == c1 / 0x100
    ensures bits / 0x1_0000_0000_0000 == c1 / 0x1_0000 && bits / 0x100_0000_0000_0000 == c1 / 0x100_0000
  {
    Remainder(bits, 0x1_0000_0000, c1, c0);
    Remainder(bits, 0x100_0000_0000, c1 / 0x100, c1 % 0x100 * WORD + c0);
    Remainder(bits, 0x1_0000_0000_0000, c1 / 0x1_0000, c1 % 0x1_0000 * WORD + c0);
    Remainder(bits, 0x100_0000_0000_0000, c1 / 0x100_0000, c1 % 0x100_0000 * WORD + c0);
  }

  lemma LowWord(c0: nat, c1: nat, bits: nat)
    requires c0 < WORD && bits == c1 * WORD + c0
    ensures bits % 256 == c0 % 256 && bits / 0x100 % 256 == c0 / 0x100 % 256
    ensures bits / 0x1_0000 % 256 == c0 / 0x1_0000 % 256
    ensures bits / 0x100_0000 % 256 == c0 / 0x100_0000 % 256
  {
    SplitAt(c0, c1, bits, 0x100, 0x100_0000);
    SplitAt(c0, c1, bits, 0x1_0000, 0x1_0000);
    SplitAt(c0, c1, bits, 0x100_0000, 0x100);
    assert bits == 256 * (c1 * 0x100_0000) + c0;
    AddMultiple(256, bits, c0, c1 * 0x100_0000);
  }

  lemma SplitAt(c0: nat, c1: nat, bits: nat, d: nat, m: nat)
    requires bits == c1 * WORD + c0
    requires (d == 0x100 && m == 0x100_0000) || (d == 0x1_0000 && m == 0x1_0000) || (d == 0x100_0000 && m == 0x100)
    ensures bits / d % 256 == c0 / d % 256
  {
    assert bits / d == c1 * m + c0 / d;
    AddMultiple(256, bits / d, c0 / d, if d == 0x100 then c1 * 0x1_0000 else if d == 0x1_0000 then c1 * 0x100 else c1);
  }

  /** Zero bytes still missing before the length, when `n` bytes are in. */
  function StillMissing(n: nat): nat {
    (120 - n % 64) % 64
  }

  lemma OneZeroLess(n: nat)
    requires n % 64 != 56
    ensures StillMissing(n + 1) + 1 == StillMissing(n)
  {
    Quotient(n + 1, if n % 64 == 63 then n / 64 + 1 else n / 64, if n % 64 == 63 then 0 else n % 64 + 1);
  }

  lemma MissingStart(n: nat)
    ensures StillMissing(n + 1) == ZeroCount(n)
    ensures StillMissing(n) == 0 <==> n % 64 == 56
  {
    Quotient(n + 1, if n % 64 == 63 then n / 64 + 1 else n / 64, if n % 64 == 63 then 0 else n % 64 + 1);
  }

  lemma StreamDone(h: Registers, buffer: seq<Byte>, c0: nat, c1: nat, padded: seq<Byte>, msg: seq<Byte>,
                   digest: seq<Byte>)
    requires Streams(h, buffer, c0, c1, padded) && padded == Padded(msg)
    requires |digest| == 20 && forall i: nat | i < 20 :: digest[i] == DigestByte(h, i)
    ensures digest == Sha1(msg)
  {
    hide Chain, DigestByte, Padded;
  }

  /** Where the sum of the lengths wraps, the code takes the branch that copies everything to the buffer,
      which it does not fit: exactly there. */
  lemma CopyOverflowsIff(j: nat, size: nat)
    requires j < 64 && size < WORD
    ensures (j + size) % WORD <= 63 && j + size > 64 <==> j + size >= WORD
  {
    if j + size < WORD {
      SmallMod(j + size, WORD);
    } else {
      Remainder(j + size, WORD, 1, j + size - WORD);
    }
  }

  /** The loop over the blocks of the data computes its index without a wrap. */
  lemma IndexFits(length: nat, i: nat, n: nat, size: nat)
    requires length + i == 64 * n && i <= size && length % 64 + size < WORD
    ensures (i + 63) % WORD == i + 63
  {
    var q, r := length / 64, length % 64;
    assert r + i == 64 * (n - q);
    assert n - q < WORD / 64;
    SmallMod(i + 63, WORD);
  }

  class CSHA1 {
    const m_state: array<Word>
    var m_count0: nat
    var m_count1: nat
    const m_buffer: array<Byte>
    const m_digest: array<Byte>
    const m_block: array<Word>
    /** All bytes fed in since the last reset. */
    ghost var message: seq<Byte>

    ghost predicate Shape()
      reads this
    {
      && m_state.Length == 5 && m_block.Length == 16 && m_state != m_block
      && m_buffer.Length == 64 && m_digest.Length == 20 && m_buffer != m_digest
      && m_count0 < WORD && m_count1 < WORD
    }

    ghost function State(): Registers
      requires m_state.Length == 5
      reads m_state
    {
      Registers(m_state[0], m_state[1], m_state[2], m_state[3], m_state[4])
    }

    ghost predicate Valid()
      reads this, m_state, m_buffer
    {
      Shape() && Streams(State(), m_buffer[..], m_count0, m_count1, message)
    }

    constructor ()
      ensures Valid() && message == []
      ensures fresh(m_state) && fresh(m_buffer) && fresh(m_digest) && fresh(m_block)
    {
      m_state := new Word[5];
      m_buffer := new Byte[64];
      m_digest := new Byte[20];
      m_block := new Word[16];
      m_count0, m_count1, message := 0, 0, [];
      new;
      Reset();
    }

    method Reset()
      requires Shape()
      modifies this, m_state
      ensures Valid() && message == []
    {
      hide Streams;
      m_state[0] := 0x67452301;
      m_state[1] := 0xEFCDAB89;
      m_state[2] := 0x98BADCFE;
      m_state[3] := 0x10325476;
      m_state[4] := 0xC3D2E1F0;
      assert State() == INITIAL;
      m_count0, m_count1, message := 0, 0, [];
      StreamStart(m_buffer[..]);
    }

    /** S_R0 to S_R4: one step, with the registers in the order the caller rotates them to. */
    method Step(v: Word, w: Word, x: Word, y: Word, z: Word, i: nat, ghost b: Block)
      returns (z': Word, w': Word)
      requires m_block.Length == 16 && Scheduled(m_block[..], b, i)
      modifies m_block
      ensures Scheduled(m_block[..], b, i + 1)
      ensures Registers(z', v, w', x, y) == Round(Registers(v, w, x, y, z), i, Schedule(b, i))
    {
      hide Rotl1, Rotl5, Rotl30, F, K, Mixed, StepSum, Sum5, SwapBytes, Schedule, Round, Scheduled;
      ghost var m := m_block[..];
      var word: Word;
      if i < 16 {
        FirstWord(m, b, i);
        m_block[i] := SwapBytes(m_block[i]);
        word := m_block[i];
        assert m_block[..] == m[i := SwapBytes(m[i])];
      } else {
        LaterWord(m, b, i);
        m_block[i % 16] := NextWord(m_block[..], i);
        word := m_block[i % 16];
        assert m_block[..] == m[i % 16 := NextWord(m, i)];
      }
      z', w' := StepSum(z, Mixed(i, w, x, y), word, K(i), Rotl5(v)), Rotl30(w);
      StepIsRound(v, w, x, y, z, i, word);
    }

    /** Five steps bring every register back to its place. */
    method FiveSteps(a0: Word, b0: Word, c0: Word, d0: Word, e0: Word, i: nat, ghost b: Block, ghost r0: Registers)
      returns (a: Word, bb: Word, c: Word, d: Word, e: Word)
      requires m_block.Length == 16 && Scheduled(m_block[..], b, i)
      requires Registers(a0, b0, c0, d0, e0) == Rounds(r0, b, i)
      modifies m_block
      ensures Scheduled(m_block[..], b, i + 5)
      ensures Registers(a, bb, c, d, e) == Rounds(r0, b, i + 5)
    {
      hide Round, Rounds, Schedule, Scheduled;
      NextRound(r0, b, i);
      NextRound(r0, b, i + 1);
      NextRound(r0, b, i + 2);
      NextRound(r0, b, i + 3);
      NextRound(r0, b, i + 4);
      a, bb, c, d, e := a0, b0, c0, d0, e0;
      e, bb := Step(a, bb, c, d, e, i, b);
      d, a := Step(e, a, bb, c, d, i + 1, b);
      c, e := Step(d, e, a, bb, c, i + 2, b);
      bb, d := Step(c, d, e, a, bb, i + 3, b);
      a, c := Step(bb, c, d, e, a, i + 4, b);
    }

    /** Hashes one block into the state: eighty steps, five to a turn of the registers. */
    method Transform(b: Block)
      requires Shape()
      modifies m_state, m_block
      ensures State() == Compress(old(State()), b)
    {
      hide Round, Rounds, Schedule, LoadedWord, Plus, Scheduled;
      var a, bb, c, d, e := m_state[0], m_state[1], m_state[2], m_state[3], m_state[4];
      forall t | 0 <= t < 16 {
        m_block[t] := LoadedWord(b, t);
      }
      ghost var r0 := State();
      RoundsStart(r0, b);
      ScheduleStart(m_block[..], b);
      var i := 0;
      while i < 80
        invariant i <= 80 && i % 5 == 0 && Scheduled(m_block[..], b, i)
        invariant m_state[..] == old(m_state[..])
        invariant Registers(a, bb, c, d, e) == Rounds(r0, b, i)
      {
        a, bb, c, d, e := FiveSteps(a, bb, c, d, e, i, b, r0);
        i := i + 5;
      }
      m_state[0] := Plus(m_state[0], a);
      m_state[1] := Plus(m_state[1], bb);
      m_state[2] := Plus(m_state[2], c);
      m_state[3] := Plus(m_state[3], d);
      m_state[4] := Plus(m_state[4], e);
    }

    /** The loop of `Update` over the blocks that come whole from the data. */
    method TransformBlocks(data: seq<Byte>, i0: nat, ghost msg: seq<Byte>, ghost n0: nat)
      returns (i: nat, ghost n: nat)
      requires Shape() && |msg| % 64 + |data| < WORD && i0 <= |data|
      requires |msg| + i0 == 64 * n0 && State() == Chain(msg + data, n0)
      modifies m_state, m_block
      ensures i0 <= i <= |data| && |data| < i + 64 && |msg| + i == 64 * n
      ensures State() == Chain(msg + data, n)
    {
      hide Chain, Compress;
      i, n := i0, n0;
      IndexFits(|msg|, i, n, |data|);
      while (i + 63) % WORD < |data|
        invariant i0 <= i <= |data| && |msg| + i == 64 * n && State() == Chain(msg + data, n)
        invariant (i + 63) % WORD == i + 63
      {
        StreamNext(msg, data, i, n);
        Transform(data[i..i + 64]);
        i := i + 64;
        n := n + 1;
        IndexFits(|msg|, i, n, |data|);
      }
    }

    /** Feeds `data` to the hash; what is in the buffer and the data must together be shorter than two
        to the 32, or the sum of their lengths wraps and the data is copied past the buffer. */
    method Update(data: seq<Byte>)
      requires Valid() && |message| % 64 + |data| < WORD
      modifies this, m_state, m_buffer, m_block
      ensures Valid() && message == old(message) + data
    {
      hide Streams, Chain, Compress, Count0, Count1;
      ghost var msg, h, c0, c1, buffer := message, State(), m_count0, m_count1, m_buffer[..];
      StreamPosition(h, buffer, c0, c1, msg);
      var uLen := |data|;
      var j := m_count0 / 8 % 64;
      AddCount(uLen);
      message := msg + data;
      if (j + uLen) % WORD > 63 {
        var i := 64 - j;
        CopyToBuffer(j, data[..i]);
        StreamFirst(h, buffer, c0, c1, msg, data, i);
        assert m_buffer[..] == buffer[..j] + data[..i];
        Transform(m_buffer[..]);
        ghost var n;
        i, n := TransformBlocks(data, i, msg, |msg| / 64 + 1);
        CopyToBuffer(0, data[i..]);
        StreamLast(m_buffer[..], c0, c1, msg, data, i, n);
      } else {
        CopyToBuffer(j, data);
        StreamShort(h, buffer, c0, c1, msg, data, m_buffer[..]);
      }
    }

    /** Adds `8 * uLen` to the split bit counter. */
    method AddCount(uLen: nat)
      requires m_count0 < WORD && m_count1 < WORD && uLen < WORD
      modifies `m_count0, `m_count1
      ensures m_count0 == Count0(old(m_count0), uLen)
      ensures m_count1 == Count1(old(m_count0), old(m_count1), uLen)
    {
      m_count0 := (m_count0 + 8 * uLen % WORD) % WORD;
      if m_count0 < 8 * uLen % WORD {
        m_count1 := (m_count1 + 1) % WORD;
      }
      m_count1 := (m_count1 + uLen / 0x2000_0000) % WORD;
    }

    method CopyToBuffer(at: nat, bytes: seq<Byte>)
      requires m_buffer.Length == 64 && at + |bytes| <= 64
      modifies m_buffer
      ensures m_buffer[..] == old(m_buffer[..at]) + bytes + old(m_buffer[at + |bytes|..])
    {
      forall k | 0 <= k < |bytes| {
        m_buffer[at + k] := bytes[k];
      }
    }

    /** Pads the message, writes the digest, and wipes the hash state. */
    method Final()
      requires Valid() && 8 * |message| < TWO64
      modifies this, m_state, m_buffer, m_block, m_digest
      ensures Shape() && m_digest[..] == Sha1(old(message))
      ensures m_count0 == 0 && m_count1 == 0 && forall k | 0 <= k < 64 :: m_buffer[k] == 0
    {
      hide Streams, Chain, LengthByte, CountByte, DigestByte, Sha1Spec.Sha1, ZeroCount, StillMissing;
      ghost var msg := message;
      StreamPosition(State(), m_buffer[..], m_count0, m_count1, msg);
      var c0, c1 := m_count0, m_count1;
      var pbFinalCount := seq(8, i requires 0 <= i < 8 => CountByte(if i >= 4 then c0 else c1, i % 4));
      forall i: nat | i < 8
        ensures pbFinalCount[i] == LengthByte(8 * |msg|, i)
      {
        CountBytes(c0, c1, 8 * |msg|, i);
      }
      assert pbFinalCount == LengthBytes(8 * |msg|);
      Update([0x80]);
      AppendZeros(msg + [0x80]);
      MissingStart(|msg|);
      Update(pbFinalCount);
      assert message == Padded(msg);
      ghost var h, buffer := State(), m_buffer[..];
      forall i | 0 <= i < 20 {
        m_digest[i] := WordByte(m_state[i / 4], i % 4);
      }
      assert State() == h && m_buffer[..] == buffer;
      DigestMatches();
      StreamDone(State(), m_buffer[..], m_count0, m_count1, message, msg, m_digest[..]);
      Wipe();
    }

    /** The zero padding: one byte at a time until the length fits the block exactly. */
    method AppendZeros(ghost start: seq<Byte>)
      requires Valid() && message == start
      modifies this, m_state, m_buffer, m_block
      ensures Valid() && message == start + Zeros(StillMissing(|start|))
    {
      hide Streams, Chain, StillMissing;
      ghost var n := 0;
      StreamPosition(State(), m_buffer[..], m_count0, m_count1, message);
      while m_count0 / 8 % 64 != 56
        invariant Valid() && message == start + Zeros(n)
        invariant m_count0 / 8 % 64 == |message| % 64
        invariant n + StillMissing(|message|) == StillMissing(|start|)
        decreases StillMissing(|message|)
      {
        OneZeroLess(|message|);
        Update([0]);
        n := n + 1;
        StreamPosition(State(), m_buffer[..], m_count0, m_count1, message);
      }
      MissingStart(|message|);
    }

    lemma DigestMatches()
      requires Shape()
      ensures forall i: nat | i < 20 :: WordByte(m_state[i / 4], i % 4) == DigestByte(State(), i)
    {
      hide WordByte;
    }

    method Wipe()
      requires Shape()
      modifies this, m_state, m_buffer, m_block
      ensures Shape() && m_count0 == 0 && m_count1 == 0 && forall k | 0 <= k < 64 :: m_buffer[k] == 0
    {
      forall k | 0 <= k < 64 {
        m_buffer[k] := 0;
      }
      forall k | 0 <= k < 5 {
        m_state[k] := 0;
      }
      m_count0, m_count1 := 0, 0;
      Transform(m_buffer[..]);
    }
  }
}
