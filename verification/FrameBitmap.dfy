/** The frame bitmap shared by the boot pager and the kernel pager.

    A bitmap is a sequence of machine words; bit `k % width` of word `k / width` is set
    exactly when frame `k` is in use.  The kernel reads 64-bit words, the boot code writes
    32-bit words over the same bytes.  A word is a natural number below two to its width,
    and the bit operations follow its binary digits. */
module FrameBitmap {

  // ---------------------------------------------------------------- one word

  /** `(w >> j) & 1`. */
  predicate Bit(w: nat, j: nat) {
    if j == 0 then w % 2 == 1 else Bit(w / 2, j - 1)
  }

  /** `w | (1 << j)`. */
  function SetBit(w: nat, j: nat): nat {
    if j == 0 then w - w % 2 + 1 else 2 * SetBit(w / 2, j - 1) + w % 2
  }

  /** `w & ~(1 << j)`. */
  function ClearBit(w: nat, j: nat): nat {
    if j == 0 then w - w % 2 else 2 * ClearBit(w / 2, j - 1) + w % 2
  }

  /** The word whose low `n` bits are set: the all-ones word of width `n`. */
  function Ones(n: nat): nat {
    if n == 0 then 0 else 2 * Ones(n - 1) + 1
  }

  lemma {:induction false} SetBitBits(w: nat, j: nat, k: nat)
    ensures Bit(SetBit(w, j), k) <==> j == k || Bit(w, k)
  {
    if j > 0 && k > 0 {
      SetBitBits(w / 2, j - 1, k - 1);
    }
  }

  lemma {:induction false} ClearBitBits(w: nat, j: nat, k: nat)
    ensures Bit(ClearBit(w, j), k) <==> j != k && Bit(w, k)
  {
    if j > 0 && k > 0 {
      ClearBitBits(w / 2, j - 1, k - 1);
    }
  }

  lemma HalfBelow(w: nat, n: nat)
    requires n > 0
    ensures w <= Ones(n) <==> w / 2 <= Ones(n - 1)
    ensures Ones(n) == 2 * Ones(n - 1) + 1
  {
  }

  /** Setting or clearing a bit inside the width keeps the word inside the width. */
  lemma {:induction false} StaysInWidth(w: nat, j: nat, n: nat)
    requires w <= Ones(n) && j < n
    ensures SetBit(w, j) <= Ones(n) && ClearBit(w, j) <= Ones(n)
  {
    HalfBelow(w, n);
    if j > 0 {
      StaysInWidth(w / 2, j - 1, n - 1);
    }
    hide Ones;
  }

  lemma {:induction false} OnesHasAll(n: nat, k: nat)
    requires k < n
    ensures Bit(Ones(n), k)
  {
    OnesHalve(n);
    if k > 0 {
      OnesHasAll(n - 1, k - 1);
    }
    hide Ones;
  }

  lemma OnesHalve(n: nat)
    requires n > 0
    ensures Ones(n) % 2 == 1 && Ones(n) / 2 == Ones(n - 1)
  {
    var o := Ones(n - 1);
    assert Ones(n) == 2 * o + 1;
    hide Ones;
  }

  lemma {:induction false} NotOnesLacks(w: nat, n: nat) returns (k: nat)
    requires w < Ones(n)
    ensures k < n && !Bit(w, k)
  {
    if w % 2 == 0 {
      k := 0;
    } else {
      k := NotOnesLacks(w / 2, n - 1);
      k := k + 1;
    }
  }

  /** Comparing a word with all ones is a correct test for "no clear bit in this word". */
  lemma FullWord(w: nat, n: nat)
    requires w <= Ones(n)
    ensures w == Ones(n) <==> forall k: nat | k < n :: Bit(w, k)
  {
    if w == Ones(n) {
      forall k: nat | k < n
        ensures Bit(w, k)
      {
        OnesHasAll(n, k);
      }
    } else {
      var k := NotOnesLacks(w, n);
    }
  }

  // ---------------------------------------------------------------- whole bitmaps

  predicate IsWidth(width: nat) {
    width == 32 || width == 64
  }

  predicate InWidth(words: seq<nat>, width: nat) {
    forall i | 0 <= i < |words| :: words[i] <= Ones(width)
  }

  predicate Used(words: seq<nat>, width: nat, k: nat)
    requires IsWidth(width) && k < width * |words|
  {
    Bit(words[k / width], k % width)
  }

  /** The frames in use. */
  ghost function UsedSet(words: seq<nat>, width: nat): set<nat>
    requires IsWidth(width)
  {
    set k: nat | k < width * |words| && Used(words, width, k)
  }

  /** The clear bits among frames `lo` to `hi`: what an allocator scanning them can find. */
  ghost function FreeSet(words: seq<nat>, width: nat, lo: nat, hi: nat): set<nat>
    requires IsWidth(width) && hi <= width * |words|
  {
    set k: nat | lo <= k < hi && !Used(words, width, k)
  }

  lemma SamePlace(i: nat, k: nat, width: nat)
    requires IsWidth(width)
    ensures i / width == k / width && i % width == k % width ==> i == k
  {
  }

  /** Changing one bit of one word changes the state of one frame. */
  lemma ChangeOne(words: seq<nat>, width: nat, k: nat, w: nat, i: nat)
    requires IsWidth(width) && k < width * |words| && i < width * |words|
    requires forall j: nat :: j != k % width ==> (Bit(w, j) <==> Bit(words[k / width], j))
    ensures i != k ==> (Used(words[k / width := w], width, i) <==> Used(words, width, i))
    ensures Used(words[k / width := w], width, k) <==> Bit(w, k % width)
  {
    SamePlace(i, k, width);
  }

  function Marked(words: seq<nat>, width: nat, k: nat, used: bool): seq<nat>
    requires IsWidth(width) && k < width * |words|
  {
    words[k / width := if used then SetBit(words[k / width], k % width)
                       else ClearBit(words[k / width], k % width)]
  }

  /** `|= 1 << k % width` and `&= ~(1 << k % width)` change the state of frame `k` only. */
  lemma MarkOne(words: seq<nat>, width: nat, k: nat, used: bool, i: nat)
    requires IsWidth(width) && k < width * |words| && i < width * |words|
    ensures Used(Marked(words, width, k, used), width, i)
            <==> if i == k then used else Used(words, width, i)
  {
    var w, j := words[k / width], k % width;
    var w' := if used then SetBit(w, j) else ClearBit(w, j);
    forall m: nat
      ensures Bit(w', m) <==> if m == j then used else Bit(w, m)
    {
      SetBitBits(w, j, m);
      ClearBitBits(w, j, m);
    }
    ChangeOne(words, width, k, w', i);
  }

  lemma MarkInWidth(words: seq<nat>, width: nat, k: nat, used: bool)
    requires IsWidth(width) && k < width * |words| && InWidth(words, width)
    ensures InWidth(Marked(words, width, k, used), width)
  {
    hide Ones, SetBit, ClearBit;
    StaysInWidth(words[k / width], k % width, width);
  }

  /** Marking one frame, seen as sets of frames. */
  lemma MarkSets(words: seq<nat>, width: nat, k: nat, used: bool, lo: nat, hi: nat)
    requires IsWidth(width) && k < width * |words| && hi <= width * |words|
    ensures var words' := Marked(words, width, k, used);
            var free := FreeSet(words, width, lo, hi);
            && UsedSet(words', width)
               == (if used then UsedSet(words, width) + {k} else UsedSet(words, width) - {k})
            && FreeSet(words', width, lo, hi)
               == (if used then free - {k} else free + (if lo <= k < hi then {k} else {}))
  {
    var words' := Marked(words, width, k, used);
    forall i: nat | i < width * |words|
      ensures Used(words', width, i) <==> if i == k then used else Used(words, width, i)
    {
      MarkOne(words, width, k, used, i);
    }
    SetsFollow(words, words', width, k, used, lo, hi);
  }

  lemma SetsFollow(words: seq<nat>, words': seq<nat>, width: nat, k: nat, used: bool, lo: nat, hi: nat)
    requires IsWidth(width) && |words'| == |words| && k < width * |words| && hi <= width * |words|
    requires forall i: nat | i < width * |words| ::
               Used(words', width, i) <==> if i == k then used else Used(words, width, i)
    ensures UsedSet(words', width)
            == (if used then UsedSet(words, width) + {k} else UsedSet(words, width) - {k})
    ensures var free := FreeSet(words, width, lo, hi);
            FreeSet(words', width, lo, hi)
            == (if used then free - {k} else free + (if lo <= k < hi then {k} else {}))
  {
  }

  // ---------------------------------------------------------------- frames by number

  ghost predicate IsFreeFrame(free: set<nat>, base: nat, f: nat) {
    f >= base && f - base in free
  }

  /** The physical frames of the bitmap indices `free`, which lie below `hi`. */
  ghost function Frames(free: set<nat>, base: nat, hi: nat): set<nat> {
    set f: nat | f < base + hi && IsFreeFrame(free, base, f)
  }

  /** Taking one index takes one frame. */
  lemma FramesFollow(free: set<nat>, base: nat, hi: nat, k: nat)
    requires k in free && forall i | i in free :: i < hi
    ensures base + k in Frames(free, base, hi)
    ensures Frames(free - {k}, base, hi) == Frames(free, base, hi) - {base + k}
    ensures (forall i | i in free :: k <= i) ==>
              forall f | f in Frames(free, base, hi) :: base + k <= f
  {
    assert IsFreeFrame(free, base, base + k);
  }

  lemma FreeBelow(words: seq<nat>, width: nat, lo: nat, hi: nat)
    requires IsWidth(width) && hi <= width * |words|
    ensures forall k | k in FreeSet(words, width, lo, hi) :: k < hi
  {
  }

  lemma NoFrames(base: nat, hi: nat)
    ensures Frames({}, base, hi) == {}
  {
  }

  /** The bits below the first clear bit of a word are used frames. */
  lemma FirstInWord(words: seq<nat>, width: nat, i: nat, j: nat)
    requires IsWidth(width) && i < |words| && j < width
    requires forall m: nat | m < j :: Bit(words[i], m)
    ensures forall k: nat | width * i <= k < width * i + j :: Used(words, width, k)
    ensures Used(words, width, width * i + j) <==> Bit(words[i], j)
  {
    forall k: nat | width * i <= k <= width * i + j
      ensures k / width == i && k % width == k - width * i
    {
    }
  }

  /** A word with no clear bit has no free frame. */
  lemma WordFull(words: seq<nat>, width: nat, i: nat)
    requires IsWidth(width) && i < |words|
    requires forall j: nat | j < width :: Bit(words[i], j)
    ensures forall k: nat | width * i <= k < width * i + width :: Used(words, width, k)
  {
    forall k: nat | width * i <= k < width * i + width
      ensures Used(words, width, k)
    {
      assert k / width == i;
    }
  }

  // ---------------------------------------------------------------- population count

  /** The hardware `popcnt`: the number of set bits among the low `n` bits. */
  function PopCount(w: nat, n: nat): nat {
    if n == 0 then 0 else PopCount(w, n - 1) + (if Bit(w, n - 1) then 1 else 0)
  }

  /** Frames `[base, base + n)` marked in a word that starts at frame `base`. */
  ghost function WordBits(w: nat, n: nat, base: nat): set<nat>
  {
    set k: nat {:trigger Bit(w, k)} | k < n && Bit(w, k) :: base + k
  }

  lemma {:induction false} PopCountIsCard(w: nat, n: nat, base: nat)
    ensures PopCount(w, n) == |WordBits(w, n, base)|
  {
    hide Bit;
    if n > 0 {
      PopCountIsCard(w, n - 1, base);
      var s, last := WordBits(w, n - 1, base), base + n - 1;
      assert WordBits(w, n, base) == if Bit(w, n - 1) then s + {last} else s;
      assert last !in s;
    }
  }

  /** Adding one more word adds exactly its population count. */
  lemma UsedSetGrows(words: seq<nat>, i: nat)
    requires i < |words|
    ensures |UsedSet(words[..i + 1], 64)| == |UsedSet(words[..i], 64)| + PopCount(words[i], 64)
  {
    var before, word := UsedSet(words[..i], 64), WordBits(words[i], 64, 64 * i);
    PopCountIsCard(words[i], 64, 64 * i);
    forall k: nat
      ensures k in UsedSet(words[..i + 1], 64) <==> k in before + word
    {
      if 64 * i <= k < 64 * i + 64 {
        assert k / 64 == i && k % 64 == k - 64 * i;
      }
    }
    assert UsedSet(words[..i + 1], 64) == before + word;
    assert before !! word;
  }

  // ---------------------------------------------------------------- the two views agree

  /** A low part of `n` bits and a high part, as one word. */
  function JoinAt(lo: nat, hi: nat, n: nat): nat {
    if n == 0 then hi else 2 * JoinAt(lo / 2, hi, n - 1) + lo % 2
  }

  lemma {:induction false} JoinBits(lo: nat, hi: nat, n: nat, j: nat)
    ensures Bit(JoinAt(lo, hi, n), j) <==> if j < n then Bit(lo, j) else Bit(hi, j - n)
  {
    if n > 0 && j > 0 {
      JoinBits(lo / 2, hi, n - 1, j - 1);
    }
  }

  lemma DoubledOnes(o: nat, hi: nat)
    ensures (2 * o + 1 + 1) * hi == 2 * ((o + 1) * hi)
  {
  }

  /** Joining is little-endian concatenation: `lo + (hi << n)`. */
  lemma {:induction false} JoinIsSum(lo: nat, hi: nat, n: nat)
    requires lo <= Ones(n)
    ensures JoinAt(lo, hi, n) == lo + (Ones(n) + 1) * hi
  {
    if n > 0 {
      HalfBelow(lo, n);
      JoinIsSum(lo / 2, hi, n - 1);
      DoubledOnes(Ones(n - 1), hi);
      hide Ones;
    } else {
      assert 1 * hi == hi;
    }
  }

  /** The boot bitmap as the kernel reads it. */
  function Widen(words: seq<nat>): (r: seq<nat>)
    requires |words| % 2 == 0
    ensures |r| == |words| / 2
  {
    seq(|words| / 2, i requires 0 <= i < |words| / 2 => JoinAt(words[2 * i], words[2 * i + 1], 32))
  }

  /** A frame is in use for the kernel exactly when the boot code marked it. */
  lemma WidenKeepsUse(words: seq<nat>)
    requires |words| % 2 == 0
    ensures UsedSet(Widen(words), 64) == UsedSet(words, 32)
  {
    forall k: nat | k < 32 * |words|
      ensures Used(Widen(words), 64, k) <==> Used(words, 32, k)
    {
      var i := k / 64;
      JoinBits(words[2 * i], words[2 * i + 1], 32, k % 64);
      if k % 64 < 32 {
        assert k / 32 == 2 * i && k % 32 == k % 64;
      } else {
        assert k / 32 == 2 * i + 1 && k % 32 == k % 64 - 32;
      }
    }
  }
}
