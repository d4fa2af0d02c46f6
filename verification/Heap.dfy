/** The kernel heap as it lives in memory: block headers inside the managed bytes, linked by
    address, changed in place by every operation. */
module Heap {
  import opened HeapSpec

  /** The 64-bit words of memory; the word of a byte address is `address / 8`. */
  type Words = seq<nat>

  function WordOf(addr: nat): nat {
    addr / 8
  }

  function NextAddr(bs: seq<Block>, i: nat): nat
    requires i < |bs|
  {
    if i + 1 < |bs| then bs[i + 1].addr else 0
  }

  /** The header of block `i`: size, next, free. */
  ghost predicate HeaderAt(words: Words, bs: seq<Block>, i: nat)
    requires i < |bs|
  {
    var w := WordOf(bs[i].addr);
    && w + 3 <= |words|
    && words[w] == bs[i].size
    && words[w + 1] == NextAddr(bs, i)
    && words[w + 2] == (if bs[i].free then 1 else 0)
  }

  ghost predicate Encodes(words: Words, base: nat, bs: seq<Block>) {
    && base == (if bs == [] then 0 else bs[0].addr)
    && forall i | 0 <= i < |bs| :: HeaderAt(words, bs, i)
  }

  /** Some byte of word `w` belongs to the data of block `b`. */
  ghost predicate InData(b: Block, w: nat) {
    8 * w + 8 > b.Data() && 8 * w < b.Limit()
  }

  ghost predicate InAnyData(live: set<Block>, w: nat) {
    exists b | b in live :: InData(b, w)
  }

  /** Headers lie three words apart or more, and outside all data. */
  lemma HeadersApart(bs: seq<Block>, end: nat, i: nat, j: nat)
    requires Ordered(bs, end) && Aligned(bs) && i < j < |bs|
    ensures WordOf(bs[i].addr) + 3 <= WordOf(bs[j].addr)
  {
    assert bs[i].Limit() <= bs[j].addr;
  }

  lemma HeaderNotData(bs: seq<Block>, end: nat, i: nat, j: nat, w: nat)
    requires Ordered(bs, end) && Aligned(bs) && i < |bs| && j < |bs|
    requires WordOf(bs[i].addr) <= w < WordOf(bs[i].addr) + 3
    ensures !InData(bs[j], w)
  {
    assert bs[i].Data() % 32 == 0;
    assert i < j ==> bs[i].Limit() <= bs[j].addr;
    assert j < i ==> bs[j].Limit() <= bs[i].addr;
    hide Ordered, Aligned;
    HeaderWords(bs[i].addr, w);
  }

  lemma HeaderWords(addr: nat, w: nat)
    requires (addr + HEADER) % 32 == 0 && WordOf(addr) <= w < WordOf(addr) + 3
    ensures addr <= 8 * w && 8 * w + 8 <= addr + HEADER
  {
  }

  /** Writing a header of the list `t` touches no data of blocks that are in `t`. */
  lemma HeaderNotLive(t: seq<Block>, live: set<Block>, end: nat, i: nat)
    requires Ordered(t, end) && Aligned(t) && i < |t|
    requires forall b | b in live :: b in t
    ensures forall w | WordOf(t[i].addr) <= w < WordOf(t[i].addr) + 3 :: !InAnyData(live, w)
  {
    forall w, b | WordOf(t[i].addr) <= w < WordOf(t[i].addr) + 3 && b in live
      ensures !InData(b, w)
    {
      var j :| 0 <= j < |t| && t[j] == b;
      HeaderNotData(t, end, i, j, w);
    }
  }

  /** No word of these blocks' data differs. */
  ghost predicate SameData(live: set<Block>, words: Words, words': Words) {
    |words'| == |words| && forall w: nat | w < |words| && InAnyData(live, w) :: words'[w] == words[w]
  }

  lemma SameDataTrans(live: set<Block>, a: Words, b: Words, c: Words)
    requires SameData(live, a, b) && SameData(live, b, c)
    ensures SameData(live, a, c)
  {
  }

  function PutHeader(words: Words, addr: nat, size: nat, next: nat, free: bool): (r: Words)
    requires WordOf(addr) + 3 <= |words|
    ensures |r| == |words|
    ensures r[WordOf(addr)] == size && r[WordOf(addr) + 1] == next
    ensures r[WordOf(addr) + 2] == if free then 1 else 0
    ensures forall k | 0 <= k < |words| && !(WordOf(addr) <= k < WordOf(addr) + 3) :: r[k] == words[k]
  {
    var w := WordOf(addr);
    words[w := size][w + 1 := next][w + 2 := if free then 1 else 0]
  }

  /** Size and next pointer only. */
  function PutSizeNext(words: Words, addr: nat, size: nat, next: nat): (r: Words)
    requires WordOf(addr) + 3 <= |words|
    ensures |r| == |words|
    ensures r[WordOf(addr)] == size && r[WordOf(addr) + 1] == next
    ensures forall k | 0 <= k < |words| && k != WordOf(addr) && k != WordOf(addr) + 1 :: r[k] == words[k]
  {
    words[WordOf(addr) := size][WordOf(addr) + 1 := next]
  }

  /** Block `i` of one list is block `j` of another, with the same header words. */
  lemma HeaderKept(words: Words, words': Words, bs: seq<Block>, i: nat, t: seq<Block>, j: nat)
    requires i < |bs| && j < |t| && HeaderAt(words, bs, i) && |words'| == |words|
    requires bs[i] == t[j] && NextAddr(bs, i) == NextAddr(t, j)
    requires forall k | WordOf(bs[i].addr) <= k < WordOf(bs[i].addr) + 3 :: words'[k] == words[k]
    ensures HeaderAt(words', t, j)
  {
  }

  function LinkLast(words: Words, bs: seq<Block>, addr: nat): (r: Words)
    requires bs != [] ==> WordOf(bs[|bs| - 1].addr) + 3 <= |words|
    ensures |r| == |words|
  {
    if bs == [] then words else words[WordOf(bs[|bs| - 1].addr) + 1 := addr]
  }

  lemma AppendEncodesOld(words: Words, base: nat, bs: seq<Block>, b: Block, end: nat, i: nat)
    requires Encodes(words, base, bs) && Ordered(bs + [b], end) && Aligned(bs + [b]) && i < |bs|
    requires WordOf(b.addr) + 3 <= |words| && WordOf(bs[|bs| - 1].addr) + 3 <= |words|
    ensures HeaderAt(PutHeader(LinkLast(words, bs, b.addr), b.addr, b.size, 0, b.free), bs + [b], i)
  {
    hide PutHeader;
    var t, n := bs + [b], |bs|;
    var words' := PutHeader(LinkLast(words, bs, b.addr), b.addr, b.size, 0, b.free);
    assert HeaderAt(words, bs, i);
    HeadersApart(t, end, i, n);
    if i < n - 1 {
      HeadersApart(t, end, i, n - 1);
      assert t[i] == bs[i] && t[n - 1] == bs[n - 1] && NextAddr(t, i) == NextAddr(bs, i);
      hide Ordered, Aligned, Encodes, HeaderAt;
      HeaderKept(words, words', bs, i, t, i);
    }
  }

  /** Linking a new last block. */
  lemma AppendEncodes(words: Words, base: nat, bs: seq<Block>, b: Block, end: nat)
    requires Encodes(words, base, bs) && Ordered(bs + [b], end) && Aligned(bs + [b])
    requires WordOf(b.addr) + 3 <= |words|
    ensures bs != [] ==> WordOf(bs[|bs| - 1].addr) + 3 <= |words|
    ensures Encodes(PutHeader(LinkLast(words, bs, b.addr), b.addr, b.size, 0, b.free),
                    if bs == [] then b.addr else base, bs + [b])
  {
    hide Ordered, Aligned;
    var t, n := bs + [b], |bs|;
    assert n > 0 ==> HeaderAt(words, bs, n - 1);
    var words' := PutHeader(LinkLast(words, bs, b.addr), b.addr, b.size, 0, b.free);
    assert HeaderAt(words', t, n);
    hide PutHeader, LinkLast, HeaderAt;
    forall i | 0 <= i < n
      ensures HeaderAt(words', t, i)
    {
      AppendEncodesOld(words, base, bs, b, end, i);
    }
  }

  /** Everything about the writes of `requestSpace`. */
  lemma AppendStep(words: Words, base: nat, bs: seq<Block>, end: nat, size: nat)
    requires HeapSpec.Heap(bs, end) && Encodes(words, base, bs)
    requires Realign(end) + size + HEADER + 1 <= 8 * |words|
    ensures Realign(end) > 0 && WordOf(Realign(end)) + 3 <= |words|
    ensures bs != [] ==> bs[|bs| - 1].addr > 0 && WordOf(bs[|bs| - 1].addr) + 3 <= |words|
    ensures var b := Block(Realign(end), size, false);
            var words' := PutHeader(LinkLast(words, bs, b.addr), b.addr, size, 0, false);
            && HeapSpec.Heap(bs + [b], b.addr + size + HEADER + 1)
            && Encodes(words', if bs == [] then b.addr else base, bs + [b])
            && SameData(Live(bs), words, words')
  {
    var b, limit := Block(Realign(end), size, false), Realign(end) + size + HEADER + 1;
    AppendKeeps(bs, end, size);
    assert Ordered(bs + [b], limit) && Aligned(bs + [b]) && (bs + [b])[|bs|] == b;
    assert bs != [] ==> (bs + [b])[|bs| - 1] == bs[|bs| - 1];
    hide HeapSpec.Heap, Ordered, Coalesced;
    HeaderWords(b.addr, WordOf(b.addr) + 2);
    assert b.addr > 0 && (bs != [] ==> bs[|bs| - 1].addr > 0);
    hide Aligned, Realign;
    AppendEncodes(words, base, bs, b, limit);
    HeaderNotLive(bs + [b], Live(bs), limit, |bs|);
    if bs != [] {
      HeaderNotLive(bs + [b], Live(bs), limit, |bs| - 1);
    }
    hide Encodes, InAnyData;
  }

  function CutWords(words: Words, i: nat, bs: seq<Block>, a: Block, r: Block): (w: Words)
    requires i < |bs| && WordOf(r.addr) + 3 <= |words| && WordOf(a.addr) + 3 <= |words|
    ensures |w| == |words|
  {
    PutSizeNext(PutHeader(words, r.addr, r.size, NextAddr(bs, i), r.free), a.addr, a.size, r.addr)
  }

  lemma InsertEncodesOld(words: Words, base: nat, bs: seq<Block>, i: nat, a: Block, r: Block, end: nat, j: nat)
    requires Encodes(words, base, bs) && i < |bs| && a.addr == bs[i].addr && j < |bs| && j != i
    requires Ordered(Inserted(bs, i, a, r), end) && Aligned(Inserted(bs, i, a, r))
    requires WordOf(r.addr) + 3 <= |words| && WordOf(a.addr) + 3 <= |words|
    ensures HeaderAt(CutWords(words, i, bs, a, r), Inserted(bs, i, a, r), if j < i then j else j + 1)
  {
    hide PutHeader, PutSizeNext;
    var t := Inserted(bs, i, a, r);
    var words' := CutWords(words, i, bs, a, r);
    var k := if j < i then j else j + 1;
    assert HeaderAt(words, bs, j);
    if j < i {
      HeadersApart(t, end, j, i);
      HeadersApart(t, end, j, i + 1);
    } else {
      HeadersApart(t, end, i, k);
      HeadersApart(t, end, i + 1, k);
    }
    HeaderKept(words, words', bs, j, t, k);
  }

  lemma InsertEncodesNew(words: Words, base: nat, bs: seq<Block>, i: nat, a: Block, r: Block, end: nat)
    requires Encodes(words, base, bs) && i < |bs| && a.addr == bs[i].addr && a.free == bs[i].free
    requires Ordered(Inserted(bs, i, a, r), end) && Aligned(Inserted(bs, i, a, r))
    requires WordOf(r.addr) + 3 <= |words| && WordOf(a.addr) + 3 <= |words|
    ensures HeaderAt(CutWords(words, i, bs, a, r), Inserted(bs, i, a, r), i)
    ensures HeaderAt(CutWords(words, i, bs, a, r), Inserted(bs, i, a, r), i + 1)
  {
    hide PutHeader, PutSizeNext;
    assert HeaderAt(words, bs, i);
    HeadersApart(Inserted(bs, i, a, r), end, i, i + 1);
  }

  /** Cutting block `i` and linking the remainder `r` behind it. */
  lemma InsertEncodes(words: Words, base: nat, bs: seq<Block>, i: nat, a: Block, r: Block, end: nat)
    requires Encodes(words, base, bs) && i < |bs| && a.addr == bs[i].addr && a.free == bs[i].free
    requires Ordered(Inserted(bs, i, a, r), end) && Aligned(Inserted(bs, i, a, r))
    requires WordOf(r.addr) + 3 <= |words| && WordOf(a.addr) + 3 <= |words|
    ensures Encodes(CutWords(words, i, bs, a, r), base, Inserted(bs, i, a, r))
  {
    hide PutHeader, PutSizeNext;
    InsertEncodesNew(words, base, bs, i, a, r, end);
    forall j | 0 <= j <= |bs|
      ensures HeaderAt(CutWords(words, i, bs, a, r), Inserted(bs, i, a, r), j)
    {
      if j < i {
        InsertEncodesOld(words, base, bs, i, a, r, end, j);
      } else if j > i + 1 {
        InsertEncodesOld(words, base, bs, i, a, r, end, j - 1);
      }
    }
  }

  /** Rewriting the free flag of block `i`. */
  lemma MarkEncodes(words: Words, base: nat, bs: seq<Block>, i: nat, free: bool, end: nat)
    requires Encodes(words, base, bs) && i < |bs| && Ordered(bs, end) && Aligned(bs)
    ensures WordOf(bs[i].addr) + 3 <= |words|
    ensures Encodes(words[WordOf(bs[i].addr) + 2 := if free then 1 else 0], base, bs[i := bs[i].(free := free)])
  {
    assert HeaderAt(words, bs, i);
    var t := bs[i := bs[i].(free := free)];
    var words' := words[WordOf(bs[i].addr) + 2 := if free then 1 else 0];
    forall j | 0 <= j < |t|
      ensures HeaderAt(words', t, j)
    {
      assert HeaderAt(words, bs, j);
      assert NextAddr(t, j) == NextAddr(bs, j);
      if j < i {
        HeadersApart(bs, end, j, i);
      } else if i < j {
        HeadersApart(bs, end, i, j);
      }
    }
  }

  function JoinedAt(bs: seq<Block>, i: nat): (t: seq<Block>)
    requires i + 1 < |bs|
    ensures |t| == |bs| - 1
    ensures forall j | 0 <= j < |t| :: t[j] == if j < i then bs[j] else if j == i then Joined(bs[i],
        bs[i + 1]) else bs[j + 1]
  {
    bs[..i] + [Joined(bs[i], bs[i + 1])] + bs[i + 2..]
  }

  function JoinWords(words: Words, bs: seq<Block>, i: nat): (w: Words)
    requires i + 1 < |bs| && WordOf(bs[i].addr) + 3 <= |words|
  {
    PutSizeNext(words, bs[i].addr, bs[i].size + HEADER + bs[i + 1].size, NextAddr(bs, i + 1))
  }

  lemma JoinEncodesOld(words: Words, base: nat, bs: seq<Block>, i: nat, end: nat, j: nat)
    requires Encodes(words, base, bs) && i + 1 < |bs| && Ordered(bs, end) && Aligned(bs)
    requires WordOf(bs[i].addr) + 3 <= |words| && j < |bs| && j != i && j != i + 1
    ensures HeaderAt(JoinWords(words, bs, i), JoinedAt(bs, i), if j < i then j else j - 1)
  {
    hide PutSizeNext;
    var t, k := JoinedAt(bs, i), if j < i then j else j - 1;
    assert HeaderAt(words, bs, j);
    if j < i {
      HeadersApart(bs, end, j, i);
      assert t[k + 1].addr == bs[j + 1].addr;
    } else {
      HeadersApart(bs, end, i, j);
    }
    assert t[k] == bs[j] && NextAddr(t, k) == NextAddr(bs, j);
    hide JoinedAt, NextAddr, HeaderAt, Encodes, Ordered, Aligned;
    HeaderKept(words, JoinWords(words, bs, i), bs, j, t, k);
  }

  /** Unlinking block `i + 1` and giving its bytes to block `i`. */
  lemma JoinEncodes(words: Words, base: nat, bs: seq<Block>, i: nat, end: nat)
    requires Encodes(words, base, bs) && i + 1 < |bs| && Ordered(bs, end) && Aligned(bs)
    ensures WordOf(bs[i].addr) + 3 <= |words|
    ensures Encodes(JoinWords(words, bs, i), base, JoinedAt(bs, i))
  {
    hide Ordered, Aligned;
    assert HeaderAt(words, bs, i) && HeaderAt(words, bs, i + 1);
    var t := JoinedAt(bs, i);
    var words' := JoinWords(words, bs, i);
    assert HeaderAt(words', t, i);
    hide HeaderAt, JoinWords;
    forall j | 0 <= j < |t|
      ensures HeaderAt(words', t, j)
    {
      if j < i {
        JoinEncodesOld(words, base, bs, i, end, j);
      } else if i < j {
        JoinEncodesOld(words, base, bs, i, end, j + 1);
      }
    }
  }

  /** Being free or not does not matter for order, alignment and membership. */
  lemma SameShape(bs: seq<Block>, end: nat, i: nat, a: Block, r: Block)
    requires i < |bs| && bs[i].free && a.free
    requires HeapSpec.Heap(Inserted(bs, i, a.(free := false), r), end)
    ensures Ordered(Inserted(bs, i, a, r), end) && Aligned(Inserted(bs, i, a, r))
    ensures forall b | b in Live(bs) :: b in Inserted(bs, i, a, r)
  {
    var t, t' := Inserted(bs, i, a, r), Inserted(bs, i, a.(free := false), r);
    assert forall j | 0 <= j < |t| :: t[j].addr == t'[j].addr && t[j].size == t'[j].size;
    forall b | b in Live(bs)
      ensures b in t
    {
      var j :| 0 <= j < |bs| && bs[j] == b;
      assert t[if j < i then j else j + 1] == b;
    }
  }

  /** Everything about the writes of `split`. */
  lemma CutStep(words: Words, base: nat, bs: seq<Block>, end: nat, i: nat, size: nat)
    requires HeapSpec.Heap(bs, end) && Encodes(words, base, bs) && i < |bs| && Fits(bs[i], size)
    requires bs[i].size > size + HEADER && Remainder(bs, i, size).size > 0 && end <= 8 * |words|
    ensures var a, r := bs[i].(size := size), Remainder(bs, i, size);
            && WordOf(r.addr) + 3 <= |words| && WordOf(a.addr) + 3 <= WordOf(r.addr)
            && Encodes(CutWords(words, i, bs, a, r), base, HeapSpec.Split(bs, i, size))
            && SameData(Live(bs), words, CutWords(words, i, bs, a, r))
  {
    hide PutHeader, PutSizeNext;
    var a, r := bs[i].(size := size), Remainder(bs, i, size);
    RemainderFits(bs, end, i, size);
    InsertKeeps(bs, end, i, a.(free := false), r);
    SameShape(bs, end, i, a, r);
    HeadersApart(Inserted(bs, i, a, r), end, i, i + 1);
    HeaderNotLive(Inserted(bs, i, a, r), Live(bs), end, i);
    HeaderNotLive(Inserted(bs, i, a, r), Live(bs), end, i + 1);
    assert r.Limit() < end;
    InsertEncodes(words, base, bs, i, a, r, end);
  }

  lemma SplitOrdered(bs: seq<Block>, end: nat, i: nat, size: nat)
    requires HeapSpec.Heap(bs, end) && i < |bs| && Fits(bs[i], size)
    ensures var s := HeapSpec.Split(bs, i, size);
            && i < |s| && s[i].addr == bs[i].addr && Ordered(s, end) && Aligned(s)
            && (forall b | b in Live(bs) :: b in s)
  {
    var r := Remainder(bs, i, size);
    if HeapSpec.Split(bs, i, size) != bs {
      var a := bs[i].(size := size);
      RemainderFits(bs, end, i, size);
      InsertKeeps(bs, end, i, a.(free := false), r);
      SameShape(bs, end, i, a, r);
      assert HeapSpec.Split(bs, i, size) == Inserted(bs, i, a, r);
    }
  }

  lemma JoinOrdered(bs: seq<Block>, k: nat, end: nat)
    requires Ordered(bs, end) && Aligned(bs) && k + 1 < |bs|
    ensures Ordered(JoinedAt(bs, k), end) && Aligned(JoinedAt(bs, k))
  {
    var t := JoinedAt(bs, k);
    assert bs[k].Limit() <= bs[k + 1].addr;
    forall i, j | 0 <= i < j < |t|
      ensures t[i].Limit() <= t[j].addr
    {
      assert bs[if i <= k then i else i + 1].Limit() <= bs[if j <= k then j else j + 1].addr;
      if i == k {
        assert bs[k + 1].Limit() <= bs[j + 1].addr;
      }
    }
  }

  /** One merging step at index `k` of the list. */
  lemma JoinStep(bs: seq<Block>, k: nat, end: nat)
    requires Ordered(bs, end) && Aligned(bs) && k + 1 < |bs| && bs[k].free && bs[k + 1].free
    ensures Ordered(JoinedAt(bs, k), end) && Aligned(JoinedAt(bs, k))
    ensures bs[..k] + Merged(bs[k..]) == JoinedAt(bs, k)[..k] + Merged(JoinedAt(bs, k)[k..])
    ensures forall b | b in bs && !b.free :: b in JoinedAt(bs, k)
  {
    var t := JoinedAt(bs, k);
    JoinOrdered(bs, k, end);
    hide Ordered, Aligned;
    assert bs[k..][2..] == bs[k + 2..] && t[k..] == [Joined(bs[k], bs[k + 1])] + bs[k..][2..];
    assert t[..k] == bs[..k];
    forall b | b in bs && !b.free
      ensures b in t
    {
      var j :| 0 <= j < |bs| && bs[j] == b;
      assert t[if j < k then j else j - 1] == b;
    }
  }

  lemma NothingToJoin(bs: seq<Block>, k: nat)
    requires |bs| <= k + 1 && k <= |bs|
    ensures bs[..k] + Merged(bs[k..]) == bs
  {
  }

  lemma SkipStep(bs: seq<Block>, k: nat)
    requires k + 1 < |bs| && !(bs[k].free && bs[k + 1].free)
    ensures bs[..k] + Merged(bs[k..]) == bs[..k + 1] + Merged(bs[k + 1..])
  {
    assert bs[k..][1..] == bs[k + 1..];
    assert bs[..k + 1] == bs[..k] + [bs[k]];
  }

  /** What the header of block `i` reads as. */
  ghost predicate Readable(words: Words, bs: seq<Block>, i: nat)
    requires i < |bs|
  {
    var w := WordOf(bs[i].addr);
    && w + 3 <= |words| && bs[i].addr > 0
    && words[w] == bs[i].size
    && words[w + 1] == NextAddr(bs, i)
    && (words[w + 2] != 0 <==> bs[i].free)
    && (words[w + 1] != 0 <==> i + 1 < |bs|)
  }

  /** Progress of `merge`: blocks before index `k` are final, and no data has changed. */
  ghost predicate Merging(bs0: seq<Block>, words0: Words, base: nat, words: Words, bs: seq<Block>, k: nat, end: nat) {
    && Encodes(words, base, bs) && Ordered(bs, end) && Aligned(bs) && k <= |bs|
    && Merged(bs0) == bs[..k] + Merged(bs[k..])
    && SameData(Live(bs0), words0, words)
    && (forall b | b in Live(bs0) :: b in bs)
  }

  lemma MergeStarts(words: Words, base: nat, bs: seq<Block>, end: nat)
    requires Encodes(words, base, bs) && Ordered(bs, end) && Aligned(bs)
    ensures Merging(bs, words, base, words, bs, 0, end)
    ensures base == (if bs == [] then 0 else bs[0].addr)
    ensures bs != [] ==> Readable(words, bs, 0)
  {
    assert bs[..0] + Merged(bs[0..]) == Merged(bs);
    if bs != [] {
      assert HeaderAt(words, bs, 0);
    }
  }

  lemma MergeReads(bs0: seq<Block>, words0: Words, base: nat, words: Words, bs: seq<Block>, k: nat, end: nat)
    requires Merging(bs0, words0, base, words, bs, k, end) && k + 1 < |bs|
    ensures Readable(words, bs, k) && Readable(words, bs, k + 1)
  {
    assert HeaderAt(words, bs, k) && HeaderAt(words, bs, k + 1);
  }

  lemma MergeJoins(bs0: seq<Block>, words0: Words, base: nat, words: Words, bs: seq<Block>, k: nat, end: nat)
    requires Merging(bs0, words0, base, words, bs, k, end) && k + 1 < |bs| && bs[k].free && bs[k + 1].free
    ensures WordOf(bs[k].addr) + 3 <= |words|
    ensures var words' := JoinWords(words, bs, k);
            && Merging(bs0, words0, base, words', JoinedAt(bs, k), k, end)
            && Readable(words', JoinedAt(bs, k), k)
  {
    assert Aligned(bs) && bs[k].addr > 0;
    hide PutSizeNext, Ordered, Aligned, Merged;
    JoinStep(bs, k, end);
    JoinEncodes(words, base, bs, k, end);
    HeaderNotLive(bs, Live(bs0), end, k);
    JoinTouchesNoData(words, bs, Live(bs0), k);
    var words' := JoinWords(words, bs, k);
    SameDataTrans(Live(bs0), words0, words, words');
    hide JoinWords, SameData;
    assert HeaderAt(words', JoinedAt(bs, k), k) && JoinedAt(bs, k)[k].addr == bs[k].addr;
  }

  lemma JoinTouchesNoData(words: Words, bs: seq<Block>, live: set<Block>, k: nat)
    requires k + 1 < |bs| && WordOf(bs[k].addr) + 3 <= |words|
    requires forall w | WordOf(bs[k].addr) <= w < WordOf(bs[k].addr) + 3 :: !InAnyData(live, w)
    ensures SameData(live, words, JoinWords(words, bs, k))
  {
    hide InAnyData, PutSizeNext;
  }

  lemma MergeSkips(bs0: seq<Block>, words0: Words, base: nat, words: Words, bs: seq<Block>, k: nat, end: nat)
    requires Merging(bs0, words0, base, words, bs, k, end) && k + 1 < |bs| && !(bs[k].free && bs[k + 1].free)
    ensures Merging(bs0, words0, base, words, bs, k + 1, end)
  {
    SkipStep(bs, k);
  }

  lemma MergeEnds(bs0: seq<Block>, words0: Words, base: nat, words: Words, bs: seq<Block>, k: nat, end: nat)
    requires Merging(bs0, words0, base, words, bs, k, end) && |bs| <= k + 1
    ensures bs == Merged(bs0) && Encodes(words, base, bs) && SameData(Live(bs0), words0, words)
  {
    NothingToJoin(bs, k);
  }

  lemma FlagKeepsOrder(bs: seq<Block>, end: nat, i: nat, free: bool)
    requires Ordered(bs, end) && Aligned(bs) && i < |bs|
    ensures Ordered(bs[i := bs[i].(free := free)], end) && Aligned(bs[i := bs[i].(free := free)])
  {
  }

  lemma FlagTouchesNoData(words: Words, bs: seq<Block>, live: set<Block>, end: nat, i: nat, flag: nat)
    requires Ordered(bs, end) && Aligned(bs) && i < |bs| && forall b | b in live :: b in bs
    requires WordOf(bs[i].addr) + 3 <= |words|
    ensures SameData(live, words, words[WordOf(bs[i].addr) + 2 := flag])
  {
    HeaderNotLive(bs, live, end, i);
    hide InAnyData, Ordered, Aligned;
  }

  lemma LiveInList(bs: seq<Block>)
    ensures forall b | b in Live(bs) :: b in bs
  {
  }

  /** Marking block `i` free, before merging. */
  lemma FreeMark(words: Words, base: nat, bs: seq<Block>, end: nat, i: nat)
    requires HeapSpec.Heap(bs, end) && Encodes(words, base, bs) && i < |bs| && !bs[i].free
    ensures WordOf(bs[i].addr) + 3 <= |words| && words[WordOf(bs[i].addr)] == bs[i].size
    ensures var bs' := bs[i := bs[i].(free := true)];
            var words' := words[WordOf(bs[i].addr) + 2 := 1];
            && Encodes(words', base, bs') && Ordered(bs', end) && Aligned(bs')
            && Live(bs') == Live(Freed(bs, i)) && SameData(Live(bs'), words, words')
            && Merged(bs') == Freed(bs, i) && HeapSpec.Heap(Freed(bs, i), end)
            && LiveBytes(Freed(bs, i)) == LiveBytes(bs) - bs[i].size - HEADER
  {
    assert Ordered(bs, end) && Aligned(bs) && HeaderAt(words, bs, i);
    hide Ordered, Aligned, LiveBytes, HeapSpec.Heap, Encodes, Live, SameData;
    FlagKeepsOrder(bs, end, i, true);
    FreeKeeps(bs, end, i);
    FreeBalances(bs, i);
    MarkEncodes(words, base, bs, i, true, end);
    MarkFreeLive(bs, end, i);
    hide HeaderAt, Merged;
    LiveInList(bs);
    FlagTouchesNoData(words, bs, Live(bs) - {bs[i]}, end, i, 1);
  }

  lemma DataApart(bs: seq<Block>, end: nat, i: nat, j: nat, w: nat)
    requires Ordered(bs, end) && i < |bs| && j < |bs| && i != j && InData(bs[i], w)
    ensures !InData(bs[j], w)
  {
    assert i < j ==> bs[i].Limit() <= bs[j].addr;
    assert j < i ==> bs[j].Limit() <= bs[i].addr;
  }

  /** What a client writes into its block changes neither the list nor another block's data. */
  lemma ClientWriteKeeps(words: Words, base: nat, bs: seq<Block>, end: nat, j: nat, w: nat, value: nat)
    requires Ordered(bs, end) && Aligned(bs) && Encodes(words, base, bs)
    requires j < |bs| && w < |words| && InData(bs[j], w)
    ensures Encodes(words[w := value], base, bs)
    ensures SameData(Live(bs) - {bs[j]}, words, words[w := value])
  {
    var words' := words[w := value];
    forall i | 0 <= i < |bs|
      ensures HeaderAt(words', bs, i)
    {
      assert HeaderAt(words, bs, i);
      if WordOf(bs[i].addr) <= w < WordOf(bs[i].addr) + 3 {
        HeaderNotData(bs, end, i, j, w);
      }
    }
    forall b | b in Live(bs) - {bs[j]}
      ensures !InData(b, w)
    {
      var i :| 0 <= i < |bs| && bs[i] == b;
      DataApart(bs, end, j, i, w);
    }
  }

  class Memory {
    /** Bytes held by live allocations, headers included. */
    var allocatedBytes: nat
    var base: nat
    var end: nat
    const words: array<nat>
    /** The blocks of the list, in list order. */
    ghost var blocks: seq<Block>

    ghost predicate Valid()
      reads this, words
    {
      && HeapSpec.Heap(blocks, end)
      && Encodes(words[..], base, blocks)
      && allocatedBytes == LiveBytes(blocks)
      && (blocks == [] || end <= 8 * words.Length)
    }

    constructor (start: nat, memory: array<nat>)
      ensures Valid() && blocks == [] && end == start && words == memory
    {
      allocatedBytes, base, end, words, blocks := 0, 0, start, memory, [];
    }

    // -------------------------------------------------------------- header fields

    function SizeAt(block: nat): nat
      requires WordOf(block) + 3 <= words.Length
      reads words
    {
      words[WordOf(block)]
    }

    function NextAt(block: nat): nat
      requires WordOf(block) + 3 <= words.Length
      reads words
    {
      words[WordOf(block) + 1]
    }

    function FreeAt(block: nat): bool
      requires WordOf(block) + 3 <= words.Length
      reads words
    {
      words[WordOf(block) + 2] != 0
    }

    method WriteHeader(block: nat, size: nat, next: nat, free: bool)
      requires WordOf(block) + 3 <= words.Length
      modifies words
      ensures words[..] == PutHeader(old(words[..]), block, size, next, free)
    {
      words[WordOf(block)] := size;
      words[WordOf(block) + 1] := next;
      words[WordOf(block) + 2] := if free then 1 else 0;
    }

    method WriteSizeNext(block: nat, size: nat, next: nat)
      requires WordOf(block) + 3 <= words.Length
      modifies words
      ensures words[..] == PutSizeNext(old(words[..]), block, size, next)
    {
      words[WordOf(block)] := size;
      words[WordOf(block) + 1] := next;
    }

    /** First fit; `last` is left at the block before the result, or at the last block. */
    method FindFreeBlock(size: nat) returns (current: nat, last: nat)
      requires Encodes(words[..], base, blocks) && Aligned(blocks) && blocks != []
      ensures var i := FirstFit(blocks, size, 0);
              && current == (if i < |blocks| then blocks[i].addr else 0)
              && last == blocks[if i == 0 then 0 else i - 1].addr
    {
      last := base;
      current := base;
      ghost var i := 0;
      assert HeaderAt(words[..], blocks, 0);
      while current != 0 && !(FreeAt(current) && SizeAt(current) >= size)
        invariant i <= |blocks| && FirstFit(blocks, size, i) == FirstFit(blocks, size, 0)
        invariant current == (if i < |blocks| then blocks[i].addr else 0)
        invariant last == blocks[if i == 0 then 0 else i - 1].addr
        invariant i < |blocks| ==> HeaderAt(words[..], blocks, i)
        decreases |blocks| - i
      {
        last := current;
        current := NextAt(current);
        i := i + 1;
        assert i < |blocks| ==> HeaderAt(words[..], blocks, i);
      }
    }

    /** A new block at the end of the heap, linked behind `last`. */
    method RequestSpace(last: nat, size: nat) returns (block: nat)
      requires HeapSpec.Heap(blocks, end) && Encodes(words[..], base, blocks)
      requires last == (if blocks == [] then 0 else blocks[|blocks| - 1].addr)
      requires Realign(end) + size + HEADER + 1 <= 8 * words.Length
      modifies words, `blocks, `end
      ensures block == Realign(old(end)) && end == block + size + HEADER + 1
      ensures blocks == old(blocks) + [Block(block, size, false)]
      ensures HeapSpec.Heap(blocks, end) && block > 0
      ensures Encodes(words[..], if old(blocks) == [] then block else base, blocks)
      ensures SameData(Live(old(blocks)), old(words[..]), words[..])
    {
      ghost var bs, before := blocks, words[..];
      AppendStep(before, base, bs, end, size);
      hide HeapSpec.Heap, Encodes, SameData, Live, Realign;
      block := Realign(end);
      if last != 0 {
        words[WordOf(last) + 1] := block;
      }
      assert words[..] == LinkLast(before, bs, block);
      end := block + size + HEADER + 1;
      hide PutHeader, LinkLast;
      WriteHeader(block, size, 0, false);
      blocks := bs + [Block(block, size, false)];
    }

    /** Cuts a free block that is larger than needed. */
    method Split(block: nat, size: nat, ghost i: nat)
      requires HeapSpec.Heap(blocks, end) && Encodes(words[..], base, blocks) && i < |blocks|
      requires block == blocks[i].addr && Fits(blocks[i], size) && end <= 8 * words.Length
      modifies words, `blocks
      ensures blocks == HeapSpec.Split(old(blocks), i, size)
      ensures Encodes(words[..], base, blocks)
      ensures SameData(Live(old(blocks)), old(words[..]), words[..])
    {
      hide PutHeader, PutSizeNext;
      ghost var bs, before := blocks, words[..];
      assert HeaderAt(before, bs, i);
      if SizeAt(block) > size + HEADER {
        var addr := Realign(block + size + HEADER + 1);
        var next := NextAt(block);
        var newSize := if next != 0 then AsInt(next - addr - HEADER) else AsInt(block + SizeAt(block) - addr);
        if newSize > 0 {
          ghost var r := Remainder(bs, i, size);
          ghost var a := bs[i].(size := size);
          assert r == Block(addr, newSize, true);
          CutStep(before, base, bs, end, i, size);
          WriteHeader(addr, newSize, next, true);
          WriteSizeNext(block, size, addr);
          assert words[..] == CutWords(before, i, bs, a, r);
          blocks := HeapSpec.Split(bs, i, size);
        }
      }
    }

    /** Takes free block `i`, cut to size, for the caller. */
    method TakeBlock(block: nat, size: nat, ghost i: nat)
      requires HeapSpec.Heap(blocks, end) && Encodes(words[..], base, blocks) && i < |blocks|
      requires block == blocks[i].addr && Fits(blocks[i], size) && end <= 8 * words.Length
      modifies words, `blocks
      ensures var s := HeapSpec.Split(old(blocks), i, size);
              i < |s| && blocks == s[i := s[i].(free := false)] && s[i].addr == block
      ensures Encodes(words[..], base, blocks)
      ensures SameData(Live(old(blocks)), old(words[..]), words[..])
    {
      hide HeapSpec.Split, Remainder, Live, Ordered, Aligned, HeaderAt, InAnyData;
      ghost var bs := blocks;
      Split(block, size, i);
      ghost var cut := words[..];
      SplitOrdered(bs, end, i, size);
      MarkEncodes(cut, base, blocks, i, false, end);
      HeaderNotLive(blocks, Live(bs), end, i);
      words[WordOf(block) + 2] := 0;
      assert words[..] == cut[WordOf(block) + 2 := 0];
      blocks := blocks[i := blocks[i].(free := false)];
    }

    /** The block an allocation of `size` bytes is served from, found or requested. */
    method Acquire(size: nat) returns (block: nat)
      requires HeapSpec.Heap(blocks, end) && Encodes(words[..], base, blocks)
      requires NewEnd(blocks, end, size) <= 8 * words.Length
      requires end <= 8 * words.Length || blocks == []
      modifies words, `blocks, `base, `end
      ensures blocks == Allocated(old(blocks), old(end), size) && end == NewEnd(old(blocks), old(end), size)
      ensures FirstFit(old(blocks), size, 0) < |blocks|
      ensures block == blocks[FirstFit(old(blocks), size, 0)].addr
      ensures Encodes(words[..], base, blocks)
      ensures SameData(Live(old(blocks)), old(words[..]), words[..])
    {
      ghost var bs, e := blocks, end;
      ghost var i := FirstFit(bs, size, 0);
      AllocationKeeps(bs, end, size);
      assert Aligned(bs) && (base == 0 <==> bs == []) && (i < |bs| ==> bs[i].addr > 0);
      hide HeapSpec.Heap, Remainder, HeapSpec.Split, FirstFit, SameData, Aligned;
      if base == 0 {
        block := RequestSpace(0, size);
        base := block;
      } else {
        var last;
        block, last := FindFreeBlock(size);
        if block == 0 {
          block := RequestSpace(last, size);
        } else {
          TakeBlock(block, size, i);
        }
      }
    }

    /** `malloc`: the data address of a live block of at least `size` bytes, or 0 for size 0. */
    method Allocate(size: nat) returns (data: nat)
      requires Valid()
      requires size > 0 ==> NewEnd(blocks, end, size) <= 8 * words.Length
      modifies this, words
      ensures Valid()
      ensures size == 0 ==> data == 0 && blocks == old(blocks) && end == old(end) && words[..] == old(words[..])
      ensures size > 0 ==>
                && FirstFit(old(blocks), size, 0) < |blocks|
                && blocks == Allocated(old(blocks), old(end), size)
                && end == NewEnd(old(blocks), old(end), size)
                && data == Returned(old(blocks), old(end), size).Data()
      ensures SameData(Live(old(blocks)), old(words[..]), words[..])
    {
      if size == 0 {
        return 0;
      }
      ghost var i := FirstFit(blocks, size, 0);
      AllocationKeeps(blocks, end, size);
      AccountsBalance(blocks, end, size);
      var block := Acquire(size);
      assert HeaderAt(words[..], blocks, i);
      allocatedBytes := allocatedBytes + SizeAt(block) + HEADER;
      return block + HEADER;
    }

    /** The owner of live block `j` writes to a word of its data. */
    method ClientWrite(ghost j: nat, w: nat, value: nat)
      requires Valid() && j < |blocks| && !blocks[j].free && w < words.Length && InData(blocks[j], w)
      modifies words
      ensures Valid() && words[..] == old(words[..])[w := value]
      ensures SameData(Live(blocks) - {blocks[j]}, old(words[..]), words[..])
    {
      ClientWriteKeeps(words[..], base, blocks, end, j, w, value);
      hide HeaderAt, InData, InAnyData;
      words[w] := value;
    }

    /** Joins every run of free neighbours, in one pass from the front. */
    method Merge() returns (count: nat)
      requires Encodes(words[..], base, blocks) && Ordered(blocks, end) && Aligned(blocks)
      modifies words, `blocks
      ensures blocks == Merged(old(blocks)) && count == |old(blocks)| - |blocks|
      ensures TotalBytes(blocks) == TotalBytes(old(blocks))
      ensures Encodes(words[..], base, blocks)
      ensures SameData(Live(old(blocks)), old(words[..]), words[..])
    {
      hide Merging, Merged, PutSizeNext, SameData, Encodes, Ordered, Aligned, JoinedAt, TotalBytes;
      ghost var bs, before := blocks, words[..];
      MergeStarts(before, base, bs, end);
      count := 0;
      var current := base;
      ghost var k := 0;
      while current != 0 && NextAt(current) != 0
        invariant Merging(bs, before, base, words[..], blocks, k, end)
        invariant k <= |blocks| && current == (if k < |blocks| then blocks[k].addr else 0)
        invariant k < |blocks| ==> Readable(words[..], blocks, k)
        invariant count == |bs| - |blocks|
        decreases |blocks| - k
      {
        var next := NextAt(current);
        ghost var t := blocks;
        MergeReads(bs, before, base, words[..], t, k, end);
        if FreeAt(current) && FreeAt(next) {
          MergeJoins(bs, before, base, words[..], t, k, end);
          WriteSizeNext(current, SizeAt(current) + HEADER + SizeAt(next), NextAt(next));
          blocks := JoinedAt(t, k);
          count := count + 1;
        } else {
          MergeSkips(bs, before, base, words[..], t, k, end);
          current := next;
          k := k + 1;
        }
      }
      MergeEnds(bs, before, base, words[..], blocks, k, end);
      MergedConserves(bs);
    }

    /** Marks a live block free and merges; the counter is left to the caller. */
    method Release(block: nat, ghost i: nat)
      requires HeapSpec.Heap(blocks, end) && Encodes(words[..], base, blocks)
      requires i < |blocks| && blocks[i].addr == block && !blocks[i].free
      modifies words, `blocks
      ensures blocks == Freed(old(blocks), i)
      ensures Encodes(words[..], base, blocks)
      ensures SameData(Live(blocks), old(words[..]), words[..])
    {
      hide HeapSpec.Heap, LiveBytes, Merged, SameData, Encodes, Live, Ordered, Aligned, Freed;
      ghost var bs, before := blocks, words[..];
      FreeMark(before, base, bs, end, i);
      words[WordOf(block) + 2] := 1;
      blocks := bs[i := bs[i].(free := true)];
      assert words[..] == before[WordOf(block) + 2 := 1];
      ghost var marked, live := words[..], Live(blocks);
      var count := Merge();
      SameDataTrans(live, before, marked, words[..]);
    }

    /** `free`: releases the live block whose data starts at `data`; a null pointer is ignored. */
    method Free(data: nat, ghost i: nat)
      requires Valid()
      requires data != 0 ==> i < |blocks| && blocks[i].Data() == data && !blocks[i].free
      modifies this, words
      ensures Valid() && end == old(end)
      ensures blocks == if data == 0 then old(blocks) else Freed(old(blocks), i)
      ensures TotalBytes(blocks) == TotalBytes(old(blocks))
      ensures SameData(Live(blocks), old(words[..]), words[..])
    {
      if data == 0 {
        return;
      }
      FreeMark(words[..], base, blocks, end, i);
      FreeConserves(blocks, i);
      hide TotalBytes, LiveBytes, SameData, Encodes, HeapSpec.Heap, Freed;
      var block := data - HEADER;
      allocatedBytes := allocatedBytes - (SizeAt(block) + HEADER);
      Release(block, i);
    }
  }
}
