/** The kernel heap as a list of blocks in address order: what allocating and freeing do to the
    list, and what stays true of it. */
module HeapSpec {
  /** Bytes in a block header: size, next pointer, free flag and padding. */
  const HEADER: nat := 24
  const MEMORY_ALIGN: nat := 32

  datatype Block = Block(addr: nat, size: nat, free: bool) {
    function Data(): nat { addr + HEADER }
    /** First byte past the data. */
    function Limit(): nat { addr + HEADER + size }
  }

  /** The least header address from `val` on whose data is aligned. */
  function Realign(val: nat): (r: nat)
    ensures (r + HEADER) % MEMORY_ALIGN == 0 && val <= r < val + MEMORY_ALIGN
  {
    var offset := (val + HEADER) % MEMORY_ALIGN;
    if offset != 0 then val + (MEMORY_ALIGN - offset) else val
  }

  /** A 64-bit difference stored in an `int`. */
  function AsInt(x: int): (r: int)
    ensures -0x8000_0000 <= x < 0x8000_0000 ==> r == x
  {
    (x + 0x8000_0000) % 0x1_0000_0000 - 0x8000_0000
  }

  // ---------------------------------------------------------------- the invariant

  /** Header and data ranges are in address order and disjoint, and end before `end`. */
  ghost predicate Ordered(bs: seq<Block>, end: nat) {
    && (forall i | 0 <= i < |bs| :: bs[i].Limit() < end)
    && (forall i, j | 0 <= i < j < |bs| :: bs[i].Limit() <= bs[j].addr)
  }

  ghost predicate Aligned(bs: seq<Block>) {
    forall i | 0 <= i < |bs| :: bs[i].Data() % MEMORY_ALIGN == 0 && bs[i].addr > 0
  }

  /** Free neighbours have been merged. */
  ghost predicate Coalesced(bs: seq<Block>) {
    forall i | 0 <= i < |bs| - 1 :: !(bs[i].free && bs[i + 1].free)
  }

  ghost predicate Heap(bs: seq<Block>, end: nat) {
    Ordered(bs, end) && Aligned(bs) && Coalesced(bs)
  }

  ghost function Live(bs: seq<Block>): set<Block> {
    set b | b in bs && !b.free
  }

  /** Bytes held by live blocks, headers included. */
  function LiveBytes(bs: seq<Block>): nat {
    if bs == [] then 0
    else LiveBytes(bs[..|bs| - 1]) + (if bs[|bs| - 1].free then 0 else bs[|bs| - 1].size + HEADER)
  }

  // ---------------------------------------------------------------- operations

  predicate Fits(b: Block, size: nat) {
    b.free && b.size >= size
  }

  /** The first block that fits from index `k` on, or the length of the list. */
  function FirstFit(bs: seq<Block>, size: nat, k: nat): (i: nat)
    requires k <= |bs|
    ensures k <= i <= |bs|
    ensures i < |bs| ==> bs[i].free && bs[i].size >= size
    ensures forall j | k <= j < i :: !bs[j].free || bs[j].size < size
    decreases |bs| - k
  {
    if k == |bs| || Fits(bs[k], size) then k else FirstFit(bs, size, k + 1)
  }

  /** The room for the data of a block at `addr`, cut from block `i`. */
  function Room(bs: seq<Block>, i: nat, addr: nat): int
    requires i < |bs|
  {
    if i + 1 < |bs| then bs[i + 1].addr - addr - HEADER else bs[i].addr + bs[i].size - addr
  }

  /** Where `split` would put the remainder of block `i`, with the room it has, taken as an `int`. */
  function Remainder(bs: seq<Block>, i: nat, size: nat): (r: Block)
    requires i < |bs|
    ensures r.free && r.Data() % MEMORY_ALIGN == 0 && r.addr > bs[i].addr + HEADER + size
  {
    var b := bs[i];
    var addr := Realign(b.addr + size + HEADER + 1);
    var room := AsInt(Room(bs, i, addr));
    Block(addr, if room > 0 then room else 0, true)
  }

  /** `split`: cut block `i` down to `size` when enough room is left for another block. */
  function Split(bs: seq<Block>, i: nat, size: nat): seq<Block>
    requires i < |bs|
  {
    var r := Remainder(bs, i, size);
    if bs[i].size > size + HEADER && r.size > 0
    then bs[..i] + [bs[i].(size := size), r] + bs[i + 1..]
    else bs
  }

  /** First fit, split, and mark; or a new block at the end. */
  function Allocated(bs: seq<Block>, end: nat, size: nat): seq<Block> {
    var i := FirstFit(bs, size, 0);
    if i < |bs| then
      var s := Split(bs, i, size);
      s[i := s[i].(free := false)]
    else bs + [Block(Realign(end), size, false)]
  }

  function NewEnd(bs: seq<Block>, end: nat, size: nat): nat {
    if FirstFit(bs, size, 0) < |bs| then end else Realign(end) + size + HEADER + 1
  }

  /** The block that an allocation returns. */
  function Returned(bs: seq<Block>, end: nat, size: nat): Block {
    Allocated(bs, end, size)[FirstFit(bs, size, 0)]
  }

  function Joined(a: Block, b: Block): Block {
    a.(size := a.size + HEADER + b.size)
  }

  /** `merge`: left to right, each run of free neighbours becomes one block. */
  function Merged(bs: seq<Block>): (r: seq<Block>)
    ensures |r| <= |bs| && (bs != [] ==> r != [] && r[0].addr == bs[0].addr && r[0].free == bs[0].free)
    decreases |bs|
  {
    if |bs| < 2 then bs
    else if bs[0].free && bs[1].free then Merged([Joined(bs[0], bs[1])] + bs[2..])
    else [bs[0]] + Merged(bs[1..])
  }

  function Freed(bs: seq<Block>, i: nat): seq<Block>
    requires i < |bs|
  {
    Merged(bs[i := bs[i].(free := true)])
  }

  // ---------------------------------------------------------------- allocation keeps the heap

  /** Taken as an `int`, room is never overstated, and is exact below two gibibytes. */
  lemma IntRoom(room: int)
    requires -0x8000_0000 <= room
    ensures AsInt(room) <= room && (AsInt(room) == room <==> room < 0x8000_0000)
  {
    var q := (room + 0x8000_0000) / 0x1_0000_0000;
    assert AsInt(room) == room - q * 0x1_0000_0000;
    assert q >= 0 && (q == 0 <==> room < 0x8000_0000);
  }

  /** Where the data of block `i` could reach: up to the next block, or as far as it does. */
  function Reach(bs: seq<Block>, i: nat): nat
    requires i < |bs|
  {
    if i + 1 < |bs| then bs[i + 1].addr else bs[i].Limit()
  }

  /** The remainder lies between the shortened block and the next one, and takes all there is
      exactly if the room it has is below two gibibytes. */
  lemma RemainderFits(bs: seq<Block>, end: nat, i: nat, size: nat)
    requires Ordered(bs, end) && i < |bs| && bs[i].size > size + HEADER && Remainder(bs, i, size).size > 0
    ensures var r := Remainder(bs, i, size);
            && bs[i].addr + HEADER + size < r.addr && r.Limit() <= Reach(bs, i)
            && (r.Limit() == Reach(bs, i) <==> Room(bs, i, r.addr) < 0x8000_0000)
  {
    var addr := Realign(bs[i].addr + size + HEADER + 1);
    assert i + 1 < |bs| ==> bs[i].Limit() <= bs[i + 1].addr;
    IntRoom(Room(bs, i, addr));
    hide AsInt, Realign, Ordered;
  }

  /** An allocation takes little more than it was asked for: below two gibibytes a block is only handed out
      whole if it is at most 56 bytes too large, which is a header and an alignment. */
  lemma AllocationIsTight(bs: seq<Block>, end: nat, size: nat)
    requires Heap(bs, end)
    ensures var i, b := FirstFit(bs, size, 0), Returned(bs, end, size);
            if i == |bs| then b.size == size && end <= b.addr < end + MEMORY_ALIGN
            else && b.addr == bs[i].addr && (b.size == size || b.size == bs[i].size)
                 && (Reach(bs, i) - b.addr <= 0x8000_0000 ==> b.size <= size + HEADER + MEMORY_ALIGN)
  {
    var i := FirstFit(bs, size, 0);
    hide FirstFit;
    if i < |bs| {
      hide Aligned, Coalesced;
      assert i + 1 < |bs| ==> bs[i].Limit() <= bs[i + 1].addr;
      hide Ordered;
      SplitsIfLarge(bs, i, size);
    }
  }

  lemma SplitsIfLarge(bs: seq<Block>, i: nat, size: nat)
    requires i < |bs| && bs[i].Limit() <= Reach(bs, i) && bs[i].size >= size
    ensures var s := Split(bs, i, size);
            && i < |s| && s[i].addr == bs[i].addr && (s[i].size == size || s == bs)
            && (Reach(bs, i) - bs[i].addr <= 0x8000_0000 ==> s[i].size <= size + HEADER + MEMORY_ALIGN)
  {
    var addr := Realign(bs[i].addr + size + HEADER + 1);
    hide Realign;
    var room := Room(bs, i, addr);
    assert room <= Reach(bs, i) - addr;
    if bs[i].size > size + HEADER + MEMORY_ALIGN {
      assert room > 0;
      if room < 0x8000_0000 {
        IntRoom(room);
      }
    }
    hide AsInt;
  }

  /** One block that is cut there: four gibibytes are in no block of the list any more. */
  lemma SplitLosesRoom()
    ensures var bs := [Block(8, 0x1_0000_00C8, true)];
            && Heap(bs, 0x1_0000_0100)
            && Split(bs, 0, 64) == [Block(8, 64, true), Block(104, 104, true)]
            && Reach(bs, 0) == 0x1_0000_00E8 && Split(bs, 0, 64)[1].Limit() == 232
  {
    var bs := [Block(8, 0x1_0000_00C8, true)];
    assert Remainder(bs, 0, 64) == Block(104, 104, true);
    assert bs[..0] == [] && bs[0 + 1..] == [];
  }

  function Inserted(bs: seq<Block>, i: nat, a: Block, r: Block): (t: seq<Block>)
    requires i < |bs|
    ensures |t| == |bs| + 1
    ensures forall j | 0 <= j < |t| ::
              t[j] == if j < i then bs[j] else if j == i then a else if j == i + 1 then r else bs[j - 1]
  {
    bs[..i] + [a, r] + bs[i + 1..]
  }

  /** Block `i` replaced by `a`, with `r` behind it, inside the old extent. */
  predicate Fitting(bs: seq<Block>, i: nat, a: Block, r: Block)
    requires i < |bs|
  {
    && bs[i].free && a.addr == bs[i].addr && !a.free && r.free
    && a.Limit() <= r.addr && r.Data() % MEMORY_ALIGN == 0
    && r.Limit() <= Reach(bs, i)
  }

  lemma InsertOrdered(bs: seq<Block>, end: nat, i: nat, a: Block, r: Block)
    requires Ordered(bs, end) && i < |bs| && Fitting(bs, i, a, r)
    ensures Ordered(Inserted(bs, i, a, r), end)
  {
    var t := Inserted(bs, i, a, r);
    forall j | 0 <= j < |t|
      ensures t[j].Limit() < end
    {
    }
    forall j, k | 0 <= j < k < |t|
      ensures t[j].Limit() <= t[k].addr
    {
      if k == i + 1 && j < i {
        assert bs[j].Limit() <= bs[i].addr;
      } else if i < j && i + 1 < k - 1 {
        assert bs[i + 1].Limit() <= bs[k - 1].addr;
      }
    }
  }

  /** Only block `i` changes hands when `mid` takes its place. */
  lemma ReplaceLive(bs: seq<Block>, i: nat, mid: seq<Block>)
    requires i < |bs| && bs[i].free
    ensures Live(bs[..i] + mid + bs[i + 1..]) == Live(bs) + Live(mid)
  {
    LiveParts(bs[..i] + mid, bs[i + 1..]);
    LiveParts(bs[..i], mid);
    LiveParts(bs[..i] + [bs[i]], bs[i + 1..]);
    LiveParts(bs[..i], [bs[i]]);
    assert bs == bs[..i] + [bs[i]] + bs[i + 1..];
    assert Live([bs[i]]) == {};
  }

  lemma InsertKeeps(bs: seq<Block>, end: nat, i: nat, a: Block, r: Block)
    requires Heap(bs, end) && i < |bs| && Fitting(bs, i, a, r)
    ensures Heap(Inserted(bs, i, a, r), end)
  {
    InsertOrdered(bs, end, i, a, r);
  }

  lemma LiveParts(s: seq<Block>, t: seq<Block>)
    ensures Live(s + t) == Live(s) + Live(t)
  {
  }

  /** The new block at the end of the heap. */
  lemma AppendKeeps(bs: seq<Block>, end: nat, size: nat)
    requires Heap(bs, end)
    ensures var b := Block(Realign(end), size, false);
            && Heap(bs + [b], Realign(end) + size + HEADER + 1)
            && Live(bs + [b]) == Live(bs) + {b}
  {
    LiveParts(bs, [Block(Realign(end), size, false)]);
  }

  /** Allocation keeps the heap, and adds exactly the returned block to the live ones. */
  lemma AllocationKeeps(bs: seq<Block>, end: nat, size: nat)
    requires Heap(bs, end)
    ensures FirstFit(bs, size, 0) < |Allocated(bs, end, size)|
    ensures var b := Returned(bs, end, size);
            && Heap(Allocated(bs, end, size), NewEnd(bs, end, size))
            && Live(Allocated(bs, end, size)) == Live(bs) + {b}
            && !b.free && b.size >= size && b !in Live(bs)
  {
    var i := FirstFit(bs, size, 0);
    if i < |bs| {
      FitKeeps(bs, end, i, size);
    } else {
      AppendKeeps(bs, end, size);
    }
    OneAddress(bs, end, Returned(bs, end, size).addr);
  }

  lemma TakeKeeps(bs: seq<Block>, end: nat, i: nat)
    requires Heap(bs, end) && i < |bs| && bs[i].free
    ensures var a := bs[i].(free := false); Heap(bs[i := a], end) && Live(bs[i := a]) == Live(bs) + {a}
  {
    var a := bs[i].(free := false);
    ReplaceLive(bs, i, [a]);
    OneLive(a);
    assert bs[i := a] == bs[..i] + [a] + bs[i + 1..];
    hide Live;
  }

  lemma FitKeeps(bs: seq<Block>, end: nat, i: nat, size: nat)
    requires Heap(bs, end) && i < |bs| && Fits(bs[i], size)
    ensures var s := Split(bs, i, size);
            && i < |s|
            && var a := s[i].(free := false);
               Heap(s[i := a], end) && Live(s[i := a]) == Live(bs) + {a}
               && a.size >= size && a.addr == bs[i].addr
  {
    hide Heap, Live, Remainder;
    var r := Remainder(bs, i, size);
    if bs[i].size > size + HEADER && r.size > 0 {
      CutKeeps(bs, end, i, size, r, bs[i].(size := size, free := false));
    } else {
      TakeKeeps(bs, end, i);
    }
  }

  lemma OneLive(a: Block)
    requires !a.free
    ensures Live([a]) == {a} && forall r: Block :: r.free ==> Live([a, r]) == {a}
  {
  }

  /** The case of `FitKeeps` in which the block is cut in two. */
  lemma CutKeeps(bs: seq<Block>, end: nat, i: nat, size: nat, r: Block, a: Block)
    requires Heap(bs, end) && i < |bs| && bs[i].free && bs[i].size > size + HEADER
    requires r == Remainder(bs, i, size) && r.size > 0 && a == bs[i].(size := size, free := false)
    ensures var s := bs[..i] + [bs[i].(size := size), r] + bs[i + 1..];
            Heap(s[i := a], end) && Live(s[i := a]) == Live(bs) + {a}
  {
    RemainderFits(bs, end, i, size);
    hide Remainder;
    InsertKeeps(bs, end, i, a, r);
    hide Heap, Live;
    ReplaceLive(bs, i, [a, r]);
    OneLive(a);
    var s := bs[..i] + [bs[i].(size := size), r] + bs[i + 1..];
    assert s[i := a] == Inserted(bs, i, a, r);
  }

  /** Two blocks of a heap at one address are the same, and none is at or past the end. */
  lemma OneAddress(bs: seq<Block>, end: nat, addr: nat)
    requires Heap(bs, end)
    ensures forall b, c | b in bs && c in bs && b.addr == addr && c.addr == addr :: b == c
    ensures forall b | b in bs && b.addr == addr :: addr < end
  {
  }

  // ---------------------------------------------------------------- freeing keeps the heap

  /** Coalescing only ever lengthens free blocks into the space of their free neighbours. */
  lemma {:induction false} MergedKeeps(bs: seq<Block>, end: nat)
    requires Ordered(bs, end) && Aligned(bs)
    ensures Ordered(Merged(bs), end) && Aligned(Merged(bs)) && Coalesced(Merged(bs))
    ensures Live(Merged(bs)) == Live(bs)
    decreases |bs|
  {
    if |bs| < 2 {
      return;
    }
    assert bs == [bs[0]] + bs[1..];
    hide Ordered, Aligned, Coalesced, Live;
    if bs[0].free && bs[1].free {
      var j := [Joined(bs[0], bs[1])] + bs[2..];
      JoinKeeps(bs, end);
      MergedKeeps(j, end);
    } else {
      TailKeeps(bs, end);
      MergedKeeps(bs[1..], end);
      HeadKeeps(bs[0], bs[1..], Merged(bs[1..]), end);
      LiveParts([bs[0]], bs[1..]);
      LiveParts([bs[0]], Merged(bs[1..]));
    }
  }

  lemma TailKeeps(bs: seq<Block>, end: nat)
    requires Ordered(bs, end) && Aligned(bs) && |bs| > 0
    ensures Ordered(bs[1..], end) && Aligned(bs[1..])
  {
  }

  lemma JoinKeeps(bs: seq<Block>, end: nat)
    requires Ordered(bs, end) && Aligned(bs) && |bs| >= 2 && bs[0].free && bs[1].free
    ensures var j := [Joined(bs[0], bs[1])] + bs[2..];
            Ordered(j, end) && Aligned(j) && Live(j) == Live(bs)
  {
    LiveParts([Joined(bs[0], bs[1])], bs[2..]);
    LiveParts([bs[0], bs[1]], bs[2..]);
    assert bs == [bs[0], bs[1]] + bs[2..];
  }

  lemma HeadKeeps(b: Block, rest: seq<Block>, merged: seq<Block>, end: nat)
    requires Ordered([b] + rest, end) && Aligned([b] + rest) && rest != [] && !(b.free && rest[0].free)
    requires Ordered(merged, end) && Aligned(merged) && Coalesced(merged)
    requires merged != [] && merged[0].addr == rest[0].addr && merged[0].free == rest[0].free
    ensures Ordered([b] + merged, end) && Aligned([b] + merged) && Coalesced([b] + merged)
  {
    assert ([b] + rest)[0].Limit() <= ([b] + rest)[1].addr;
    assert ([b] + rest)[0] == b;
    forall j | 0 < j < |merged|
      ensures merged[0].addr <= merged[j].addr
    {
      assert merged[0].Limit() <= merged[j].addr;
    }
  }

  /** Freeing keeps the heap, and takes exactly the freed block from the live ones. */
  lemma FreeKeeps(bs: seq<Block>, end: nat, i: nat)
    requires Heap(bs, end) && i < |bs| && !bs[i].free
    ensures Heap(Freed(bs, i), end)
    ensures Live(Freed(bs, i)) == Live(bs) - {bs[i]}
  {
    MergedKeeps(bs[i := bs[i].(free := true)], end);
    MarkFreeLive(bs, end, i);
  }

  lemma MarkFreeLive(bs: seq<Block>, end: nat, i: nat)
    requires Ordered(bs, end) && i < |bs|
    ensures Live(bs[i := bs[i].(free := true)]) == Live(bs) - {bs[i]}
  {
    var s := bs[i := bs[i].(free := true)];
    forall j | 0 <= j < |bs| && j != i
      ensures bs[j] != bs[i]
    {
      assert bs[i].Limit() <= bs[j].addr || bs[j].Limit() <= bs[i].addr;
    }
    forall b: Block | b in Live(bs) - {bs[i]}
      ensures b in Live(s)
    {
      var j :| 0 <= j < |bs| && bs[j] == b;
      assert s[j] == b;
    }
  }

  // ---------------------------------------------------------------- accounting

  lemma {:induction false} LiveBytesParts(s: seq<Block>, t: seq<Block>)
    ensures LiveBytes(s + t) == LiveBytes(s) + LiveBytes(t)
    decreases |t|
  {
    if t == [] {
      assert s + t == s;
    } else {
      var n := |t| - 1;
      assert (s + t)[..|s + t| - 1] == s + t[..n];
      LiveBytesParts(s, t[..n]);
    }
  }

  lemma {:induction false} MergedLiveBytes(bs: seq<Block>)
    ensures LiveBytes(Merged(bs)) == LiveBytes(bs)
    decreases |bs|
  {
    if |bs| < 2 {
    } else if bs[0].free && bs[1].free {
      var j := Joined(bs[0], bs[1]);
      MergedLiveBytes([j] + bs[2..]);
      LiveBytesParts([j], bs[2..]);
      LiveBytesParts([bs[0], bs[1]], bs[2..]);
      assert bs == [bs[0], bs[1]] + bs[2..];
      assert [bs[0], bs[1]][..1] == [bs[0]];
    } else {
      MergedLiveBytes(bs[1..]);
      LiveBytesParts([bs[0]], bs[1..]);
      LiveBytesParts([bs[0]], Merged(bs[1..]));
      assert bs == [bs[0]] + bs[1..];
    }
  }

  lemma OneLiveBytes(b: Block)
    ensures LiveBytes([b]) == if b.free then 0 else b.size + HEADER
  {
    assert [b][..0] == [];
  }

  lemma ReplaceLiveBytes(bs: seq<Block>, i: nat, mid: seq<Block>)
    requires i < |bs|
    ensures LiveBytes(bs[..i] + mid + bs[i + 1..]) == LiveBytes(bs) - LiveBytes([bs[i]]) + LiveBytes(mid)
  {
    LiveBytesParts(bs[..i] + mid, bs[i + 1..]);
    LiveBytesParts(bs[..i], mid);
    LiveBytesParts(bs[..i] + [bs[i]], bs[i + 1..]);
    LiveBytesParts(bs[..i], [bs[i]]);
    assert bs == bs[..i] + [bs[i]] + bs[i + 1..];
  }

  lemma SplitBytes(bs: seq<Block>, i: nat, mid: seq<Block>)
    requires i < |bs| && bs[i].free && 1 <= |mid| <= 2 && !mid[0].free && (|mid| == 2 ==> mid[1].free)
    ensures LiveBytes(bs[..i] + mid + bs[i + 1..]) == LiveBytes(bs) + mid[0].size + HEADER
  {
    ReplaceLiveBytes(bs, i, mid);
    OneLiveBytes(bs[i]);
    OneLiveBytes(mid[0]);
    if |mid| == 2 {
      LiveBytesParts([mid[0]], [mid[1]]);
      OneLiveBytes(mid[1]);
      assert mid == [mid[0]] + [mid[1]];
    } else {
      assert mid == [mid[0]];
    }
  }

  /** What splitting and taking block `i` puts in its place. */
  lemma TakenParts(bs: seq<Block>, i: nat, size: nat) returns (mid: seq<Block>)
    requires i < |bs|
    ensures var s := Split(bs, i, size);
            && i < |s| && 1 <= |mid| <= 2 && mid[0] == s[i].(free := false) && (|mid| == 2 ==> mid[1].free)
            && s[i := mid[0]] == bs[..i] + mid + bs[i + 1..]
  {
    var s, r := Split(bs, i, size), Remainder(bs, i, size);
    if s != bs {
      var a := bs[i].(size := size);
      mid := [a.(free := false), r];
      assert s == bs[..i] + [a, r] + bs[i + 1..];
    } else {
      mid := [bs[i].(free := false)];
    }
  }

  /** The counter grows by the returned block with its header, and shrinks by the freed one. */
  lemma AccountsBalance(bs: seq<Block>, end: nat, size: nat)
    requires FirstFit(bs, size, 0) < |Allocated(bs, end, size)|
    ensures LiveBytes(Allocated(bs, end, size)) == LiveBytes(bs) + Returned(bs, end, size).size + HEADER
  {
    hide LiveBytes, Split;
    var i := FirstFit(bs, size, 0);
    var t := Allocated(bs, end, size);
    if i < |bs| {
      var mid := TakenParts(bs, i, size);
      SplitBytes(bs, i, mid);
    } else {
      LiveBytesParts(bs, [t[i]]);
      OneLiveBytes(t[i]);
    }
  }

  lemma FreeBalances(bs: seq<Block>, i: nat)
    requires i < |bs| && !bs[i].free
    ensures LiveBytes(Freed(bs, i)) == LiveBytes(bs) - bs[i].size - HEADER
  {
    var f := bs[i].(free := true);
    assert bs[i := f] == bs[..i] + [f] + bs[i + 1..];
    ReplaceLiveBytes(bs, i, [f]);
    OneLiveBytes(f);
    OneLiveBytes(bs[i]);
    MergedLiveBytes(bs[i := f]);
  }

  /** Bytes in all blocks, free or live, headers included. */
  function TotalBytes(bs: seq<Block>): nat {
    if bs == [] then 0 else bs[0].size + HEADER + TotalBytes(bs[1..])
  }

  /** Merging loses no byte: the header of a block that is joined to another is free space now. */
  lemma {:induction false} MergedConserves(bs: seq<Block>)
    ensures TotalBytes(Merged(bs)) == TotalBytes(bs)
    decreases |bs|
  {
    if |bs| >= 2 {
      if bs[0].free && bs[1].free {
        var j := [Joined(bs[0], bs[1])] + bs[2..];
        MergedConserves(j);
        assert j[1..] == bs[2..] == bs[1..][1..];
        assert TotalBytes(bs[1..]) == bs[1].size + HEADER + TotalBytes(bs[2..]);
      } else {
        MergedConserves(bs[1..]);
        assert ([bs[0]] + Merged(bs[1..]))[1..] == Merged(bs[1..]);
      }
    }
  }

  lemma {:induction false} FlagConserves(bs: seq<Block>, i: nat, free: bool)
    requires i < |bs|
    ensures TotalBytes(bs[i := bs[i].(free := free)]) == TotalBytes(bs)
  {
    var t := bs[i := bs[i].(free := free)];
    if i > 0 {
      FlagConserves(bs[1..], i - 1, free);
      assert t[1..] == bs[1..][i - 1 := bs[i].(free := free)];
    } else {
      assert t[1..] == bs[1..];
    }
  }

  /** Nor does freeing. */
  lemma FreeConserves(bs: seq<Block>, i: nat)
    requires i < |bs|
    ensures TotalBytes(Freed(bs, i)) == TotalBytes(bs)
  {
    MergedConserves(bs[i := bs[i].(free := true)]);
    FlagConserves(bs, i, true);
  }

  /** When everything has been freed, the heap is a single free block again. */
  lemma AllFreed(bs: seq<Block>, end: nat)
    requires Heap(bs, end) && Live(bs) == {}
    ensures |bs| <= 1 && LiveBytes(bs) == 0
  {
    if |bs| >= 1 {
      FreeOrLive(bs, 0);
    }
    if |bs| >= 2 {
      FreeOrLive(bs, 1);
    }
  }

  lemma FreeOrLive(bs: seq<Block>, i: nat)
    requires i < |bs|
    ensures bs[i].free || bs[i] in Live(bs)
  {
  }
}
