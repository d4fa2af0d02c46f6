/** The boot pager: builds the initial address space in three loops, with tables taken from a
    32-bit-word bitmap. */
module BootPaging {
  import opened Division
  import opened Wrappers
  import opened PageTables
  import opened PagerSteps
  import Bits = FrameBitmap

  const STACK_PAGES: nat := 512
  /** The highest page of the 64-bit address space. */
  const TOP: nat := 0xffff_ffff_ffff_f000

  /** Frames the tables of pages `[first, next)` can take, when mapped in order. */
  function Budget(first: nat, next: nat): int {
    if next <= first then 0
    else 3 + (next - 1) / 512 - first / 512 + (next - 1) / 0x4_0000 - first / 0x4_0000
         + (next - 1) / 0x800_0000 - first / 0x800_0000
  }

  /** Where the boot code puts the window onto physical memory. */
  function PhysicalMemoryMap(memoryHigh: nat): nat
    requires memoryHigh < 0x1_0000_0000
  {
    var a := TOP - STACK_PAGES * PAGE_SIZE - memoryHigh;
    a - a % PAGE_SIZE
  }

  /** The page number at which that window starts. */
  function WindowPage(memoryHigh: nat): nat
    requires memoryHigh < 0x1_0000_0000
  {
    PAGES - 1 - STACK_PAGES - (memoryHigh + 4095) / PAGE_SIZE
  }

  /** Free frames that suffice for the whole boot address space. */
  function FramesNeeded(memoryHigh: nat): int
    requires memoryHigh < 0x1_0000_0000
  {
    var first := WindowPage(memoryHigh);
    Budget(0, 0x4_0000) + Budget(first, first + memoryHigh / PAGE_SIZE + 1) + 3 + STACK_PAGES
  }

  /** The window starts at a page, that many pages before the stack. */
  lemma WindowStarts(memoryHigh: nat)
    requires memoryHigh < 0x1_0000_0000
    ensures PhysicalMemoryMap(memoryHigh) == (0xffff * PAGES + WindowPage(memoryHigh)) * PAGE_SIZE
    ensures 0x4_0000 < WindowPage(memoryHigh)
    ensures WindowPage(memoryHigh) + memoryHigh / PAGE_SIZE < PAGES - STACK_PAGES
  {
    var c := (memoryHigh + 4095) / PAGE_SIZE;
    var page := 0xf_ffff_ffff_ffff - STACK_PAGES - c;
    assert page == 0xffff * PAGES + WindowPage(memoryHigh);
    Remainder(TOP - STACK_PAGES * PAGE_SIZE - memoryHigh, PAGE_SIZE, page, c * PAGE_SIZE - memoryHigh);
  }

  lemma WindowAddress(memoryHigh: nat, i: nat)
    requires memoryHigh < 0x1_0000_0000 && i <= memoryHigh
    ensures (PhysicalMemoryMap(memoryHigh) + i) / PAGE_SIZE % PAGES == WindowPage(memoryHigh) + i / PAGE_SIZE
    ensures PhysicalMemoryMap(memoryHigh) % PAGE_SIZE == 0
    ensures PhysicalMemoryMap(memoryHigh) + i <= TOP - STACK_PAGES * PAGE_SIZE
    ensures 0x4_0000 < WindowPage(memoryHigh)
    ensures WindowPage(memoryHigh) + i / PAGE_SIZE < PAGES - STACK_PAGES
  {
    assert PhysicalMemoryMap(memoryHigh) + memoryHigh <= TOP - STACK_PAGES * PAGE_SIZE;
    WindowStarts(memoryHigh);
    hide PhysicalMemoryMap, WindowPage;
    var start, page := PhysicalMemoryMap(memoryHigh), WindowPage(memoryHigh);
    MultipleOf(PAGE_SIZE, 0xffff * PAGES + page);
    Remainder(start + i, PAGE_SIZE, 0xffff * PAGES + page + i / PAGE_SIZE, i % PAGE_SIZE);
    Remainder(0xffff * PAGES + page + i / PAGE_SIZE, PAGES, 0xffff, page + i / PAGE_SIZE);
  }

  lemma WindowProgress(memoryHigh: nat, i: nat, n: nat)
    requires i == n * PAGE_SIZE <= memoryHigh
    ensures i / PAGE_SIZE == n && n < memoryHigh / PAGE_SIZE + 1
  {
  }

  lemma WindowEnd(memoryHigh: nat, i: nat, n: nat)
    requires memoryHigh < i == n * PAGE_SIZE
    ensures memoryHigh / PAGE_SIZE + 1 <= n
  {
  }

  lemma LowAddress(page: nat)
    requires page < PAGES
    ensures page * 4096 / PAGE_SIZE % PAGES == page
  {
  }

  lemma StackAddress(k: nat)
    requires k < STACK_PAGES
    ensures (TOP - k * PAGE_SIZE) / PAGE_SIZE % PAGES == PAGES - 1 - k
  {
  }

  /** Neighbouring pages share every table unless a table boundary lies between them. */
  lemma SharedTables(p: nat)
    requires 0 < p < PAGES
    ensures p % 512 != 0 ==> PagePath(p)[..3] == PagePath(p - 1)[..3]
    ensures p % 0x4_0000 != 0 ==> PagePath(p)[..2] == PagePath(p - 1)[..2]
    ensures p % 0x800_0000 != 0 ==> PagePath(p)[..1] == PagePath(p - 1)[..1]
  {
    if p % 512 != 0 {
      assert p / 512 == (p - 1) / 512;
      ThroughQuotient(p);
      ThroughQuotient(p - 1);
    }
    if p % 0x4_0000 != 0 {
      assert p / 0x4_0000 == (p - 1) / 0x4_0000;
      ThroughQuotient(p);
      ThroughQuotient(p - 1);
    }
  }

  lemma ThroughQuotient(p: nat)
    ensures p / 0x4_0000 == p / 512 / 512 && p / 0x800_0000 == p / 0x4_0000 / 512
  {
  }

  /** All tables above `page` exist. */
  ghost predicate Reached(v: View, root: nat, page: nat) {
    MissingTables(v, root, PagePath(page)) == 0
  }

  /** Mapping the next page of a run costs at most what the budget says. */
  lemma BudgetStep(v: View, root: nat, first: nat, p: nat)
    requires first <= p < PAGES && (first < p ==> Reached(v, root, p - 1))
    ensures MissingTables(v, root, PagePath(p)) <= Budget(first, p + 1) - Budget(first, p)
  {
    if first < p {
      SharedTables(p);
      BudgetGrowth(first, p);
    }
  }

  lemma BudgetGrowth(first: nat, p: nat)
    requires first < p
    ensures Budget(first, p + 1) - Budget(first, p)
            == (if p % 512 == 0 then 1 else 0) + (if p % 0x4_0000 == 0 then 1 else 0)
               + (if p % 0x800_0000 == 0 then 1 else 0)
  {
    QuotientStep(p, 512);
    QuotientStep(p, 0x4_0000);
    QuotientStep(p, 0x800_0000);
  }

  lemma QuotientStep(p: nat, d: nat)
    requires 0 < p && (d == 512 || d == 0x4_0000 || d == 0x800_0000)
    ensures p / d - (p - 1) / d == if p % d == 0 then 1 else 0
  {
  }

  /** Pages `[first, next)` map, in order, the frames from 0 up. */
  ghost predicate RunMapped(v: View, root: nat, first: nat, next: nat) {
    forall q: nat | first <= q < next :: Mapping(v.mem, root, q) == Some(AddressToEntry((q - first) * PAGE_SIZE))
  }

  /** Pages outside `[first, next)` translate as before. */
  ghost predicate SameOutside(v: View, w: View, root: nat, first: nat, next: nat) {
    forall q: nat | q < PAGES && !(first <= q < next) :: Mapping(w.mem, root, q) == Mapping(v.mem, root, q)
  }

  /** Progress of a loop that maps pages from `first` up to frames from 0 up. */
  ghost predicate RunState(v0: View, v: View, root: nat, first: nat, page: nat) {
    && first <= page && Contained(v0, v, root)
    && RunMapped(v, root, first, page) && SameOutside(v0, v, root, first, page)
    && (first < page <= PAGES ==> Reached(v, root, page - 1))
    && |v.free| >= |v0.free| - Budget(first, page)
  }

  /** The effect of mapping one page to `physical`, creating tables as needed. */
  ghost predicate Placed(v: View, w: View, root: nat, page: nat, physical: nat) {
    && Contained(v, w, root)
    && Mapping(w.mem, root, page) == Some(AddressToEntry(physical))
    && Reached(w, root, page)
    && SameSpaceExcept(v.mem, w.mem, root, page)
    && |w.free| == |v.free| - MissingTables(v, root, PagePath(page))
  }

  lemma RunStep(v0: View, v: View, w: View, root: nat, first: nat, page: nat)
    requires page < PAGES && RunState(v0, v, root, first, page)
    requires Placed(v, w, root, page, (page - first) * PAGE_SIZE)
    ensures RunState(v0, w, root, first, page + 1)
  {
    ContainedTrans(v0, v, w, root);
    BudgetStep(v, root, first, page);
  }

  lemma RunStarts(v: View, root: nat, first: nat)
    ensures RunState(v, v, root, first, first)
  {
  }

  lemma RunGives(v0: View, v: View, root: nat, first: nat, page: nat)
    requires RunState(v0, v, root, first, page)
    ensures Contained(v0, v, root) && RunMapped(v, root, first, page) && SameOutside(v0, v, root, first, page)
    ensures |v.free| >= |v0.free| - Budget(first, page)
  {
  }

  /** Before a halt inside a run that ends at `limit`, fewer frames than budgeted were free. */
  lemma RunHalts(v0: View, v: View, root: nat, first: nat, page: nat, limit: nat)
    requires page < PAGES && page < limit && RunState(v0, v, root, first, page)
    requires |v.free| < MissingTables(v, root, PagePath(page))
    ensures |v0.free| < Budget(first, limit)
  {
    BudgetStep(v, root, first, page);
    BudgetGrows(first, page + 1, limit);
  }

  /** Stack page `k` from the top maps `stack[k]`; the frames given are distinct, and neither
      free nor tables. */
  ghost predicate StackMapped(v: View, root: nat, stack: seq<nat>) {
    && |stack| <= STACK_PAGES
    && (forall k: nat | k < |stack| ::
          Mapping(v.mem, root, PAGES - 1 - k) == Some(AddressToEntry(stack[k])))
    && (forall k: nat | k < |stack| && stack[k] != 0 ::
          stack[k] % PAGE_SIZE == 0 && Bystander(v, root, stack[k] / PAGE_SIZE))
    && (forall j: nat, k: nat | j < k < |stack| && stack[k] != 0 :: stack[j] != stack[k])
  }

  /** The stack pages share all their tables. */
  lemma StackTables(v: View, root: nat, k: nat)
    requires k < STACK_PAGES && (k > 0 ==> Reached(v, root, PAGES - k))
    ensures MissingTables(v, root, PagePath(PAGES - 1 - k)) <= if k == 0 then 3 else 0
  {
    if k > 0 {
      SharedTables(PAGES - k);
    }
  }

  /** Taking a frame from the pool, or finding the pool empty. */
  ghost predicate TookFrame(v: View, u: View, address: nat) {
    && u.mem == v.mem
    && (if address == 0 then u.free == v.free
        else address % PAGE_SIZE == 0 && address / PAGE_SIZE in v.free
             && u.free == v.free - {address / PAGE_SIZE})
  }

  lemma TakeFrame(v: View, u: View, root: nat, address: nat)
    requires Good(v, root) && TookFrame(v, u, address)
    ensures Good(u, root) && Contained(v, u, root)
    ensures address != 0 ==> Bystander(u, root, address / PAGE_SIZE) && |u.free| == |v.free| - 1
  {
  }

  /** The next stack page maps a frame that no earlier stack page maps. */
  lemma StackGrows(v: View, u: View, w: View, root: nat, stack: seq<nat>, address: nat)
    requires |stack| < STACK_PAGES && StackMapped(v, root, stack)
    requires Good(v, root) && TookFrame(v, u, address) && Contained(u, w, root)
    requires Mapping(w.mem, root, PAGES - 1 - |stack|) == Some(AddressToEntry(address))
    requires SameSpaceExcept(u.mem, w.mem, root, PAGES - 1 - |stack|)
    ensures StackMapped(w, root, stack + [address])
  {
    TakeFrame(v, u, root, address);
    var grown := stack + [address];
    forall k: nat | k < |grown|
      ensures Mapping(w.mem, root, PAGES - 1 - k) == Some(AddressToEntry(grown[k]))
      ensures grown[k] != 0 ==> grown[k] % PAGE_SIZE == 0 && Bystander(w, root, grown[k] / PAGE_SIZE)
      ensures k < |stack| && address != 0 ==> stack[k] != address
    {
      if k < |stack| && stack[k] != 0 {
        assert Bystander(v, root, stack[k] / PAGE_SIZE);
      }
    }
  }

  /** What the boot code promises: the first gibibyte is identity-mapped, every physical
      address up to `memoryHigh` is visible through the window, the 512 stack pages map frames
      of their own, and no other page changes. */
  ghost predicate BootSpace(v: View, w: View, root: nat, memoryHigh: nat, stack: seq<nat>)
    requires memoryHigh < 0x1_0000_0000
  {
    && (forall page: nat | page < 0x4_0000 ::
          Mapping(w.mem, root, page) == Some(AddressToEntry(page * PAGE_SIZE)))
    && (forall i: nat | i <= memoryHigh ::
          Mapping(w.mem, root, (PhysicalMemoryMap(memoryHigh) + i) / PAGE_SIZE % PAGES)
          == Some(AddressToEntry(i)))
    && |stack| == 512 && StackMapped(w, root, stack)
    && (forall page: nat | 0x4_0000 <= page < WindowPage(memoryHigh)
                           || WindowPage(memoryHigh) + memoryHigh / PAGE_SIZE < page < PAGES - 512 ::
          Mapping(w.mem, root, page) == Mapping(v.mem, root, page))
  }

  /** The three runs of pages do not overlap. */
  lemma SpacesCompose(v0: View, v1: View, v2: View, v3: View, root: nat, memoryHigh: nat, stack: seq<nat>)
    requires memoryHigh < 0x1_0000_0000
    requires RunMapped(v1, root, 0, 0x4_0000) && SameOutside(v0, v1, root, 0, 0x4_0000)
    requires var first := WindowPage(memoryHigh);
             var next := first + memoryHigh / PAGE_SIZE + 1;
             RunMapped(v2, root, first, next) && SameOutside(v1, v2, root, first, next)
    requires |stack| == STACK_PAGES && StackMapped(v3, root, stack)
    requires SameOutside(v2, v3, root, PAGES - STACK_PAGES, PAGES)
    ensures BootSpace(v0, v3, root, memoryHigh, stack)
  {
    WindowAddress(memoryHigh, memoryHigh);
    forall i: nat | i <= memoryHigh
      ensures Mapping(v3.mem, root, (PhysicalMemoryMap(memoryHigh) + i) / PAGE_SIZE % PAGES)
              == Some(AddressToEntry(i))
    {
      WindowAddress(memoryHigh, i);
      var page := WindowPage(memoryHigh) + i / PAGE_SIZE;
      assert Mapping(v3.mem, root, page) == Mapping(v2.mem, root, page);
      SamePage(i);
    }
  }

  lemma SamePage(i: nat)
    ensures AddressToEntry(i / PAGE_SIZE * PAGE_SIZE) == AddressToEntry(i)
  {
  }

  /** Progress of the stack loop after `k` pages. */
  ghost predicate StackState(v0: View, v: View, root: nat, stack: seq<nat>) {
    var k := |stack|;
    && Contained(v0, v, root) && StackMapped(v, root, stack)
    && SameOutside(v0, v, root, PAGES - k, PAGES)
    && (k > 0 ==> Reached(v, root, PAGES - k))
    && (|v0.free| >= STACK_PAGES + 3 ==>
          0 !in stack && |v.free| >= |v0.free| - k - (if k > 0 then 3 else 0))
  }

  lemma StackStarts(v: View, root: nat)
    ensures StackState(v, v, root, [])
  {
  }

  lemma StackGives(v0: View, v: View, root: nat, stack: seq<nat>)
    requires StackState(v0, v, root, stack)
    ensures Contained(v0, v, root) && StackMapped(v, root, stack)
    ensures SameOutside(v0, v, root, PAGES - |stack|, PAGES)
    ensures |v0.free| >= STACK_PAGES + 3 ==> 0 !in stack
  {
  }

  lemma StackStep(v0: View, v: View, u: View, w: View, root: nat, stack: seq<nat>, address: nat)
    requires |stack| < STACK_PAGES && Good(v, root) && StackState(v0, v, root, stack)
    requires TookFrame(v, u, address) && (address == 0 ==> v.free == {})
    requires Placed(u, w, root, PAGES - 1 - |stack|, address)
    ensures StackState(v0, w, root, stack + [address])
  {
    StackTables(v, root, |stack|);
    TakeFrame(v, u, root, address);
    ContainedTrans(v0, v, u, root);
    ContainedTrans(v0, u, w, root);
    StackGrows(v, u, w, root, stack, address);
  }

  /** The stack loop halts only when too few frames were free. */
  lemma StackHalts(v0: View, v: View, u: View, root: nat, stack: seq<nat>, address: nat)
    requires |stack| < STACK_PAGES && Good(v, root) && StackState(v0, v, root, stack)
    requires TookFrame(v, u, address) && (address == 0 ==> v.free == {})
    requires |u.free| < MissingTables(u, root, PagePath(PAGES - 1 - |stack|))
    ensures |v0.free| < STACK_PAGES + 3
  {
    StackTables(v, root, |stack|);
    TakeFrame(v, u, root, address);
  }

  lemma BudgetGrows(first: nat, next: nat, limit: nat)
    requires first < next <= limit
    ensures Budget(first, next) <= Budget(first, limit)
  {
    assert (next - 1) / 512 <= (limit - 1) / 512;
    assert (next - 1) / 0x4_0000 <= (limit - 1) / 0x4_0000;
    assert (next - 1) / 0x800_0000 <= (limit - 1) / 0x800_0000;
  }

  class Boot {
    /** First frame after the kernel image; page-aligned and nonzero. */
    const freeStart: nat
    const pages: nat
    const bitmap: array<nat>
    /** Physical memory, which the boot code reaches at its own addresses. */
    const memory: array<Frame>

    ghost predicate Valid()
      reads bitmap
    {
      && freeStart > 0 && freeStart % PAGE_SIZE == 0
      && pages / 32 <= bitmap.Length && Bits.InWidth(bitmap[..], 32)
      && freeStart / PAGE_SIZE + Scanned() <= memory.Length
    }

    function Scanned(): nat {
      pages / 32 * 32
    }

    /** The boot allocator never looks at the first bitmap word. */
    ghost function FreeIndices(): set<nat>
      requires Valid()
      reads bitmap
    {
      Bits.FreeSet(bitmap[..], 32, 32, Scanned())
    }

    ghost function FreeFrames(): set<nat>
      requires Valid()
      reads bitmap
    {
      Bits.Frames(FreeIndices(), freeStart / PAGE_SIZE, Scanned())
    }

    ghost function Now(): View
      requires Valid()
      reads bitmap, memory
    {
      View(memory[..], FreeFrames())
    }

    constructor (start: nat, words: array<nat>, pageCount: nat, mem: array<Frame>)
      requires start > 0 && start % PAGE_SIZE == 0
      requires pageCount / 32 <= words.Length && Bits.InWidth(words[..], 32)
      requires start / PAGE_SIZE + pageCount <= mem.Length
      ensures Valid() && freeStart == start && bitmap == words && memory == mem && pages == pageCount
    {
      freeStart, bitmap, pages, memory := start, words, pageCount, mem;
    }

    /** The least clear bit of word `start` onwards, or -1. */
    method FindFree(start: nat) returns (index: int)
      requires Valid()
      ensures index == -1 || index >= 0
      ensures var free := Bits.FreeSet(bitmap[..], 32, 32 * start, Scanned());
              if index == -1 then free == {} else index in free && forall k | k in free :: index <= k
    {
      var i := start;
      while i < pages / 32
        invariant start <= i
        invariant forall k: nat | 32 * start <= k < 32 * i && k < Scanned() :: Bits.Used(bitmap[..], 32, k)
      {
        if bitmap[i] != Bits.Ones(32) {
          for j := 0 to 32
            invariant forall m: nat | m < j :: Bits.Bit(bitmap[i], m)
          {
            if !Bits.Bit(bitmap[i], j) {
              Bits.FirstInWord(bitmap[..], 32, i, j);
              return 32 * i + j;
            }
          }
        }
        Bits.FullWord(bitmap[i], 32);
        Bits.WordFull(bitmap[..], 32, i);
        i := i + 1;
      }
      return -1;
    }

    method MarkUsed(index: nat)
      requires Valid() && index < 32 * bitmap.Length
      modifies bitmap
      ensures Valid()
      ensures Bits.UsedSet(bitmap[..], 32) == Bits.UsedSet(old(bitmap[..]), 32) + {index}
      ensures FreeIndices() == old(FreeIndices()) - {index}
    {
      Bits.MarkInWidth(bitmap[..], 32, index, true);
      Bits.MarkSets(bitmap[..], 32, index, true, 32, Scanned());
      ghost var marked := Bits.Marked(bitmap[..], 32, index, true);
      bitmap[index / 32] := Bits.SetBit(bitmap[index / 32], index % 32);
      assert bitmap[..] == marked;
    }

    /** One free frame, by address; 0 when there is none. */
    method AllocateFreePhysicalAddress() returns (address: nat)
      requires Valid()
      modifies bitmap
      ensures Valid()
      ensures address == 0 <==> old(FreeFrames()) == {}
      ensures address == 0 ==> bitmap[..] == old(bitmap[..])
      ensures address != 0 ==>
                var f := address / PAGE_SIZE;
                && address % PAGE_SIZE == 0
                && f in old(FreeFrames())
                && (forall g | g in old(FreeFrames()) :: f <= g)
                && FreeFrames() == old(FreeFrames()) - {f}
    {
      hide Bits.Frames, Bits.FreeSet, Bits.UsedSet, Bits.InWidth;
      var index := FindFree(1);
      ghost var free, frames := FreeIndices(), FreeFrames();
      Bits.FreeBelow(bitmap[..], 32, 32, Scanned());
      if index == -1 {
        Bits.NoFrames(freeStart / PAGE_SIZE, Scanned());
        return 0;
      }
      Bits.FramesFollow(free, freeStart / PAGE_SIZE, Scanned(), index);
      MarkUsed(index);
      assert FreeIndices() == free - {index};
      address := freeStart + index * 4096;
      assert address == (freeStart / PAGE_SIZE + index) * PAGE_SIZE;
      assert frames == old(FreeFrames());
    }

    ghost predicate Took(before: View, after: View, halted: bool, n: nat) {
      && (!halted ==> |after.free| == |before.free| - n)
      && (halted ==> |before.free| < n)
    }

    /** The repeated step of `allocate4KiB`; `None` is a halt. */
    method Descend(ghost root: nat, ghost t: Path, ghost next: Path, table: nat, index: nat)
      returns (r: Option<nat>)
      requires Valid() && Good(Now(), root) && |t| < 3 && index < 512 && next == t + [index]
      requires TableAt(memory[..], root, t, table)
      modifies bitmap, memory
      ensures Valid() && Good(Now(), root)
      ensures r.Some? ==> TableAt(memory[..], root, next, r.value)
      ensures SameTablesExcept(old(Now()), Now(), root, next)
      ensures Took(old(Now()), Now(), r.None?, Lacks(old(Now()), root, next))
      ensures SameSpace(old(memory[..]), memory[..], root) && Contained(old(Now()), Now(), root)
    {
      hide Good, Contained, SameTablesExcept, SameSpace, Lacks, TableAt, AddressToEntry, FrameOf, Present;
      ghost var before := Now();
      FollowStep(before, root, t, next, table, index);
      if !Present(memory[table][index]) {
        var address := AllocateFreePhysicalAddress();
        if address == 0 {
          return None;
        }
        memory[table] := memory[table][index := AddressToEntry(address)];
        memory[address / PAGE_SIZE] := ZeroFrame();
        assert address == address / PAGE_SIZE * PAGE_SIZE;
        assert Linked(before, Now(), root, t, table, index, address / PAGE_SIZE);
        LinkStep(before, Now(), root, t, table, index, address / PAGE_SIZE);
      }
      return Some(FrameOf(memory[table][index]));
    }

    /** The last-level table of a page, extending the tree as far as needed. */
    method EnsurePath(root: nat, i4: nat, i3: nat, i2: nat, ghost p: Path) returns (r: Option<nat>)
      requires Valid() && Good(Now(), root) && ValidPath(p) && |p| == 4
      requires p[0] == i4 && p[1] == i3 && p[2] == i2
      modifies bitmap, memory
      ensures Valid() && Good(Now(), root)
      ensures r.Some? ==> TableAt(memory[..], root, p[..3], r.value)
      ensures Took(old(Now()), Now(), r.None?, MissingTables(old(Now()), root, p))
      ensures SameSpace(old(memory[..]), memory[..], root) && Contained(old(Now()), Now(), root)
    {
      hide Good, Contained, SameTablesExcept, SameSpace, Lacks, TableAt;
      assert p[..1] == [] + [i4] && p[..2] == p[..1] + [i3] && p[..3] == p[..2] + [i2];
      ghost var v0 := Now();
      RootIsTable(v0, root);
      r := Descend(root, [], p[..1], root, i4);
      if r.Some? {
        ghost var v1 := Now();
        LacksKept(v0, v1, root, p[..1], p[..2]);
        LacksKept(v0, v1, root, p[..1], p[..3]);
        r := Descend(root, p[..1], p[..2], r.value, i3);
        ContainedTrans(v0, v1, Now(), root);
        SpaceTrans(v0.mem, v1.mem, memory[..], root);
        if r.Some? {
          ghost var v2 := Now();
          LacksKept(v1, v2, root, p[..2], p[..3]);
          r := Descend(root, p[..2], p[..3], r.value, i2);
          ContainedTrans(v0, v2, Now(), root);
          SpaceTrans(v0.mem, v2.mem, memory[..], root);
        }
      }
    }

    /** Maps one page, whether or not it was mapped before; false is a halt. */
    method Allocate4KiB(root: nat, virtual: nat, physical: nat, ghost page: nat) returns (ok: bool)
      requires Valid() && Good(Now(), root) && page == virtual / PAGE_SIZE % PAGES
      modifies bitmap, memory
      ensures Valid() && Good(Now(), root) && Contained(old(Now()), Now(), root)
      ensures ok ==> Placed(old(Now()), Now(), root, page, physical)
      ensures !ok ==> |old(Now()).free| < MissingTables(old(Now()), root, PagePath(page))
    {
      ghost var v0 := Now();
      AddressIsPage(virtual);
      var r := EnsurePath(root, PML4Index(virtual), PDPTIndex(virtual), PDTIndex(virtual), PagePath(page));
      if r.None? {
        return false;
      }
      ghost var v1 := Now();
      var pt, i1, e := r.value, PTIndex(virtual), AddressToEntry(physical);
      LeafStep(v1, root, page, pt, i1, e, None);
      memory[pt] := memory[pt][i1 := e];
      assert Now() == FillLeaf(v1, pt, i1, e, None);
      ContainedTrans(v0, v1, Now(), root);
      MappedHasTables(Now(), root, PagePath(page));
      return true;
    }

    /** First loop: identity-map the first gibibyte. */
    method MapIdentity(root: nat) returns (ok: bool)
      requires Valid() && Good(Now(), root)
      modifies bitmap, memory
      ensures Valid() && Good(Now(), root) && Contained(old(Now()), Now(), root)
      ensures ok ==> RunMapped(Now(), root, 0, 0x4_0000) && SameOutside(old(Now()), Now(), root, 0, 0x4_0000)
      ensures ok ==> |Now().free| >= |old(Now().free)| - Budget(0, 0x4_0000)
      ensures |old(Now().free)| >= Budget(0, 0x4_0000) ==> ok
    {
      hide RunState, Placed, RunMapped, SameOutside, Budget, Good, Contained;
      ghost var v0 := Now();
      RunStarts(v0, root, 0);
      var page := 0;
      while page < 512 * 512
        invariant page <= 0x4_0000 && Valid() && Good(Now(), root)
        invariant RunState(v0, Now(), root, 0, page)
      {
        ghost var v := Now();
        LowAddress(page);
        ok := Allocate4KiB(root, page * 4096, page * 4096, page);
        if !ok {
          RunGives(v0, v, root, 0, page);
          RunHalts(v0, v, root, 0, page, 0x4_0000);
          ContainedTrans(v0, v, Now(), root);
          return;
        }
        RunStep(v0, v, Now(), root, 0, page);
        page := page + 1;
      }
      RunGives(v0, Now(), root, 0, page);
      ok := true;
    }

    /** Second loop: a window onto all of physical memory. */
    method MapPhysicalMemory(root: nat, memoryHigh: nat) returns (ok: bool)
      requires Valid() && Good(Now(), root) && memoryHigh < 0x1_0000_0000
      modifies bitmap, memory
      ensures Valid() && Good(Now(), root) && Contained(old(Now()), Now(), root)
      ensures var first := WindowPage(memoryHigh);
              var next := first + memoryHigh / PAGE_SIZE + 1;
              && (ok ==> RunMapped(Now(), root, first, next) && SameOutside(old(Now()), Now(), root, first, next))
              && (ok ==> |Now().free| >= |old(Now().free)| - Budget(first, next))
              && (|old(Now().free)| >= Budget(first, next) ==> ok)
    {
      hide RunState, Placed, RunMapped, SameOutside, Budget, Good, Contained;
      ghost var v0 := Now();
      ghost var first := WindowPage(memoryHigh);
      RunStarts(v0, root, first);
      var window := PhysicalMemoryMap(memoryHigh);
      ghost var next := first + memoryHigh / PAGE_SIZE + 1;
      var i := 0;
      ghost var page := first;
      while i <= memoryHigh
        invariant i == (page - first) * PAGE_SIZE && first <= page <= next && Valid() && Good(Now(), root)
        invariant RunState(v0, Now(), root, first, page)
      {
        ghost var v := Now();
        WindowAddress(memoryHigh, i);
        WindowProgress(memoryHigh, i, page - first);
        ok := Allocate4KiB(root, window + i, i, page);
        if !ok {
          RunGives(v0, v, root, first, page);
          RunHalts(v0, v, root, first, page, next);
          ContainedTrans(v0, v, Now(), root);
          return;
        }
        RunStep(v0, v, Now(), root, first, page);
        i := i + 4096;
        page := page + 1;
      }
      WindowEnd(memoryHigh, i, page - first);
      RunGives(v0, Now(), root, first, page);
      ok := true;
    }

    /** The frame for one stack page, or 0. */
    method TakeStackFrame(ghost root: nat) returns (physical: nat)
      requires Valid() && Good(Now(), root)
      modifies bitmap
      ensures Valid() && Good(Now(), root) && Contained(old(Now()), Now(), root)
      ensures TookFrame(old(Now()), Now(), physical) && (physical == 0 ==> old(Now()).free == {})
    {
      hide Good, Contained;
      ghost var v := Now();
      physical := AllocateFreePhysicalAddress();
      TakeFrame(v, Now(), root, physical);
    }

    /** Third loop: the kernel stack, downwards from the top page, on fresh frames. */
    method MapStack(root: nat) returns (ok: bool, ghost stack: seq<nat>)
      requires Valid() && Good(Now(), root)
      modifies bitmap, memory
      ensures Valid() && Good(Now(), root) && Contained(old(Now()), Now(), root)
      ensures ok ==> |stack| == STACK_PAGES && StackMapped(Now(), root, stack)
                     && SameOutside(old(Now()), Now(), root, PAGES - STACK_PAGES, PAGES)
      ensures |old(Now().free)| >= STACK_PAGES + 3 ==> ok && 0 !in stack
    {
      hide StackState, Placed, StackMapped, SameOutside, Good, Contained, TookFrame;
      ghost var v0 := Now();
      StackStarts(v0, root);
      stack := [];
      var page := 0;
      while page < STACK_PAGES
        invariant page == |stack| <= STACK_PAGES && Valid() && Good(Now(), root)
        invariant StackState(v0, Now(), root, stack)
      {
        ghost var v, q := Now(), PAGES - 1 - |stack|;
        StackAddress(page);
        var physical := TakeStackFrame(root);
        ghost var u := Now();
        ok := Allocate4KiB(root, TOP - page * 4096, physical, q);
        if !ok {
          StackGives(v0, v, root, stack);
          StackHalts(v0, v, u, root, stack, physical);
          ContainedTrans(v0, v, u, root);
          ContainedTrans(v0, u, Now(), root);
          return;
        }
        StackStep(v0, v, u, Now(), root, stack, physical);
        stack := stack + [physical];
        page := page + 1;
      }
      StackGives(v0, Now(), root, stack);
      ok := true;
    }

    /** The whole boot address space.  With enough free frames it never halts. */
    method SetupPaging(root: nat, memoryHigh: nat) returns (ok: bool, ghost stack: seq<nat>)
      requires Valid() && Good(Now(), root) && memoryHigh < 0x1_0000_0000
      modifies bitmap, memory
      ensures Valid() && Good(Now(), root) && Contained(old(Now()), Now(), root)
      ensures ok ==> BootSpace(old(Now()), Now(), root, memoryHigh, stack)
      ensures |old(Now().free)| >= FramesNeeded(memoryHigh) ==> ok && 0 !in stack
    {
      ghost var v0 := Now();
      ghost var first := WindowPage(memoryHigh);
      ghost var next := first + memoryHigh / PAGE_SIZE + 1;
      WindowAddress(memoryHigh, memoryHigh);
      stack := [];
      ok := MapIdentity(root);
      if !ok {
        return;
      }
      ghost var v1 := Now();
      ok := MapPhysicalMemory(root, memoryHigh);
      ghost var v2 := Now();
      ContainedTrans(v0, v1, v2, root);
      if !ok {
        return;
      }
      ok, stack := MapStack(root);
      ContainedTrans(v0, v2, Now(), root);
      if ok {
        SpacesCompose(v0, v1, v2, Now(), root, memoryHigh, stack);
      }
    }
  }
}
