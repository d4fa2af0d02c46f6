/** The kernel pager: frame allocation from a 64-bit-word bitmap, and page assignment by
    walking and extending the four-level tables. */
module PageMeta {
  import opened Wrappers
  import opened PageTables
  import opened PagerSteps
  import Bits = FrameBitmap
  import Runs = FrameRuns

  predicate IsCanonical(address: nat) {
    address < 0x0000_8000_0000_0000 || 0xffff_8000_0000_0000 <= address
  }

  /** With at most this many frames (128 TiB) every table pointer is canonical. */
  const CANONICAL_FRAMES: nat := 0x8_0000_0000

  class PageMeta4K {
    /** Page-aligned and nonzero: address 0 stands for "no free page". */
    const physicalStart: nat
    /** The number of pages managed, or -1 before the pager is set up. */
    var pages: int
    const bitmap: array<nat>
    /** Physical memory, read and written through the physical memory map. */
    const memory: array<Frame>

    ghost predicate Valid()
      reads this, bitmap
    {
      && physicalStart > 0 && physicalStart % PAGE_SIZE == 0
      && pages >= -1
      && bitmap.Length == (pages + 63) / 64
      && Bits.InWidth(bitmap[..], 64)
      && FirstFrame() + Scanned() <= memory.Length
    }

    ghost function FirstFrame(): nat {
      physicalStart / PAGE_SIZE
    }

    /** Only whole bitmap words are searched. */
    function Scanned(): nat
      reads this
    {
      if pages < 0 then 0 else pages / 64 * 64
    }

    /** Bitmap indices the allocator may hand out. */
    ghost function FreeIndices(): set<nat>
      requires Valid()
      reads this, bitmap
    {
      Bits.FreeSet(bitmap[..], 64, 0, Scanned())
    }

    /** Physical frames the allocator may hand out. */
    ghost function FreeFrames(): set<nat>
      requires Valid()
      reads this, bitmap
    {
      Bits.Frames(FreeIndices(), FirstFrame(), Scanned())
    }

    ghost function UsedIndices(): set<nat>
      requires Valid()
      reads this, bitmap
    {
      Bits.UsedSet(bitmap[..], 64)
    }

    ghost function Now(): View
      requires Valid()
      reads this, bitmap, memory
    {
      View(memory[..], FreeFrames())
    }

    constructor (start: nat, words: array<nat>, pageCount: int, mem: array<Frame>)
      requires start > 0 && start % PAGE_SIZE == 0 && pageCount >= -1
      requires words.Length == (pageCount + 63) / 64 && Bits.InWidth(words[..], 64)
      requires start / PAGE_SIZE + (if pageCount < 0 then 0 else pageCount) <= mem.Length
      ensures Valid() && physicalStart == start && bitmap == words && memory == mem
      ensures pages == pageCount
    {
      physicalStart, bitmap, memory, pages := start, words, mem, pageCount;
    }

    /** The least clear bit of word `start` onwards, or -1. */
    method FindFree(start: nat) returns (index: int)
      requires Valid()
      ensures index == -1 || index >= 0
      ensures index == -1 ==> forall k | k in FreeIndices() :: k < 64 * start
      ensures index >= 0 ==> index in FreeIndices() && 64 * start <= index
      ensures index >= 0 ==> forall k | k in FreeIndices() && 64 * start <= k :: index <= k
    {
      if pages != -1 {
        var i := start;
        while i < pages / 64
          invariant start <= i
          invariant forall k: nat | 64 * start <= k < 64 * i && k < Scanned() :: Bits.Used(bitmap[..], 64, k)
        {
          if bitmap[i] != Bits.Ones(64) {
            for j := 0 to 64
              invariant forall m: nat | m < j :: Bits.Bit(bitmap[i], m)
            {
              if !Bits.Bit(bitmap[i], j) {
                Bits.FirstInWord(bitmap[..], 64, i, j);
                return 64 * i + j;
              }
            }
          }
          Bits.FullWord(bitmap[i], 64);
          Bits.WordFull(bitmap[..], 64, i);
          i := i + 1;
        }
      }
      return -1;
    }

    /** `bitmap[index / 64]` with one bit set or cleared. */
    method Mark(index: nat, used: bool)
      requires Valid() && (pages == -1 || index < 64 * bitmap.Length)
      modifies bitmap
      ensures Valid()
      ensures bitmap[..] == if pages == -1 then old(bitmap[..])
                            else Bits.Marked(old(bitmap[..]), 64, index, used)
      ensures pages != -1 && used ==>
                UsedIndices() == old(UsedIndices()) + {index}
                && FreeIndices() == old(FreeIndices()) - {index}
      ensures pages != -1 && !used ==>
                UsedIndices() == old(UsedIndices()) - {index}
                && FreeIndices() == old(FreeIndices()) + (if index < Scanned() then {index} else {})
    {
      if pages == -1 {
        return;
      }
      Bits.MarkInWidth(bitmap[..], 64, index, used);
      Bits.MarkSets(bitmap[..], 64, index, used, 0, Scanned());
      ghost var marked := Bits.Marked(bitmap[..], 64, index, used);
      if used {
        bitmap[index / 64] := Bits.SetBit(bitmap[index / 64], index % 64);
      } else {
        bitmap[index / 64] := Bits.ClearBit(bitmap[index / 64], index % 64);
      }
      assert bitmap[..] == marked;
    }

    lemma FrameOfIndex(index: nat)
      requires Valid()
      ensures (physicalStart + index * 4096) / PAGE_SIZE == FirstFrame() + index
      ensures (physicalStart + index * 4096) % PAGE_SIZE == 0
    {
    }

    /** Find a free frame and mark it: one of the calls that runs of the allocator are made of. */
    method TakeFree() returns (index: int)
      requires Valid()
      modifies bitmap
      ensures Valid() && index >= -1 && Scanned() <= 64 * bitmap.Length
      ensures var call := if index == -1 then Runs.Refused else Runs.Handed(index);
              Runs.Legal(old(bitmap[..]), Scanned(), call) && bitmap[..] == Runs.Apply(old(bitmap[..]), call)
      ensures index == -1 <==> old(FreeIndices()) == {}
      ensures index != -1 ==>
                && index in old(FreeIndices()) && (forall k | k in old(FreeIndices()) :: index <= k)
                && FreeIndices() == old(FreeIndices()) - {index} && UsedIndices() == old(UsedIndices()) + {index}
    {
      index := FindFree(0);
      if index == -1 {
        assert FreeIndices() == {};
      } else {
        Mark(index, true);
      }
    }

    /** One free frame, by address; 0 when there is none. */
    method AllocateFreePhysicalAddress() returns (address: nat)
      requires Valid()
      modifies bitmap
      ensures Valid()
      ensures address == 0 <==> old(FreeFrames()) == {}
      ensures address == 0 ==> bitmap[..] == old(bitmap[..])
      ensures address != 0 ==>
                var f := address / PAGE_SIZE;
                && address % PAGE_SIZE == 0
                && f in old(FreeFrames())
                && (forall g | g in old(FreeFrames()) :: f <= g)
                && FreeFrames() == old(FreeFrames()) - {f}
                && UsedIndices() == old(UsedIndices()) + {f - FirstFrame()}
    {
      hide Bits.Frames, Bits.FreeSet, Bits.UsedSet, Bits.InWidth;
      ghost var free, frames := FreeIndices(), FreeFrames();
      Bits.FreeBelow(bitmap[..], 64, 0, Scanned());
      var index := TakeFree();
      if index == -1 {
        Bits.NoFrames(FirstFrame(), Scanned());
        return 0;
      }
      Bits.FramesFollow(free, FirstFrame(), Scanned(), index);
      ghost var f := FirstFrame() + index;
      assert f in frames && FreeFrames() == frames - {f} && forall g | g in frames :: f <= g;
      address := physicalStart + index * 4096;
      FrameOfIndex(index);
      hide FreeFrames, FirstFrame, Scanned;
      assert frames == old(FreeFrames()) && address / PAGE_SIZE == f;
    }

    // -------------------------------------------------------------- page assignment

    /** `n` frames were taken; or the call halted because fewer than `n` were left (or, on a
        machine with more than 128 TiB of memory, at a non-canonical table pointer). */
    ghost predicate Took(before: View, after: View, halted: bool, n: nat) {
      && (!halted ==> |after.free| == |before.free| - n)
      && (halted && memory.Length <= CANONICAL_FRAMES ==> |before.free| < n)
    }

    /** The repeated step of `assign`: if the entry is empty, link a fresh zeroed table; then
        follow the entry, unless its address is not canonical.  `None` is a halt. */
    method Descend(ghost root: nat, ghost t: Path, ghost next: Path, table: nat, index: nat)
      returns (r: Option<nat>)
      requires Valid() && Good(Now(), root) && |t| < 3 && index < 512 && next == t + [index]
      requires TableAt(memory[..], root, t, table)
      modifies bitmap, memory
      ensures Valid() && Good(Now(), root)
      ensures r.Some? ==> TableAt(memory[..], root, next, r.value)
      ensures SameTablesExcept(old(Now()), Now(), root, next)
      ensures Took(old(Now()), Now(), r.None?, Lacks(old(Now()), root, next))
      ensures Lacks(old(Now()), root, next) == 0 ==> Now() == old(Now()) && bitmap[..] == old(bitmap[..])
      ensures SameSpace(old(memory[..]), memory[..], root) && Contained(old(Now()), Now(), root)
    {
      hide Good, Contained, SameTablesExcept, SameSpace, Lacks, TableAt, AddressToEntry, FrameOf, Present;
      ghost var before := Now();
      FollowStep(before, root, t, next, table, index);
      if !Present(memory[table][index]) {
        var address := AllocateFreePhysicalAddress();
        if address == 0 {
          return None;
        }
        memory[table] := memory[table][index := AddressToEntry(address)];
        memory[address / PAGE_SIZE] := ZeroFrame();
        assert address == address / PAGE_SIZE * PAGE_SIZE;
        assert Linked(before, Now(), root, t, table, index, address / PAGE_SIZE);
        LinkStep(before, Now(), root, t, table, index, address / PAGE_SIZE);
      }
      var pointer := FrameOf(memory[table][index]);
      assert TableAt(memory[..], root, next, pointer);
      return if IsCanonical(pointer * 4096) then Some(pointer) else None;
    }

    /** The last-level table of a page, extending the tree as far as needed. */
    method EnsurePath(root: nat, i4: nat, i3: nat, i2: nat, ghost p: Path) returns (r: Option<nat>)
      requires Valid() && Good(Now(), root) && ValidPath(p) && |p| == 4
      requires p[0] == i4 && p[1] == i3 && p[2] == i2
      modifies bitmap, memory
      ensures Valid() && Good(Now(), root)
      ensures r.Some? ==> TableAt(memory[..], root, p[..3], r.value)
      ensures Took(old(Now()), Now(), r.None?, MissingTables(old(Now()), root, p))
      ensures MissingTables(old(Now()), root, p) == 0 ==>
                Now() == old(Now()) && bitmap[..] == old(bitmap[..])
      ensures SameSpace(old(memory[..]), memory[..], root) && Contained(old(Now()), Now(), root)
    {
      hide Good, Contained, SameTablesExcept, SameSpace, Lacks, TableAt;
      assert p[..1] == [] + [i4] && p[..2] == p[..1] + [i3] && p[..3] == p[..2] + [i2];
      ghost var v0 := Now();
      RootIsTable(v0, root);
      r := Descend(root, [], p[..1], root, i4);
      if r.Some? {
        ghost var v1 := Now();
        LacksKept(v0, v1, root, p[..1], p[..2]);
        LacksKept(v0, v1, root, p[..1], p[..3]);
        r := Descend(root, p[..1], p[..2], r.value, i3);
        ContainedTrans(v0, v1, Now(), root);
        SpaceTrans(v0.mem, v1.mem, memory[..], root);
        if r.Some? {
          ghost var v2 := Now();
          LacksKept(v1, v2, root, p[..2], p[..3]);
          r := Descend(root, p[..2], p[..3], r.value, i2);
          ContainedTrans(v0, v2, Now(), root);
          SpaceTrans(v0.mem, v2.mem, memory[..], root);
        }
      }
    }

    /** The last step of `assign`: fill the empty last-level entry `i1` of table `pt`. */
    method FillEntry(ghost root: nat, pt: nat, i1: nat, physical: nat, meta: nat, ghost page: nat)
      returns (r: Option<Entry>)
      requires Valid() && Good(Now(), root) && meta < PAGE_SIZE && page < PAGES && PagePath(page)[3] == i1
      requires TableAt(memory[..], root, PagePath(page)[..3], pt)
      modifies bitmap, memory
      ensures Valid() && Good(Now(), root) && Contained(old(Now()), Now(), root)
      ensures Took(old(Now()), Now(), r.None?, if physical == 0 then 1 else 0)
      ensures r.None? ==> memory[..] == old(memory[..])
      ensures r.Some? ==> Filled(old(Now()), Now(), root, page, r.value, physical, meta)
    {
      hide Good, Contained, SameSpaceExcept, TableAt, WithMeta, AddressToEntry, Present, FrameOf, IsTable, EntryFor;
      ghost var before := Now();
      TableInside(before, root, page, pt);
      NothingTouched(before, root);
      if physical != 0 {
        var e := WithMeta(AddressToEntry(physical), meta);
        NewEntry(physical, meta);
        LeafStep(before, root, page, pt, i1, e, None);
        memory[pt] := memory[pt][i1 := e];
        assert Now() == FillLeaf(before, pt, i1, e, None);
        return Some(e);
      }
      var address := AllocateFreePhysicalAddress();
      if address == 0 {
        return None;
      }
      var e := WithMeta(AddressToEntry(address), meta);
      ghost var taken := Some(address / PAGE_SIZE);
      NewEntry(address, meta);
      LeafStep(before, root, page, pt, i1, e, taken);
      memory[pt] := memory[pt][i1 := e];
      memory[address / PAGE_SIZE] := ZeroFrame();
      assert Now() == FillLeaf(before, pt, i1, e, taken);
      return Some(e);
    }

    /** Maps one page.  `None` is the halt on a non-canonical table pointer or when no frame is
        left; the result is the new entry, or 0 when the page was mapped already. */
    method Assign(root: nat, i4: nat, i3: nat, i2: nat, i1: nat, physical: nat, meta: nat,
                  ghost page: nat)
      returns (r: Option<Entry>)
      requires Valid() && Good(Now(), root) && meta < PAGE_SIZE
      requires page < PAGES && PagePath(page) == [i4, i3, i2, i1]
      modifies bitmap, memory
      ensures Valid() && Good(Now(), root) && Contained(old(Now()), Now(), root)
      ensures pages == -1 || Mapping(old(memory[..]), root, page).Some? ==>
                && Now() == old(Now()) && bitmap[..] == old(bitmap[..])
                && (r == Some(0) || (r == None && memory.Length > CANONICAL_FRAMES))
      ensures pages == -1 ==> r == Some(0)
      ensures r.None? ==> SameSpace(old(memory[..]), memory[..], root)
      ensures pages != -1 && Mapping(old(memory[..]), root, page).None? ==>
                && Took(old(Now()), Now(), r.None?, Needed(old(Now()), root, page, physical))
                && (r.Some? ==> Filled(old(Now()), Now(), root, page, r.value, physical, meta))
    {
      if pages == -1 {
        return Some(0);
      }
      ghost var v0 := Now();
      PageToPath(page);
      MappedHasTables(v0, root, PagePath(page));
      var table := EnsurePath(root, i4, i3, i2, PagePath(page));
      if table.None? {
        return None;
      }
      ghost var v1 := Now();
      var pt := table.value;
      assert Slot(memory[..], root, PagePath(page)) == Some(memory[pt][i1]);
      if Present(memory[pt][i1]) {
        return Some(0);
      }
      r := FillEntry(root, pt, i1, physical, meta, page);
      ContainedTrans(v0, v1, Now(), root);
    }

    /** `assign` on the four indices of a virtual address; true when something was mapped. */
    method AssignAddress(root: nat, virtual: nat, physical: nat, meta: nat) returns (r: Option<bool>)
      requires Valid() && Good(Now(), root) && meta < PAGE_SIZE
      modifies bitmap, memory
      ensures Valid() && Good(Now(), root) && Contained(old(Now()), Now(), root)
      ensures pages == -1 ==> r == Some(false) && Now() == old(Now()) && bitmap[..] == old(bitmap[..])
      ensures var page := virtual / PAGE_SIZE % PAGES;
              && (r == Some(true) ==>
                    && Mapping(old(memory[..]), root, page).None?
                    && Mapping(memory[..], root, page).Some?
                    && Filled(old(Now()), Now(), root, page, Mapping(memory[..], root, page).value,
                              physical, meta))
              && (r != Some(true) ==> SameSpace(old(memory[..]), memory[..], root))
              && (Mapping(old(memory[..]), root, page).Some? ==>
                    Now() == old(Now()) && (r == Some(false) || (r == None && memory.Length > CANONICAL_FRAMES)))
              && (pages != -1 && Mapping(old(memory[..]), root, page).None? ==>
                    && Took(old(Now()), Now(), r.None?, Needed(old(Now()), root, page, physical))
                    && (r == Some(true) || r == None))
    {
      AddressIsPage(virtual);
      var out := Assign(root, PML4Index(virtual), PDPTIndex(virtual), PDTIndex(virtual), PTIndex(virtual),
                        physical, meta, virtual / PAGE_SIZE % PAGES);
      return if out.None? then None else Some(out.value != 0);
    }

    /** Rewrites the entry of a mapped page in place; false when the page is not mapped. */
    method ModifyEntry(root: nat, virtual: nat, modifier: Entry -> Entry) returns (found: bool)
      requires Valid() && Good(Now(), root)
      modifies memory
      ensures Valid() && Good(Now(), root) && Contained(old(Now()), Now(), root)
      ensures Now().free == old(Now()).free
      ensures var page := virtual / PAGE_SIZE % PAGES;
              var before := Mapping(old(memory[..]), root, page);
              && found == before.Some?
              && (!found ==> memory[..] == old(memory[..]))
              && (found ==>
                    var e := modifier(before.value);
                    && Mapping(memory[..], root, page) == (if Present(e) then Some(e) else None)
                    && SameSpaceExcept(old(memory[..]), memory[..], root, page))
    {
      hide Good, Contained, SameSpaceExcept, Present, FrameOf, TableAt;
      ghost var v := Now();
      ghost var page := virtual / PAGE_SIZE % PAGES;
      AddressIsPage(virtual);
      NothingTouched(v, root);
      var i4, i3, i2, i1 := PML4Index(virtual), PDPTIndex(virtual), PDTIndex(virtual), PTIndex(virtual);
      assert PagePath(page) == [i4, i3, i2, i1];
      RootIsTable(v, root);
      assert PagePath(page)[..0] == [];
      WalkStep(v, root, page, 0, root);
      if !Present(memory[root][i4]) {
        return false;
      }
      var pdpt := FrameOf(memory[root][i4]);
      WalkStep(v, root, page, 1, pdpt);
      if !Present(memory[pdpt][i3]) {
        return false;
      }
      var pdt := FrameOf(memory[pdpt][i3]);
      WalkStep(v, root, page, 2, pdt);
      if !Present(memory[pdt][i2]) {
        return false;
      }
      var pt := FrameOf(memory[pdt][i2]);
      WalkStep(v, root, page, 3, pt);
      if !Present(memory[pt][i1]) {
        return false;
      }
      LeafStep(v, root, page, pt, i1, modifier(memory[pt][i1]), None);
      memory[pt] := memory[pt][i1 := modifier(memory[pt][i1])];
      assert Now() == FillLeaf(v, pt, i1, memory[pt][i1], None);
      return true;
    }

    /** Unmaps a page; its frame stays marked as used. */
    method FreeEntry(root: nat, virtual: nat) returns (found: bool)
      requires Valid() && Good(Now(), root)
      modifies memory
      ensures Valid() && Good(Now(), root)
      ensures Now().free == old(Now()).free
      ensures var page := virtual / PAGE_SIZE % PAGES;
              && found == Mapping(old(memory[..]), root, page).Some?
              && Mapping(memory[..], root, page).None?
              && SameSpaceExcept(old(memory[..]), memory[..], root, page)
    {
      found := ModifyEntry(root, virtual, e => 0);
    }

    /** The number of set bits in the bitmap. */
    method PagesUsed() returns (count: nat)
      requires Valid()
      ensures count == |UsedIndices()|
    {
      count := 0;
      assert bitmap[..0] == [];
      for i := 0 to bitmap.Length
        invariant count == |Bits.UsedSet(bitmap[..i], 64)|
      {
        assert bitmap[..][..i] == bitmap[..i] && bitmap[..][..i + 1] == bitmap[..i + 1];
        Bits.UsedSetGrows(bitmap[..], i);
        count := count + Bits.PopCount(bitmap[i], 64);
      }
      assert bitmap[..bitmap.Length] == bitmap[..];
    }
  }
}
