/** The ELF writer's file layout: where the segment table, the section bodies and the section
    table go. File positions are 64-bit and wrap; the ghost flag `wrapped` remembers whether one
    ever did. */
module ElfLayout {
  import opened ElfAbort
  import opened ElfFile
  import opened ElfRoom
  import Order = ElfOrder
  import opened Permutations
  import opened Wrappers

  class Writer {
    const headerSize: nat
    const segmentEntrySize: nat
    const sectionEntrySize: nat
    const sections: array<Section>
    const segments: array<Segment>
    var segmentsOffset: Word64
    var sectionsOffset: Word64
    var currentFilePos: Word64
    ghost var wrapped: bool

    constructor (headerSize: nat, segmentEntrySize: nat, sectionEntrySize: nat,
                 sections: array<Section>, segments: array<Segment>)
      ensures this.headerSize == headerSize && this.segmentEntrySize == segmentEntrySize
      ensures this.sectionEntrySize == sectionEntrySize
      ensures this.sections == sections && this.segments == segments
    {
      this.headerSize, this.segmentEntrySize := headerSize, segmentEntrySize;
      this.sectionEntrySize := sectionEntrySize;
      this.sections, this.segments := sections, segments;
      segmentsOffset, sectionsOffset, currentFilePos, wrapped := 0, 0, 0, false;
    }

    /** `current_file_pos += n`. */
    method Advance(n: Word64)
      modifies `currentFilePos, `wrapped
      ensures currentFilePos == Plus(old(currentFilePos), n)
      ensures wrapped <==> old(wrapped) || old(currentFilePos) + n >= TWO64
    {
      wrapped := wrapped || currentFilePos + n >= TWO64;
      currentFilePos := Plus(currentFilePos, n);
    }

    /** Gives a section its place and moves past it. */
    method Emit(index: nat, generated: array<bool>, vaddr: Word64, start: Word64, gap: Word64)
      requires index < sections.Length == generated.Length
      modifies sections, generated, `currentFilePos, `wrapped
      ensures generated[..] == old(generated[..])[index := true]
      ensures sections[..] == old(sections[..])[index := Moved(old(sections[index]), index, vaddr, start,
                                                               Plus(old(currentFilePos), gap))]
      ensures currentFilePos == End(old(sections[index]), Plus(old(currentFilePos), gap))
      ensures old(wrapped) ==> wrapped
      ensures !wrapped ==> old(currentFilePos) + gap < TWO64
      ensures !wrapped && old(sections[index]).stype != SHT_NOBITS ==>
                old(currentFilePos) + gap + old(sections[index]).size < TWO64
      ensures Grows(old(wrapped), old(currentFilePos), wrapped, currentFilePos, gap + Taken(old(sections[index])))
    {
      var sec := sections[index];
      Advance(gap);
      if !sec.addressSet {
        sections[index] := sections[index].(address := Minus(Plus(vaddr, currentFilePos), start), addressSet := true);
      }
      if index != 0 {
        sections[index] := sections[index].(offset := currentFilePos);
      }
      if sec.stype != SHT_NOBITS {
        Advance(sec.size);
      }
      generated[index] := true;
    }

    /** One turn of the loop in `write_segment_data`. */
    method PlaceSection(seg: Segment, index: nat, generated: array<bool>, start: Word64,
                        memory0: Word64, file0: Word64)
      returns (ok: bool, memory: Word64, file: Word64, ghost gap: Word64)
      requires index < sections.Length == generated.Length
      modifies sections, generated, `currentFilePos, `wrapped
      ensures !ok ==> sections[..] == old(sections[..]) && generated[..] == old(generated[..])
      ensures ok ==> generated[..] == old(generated[..])[index := true]
      ensures ok ==> sections[..] == old(sections[..])[index := sections[index]]
      ensures old(wrapped) ==> wrapped
      ensures !ok || old(generated[index]) ==>
                sections[index] == old(sections[index])
                && currentFilePos == old(currentFilePos) && wrapped == old(wrapped)
      ensures SameSection(old(sections[index]), sections[index])
      ensures Passes(old(sections[index]), old(generated[index]), seg.vaddr, start, old(currentFilePos), currentFilePos,
                     ok)
      ensures ok && !wrapped && !old(generated[index]) ==>
                PlacedNext(old(sections[index]), sections[index], index, old(currentFilePos), currentFilePos)
      ensures ok && !wrapped && !old(generated[index]) ==>
                PutOnAlignment(old(sections[index]), sections[index], index)
      ensures ok && !old(generated[index]) && 0 < index && Steps(old(sections[index])) ==>
                InStep(sections[index], seg.vaddr, start)
      ensures ok && !old(generated[index]) && old(sections[index]).stype != SHT_NOBITS ==>
                Minus(currentFilePos, file) == Minus(old(currentFilePos), file0)
      ensures ok && old(generated[index]) && old(sections[index]).Stored() ==>
                file == Minus(Plus(old(sections[index]).offset, old(sections[index]).size), start)
      ensures ok && Counted(old(sections[index]), seg.stype, old(generated[index])) ==>
                Minus(memory, file) == Plus(Minus(memory0, file0), BlankSize(old(sections[index]), seg.stype))
      ensures ok && old(sections[index]).stype == SHT_NULL ==> memory == memory0 && file == file0
      ensures ok && old(sections[index]).stype != SHT_NULL ==>
                && memory == (if InMemory(old(sections[index]), seg.stype)
                              then Plus(memory0, Plus(old(sections[index]).size, gap)) else memory0)
                && file == (if old(sections[index]).stype != SHT_NOBITS
                            then Plus(file0, Plus(old(sections[index]).size, gap)) else file0)
                && (!old(generated[index]) ==>
                      currentFilePos == End(old(sections[index]), Plus(old(currentFilePos), gap)))
      ensures ok && !old(generated[index]) && NotBelow(old(sections[index]), seg.vaddr) ==>
                Grows(old(wrapped), old(currentFilePos), wrapped, currentFilePos,
                      SectionCost(old(sections[index]), seg.vaddr))
    {
      hide Gap, Moved, End, Plus, Minus, NotBelow, Grows, OnAlignment, Counted, InMemory;
      hide Passes;
      ok, memory, file, gap := true, memory0, file0, 0;
      var sec := sections[index];
      if sec.stype == SHT_NULL {
        generated[index] := true;
        NullPasses(sec, old(generated[index]), seg.vaddr, start, currentFilePos);
        PlusNothing(Minus(memory, file));
        GrowsNothing(wrapped, currentFilePos, SectionCost(sec, seg.vaddr));
        return;
      }
      hide SectionCost;
      GapPasses(sec, generated[index], seg.vaddr, start, currentFilePos, file);
      var skip := Gap(sec, generated[index], seg.vaddr, start, currentFilePos, file);
      if skip.None? {
        ok := false;
        return;
      }
      var sectionAlign := skip.value;
      gap := sectionAlign;
      if Counted(sec, seg.stype, generated[index]) {
        CountedGrows(sec, seg.stype, generated[index], seg.vaddr, start, currentFilePos, file0, memory0, sectionAlign);
      }
      if generated[index] {
        GeneratedEnds(sec, seg.vaddr, start, currentFilePos, file0);
      }
      if InMemory(sec, seg.stype) {
        memory := Plus(memory, Plus(sec.size, sectionAlign));
      }
      if sec.stype != SHT_NOBITS {
        file := Plus(file, Plus(sec.size, sectionAlign));
      }
      if generated[index] {
        return;
      }
      EmitFacts(sec, index, seg.vaddr, start, currentFilePos, file0, sectionAlign);
      ghost var pos0, wrapped0 := currentFilePos, wrapped;
      Emit(index, generated, seg.vaddr, start, sectionAlign);
      if NotBelow(sec, seg.vaddr) {
        GapCost(sec, seg.vaddr, start, pos0, file0);
        GrowsLess(wrapped0, pos0, wrapped, currentFilePos, sectionAlign + Taken(sec), SectionCost(sec, seg.vaddr));
      }
    }

    /** One turn of that loop, with what it keeps. */
    method PlaceNext(seg: Segment, j: nat, generated: array<bool>, start: Word64, memory1: Word64, file1: Word64,
                     ghost secs0: seq<Section>, ghost done0: seq<bool>, ghost lo: nat, ghost pos0: Word64,
                     ghost memory0: Word64, ghost file0: Word64, ghost wrapped0: bool)
      returns (ok: bool, memory: Word64, file: Word64)
      requires |secs0| == sections.Length == generated.Length == |done0| && j < |seg.sections|
      requires forall k | 0 <= k < |seg.sections| :: seg.sections[k] < sections.Length
      requires Wrote(seg, j, start, secs0, done0, sections[..], generated[..], wrapped)
      requires Sized(seg, j, secs0, done0, start, memory0, file0, memory1, file1)
      requires Plain(seg, j, secs0, done0) ==> Minus(currentFilePos, file1) == Minus(pos0, file0)
      requires Placed(secs0, done0, lo, pos0) && !wrapped ==>
                 && Placed(sections[..], generated[..], lo, currentFilePos)
                 && Within(sections[..], done0, generated[..], pos0, currentFilePos)
      requires ListNotBelow(seg, j, secs0, done0) ==>
                 Grows(wrapped0, pos0, wrapped, currentFilePos, ListCost(seg, j, secs0, done0))
      modifies sections, generated, `currentFilePos, `wrapped
      ensures old(wrapped) ==> wrapped
      ensures Placed(secs0, done0, lo, pos0) && !wrapped ==>
                && Placed(sections[..], generated[..], lo, currentFilePos)
                && Within(sections[..], done0, generated[..], pos0, currentFilePos)
      ensures ok ==> Wrote(seg, j + 1, start, secs0, done0, sections[..], generated[..], wrapped)
      ensures ok ==> Sized(seg, j + 1, secs0, done0, start, memory0, file0, memory, file)
      ensures ok && Plain(seg, j + 1, secs0, done0) ==> Minus(currentFilePos, file) == Minus(pos0, file0)
      ensures ok && ListNotBelow(seg, j + 1, secs0, done0) ==>
                Grows(wrapped0, pos0, wrapped, currentFilePos, ListCost(seg, j + 1, secs0, done0))
      ensures Passable(seg, j, secs0, done0, old(generated[..]), start, old(currentFilePos)) ==>
                ok && Passable(seg, j + 1, secs0, done0, generated[..], start, currentFilePos)
    {
      hide Passable, Passes;
      hide Wrote, Placed, Within, Plain, PlacedNext, PutOnAlignment, InStep, SameSection, Minus, Plus, Sized;
      hide Grows, ListCost, ListNotBelow, SectionCost, NotBelow, InMemory, End, Counted, BlankSize;
      var index := seg.sections[j];
      ghost var secs, done, pos, wrapped1 := sections[..], generated[..], currentFilePos, wrapped;
      ghost var gap;
      ok, memory, file, gap := PlaceSection(seg, index, generated, start, memory1, file1);
      if Passable(seg, j, secs0, done0, done, start, pos) {
        PassableNext(seg, j, secs0, done0, secs, done, start, pos, currentFilePos, wrapped1, ok);
      }
      if !ok {
        return;
      }
      SizedNext(seg, j, secs0, done0, secs, done, start, memory0, file0, memory1, file1, memory, file,
                wrapped1);
      ListCostNext(seg, j, start, secs0, done0, secs, done, wrapped0, pos0, wrapped1, pos, wrapped, currentFilePos);
      WroteOne(seg, j, start, secs0, done0, secs, done, sections[index], wrapped1, wrapped);
      if Plain(seg, j + 1, secs0, done0) {
        PlainNext(seg, j, start, secs0, done0, secs, done, wrapped1);
      }
      if Placed(secs0, done0, lo, pos0) && !wrapped {
        PlaceStep(secs, done, lo, pos, index, sections[index], currentFilePos);
        WithinStep(secs, done0, done, pos0, pos, index, sections[index], currentFilePos);
      }
    }

    /** `write_segment_data`. */
    method WriteSegmentData(seg: Segment, generated: array<bool>, memory0: Word64, file0: Word64, start: Word64,
                            ghost lo: nat)
      returns (ok: bool, memory: Word64, file: Word64)
      requires sections.Length == generated.Length
      requires forall k | 0 <= k < |seg.sections| :: seg.sections[k] < sections.Length
      modifies sections, generated, `currentFilePos, `wrapped
      ensures ok ==> Wrote(seg, |seg.sections|, start, old(sections[..]), old(generated[..]), sections[..],
          generated[..], wrapped)
      ensures old(wrapped) ==> wrapped
      ensures old(Placed(sections[..], generated[..], lo, currentFilePos)) && !wrapped ==>
                && Placed(sections[..], generated[..], lo, currentFilePos)
                && Within(sections[..], old(generated[..]), generated[..], old(currentFilePos), currentFilePos)
      ensures ok && Plain(seg, |seg.sections|, old(sections[..]), old(generated[..])) ==>
                Minus(currentFilePos, file) == Minus(old(currentFilePos), file0)
      ensures ok ==> Sized(seg, |seg.sections|, old(sections[..]), old(generated[..]), start, memory0, file0,
                           memory, file)
      ensures ok && ListNotBelow(seg, |seg.sections|, old(sections[..]), old(generated[..])) ==>
                Grows(old(wrapped), old(currentFilePos), wrapped, currentFilePos,
                      ListCost(seg, |seg.sections|, old(sections[..]), old(generated[..])))
      ensures var secs0, done0 := old(sections[..]), old(generated[..]);
              Passable(seg, 0, secs0, done0, done0, start, old(currentFilePos)) ==> ok
    {
      hide Passable;
      hide Wrote, Placed, Within, Plain, InStep, SameSection, Minus, Plus, Sized, Grows, ListCost, ListNotBelow;
      ok, memory, file := true, memory0, file0;
      ghost var secs0, done0 := sections[..], generated[..];
      WithinStart(secs0, done0, currentFilePos);
      SizedStart(seg, secs0, done0, start, memory0, file0);
      WroteStart(seg, start, secs0, done0, wrapped);
      GrowsNothing(wrapped, currentFilePos, ListCost(seg, 0, secs0, done0));
      for j := 0 to |seg.sections|
        invariant ok && (Passable(seg, 0, secs0, done0, done0, start, old(currentFilePos)) ==>
                           Passable(seg, j, secs0, done0, generated[..], start, currentFilePos))
        invariant Wrote(seg, j, start, secs0, done0, sections[..], generated[..], wrapped)
        invariant old(wrapped) ==> wrapped
        invariant Placed(secs0, done0, lo, old(currentFilePos)) && !wrapped ==>
                    && Placed(sections[..], generated[..], lo, currentFilePos)
                    && Within(sections[..], done0, generated[..], old(currentFilePos), currentFilePos)
        invariant Plain(seg, j, secs0, done0) ==> Minus(currentFilePos, file) == Minus(old(currentFilePos), file0)
        invariant Sized(seg, j, secs0, done0, start, memory0, file0, memory, file)
        invariant ListNotBelow(seg, j, secs0, done0) ==>
                    Grows(old(wrapped), old(currentFilePos), wrapped, currentFilePos, ListCost(seg, j, secs0, done0))
      {
        ok, memory, file := PlaceNext(seg, j, generated, start, memory, file, secs0, done0, lo, old(currentFilePos),
                                      memory0, file0, old(wrapped));
        if !ok {
          return;
        }
      }
    }

    /** Where the segment table goes. */
    ghost function Table(): Extent
      reads this
    {
      Extent(segmentsOffset, segmentsOffset + segmentEntrySize * segments.Length)
    }

    ghost function SectionTableExtent(): Extent
      reads this
    {
      Extent(sectionsOffset, sectionsOffset + sectionEntrySize * sections.Length)
    }

    /** The first byte after the header and the segment table. */
    function BodyStart(): nat {
      headerSize + segmentEntrySize * segments.Length
    }

    /** Header fields and counts are 16 bits wide. */
    ghost predicate Sizes() {
      && headerSize < 0x1_0000 && segmentEntrySize < 0x1_0000 && sectionEntrySize < 0x1_0000
      && segments.Length < 0x1_0000 && sections.Length < 0x1_0000
    }

    ghost predicate Valid()
      reads sections, segments
    {
      && Sizes()
      && forall s, k | 0 <= s < segments.Length && 0 <= k < |segments[s].sections| ::
           segments[s].sections[k] < sections.Length
    }

    /** Where a segment starts, and how much of it is already there. */
    method StartSegment(seg: Segment, generated: array<bool>) returns (start: Word64, size: Word64)
      requires sections.Length == generated.Length && Sizes()
      requires forall k | 0 <= k < |seg.sections| :: seg.sections[k] < sections.Length
      modifies `currentFilePos, `wrapped
      ensures (old(wrapped) ==> wrapped) && (!wrapped ==> old(currentFilePos) <= currentFilePos)
      ensures Fresh(seg, generated[..]) ==>
                && start == currentFilePos && size == 0
                && (!wrapped && seg.align <= 0x8000_0000_0000_0000 ==> Congruent(seg.(offset := start)))
      ensures !Fresh(seg, generated[..]) ==> currentFilePos == old(currentFilePos) && wrapped == old(wrapped)
      ensures StartsFile(seg) && |seg.sections| > 0 ==> start == 0 && size == currentFilePos
      ensures IsTableSegment(seg) ==> start == segmentsOffset && size == segmentEntrySize * segments.Length
      ensures |seg.sections| == 0 && !IsTableSegment(seg) ==> size == 0 && (StartsFile(seg) ==> start == 0)
      ensures |seg.sections| > 0 && !StartsFile(seg) && generated[seg.sections[0]] ==>
                start == sections[seg.sections[0]].offset
      ensures Grows(old(wrapped), old(currentFilePos), wrapped, currentFilePos, seg.align)
    {
      size := 0;
      start := currentFilePos;
      if seg.stype == PT_PHDR && |seg.sections| == 0 {
        start := segmentsOffset;
        size := segmentEntrySize * segments.Length;
      } else if seg.offsetSet && seg.offset == 0 {
        start := 0;
        if |seg.sections| > 0 {
          size := currentFilePos;
        }
      } else if |seg.sections| > 0 && !generated[seg.sections[0]] {
        if seg.align <= 0x8000_0000_0000_0000 {
          UsualAlignment(seg.align, seg.vaddr, currentFilePos);
        }
        ShiftBelowAlign(seg.align, seg.vaddr, currentFilePos);
        hide SegmentShift;
        Advance(SegmentShift(seg.align, seg.vaddr, currentFilePos));
        start := currentFilePos;
      } else if |seg.sections| > 0 {
        start := sections[seg.sections[0]].offset;
      }
    }

    /** Starts a segment, writes its sections, and gives its new record. */
    method WriteSegment(seg: Segment, generated: array<bool>, ghost lo: nat)
      returns (ok: bool, written: Segment, ghost pos0: Word64, ghost size0: Word64)
      requires sections.Length == generated.Length && Sizes()
      requires forall k | 0 <= k < |seg.sections| :: seg.sections[k] < sections.Length
      requires !wrapped ==> Placed(sections[..], generated[..], lo, currentFilePos)
      modifies sections, generated, `currentFilePos, `wrapped
      ensures old(wrapped) ==> wrapped
      ensures ok ==> JustWritten(seg, old(generated[..]), written, pos0, currentFilePos, size0, old(sections[..]),
                                 sections[..], generated[..], wrapped, Table())
      ensures ok && !wrapped ==> Placed(sections[..], generated[..], lo, currentFilePos)
      ensures Startable(seg, old(sections[..]), old(generated[..])) ==> ok
      ensures ok && ListNotBelow(seg, |seg.sections|, old(sections[..]), old(generated[..])) ==>
                Grows(old(wrapped), old(currentFilePos), wrapped, currentFilePos,
                      seg.align + ListCost(seg, |seg.sections|, old(sections[..]), old(generated[..])))
    {
      hide Grows, ListCost, ListNotBelow, Placed, Wrote, Within, Plain, Minus, SameSections, Sized, Positioned;
      ghost var secs, done := sections[..], generated[..];
      hide Startable, Passable;
      var start, size := StartSegment(seg, generated);
      if Startable(seg, secs, done) {
        StartPassable(seg, secs, done, start, currentFilePos);
      }
      pos0, size0 := currentFilePos, size;
      ghost var wrapped1 := wrapped;
      if !wrapped {
        PlacedLater(secs, done, lo, old(currentFilePos), pos0);
      }
      var memory, file;
      ok, memory, file := WriteSegmentData(seg, generated, size, size, start, lo);
      written := seg.(fileSize := file, offset := start, offsetSet := true,
                      memorySize := if seg.memorySize < memory then memory else seg.memorySize);
      if ok {
        if ListNotBelow(seg, |seg.sections|, secs, done) {
          GrowsOn(old(wrapped), old(currentFilePos), wrapped1, pos0, wrapped, currentFilePos, seg.align,
                  ListCost(seg, |seg.sections|, secs, done), seg.align + ListCost(seg, |seg.sections|, secs, done));
        }
        PositionFollows(seg, done, written, secs, sections[..], generated[..], size, memory, Table(), wrapped);
      }
    }

    /** One turn of the loop over the segments. */
    method LayoutSegment(s: nat, generated: array<bool>, ghost segs0: seq<Segment>, ghost secs0: seq<Section>,
                         ghost order: seq<nat>, ghost p: nat, ghost lo: nat)
      returns (ok: bool)
      requires |secs0| == sections.Length == generated.Length && |segs0| == segments.Length && Sizes()
      requires ValidOrder(segs0, order, sections.Length) && p < |segs0| && s == order[p]
      requires Written(segs0, order, p, secs0, sections[..], generated[..], segments[..], wrapped, Table())
      requires !wrapped ==> Placed(sections[..], generated[..], lo, currentFilePos)
      modifies sections, segments, generated, `currentFilePos, `wrapped
      ensures old(wrapped) ==> wrapped
      ensures ok ==> Written(segs0, order, p + 1, secs0, sections[..], generated[..], segments[..], wrapped, Table())
      ensures ok && !wrapped ==> Placed(sections[..], generated[..], lo, currentFilePos)
      ensures AllClear(segs0, secs0) ==> ok
      ensures ok && SegmentNotBelow(segs0[order[p]], secs0) ==>
                Grows(old(wrapped), old(currentFilePos), wrapped, currentFilePos, SegmentCost(segs0[order[p]], secs0))
    {
      hide ValidOrder, Written, Placed, JustWritten, Grows, ListCost, ListNotBelow, SegmentNotBelow, SegmentCost, Sizes;
      ghost var secs, done, segs, wrapped0 := sections[..], generated[..], segments[..], wrapped;
      hide AllClear, Startable;
      WrittenPending(segs0, order, p, secs0, secs, done, segs, wrapped0, Table());
      if AllClear(segs0, secs0) {
        ClearStarts(segs0, order, p, secs0, secs, done, segs, wrapped0, Table());
      }
      var written;
      ghost var pos0, size;
      ok, written, pos0, size := WriteSegment(segments[s], generated, lo);
      if ok {
        segments[s] := written;
        SegmentStep(segs0, order, p, secs0, secs, sections[..], done, generated[..], segs, written, pos0,
                    currentFilePos, size, wrapped0, wrapped, old(currentFilePos), Table());
      }
    }

    /** `layout_segments_and_their_sections`. */
    method LayoutSegments() returns (ok: bool, ghost order: seq<nat>)
      requires Valid()
      modifies sections, segments, `currentFilePos, `wrapped
      ensures ValidOrder(old(segments[..]), order, sections.Length) && (old(wrapped) ==> wrapped)
      ensures order == Order.OrderOf(View(old(segments[..])))
      ensures ok ==> Written(old(segments[..]), order, segments.Length, old(sections[..]), sections[..],
                             DoneBefore(old(segments[..]), order, segments.Length, sections.Length), segments[..],
                                 wrapped, Table())
      ensures ok && !wrapped ==>
                Placed(sections[..], DoneBefore(old(segments[..]), order, segments.Length, sections.Length),
                       old(currentFilePos), currentFilePos)
      ensures AllClear(old(segments[..]), old(sections[..])) ==> ok
      ensures ok && AllNotBelow(old(segments[..]), old(sections[..])) ==>
                Grows(old(wrapped), old(currentFilePos), wrapped, currentFilePos,
                      SegmentsCost(old(segments[..]), old(sections[..])))
    {
      hide Written, Placed, Wrote, Within, Plain, Minus, SameSections, Grows, SegmentCost, TotalOf, SegmentNotBelow,
           AllClear;
      ghost var segs0, secs0 := segments[..], sections[..];
      var generated := new bool[sections.Length](i => false);
      var worklist := Order.OrderedSegments(View(segments[..]));
      order := worklist;
      ok := true;
      StartWritten(segs0, order, secs0, generated[..], wrapped, Table());
      ghost var costs := Costs(segs0, secs0);
      NoPicks(costs, order);
      GrowsNothing(wrapped, currentFilePos, 0);
      for p := 0 to |worklist|
        invariant ok
        invariant Written(segs0, order, p, secs0, sections[..], generated[..], segments[..], wrapped, Table())
        invariant old(wrapped) ==> wrapped
        invariant !wrapped ==> Placed(sections[..], generated[..], old(currentFilePos), currentFilePos)
        invariant AllNotBelow(segs0, secs0) ==>
                    Grows(old(wrapped), old(currentFilePos), wrapped, currentFilePos, TotalOf(costs, order[..p]))
      {
        ghost var pos1, wrapped1 := currentFilePos, wrapped;
        ok := LayoutSegment(worklist[p], generated, segs0, secs0, order, p, old(currentFilePos));
        if !ok {
          return;
        }
        NextPick(costs, order, p);
        if AllNotBelow(segs0, secs0) {
          GrowsOn(old(wrapped), old(currentFilePos), wrapped1, pos1, wrapped, currentFilePos,
                  TotalOf(costs, order[..p]), costs[order[p]], TotalOf(costs, order[..p + 1]));
        }
      }
      TotalPermutes(costs, order, |segs0|);
      assert order[..|segs0|] == order;
      DoneIs(segs0, order, |segs0|, secs0, sections[..], generated[..], segments[..], wrapped, Table());
    }

    /** `is_section_without_segment`. */
    method WithoutSegment(index: nat) returns (r: bool)
      ensures r <==> !exists s :: 0 <= s < segments.Length && index in segments[s].sections
    {
      var found := false;
      var j := 0;
      while !found && j < segments.Length
        invariant j <= segments.Length
        invariant found <==> exists s :: 0 <= s < j && index in segments[s].sections
      {
        var k := 0;
        while !found && k < |segments[j].sections|
          invariant k <= |segments[j].sections|
          invariant found <==> index in segments[j].sections[..k]
        {
          found := segments[j].sections[k] == index;
          k := k + 1;
        }
        j := j + 1;
      }
      r := !found;
    }

    /** Moves to the next multiple of a section's alignment. */
    method SkipTo(align: Word64)
      modifies `currentFilePos, `wrapped
      ensures old(wrapped) ==> wrapped
      ensures !wrapped ==> old(currentFilePos) <= currentFilePos && (align > 0 ==> currentFilePos % align == 0)
      ensures Grows(old(wrapped), old(currentFilePos), wrapped, currentFilePos, align)
    {
      if align > 1 && currentFilePos % align != 0 {
        Unaligned(align, currentFilePos);
        Advance(align - currentFilePos % align);
      }
    }

    /** One turn of the loop in `layout_sections_without_segments`. */
    method PlaceLoose(i: nat)
      requires i < sections.Length
      modifies sections, `currentFilePos, `wrapped
      ensures sections[..] == old(sections[..])[i := sections[i]] && (old(wrapped) ==> wrapped)
      ensures SameSection(old(sections[i]), sections[i])
      ensures !wrapped ==>
                && PlacedNext(old(sections[i]), sections[i], i, old(currentFilePos), currentFilePos)
                && (i > 0 ==> OnAlignment(sections[i]))
      ensures Grows(old(wrapped), old(currentFilePos), wrapped, currentFilePos, LooseSection(old(sections[i])))
    {
      SkipTo(sections[i].addrAlign);
      if i != 0 {
        sections[i] := sections[i].(offset := currentFilePos);
      }
      if sections[i].stype != SHT_NOBITS && sections[i].stype != SHT_NULL {
        Advance(sections[i].size);
      }
    }

    /** `layout_sections_without_segments`. */
    method LayoutLoose(ghost done0: seq<bool>, ghost lo: nat)
      requires |done0| == sections.Length
      requires DoneIfListed(done0, segments[..])
      requires !wrapped ==> Placed(sections[..], done0, lo, currentFilePos)
      modifies sections, `currentFilePos, `wrapped
      ensures old(wrapped) ==> wrapped
      ensures LoosePlaced(old(sections[..]), done0, sections.Length, sections[..], wrapped)
      ensures !wrapped ==> Placed(sections[..], DoneUpTo(done0, sections.Length), lo, currentFilePos)
      ensures Grows(old(wrapped), old(currentFilePos), wrapped, currentFilePos,
                    LooseCost(segments[..], old(sections[..]), sections.Length))
    {
      hide Placed, PlacedNext, SameSection, OnAlignment, Grows, LooseCost, LooseSection;
      ghost var secs0 := sections[..];
      LooseStart(secs0, done0, wrapped);
      GrowsNothing(wrapped, currentFilePos, LooseCost(segments[..], secs0, 0));
      for i := 0 to sections.Length
        invariant old(wrapped) ==> wrapped
        invariant LoosePlaced(secs0, done0, i, sections[..], wrapped)
        invariant !wrapped ==> Placed(sections[..], DoneUpTo(done0, i), lo, currentFilePos)
        invariant Grows(old(wrapped), old(currentFilePos), wrapped, currentFilePos, LooseCost(segments[..], secs0, i))
      {
        LooseCostNext(segments[..], secs0, done0, i, sections[..], old(wrapped), old(currentFilePos), wrapped,
                      currentFilePos);
        hide LoosePlaced;
        ghost var secs, pos, before := sections[..], currentFilePos, wrapped;
        var without := WithoutSegment(i);
        if without {
          PlaceLoose(i);
          GrowsOn(old(wrapped), old(currentFilePos), before, pos, wrapped, currentFilePos,
                  LooseCost(segments[..], secs0, i), LooseSection(secs[i]), LooseCost(segments[..], secs0, i + 1));
        } else {
          SameSelf(secs[i]);
          assert sections[..] == secs[i := secs[i]];
        }
        LooseNext(secs0, done0, i, secs, sections[i], lo, pos, currentFilePos, before, wrapped);
      }
    }

    /** `layout_section_table`. */
    method LayoutSectionTable()
      modifies `currentFilePos, `wrapped, `sectionsOffset
      ensures (old(wrapped) ==> wrapped) && sectionsOffset == currentFilePos
      ensures !wrapped ==> old(currentFilePos) <= currentFilePos && sectionsOffset % 4 == 0
      ensures Grows(old(wrapped), old(currentFilePos), wrapped, currentFilePos, 3)
    {
      var alignmentError := currentFilePos % 4;
      PaddingAligns(4, currentFilePos);
      Advance((4 - alignmentError) % 4);
      sectionsOffset := currentFilePos;
    }

    /** One turn of the outer loop of `calc_segment_alignment`. */
    method AlignSegment(s: nat)
      requires s < segments.Length
      requires forall k | 0 <= k < |segments[s].sections| :: segments[s].sections[k] < sections.Length
      modifies segments
      ensures segments[..] == old(segments[..])[s := segments[s]]
      ensures Realigned(old(segments[s]), segments[s], sections[..], |old(segments[s]).sections|)
    {
      for i := 0 to |segments[s].sections|
        invariant segments[..] == old(segments[..])[s := segments[s]]
        invariant segments[s].sections == old(segments[s].sections)
        invariant Realigned(old(segments[s]), segments[s], sections[..], i)
      {
        var align := sections[segments[s].sections[i]].addrAlign;
        if align > segments[s].align {
          segments[s] := segments[s].(align := align);
        }
      }
    }

    /** `calc_segment_alignment`. */
    method CalcAlignment()
      requires Valid()
      modifies segments
      ensures Valid()
      ensures forall s | 0 <= s < segments.Length ::
                Realigned(old(segments[s]), segments[s], sections[..], |old(segments[s]).sections|)
    {
      for s := 0 to segments.Length
        invariant Valid()
        invariant forall t | s <= t < segments.Length :: segments[t] == old(segments[t])
        invariant forall t | 0 <= t < s ::
                    Realigned(old(segments[t]), segments[t], sections[..], |old(segments[t]).sections|)
      {
        ghost var segs := segments[..];
        AlignSegment(s);
        assert forall t | 0 <= t < segments.Length && t != s :: segments[t] == segs[t];
      }
    }

    /** What follows the segments: loose sections and the section table. */
    method LayoutRest(ghost aligned: seq<Segment>, ghost order: seq<nat>, ghost secs0: seq<Section>, ghost lo: nat)
      requires |secs0| == sections.Length && ValidOrder(aligned, order, sections.Length)
      requires Written(aligned, order, |aligned|, secs0, sections[..],
                       DoneBefore(aligned, order, |aligned|, sections.Length), segments[..], wrapped, Table())
      requires !wrapped ==> Placed(sections[..], DoneBefore(aligned, order, |aligned|, sections.Length), lo,
                                   currentFilePos)
      requires headerSize <= lo && Table().hi <= lo && (Table().lo == headerSize || Table().hi == 0)
      modifies sections, `currentFilePos, `wrapped, `sectionsOffset
      ensures SameSections(secs0, sections[..])
      ensures AllWritten(aligned, order, secs0, sections[..], segments[..], wrapped, Table())
      ensures !wrapped ==> LooseAligned(segments[..], sections[..])
      ensures !wrapped ==> AllDisjoint(headerSize, Table(), sections[..], SectionTableExtent())
      ensures Grows(old(wrapped), old(currentFilePos), wrapped, currentFilePos,
                    LooseCost(aligned, secs0, sections.Length) + 3)
    {
      ghost var done, secs, wrapped0 := DoneBefore(aligned, order, |aligned|, sections.Length), sections[..], wrapped;
      hide Written, Placed, LoosePlaced, LooseAligned, AllWritten, DoneBefore, AllDisjoint, SameSections,
           ValidOrder, Grows, LooseCost, DoneUpTo, DoneIfListed;
      LooseCostWritten(aligned, order, secs0, secs, done, segments[..], wrapped, Table());
      AllDoneIffListed(aligned, order, secs0, secs, segments[..], wrapped, Table());
      ghost var table := Table();
      LayoutTail(done, lo);
      ghost var sectionTable := SectionTableExtent();
      assert Table() == table && sectionTable.lo == sectionsOffset;
      hide Table, SectionTableExtent;
      RestFacts(aligned, order, secs0, secs, sections[..], done, segments[..], wrapped0, wrapped, headerSize, lo,
                table, sectionTable);
    }

    /** The two last steps of the layout. */
    method LayoutTail(ghost done0: seq<bool>, ghost lo: nat)
      requires |done0| == sections.Length
      requires DoneIfListed(done0, segments[..])
      requires !wrapped ==> Placed(sections[..], done0, lo, currentFilePos)
      modifies sections, `currentFilePos, `wrapped, `sectionsOffset
      ensures old(wrapped) ==> wrapped
      ensures LoosePlaced(old(sections[..]), done0, sections.Length, sections[..], wrapped)
      ensures !wrapped ==> Placed(sections[..], DoneUpTo(done0, sections.Length), lo, sectionsOffset)
      ensures Grows(old(wrapped), old(currentFilePos), wrapped, currentFilePos,
                    LooseCost(segments[..], old(sections[..]), sections.Length) + 3)
    {
      LayoutLoose(done0, lo);
      ghost var pos, wrapped1 := currentFilePos, wrapped;
      LayoutSectionTable();
      ghost var cost := LooseCost(segments[..], old(sections[..]), sections.Length);
      GrowsOn(old(wrapped), old(currentFilePos), wrapped1, pos, wrapped, currentFilePos, cost, 3, cost + 3);
      if !wrapped {
        PlacedLater(sections[..], DoneUpTo(done0, sections.Length), lo, pos, sectionsOffset);
      }
    }

    /** The layout once the alignments are known. */
    method LayoutAligned(ghost lo: nat) returns (ok: bool, ghost order: seq<nat>)
      requires Valid() && lo == currentFilePos == BodyStart()
      requires segmentsOffset == if segments.Length > 0 then headerSize else 0
      modifies sections, segments, `currentFilePos, `wrapped, `sectionsOffset
      ensures ValidOrder(old(segments[..]), order, sections.Length)
      ensures order == Order.OrderOf(View(old(segments[..])))
      ensures ok ==> SameSections(old(sections[..]), sections[..])
      ensures ok ==> AllWritten(old(segments[..]), order, old(sections[..]), sections[..], segments[..], wrapped,
                                Table())
      ensures ok && !wrapped ==> LooseAligned(segments[..], sections[..])
      ensures ok && !wrapped ==> AllDisjoint(headerSize, Table(), sections[..], SectionTableExtent())
      ensures AllClear(old(segments[..]), old(sections[..])) ==> ok
      ensures ok && !old(wrapped) && Fits(lo, old(segments[..]), old(sections[..])) ==> !wrapped
    {
      hide AllWritten, SameSections, LooseAligned, AllDisjoint, Written, Placed, ValidOrder, Grows, Fits,
           SegmentsCost, LooseCost, AllNotBelow, DoneBefore, Order.OrderOf, AllClear;
      ghost var segs0, secs0 := segments[..], sections[..];
      ok, order := LayoutSegments();
      ghost var pos1, wrapped1 := currentFilePos, wrapped;
      if ok {
        LayoutRest(segs0, order, secs0, lo);
        RoomIsEnough(segs0, secs0, lo, old(wrapped), wrapped1, pos1, wrapped, currentFilePos);
      }
    }

    /** The layout part of `save`. */
    method Layout() returns (ok: bool, ghost aligned: seq<Segment>, ghost order: seq<nat>)
      requires Valid()
      modifies this, sections, segments
      ensures |aligned| == segments.Length && forall s | 0 <= s < segments.Length ::
                Realigned(old(segments[s]), aligned[s], old(sections[..]), |old(segments[s]).sections|)
      ensures ValidOrder(aligned, order, sections.Length) && order == Order.OrderOf(View(aligned))
      ensures ok ==> SameSections(old(sections[..]), sections[..])
      ensures ok ==> AllWritten(aligned, order, old(sections[..]), sections[..], segments[..], wrapped, Table())
      ensures ok && !wrapped ==> LooseAligned(segments[..], sections[..])
      ensures ok && !wrapped ==> AllDisjoint(headerSize, Table(), sections[..], SectionTableExtent())
      ensures AllClear(old(segments[..]), old(sections[..])) ==> ok
      ensures ok && Fits(BodyStart(), old(segments[..]), old(sections[..])) ==> !wrapped
    {
      hide Realigned, AllWritten, SameSections, LooseAligned, AllDisjoint, ValidOrder, Fits, Order.OrderOf, AllClear;
      ghost var segs0, secs0 := segments[..], sections[..];
      segmentsOffset := if segments.Length > 0 then headerSize else 0;
      sectionsOffset := 0;
      currentFilePos := BodyStart();
      wrapped := false;
      CalcAlignment();
      aligned := segments[..];
      assert sections[..] == secs0;
      FitsAligned(BodyStart(), segs0, aligned, secs0);
      if AllClear(segs0, secs0) {
        ClearAligned(segs0, aligned, secs0);
      }
      ok, order := LayoutAligned(BodyStart());
    }
  }
}
