/** How far an ELF file can grow: a bound on its size that can be read off the sections and segments
    before the layout, and under which no 64-bit file position wraps. */
module ElfRoom {
  import opened ElfFile
  import opened Permutations
  import opened Wrappers

  /** The position has moved up by at most `cost`, if there was that much room. */
  ghost predicate Grows(wrapped0: bool, pos0: nat, wrapped1: bool, pos1: nat, cost: nat) {
    !wrapped0 && pos0 + cost < TWO64 ==> !wrapped1 && pos0 <= pos1 <= pos0 + cost
  }

  lemma GrowsOn(w0: bool, p0: nat, w1: bool, p1: nat, w2: bool, p2: nat, c1: nat, c2: nat, c: nat)
    requires Grows(w0, p0, w1, p1, c1) && Grows(w1, p1, w2, p2, c2) && c1 + c2 <= c
    ensures Grows(w0, p0, w2, p2, c)
  {
  }

  // ---------------------------------------------------------------- one section

  /** A section that needs its address to decide its place is not below its segment. */
  predicate NotBelow(s: Section, vaddr: Word64) {
    s.addressSet && s.Stored() && s.size != 0 ==> s.address >= vaddr
  }

  function Taken(s: Section): nat {
    if s.stype == SHT_NOBITS then 0 else s.size
  }

  /** At most this much is skipped and taken for a section of a segment at `vaddr`. */
  function SectionCost(s: Section, vaddr: Word64): nat {
    if s.stype == SHT_NULL then 0
    else Taken(s) + if !s.addressSet then s.addrAlign
                    else if s.Stored() && s.size != 0 && s.address >= vaddr then s.address - vaddr else 0
  }

  lemma GapCost(s: Section, vaddr: Word64, start: Word64, pos: Word64, file: Word64)
    requires s.stype != SHT_NULL && NotBelow(s, vaddr) && Gap(s, false, vaddr, start, pos, file).Some?
    ensures Gap(s, false, vaddr, start, pos, file).value + Taken(s) <= SectionCost(s, vaddr)
  {
  }

  /** When a section with an address is placed, the position after the gap is the segment's start
      plus the distance of the addresses: it wraps exactly when that sum does. */
  lemma PlacementWrapsIff(s: Section, vaddr: Word64, start: Word64, pos: Word64, file: Word64)
    requires s.addressSet && s.Stored() && s.size != 0 && start <= pos
    ensures var gap := Gap(s, false, vaddr, start, pos, file);
            gap.Some? ==>
              (pos + gap.value < TWO64 <==>
                 if s.address >= vaddr then start + (s.address - vaddr) < TWO64 else start < vaddr - s.address)
  {
  }

  /** A section below its segment that the abort test lets pass is written before the segment. */
  lemma BelowIsWrittenBefore(s: Section, index: nat, vaddr: Word64, start: Word64, pos: Word64, file: Word64)
    requires s.addressSet && s.Stored() && s.size != 0 && index > 0 && start <= pos
    requires s.address < vaddr && vaddr - s.address <= start
    ensures var gap := Gap(s, false, vaddr, start, pos, file);
            gap.Some? ==> Moved(s, index, vaddr, start, Plus(pos, gap.value)).offset == start - (vaddr - s.address)
  {
  }

  const FAR: nat := 0x8000_0000_0000_0000

  /** Where a section in step with its segment has been put: behind the segment's start and in range
      exactly if its address is not below the segment's, and not too far above. */
  lemma InStepIff(s: Section, vaddr: Word64, start: Word64)
    requires InStep(s, vaddr, start) && start < FAR && vaddr <= FAR
    ensures start <= s.offset < FAR <==> s.address >= vaddr && start + (s.address - vaddr) < FAR
    ensures s.address < vaddr && vaddr - s.address <= start ==> s.offset == start - (vaddr - s.address)
  {
  }

  /** So it is in every layout that succeeds, for the sections that a segment was the first to place. */
  lemma PlacedInRangeIff(segs0: seq<Segment>, order: seq<nat>, p: nat, secs0: seq<Section>, secs: seq<Section>,
                         seg: Segment, wrapped: bool, table: Extent, i: nat)
    requires ValidOrder(segs0, order, |secs0|) && p < |segs0| && SameSections(secs0, secs)
    requires SegmentWritten(segs0, order, p, secs0, secs, seg, wrapped, table)
    requires 0 < i < |secs0| && i in seg.sections && !DoneBefore(segs0, order, p, |secs0|)[i]
    requires secs0[i].Stored() && secs0[i].size != 0 && secs0[i].addressSet && seg.offset < FAR && seg.vaddr <= FAR
    ensures var a, start := secs0[i].address, seg.offset;
            && (start <= secs[i].offset < FAR <==> a >= seg.vaddr && start + (a - seg.vaddr) < FAR)
            && (a < seg.vaddr && seg.vaddr - a <= start ==> secs[i].offset == start - (seg.vaddr - a))
  {
    assert SameSection(secs0[i], secs[i]);
    var done0 := DoneBefore(segs0, order, p, |secs0|);
    assert SectionsInStep(seg, done0, secs0, secs);
    hide SegmentWritten, DoneBefore, SameSections;
    assert InStep(secs[i], seg.vaddr, seg.offset);
    InStepIff(secs[i], seg.vaddr, seg.offset);
  }

  /** One such input, in a file with the 64-byte header and one 56-byte entry of the 64-bit class: the
      first section lands inside the file header, and nothing fails. */
  lemma HeaderOverwritten()
    ensures var s := Section(1, 2, 1, 890, 10, 0, true);
            var gap := Gap(s, false, 1000, 120, 120, 0);
            && 64 + 1 * 56 == 120 && SegmentShift(1, 1000, 120) == 0
            && gap == Some(TWO64 - 110) && !NotBelow(s, 1000)
            && Moved(s, 1, 1000, 120, Plus(120, gap.value)).offset == 10
  {
  }

  // ---------------------------------------------------------------- one segment

  /** The cost of the first `n` sections of a segment, of those that have no place yet. */
  function ListCost(seg: Segment, n: nat, secs: seq<Section>, done: seq<bool>): nat
    requires n <= |seg.sections| && |done| == |secs|
  {
    if n == 0 then 0
    else
      var i := seg.sections[n - 1];
      ListCost(seg, n - 1, secs, done) + if i < |secs| && !done[i] then SectionCost(secs[i], seg.vaddr) else 0
  }

  ghost predicate ListNotBelow(seg: Segment, n: nat, secs: seq<Section>, done: seq<bool>)
    requires n <= |seg.sections| && |done| == |secs|
  {
    forall k | 0 <= k < n && seg.sections[k] < |secs| && !done[seg.sections[k]] ::
      NotBelow(secs[seg.sections[k]], seg.vaddr)
  }

  function NoneDone(n: nat): (r: seq<bool>)
    ensures |r| == n && forall i | 0 <= i < n :: !r[i]
  {
    seq(n, _ => false)
  }

  /** Sections that have a place cost nothing more. */
  lemma {:induction false} ListCostShrinks(seg: Segment, n: nat, secs0: seq<Section>, secs: seq<Section>,
                                           done: seq<bool>)
    requires n <= |seg.sections| && |done| == |secs| == |secs0|
    requires forall i | 0 <= i < |secs| && !done[i] :: secs[i] == secs0[i]
    ensures ListCost(seg, n, secs, done) <= ListCost(seg, n, secs0, NoneDone(|secs0|))
    ensures ListNotBelow(seg, n, secs0, NoneDone(|secs0|)) ==> ListNotBelow(seg, n, secs, done)
  {
    hide SectionCost, NotBelow;
    if n > 0 {
      ListCostShrinks(seg, n - 1, secs0, secs, done);
    }
  }

  /** The alignment that `calc_segment_alignment` gives the segment. */
  function RaisedAlign(seg: Segment, secs: seq<Section>, n: nat): Word64
    requires n <= |seg.sections|
  {
    if n == 0 then seg.align
    else
      var a, i := RaisedAlign(seg, secs, n - 1), seg.sections[n - 1];
      if i < |secs| && secs[i].addrAlign > a then secs[i].addrAlign else a
  }

  lemma {:induction false} RaisedIsMax(seg: Segment, secs: seq<Section>, n: nat)
    requires n <= |seg.sections| && forall k | 0 <= k < |seg.sections| :: seg.sections[k] < |secs|
    ensures Realigned(seg, seg.(align := RaisedAlign(seg, secs, n)), secs, n)
  {
    if n > 0 {
      RaisedIsMax(seg, secs, n - 1);
    }
  }

  lemma RealignedIsRaised(seg: Segment, aligned: Segment, secs: seq<Section>)
    requires forall k | 0 <= k < |seg.sections| :: seg.sections[k] < |secs|
    requires Realigned(seg, aligned, secs, |seg.sections|)
    ensures aligned == seg.(align := RaisedAlign(seg, secs, |seg.sections|))
  {
    RaisedIsMax(seg, secs, |seg.sections|);
  }

  /** At most this much goes to a segment and the sections it is the first to place. */
  function SegmentCost(seg: Segment, secs: seq<Section>): nat {
    RaisedAlign(seg, secs, |seg.sections|) + ListCost(seg, |seg.sections|, secs, NoneDone(|secs|))
  }

  ghost predicate SegmentNotBelow(seg: Segment, secs: seq<Section>) {
    ListNotBelow(seg, |seg.sections|, secs, NoneDone(|secs|))
  }

  lemma {:induction false} RaisedAgain(seg: Segment, aligned: Segment, secs: seq<Section>, n: nat, m: nat)
    requires n <= m <= |seg.sections| && aligned == seg.(align := RaisedAlign(seg, secs, m))
    ensures RaisedAlign(aligned, secs, n) == aligned.align
    decreases n
  {
    if n > 0 {
      RaisedAgain(seg, aligned, secs, n - 1, m);
      RaisedGrows(seg, secs, n, m);
    }
  }

  lemma {:induction false} RaisedGrows(seg: Segment, secs: seq<Section>, n: nat, m: nat)
    requires n <= m <= |seg.sections|
    ensures RaisedAlign(seg, secs, n) <= RaisedAlign(seg, secs, m)
    decreases m
  {
    if n < m {
      RaisedGrows(seg, secs, n, m - 1);
    }
  }

  lemma {:induction false} ListCostOfAligned(seg: Segment, align: Word64, n: nat, secs: seq<Section>, done: seq<bool>)
    requires n <= |seg.sections| && |done| == |secs|
    ensures ListCost(seg.(align := align), n, secs, done) == ListCost(seg, n, secs, done)
  {
    hide SectionCost;
    if n > 0 {
      ListCostOfAligned(seg, align, n - 1, secs, done);
    }
  }

  /** Raising the alignments does not change what the segments cost. */
  lemma CostOfAligned(seg: Segment, aligned: Segment, secs: seq<Section>)
    requires forall k | 0 <= k < |seg.sections| :: seg.sections[k] < |secs|
    requires Realigned(seg, aligned, secs, |seg.sections|)
    ensures SegmentCost(aligned, secs) == SegmentCost(seg, secs) && aligned.align <= SegmentCost(aligned, secs)
    ensures SegmentNotBelow(aligned, secs) <==> SegmentNotBelow(seg, secs)
  {
    RealignedIsRaised(seg, aligned, secs);
    RaisedAgain(seg, aligned, secs, |seg.sections|, |seg.sections|);
    ListCostOfAligned(seg, aligned.align, |seg.sections|, secs, NoneDone(|secs|));
    hide ListCost, RaisedAlign, NotBelow;
  }

  // ---------------------------------------------------------------- the whole file

  function Costs(segs: seq<Segment>, secs: seq<Section>): (r: seq<nat>)
    ensures |r| == |segs| && forall s | 0 <= s < |segs| :: r[s] == SegmentCost(segs[s], secs)
  {
    seq(|segs|, s requires 0 <= s < |segs| => SegmentCost(segs[s], secs))
  }

  ghost predicate AllNotBelow(segs: seq<Segment>, secs: seq<Section>) {
    forall s | 0 <= s < |segs| :: SegmentNotBelow(segs[s], secs)
  }

  ghost predicate Listed(segs: seq<Segment>, i: nat) {
    exists s :: 0 <= s < |segs| && i in segs[s].sections
  }

  function LooseSection(s: Section): nat {
    s.addrAlign + if s.Stored() then s.size else 0
  }

  /** The cost of the first `n` sections, of those outside all segments. */
  ghost function LooseCost(segs: seq<Segment>, secs: seq<Section>, n: nat): nat
    requires n <= |secs|
  {
    if n == 0 then 0
    else LooseCost(segs, secs, n - 1) + if Listed(segs, n - 1) then 0 else LooseSection(secs[n - 1])
  }

  lemma {:induction false} LooseCostSame(segs: seq<Segment>, segs': seq<Segment>, secs: seq<Section>,
                                         secs': seq<Section>, n: nat)
    requires SameSections(secs, secs') && n <= |secs| && |segs| == |segs'|
    requires forall s | 0 <= s < |segs| :: segs'[s].sections == segs[s].sections
    ensures LooseCost(segs', secs', n) == LooseCost(segs, secs, n)
  {
    if n > 0 {
      LooseCostSame(segs, segs', secs, secs', n - 1);
      assert Listed(segs', n - 1) <==> Listed(segs, n - 1);
      assert SameSection(secs[n - 1], secs'[n - 1]);
    }
  }

  function SegmentsCost(segs: seq<Segment>, secs: seq<Section>): nat {
    TotalOf(Costs(segs, secs), Identity(|segs|))
  }

  /** The file fits: sections are not below their segments, and the tables, every segment with its
      alignment, every gap and every loose section together stay below two to the 64. */
  ghost predicate Fits(start: nat, segs: seq<Segment>, secs: seq<Section>) {
    && AllNotBelow(segs, secs)
    && start + SegmentsCost(segs, secs) + LooseCost(segs, secs, |secs|) + 3 < TWO64
  }

  lemma CostsOfAligned(segs: seq<Segment>, aligned: seq<Segment>, secs: seq<Section>)
    requires |aligned| == |segs|
    requires forall s, k | 0 <= s < |segs| && 0 <= k < |segs[s].sections| :: segs[s].sections[k] < |secs|
    requires forall s | 0 <= s < |segs| :: Realigned(segs[s], aligned[s], secs, |segs[s].sections|)
    ensures SegmentsCost(aligned, secs) == SegmentsCost(segs, secs)
    ensures AllNotBelow(aligned, secs) <==> AllNotBelow(segs, secs)
    ensures forall s | 0 <= s < |segs| :: aligned[s].sections == segs[s].sections
  {
    forall s | 0 <= s < |segs|
      ensures SegmentCost(aligned[s], secs) == SegmentCost(segs[s], secs)
      ensures SegmentNotBelow(aligned[s], secs) <==> SegmentNotBelow(segs[s], secs)
      ensures aligned[s].sections == segs[s].sections
    {
      CostOfAligned(segs[s], aligned[s], secs);
    }
    hide SegmentCost, SegmentNotBelow, Realigned;
    assert Costs(aligned, secs) == Costs(segs, secs);
  }

  // ---------------------------------------------------------------- steps of the layout

  lemma GrowsNothing(wrapped: bool, pos: nat, cost: nat)
    ensures Grows(wrapped, pos, wrapped, pos, cost)
  {
  }

  lemma GrowsLess(w0: bool, p0: nat, w1: bool, p1: nat, less: nat, cost: nat)
    requires Grows(w0, p0, w1, p1, less) && less <= cost
    ensures Grows(w0, p0, w1, p1, cost)
  {
  }

  lemma ShiftBelowAlign(segAlign: Word64, vaddr: Word64, pos: Word64)
    ensures SegmentShift(segAlign, vaddr, pos) <= segAlign
  {
  }

  /** One more section of the list. */
  lemma ListCostNext(seg: Segment, n: nat, start: Word64, secs0: seq<Section>, done0: seq<bool>, secs: seq<Section>,
                     done: seq<bool>, w0: bool, p0: nat, w1: bool, p1: nat, w2: bool, p2: nat)
    requires n < |seg.sections| && seg.sections[n] < |secs0| && Wrote(seg, n, start, secs0, done0, secs, done, w1)
    requires ListNotBelow(seg, n, secs0, done0) ==> Grows(w0, p0, w1, p1, ListCost(seg, n, secs0, done0))
    requires done[seg.sections[n]] ==> p2 == p1 && w2 == w1
    requires var s := secs[seg.sections[n]];
             !done[seg.sections[n]] && NotBelow(s, seg.vaddr) ==> Grows(w1, p1, w2, p2, SectionCost(s, seg.vaddr))
    ensures ListNotBelow(seg, n + 1, secs0, done0) ==> Grows(w0, p0, w2, p2, ListCost(seg, n + 1, secs0, done0))
  {
    hide SectionCost, NotBelow, InStep, SameSection, PutOnAlignment;
    if ListNotBelow(seg, n + 1, secs0, done0) {
      assert ListNotBelow(seg, n, secs0, done0);
      var i := seg.sections[n];
      if !done[i] {
        assert secs[i] == secs0[i] && !done0[i];
      }
    }
  }

  /** A segment costs at most what it would have as the first one. */
  lemma SegmentCostCovers(segs0: seq<Segment>, order: seq<nat>, p: nat, secs0: seq<Section>, secs: seq<Section>,
                          done: seq<bool>, segs: seq<Segment>, w0: bool, table: Extent, p0: nat, w1: bool, p1: nat)
    requires ValidOrder(segs0, order, |secs0|) && p < |segs0|
    requires Written(segs0, order, p, secs0, secs, done, segs, w0, table)
    requires var seg := segs0[order[p]];
             |done| == |secs| && ListNotBelow(seg, |seg.sections|, secs, done) ==>
               Grows(w0, p0, w1, p1, seg.align + ListCost(seg, |seg.sections|, secs, done))
    ensures var seg := segs0[order[p]];
            SegmentNotBelow(seg, secs0) ==> Grows(w0, p0, w1, p1, SegmentCost(seg, secs0))
  {
    hide ListCost, ListNotBelow, Written, RaisedAlign;
    var seg := segs0[order[p]];
    WrittenLeaves(segs0, order, p, secs0, secs, done, segs, w0, table);
    ListCostShrinks(seg, |seg.sections|, secs0, secs, done);
    AlignBelowRaised(seg, secs0);
  }

  lemma WrittenPending(segs0: seq<Segment>, order: seq<nat>, p: nat, secs0: seq<Section>, secs: seq<Section>,
                       done: seq<bool>, segs: seq<Segment>, wrapped: bool, table: Extent)
    requires ValidOrder(segs0, order, |secs0|) && p < |segs0|
    requires Written(segs0, order, p, secs0, secs, done, segs, wrapped, table)
    ensures |segs| == |segs0| && |secs| == |secs0| == |done| && order[p] < |segs| && segs[order[p]] == segs0[order[p]]
    ensures forall k | 0 <= k < |segs0[order[p]].sections| :: segs0[order[p]].sections[k] < |secs0|
  {
    hide SegmentWritten, SameSection;
  }

  /** One more segment: what has been written, and what it has cost. */
  lemma SegmentStep(segs0: seq<Segment>, order: seq<nat>, p: nat, secs0: seq<Section>, secs: seq<Section>,
                    secs': seq<Section>, done: seq<bool>, done': seq<bool>, segs: seq<Segment>, written: Segment,
                    pos0: Word64, pos1: Word64, size: Word64, w0: bool, w1: bool, from: Word64, table: Extent)
    requires ValidOrder(segs0, order, |secs0|) && p < |segs0| && (w0 ==> w1)
    requires Written(segs0, order, p, secs0, secs, done, segs, w0, table)
    requires JustWritten(segs0[order[p]], done, written, pos0, pos1, size, secs, secs', done', w1, table)
    requires var seg := segs0[order[p]];
             |done| == |secs| && ListNotBelow(seg, |seg.sections|, secs, done) ==>
               Grows(w0, from, w1, pos1, seg.align + ListCost(seg, |seg.sections|, secs, done))
    ensures Written(segs0, order, p + 1, secs0, secs', done', segs[order[p] := written], w1, table)
    ensures var seg := segs0[order[p]];
            SegmentNotBelow(seg, secs0) ==> Grows(w0, from, w1, pos1, SegmentCost(seg, secs0))
  {
    hide *;
    SegmentCostCovers(segs0, order, p, secs0, secs, done, segs, w0, table, from, w1, pos1);
    NextWritten(segs0, order, p, secs0, secs, secs', done, done', segs, written, pos0, pos1, size, w0, w1, table);
  }

  lemma AlignBelowRaised(seg: Segment, secs: seq<Section>)
    ensures seg.align <= RaisedAlign(seg, secs, |seg.sections|)
  {
    RaisedGrows(seg, secs, 0, |seg.sections|);
  }

  lemma WrittenLeaves(segs0: seq<Segment>, order: seq<nat>, p: nat, secs0: seq<Section>, secs: seq<Section>,
                      done: seq<bool>, segs: seq<Segment>, wrapped: bool, table: Extent)
    requires ValidOrder(segs0, order, |secs0|) && p <= |segs0|
    requires Written(segs0, order, p, secs0, secs, done, segs, wrapped, table)
    ensures |done| == |secs| == |secs0| && forall i | 0 <= i < |secs| && !done[i] :: secs[i] == secs0[i]
  {
    hide SegmentWritten, SameSection;
  }

  lemma NoPicks(costs: seq<nat>, order: seq<nat>)
    ensures TotalOf(costs, order[..0]) == 0
  {
  }

  lemma NextPick(costs: seq<nat>, order: seq<nat>, p: nat)
    requires p < |order| && forall i | 0 <= i < |order| :: order[i] < |costs|
    ensures TotalOf(costs, order[..p + 1]) == TotalOf(costs, order[..p]) + costs[order[p]]
  {
    assert order[..p + 1][..p] == order[..p];
  }

  /** One more section of the file. */
  lemma LooseCostNext(segs: seq<Segment>, secs0: seq<Section>, done0: seq<bool>, i: nat, secs: seq<Section>,
                      w0: bool, p0: nat, w1: bool, p1: nat)
    requires i < |secs0| && LoosePlaced(secs0, done0, i, secs, w1)
    requires done0[i] <==> exists s :: 0 <= s < |segs| && i in segs[s].sections
    requires Grows(w0, p0, w1, p1, LooseCost(segs, secs0, i))
    ensures done0[i] ==> Grows(w0, p0, w1, p1, LooseCost(segs, secs0, i + 1))
    ensures !done0[i] ==> LooseCost(segs, secs0, i + 1) == LooseCost(segs, secs0, i) + LooseSection(secs[i])
  {
    hide SameSection, Grows;
    assert done0[i] <==> Listed(segs, i);
  }

  /** Writing the segments does not change what the loose sections cost. */
  lemma LooseCostWritten(segs0: seq<Segment>, order: seq<nat>, secs0: seq<Section>, secs: seq<Section>,
                         done: seq<bool>, segs: seq<Segment>, wrapped: bool, table: Extent)
    requires ValidOrder(segs0, order, |secs0|)
    requires Written(segs0, order, |segs0|, secs0, secs, done, segs, wrapped, table)
    ensures |secs| == |secs0| && LooseCost(segs, secs, |secs|) == LooseCost(segs0, secs0, |secs0|)
  {
    hide SectionsInStep, ImageHolds, Plain, Congruent, Fresh, Positioned, DoneBefore;
    forall s | 0 <= s < |segs|
      ensures segs[s].sections == segs0[s].sections
    {
      PermutationIsOnto(order, |segs0|, s);
      var q :| 0 <= q < |order| && order[q] == s;
      assert SegmentWritten(segs0, order, q, secs0, secs, segs[order[q]], wrapped, table);
    }
    LooseCostSame(segs0, segs, secs0, secs, |secs0|);
  }

  lemma SameSelves(secs: seq<Section>)
    ensures SameSections(secs, secs)
  {
  }

  /** Segments and rest each within their costs: nothing has wrapped. */
  lemma RoomIsEnough(segs: seq<Segment>, secs: seq<Section>, start: nat, w0: bool, w1: bool, p1: nat, w2: bool, p2: nat)
    requires AllNotBelow(segs, secs) ==> Grows(w0, start, w1, p1, SegmentsCost(segs, secs))
    requires Grows(w1, p1, w2, p2, LooseCost(segs, secs, |secs|) + 3)
    ensures !w0 && Fits(start, segs, secs) ==> !w2
  {
    hide SegmentsCost, LooseCost, AllNotBelow;
  }

  /** Raising the alignments leaves open whether the file fits. */
  lemma FitsAligned(start: nat, segs: seq<Segment>, aligned: seq<Segment>, secs: seq<Section>)
    requires |aligned| == |segs|
    requires forall s, k | 0 <= s < |segs| && 0 <= k < |segs[s].sections| :: segs[s].sections[k] < |secs|
    requires forall s | 0 <= s < |segs| :: Realigned(segs[s], aligned[s], secs, |segs[s].sections|)
    ensures Fits(start, aligned, secs) <==> Fits(start, segs, secs)
  {
    hide SegmentsCost, LooseCost, AllNotBelow, Realigned;
    CostsOfAligned(segs, aligned, secs);
    SameSelves(secs);
    LooseCostSame(segs, aligned, secs, secs, |secs|);
  }
}
