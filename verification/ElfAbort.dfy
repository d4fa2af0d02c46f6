/** When the ELF writer gives up: a section with an address would have to go before the position reached. */
module ElfAbort {
  import opened ElfFile
  import opened Permutations
  import opened Wrappers

  /** The address of such a section decides where it goes. */
  predicate Pinned(s: Section) {
    s.addressSet && s.Stored() && s.size != 0
  }

  /** What one section does: the layout aborts exactly if it is pinned, without a place, and not as far into
      its segment as the position is; a section that has a place, or an address and no bytes, leaves the
      position alone; and a pinned one moves it to its own end. */
  predicate Passes(s: Section, done: bool, vaddr: Word64, start: Word64, pos: Word64, pos': Word64, ok: bool) {
    && (ok <==> done || !Pinned(s) || Minus(pos, start) <= Minus(s.address, vaddr))
    && (ok && (done || s.stype == SHT_NULL || (s.addressSet && !Pinned(s))) ==> pos' == pos)
    && (ok && !done && Pinned(s) ==> Minus(pos', start) == Plus(Minus(s.address, vaddr), s.size))
  }

  lemma GapPasses(s: Section, done: bool, vaddr: Word64, start: Word64, pos: Word64, file: Word64)
    requires s.stype != SHT_NULL
    ensures var gap := Gap(s, done, vaddr, start, pos, file);
            Passes(s, done, vaddr, start, pos,
                   if done || gap.None? then pos else End(s, Plus(pos, gap.value)), gap.Some?)
  {
    if !done && Pinned(s) {
      var required, current := Minus(s.address, vaddr), Minus(pos, start);
      if current <= required {
        FurtherOn(pos, start, required, s.size);
      }
      hide Minus, Plus;
    } else {
      hide Minus, Padding;
      PlusNothing(pos);
      PlusNothing(Plus(pos, 0));
    }
  }

  lemma NullPasses(s: Section, done: bool, vaddr: Word64, start: Word64, pos: Word64)
    requires s.stype == SHT_NULL
    ensures Passes(s, done, vaddr, start, pos, pos, true)
  {
  }

  lemma FurtherOn(pos: Word64, start: Word64, required: Word64, size: Word64)
    requires Minus(pos, start) <= required
    ensures Minus(Plus(Plus(pos, required - Minus(pos, start)), size), start) == Plus(required, size)
  {
  }

  ghost predicate InList(seg: Segment, count: nat) {
    forall k | 0 <= k < |seg.sections| :: seg.sections[k] < count
  }

  /** Every section has an address, and those that are pinned follow one another in memory. */
  ghost predicate Ascending(seg: Segment, secs: seq<Section>)
    requires InList(seg, |secs|)
  {
    && (forall k | 0 <= k < |seg.sections| ::
          var s := secs[seg.sections[k]];
          (s.stype == SHT_NULL || s.addressSet) && (Pinned(s) ==> seg.vaddr <= s.address))
    && forall j, k | 0 <= j < k < |seg.sections| ::
         var s, t := secs[seg.sections[j]], secs[seg.sections[k]];
         Pinned(s) && Pinned(t) ==> s.address + s.size <= t.address
  }

  /** No section without a place is pinned. */
  ghost predicate Unpinned(seg: Segment, secs: seq<Section>, done: seq<bool>)
    requires InList(seg, |secs|) && |done| == |secs|
  {
    forall k | 0 <= k < |seg.sections| :: done[seg.sections[k]] || !Pinned(secs[seg.sections[k]])
  }

  /** The position is not past any pinned section from the `n`-th on. */
  ghost predicate Ahead(seg: Segment, n: nat, secs: seq<Section>, done: seq<bool>, start: Word64, pos: Word64)
    requires InList(seg, |secs|) && |done| == |secs|
  {
    forall k | n <= k < |seg.sections| ::
      var s := secs[seg.sections[k]];
      !done[seg.sections[k]] && Pinned(s) ==> Minus(pos, start) <= Minus(s.address, seg.vaddr)
  }

  ghost predicate Passable(seg: Segment, n: nat, secs0: seq<Section>, done0: seq<bool>, done: seq<bool>,
                           start: Word64, pos: Word64)
    requires InList(seg, |secs0|) && |done0| == |done| == |secs0|
  {
    Unpinned(seg, secs0, done0) || (Ascending(seg, secs0) && Ahead(seg, n, secs0, done, start, pos))
  }

  lemma PassableNext(seg: Segment, n: nat, secs0: seq<Section>, done0: seq<bool>, secs: seq<Section>,
                     done: seq<bool>, start: Word64, pos: Word64, pos': Word64, wrapped: bool, ok: bool)
    requires InList(seg, |secs0|) && n < |seg.sections| && Wrote(seg, n, start, secs0, done0, secs, done, wrapped)
    requires Passable(seg, n, secs0, done0, done, start, pos)
    requires var i := seg.sections[n]; Passes(secs[i], done[i], seg.vaddr, start, pos, pos', ok)
    ensures ok && Passable(seg, n + 1, secs0, done0, done[seg.sections[n] := true], start, pos')
  {
    var i := seg.sections[n];
    assert (done0[i] ==> done[i]) && (!done[i] ==> secs[i] == secs0[i]);
    hide Wrote;
    if !Unpinned(seg, secs0, done0) {
      AheadNext(seg, n, secs0, secs[i], done, start, pos, pos', ok);
    }
  }

  lemma AheadNext(seg: Segment, n: nat, secs: seq<Section>, s: Section, done: seq<bool>, start: Word64, pos: Word64,
                  pos': Word64, ok: bool)
    requires InList(seg, |secs|) && |done| == |secs| && n < |seg.sections|
    requires Ascending(seg, secs) && Ahead(seg, n, secs, done, start, pos)
    requires done[seg.sections[n]] || s == secs[seg.sections[n]]
    requires Passes(s, done[seg.sections[n]], seg.vaddr, start, pos, pos', ok)
    ensures ok && Ahead(seg, n + 1, secs, done[seg.sections[n] := true], start, pos')
  {
    var i := seg.sections[n];
    assert ok;
    forall k | n + 1 <= k < |seg.sections| && !done[i := true][seg.sections[k]] && Pinned(secs[seg.sections[k]])
      ensures Minus(pos', start) <= Minus(secs[seg.sections[k]].address, seg.vaddr)
    {
      if !done[i] && Pinned(s) {
        var t := secs[seg.sections[k]];
        assert s.address + s.size <= t.address;
      }
    }
  }

  /** The segment can be started: nothing in it is pinned, or it is fresh and its addresses ascend. */
  ghost predicate Startable(seg: Segment, secs: seq<Section>, done: seq<bool>)
    requires InList(seg, |secs|) && |done| == |secs|
  {
    Unpinned(seg, secs, done) || (Fresh(seg, done) && Ascending(seg, secs))
  }

  lemma StartPassable(seg: Segment, secs: seq<Section>, done: seq<bool>, start: Word64, pos: Word64)
    requires InList(seg, |secs|) && |done| == |secs| && Startable(seg, secs, done)
    requires Fresh(seg, done) ==> start == pos
    ensures Passable(seg, 0, secs, done, done, start, pos)
  {
    assert Minus(pos, pos) == 0;
  }

  /** None of its sections is in another segment. */
  ghost predicate Alone(segs: seq<Segment>, s: nat)
    requires s < |segs|
  {
    forall t | 0 <= t < |segs| && t != s :: forall i | i in segs[t].sections :: i !in segs[s].sections
  }

  /** Every segment has no pinned section, or shares none, does not start the file, and has ascending addresses. */
  ghost predicate AllClear(segs: seq<Segment>, secs: seq<Section>) {
    forall s | 0 <= s < |segs| ::
      && InList(segs[s], |secs|)
      && ((forall k | 0 <= k < |segs[s].sections| :: !Pinned(secs[segs[s].sections[k]]))
          || (&& |segs[s].sections| > 0 && !StartsFile(segs[s]) && Alone(segs, s) && Ascending(segs[s], secs)))
  }

  lemma ClearStarts(segs0: seq<Segment>, order: seq<nat>, p: nat, secs0: seq<Section>, secs: seq<Section>,
                    done: seq<bool>, segs: seq<Segment>, wrapped: bool, table: Extent)
    requires ValidOrder(segs0, order, |secs0|) && p < |segs0|
    requires Written(segs0, order, p, secs0, secs, done, segs, wrapped, table) && AllClear(segs0, secs0)
    ensures InList(segs0[order[p]], |secs|) && |done| == |secs| && Startable(segs0[order[p]], secs, done)
  {
    var seg := segs0[order[p]];
    assert |secs| == |secs0| && forall i | 0 <= i < |secs0| && !done[i] :: secs[i] == secs0[i];
    assert done == DoneBefore(segs0, order, p, |secs0|);
    hide Written;
    assert InList(seg, |secs|);
    if forall k | 0 <= k < |seg.sections| :: !Pinned(secs0[seg.sections[k]]) {
      hide Pinned, AllClear, ValidOrder, Covered, DoneBefore;
    } else {
      assert |seg.sections| > 0 && !StartsFile(seg) && Alone(segs0, order[p]) && Ascending(seg, secs0);
      hide Pinned, AllClear, StartsFile;
      NoneDone(segs0, order, p, done, |secs0|);
      hide ValidOrder, Alone, Covered, DoneBefore, StartsFile;
      AscendingSame(seg, secs0, secs, done);
    }
  }

  lemma NoneDone(segs: seq<Segment>, order: seq<nat>, p: nat, done: seq<bool>, count: nat)
    requires IsPermutation(order, |segs|) && p < |segs| && Alone(segs, order[p])
    requires done == DoneBefore(segs, order, p, count) && InList(segs[order[p]], count)
    ensures forall k | 0 <= k < |segs[order[p]].sections| :: !done[segs[order[p]].sections[k]]
  {
    hide Alone, Covered;
    forall k | 0 <= k < |segs[order[p]].sections|
      ensures !done[segs[order[p]].sections[k]]
    {
      NotCovered(segs, order, p, segs[order[p]].sections[k]);
    }
  }

  lemma AscendingSame(seg: Segment, secs0: seq<Section>, secs: seq<Section>, done: seq<bool>)
    requires |secs| == |secs0| == |done| && InList(seg, |secs|) && Ascending(seg, secs0)
    requires forall k | 0 <= k < |seg.sections| :: !done[seg.sections[k]]
    requires forall i | 0 <= i < |secs0| && !done[i] :: secs[i] == secs0[i]
    ensures Ascending(seg, secs)
  {
    hide Pinned;
    assert forall k | 0 <= k < |seg.sections| :: secs[seg.sections[k]] == secs0[seg.sections[k]];
  }

  lemma NotCovered(segs: seq<Segment>, order: seq<nat>, p: nat, i: nat)
    requires IsPermutation(order, |segs|) && p < |segs| && Alone(segs, order[p]) && i in segs[order[p]].sections
    ensures !Covered(segs, order, p, i)
  {
  }

  lemma ClearAligned(segs: seq<Segment>, aligned: seq<Segment>, secs: seq<Section>)
    requires |aligned| == |segs| && AllClear(segs, secs)
    requires forall s | 0 <= s < |segs| ::
               InList(segs[s], |secs|) && Realigned(segs[s], aligned[s], secs, |segs[s].sections|)
    ensures AllClear(aligned, secs)
  {
    hide Pinned;
  }
}
