/** What the steps of the ELF writer's file layout do to sections, segments and positions: 64-bit
    alignment, the placing of one section, of a segment, and of what follows the segments. */
module ElfFile {
  import opened Division
  import Order = ElfOrder
  import opened Permutations
  import opened Wrappers

  const TWO64: nat := 0x1_0000_0000_0000_0000

  const SHT_NULL: nat := 0
  const SHT_NOBITS: nat := 8
  const SHF_ALLOC: nat := 2
  const SHF_TLS: nat := 0x400
  const PT_PHDR: nat := 6
  const PT_TLS: nat := 7

  type Word64 = x: nat | x < 0x1_0000_0000_0000_0000

  datatype Section = Section(stype: nat, flags: nat, addrAlign: Word64, address: Word64, size: Word64,
                             offset: Word64, addressSet: bool) {
    /** Occupies bytes of the file. */
    predicate Stored() { stype != SHT_NULL && stype != SHT_NOBITS }
  }

  datatype Segment = Segment(stype: nat, align: Word64, vaddr: Word64, offset: Word64, offsetSet: bool,
                             fileSize: Word64, memorySize: Word64, sections: seq<nat>)

  /** `x - y` in 64-bit arithmetic. */
  function Minus(x: Word64, y: Word64): (r: Word64)
    ensures x >= y ==> r == x - y
  {
    if x >= y then x - y else x + TWO64 - y
  }

  function Plus(x: Word64, y: Word64): (r: Word64)
    ensures x + y < TWO64 ==> r == x + y
  {
    if x + y < TWO64 then x + y else x + y - TWO64
  }

  // ---------------------------------------------------------------- alignment

  /** The distance a fresh segment is moved by. */
  function SegmentShift(segAlign: Word64, vaddr: Word64, pos: Word64): (r: Word64) {
    var align := if segAlign > 0 then segAlign else 1;
    Plus(segAlign, Minus(vaddr % align, pos % align)) % align
  }

  /** The distance to the next multiple of `align`. */
  function Padding(align: Word64, pos: Word64): (r: Word64)
    requires align > 0
    ensures r < align && (pos + r) % align == 0
  {
    PaddingAligns(align, pos);
    (align - pos % align) % align
  }

  lemma PaddingAligns(align: nat, pos: nat)
    requires align > 0
    ensures (pos + (align - pos % align) % align) % align == 0
  {
    var q, c := pos / align, pos % align;
    assert pos == q * align + c;
    if c == 0 {
      assert (align - c) % align == 0;
    } else {
      SmallMod(align - c, align);
      assert pos + (align - c) == (q + 1) * align;
      MultipleOf(align, q + 1);
    }
  }

  /** The shift makes position and address congruent exactly when `align + (required - current)`
      does not pass two to the 64. */
  lemma ShiftIsCongruent(segAlign: Word64, vaddr: Word64, pos: Word64)
    ensures var align := if segAlign > 0 then segAlign else 1;
            (pos + SegmentShift(segAlign, vaddr, pos)) % align == vaddr % align
            <==> segAlign == 0 || segAlign + vaddr % align - pos % align < TWO64
  {
    if segAlign > 0 {
      PositiveShift(segAlign, vaddr, pos);
    } else {
      assert forall x: nat {:trigger x % 1} :: x % 1 == 0;
    }
  }

  lemma PositiveShift(align: Word64, vaddr: Word64, pos: Word64)
    requires align > 0
    ensures (pos + SegmentShift(align, vaddr, pos)) % align == vaddr % align
            <==> align + vaddr % align - pos % align < TWO64
  {
    hide SegmentShift, Distance;
    ShiftValue(align, vaddr, pos);
    PartsOf(pos, align);
    ShiftCases(align, pos % align, vaddr % align, pos / align, pos);
  }

  lemma PartsOf(pos: nat, align: nat)
    requires align > 0
    ensures pos == pos / align * align + pos % align
  {
  }

  /** What the 64-bit sum `align + (req - cur)` comes to. */
  function Distance(align: Word64, cur: nat, req: nat): nat
    requires cur < align && req < align
  {
    if align + req - cur < TWO64 then align + req - cur else align + req - cur - TWO64
  }

  lemma ShiftCases(align: Word64, cur: nat, req: nat, q: nat, pos: nat)
    requires cur < align && req < align && pos == q * align + cur
    ensures (pos + Distance(align, cur, req) % align) % align == req <==> align + req - cur < TWO64
  {
    if req < cur {
      ShiftForward(align, cur, req, q, pos);
    } else if align + (req - cur) < TWO64 {
      ShiftExact(align, cur, req, q, pos);
    } else {
      ShiftWraps(align, cur, req, q, pos);
    }
  }

  lemma ShiftValue(align: Word64, vaddr: Word64, pos: Word64)
    requires align > 0
    ensures SegmentShift(align, vaddr, pos) == Distance(align, pos % align, vaddr % align) % align
  {
  }

  lemma ShiftExact(align: Word64, cur: nat, req: nat, q: nat, pos: nat)
    requires cur <= req < align && pos == q * align + cur
    ensures (pos + (align + (req - cur)) % align) % align == req
  {
    AddDivisor(req - cur, align);
    SmallMod(req - cur, align);
    Remainder(pos + (req - cur), align, q, req);
  }

  lemma ShiftForward(align: Word64, cur: nat, req: nat, q: nat, pos: nat)
    requires req < cur < align && pos == q * align + cur
    ensures (pos + (align - (cur - req)) % align) % align == req
  {
    SmallMod(align - (cur - req), align);
    Remainder(pos + (align - (cur - req)), align, q + 1, req);
  }

  lemma ShiftWraps(align: Word64, cur: nat, req: nat, q: nat, pos: nat)
    requires cur <= req < align && align + (req - cur) >= TWO64 && pos == q * align + cur
    ensures (pos + (align + (req - cur) - TWO64) % align) % align != req
  {
    var over := align + (req - cur) - TWO64;
    SmallMod(over, align);
    assert cur + over < req;
    Remainder(pos + over, align, q, cur + over);
  }

  /** Every alignment up to two to the 63, so every power of two, meets that condition. */
  lemma UsualAlignment(segAlign: Word64, vaddr: Word64, pos: Word64)
    requires segAlign <= 0x8000_0000_0000_0000
    ensures var align := if segAlign > 0 then segAlign else 1;
            (pos + SegmentShift(segAlign, vaddr, pos)) % align == vaddr % align
  {
    ShiftIsCongruent(segAlign, vaddr, pos);
  }

  // ---------------------------------------------------------------- placing one section

  /** Everything a caller set is still there; only offset and a missing address may change. */
  predicate SameSection(s: Section, t: Section) {
    && t.stype == s.stype && t.flags == s.flags && t.addrAlign == s.addrAlign && t.size == s.size
    && (s.addressSet ==> t.addressSet && t.address == s.address)
  }

  predicate OnAlignment(s: Section) {
    s.addrAlign > 0 ==> s.offset % s.addrAlign == 0
  }

  /** A section that came without an address has been put on its own alignment; section 0 and those of
      type SHT_NULL are not put anywhere. */
  predicate PutOnAlignment(s: Section, t: Section, index: nat) {
    0 < index && s.stype != SHT_NULL && !s.addressSet ==> OnAlignment(t)
  }

  predicate Apart(s: Section, t: Section) {
    s.offset + s.size <= t.offset || t.offset + t.size <= s.offset
  }

  /** The stored sections marked in `done` lie between `lo` and `pos` and do not overlap. Section
      0 is left out: the writer never gives it an offset. */
  ghost predicate Placed(secs: seq<Section>, done: seq<bool>, lo: nat, pos: nat) {
    && |done| == |secs| && lo <= pos
    && (forall i | 0 < i < |secs| && done[i] && secs[i].Stored() ::
          lo <= secs[i].offset && secs[i].offset + secs[i].size <= pos)
    && (forall i, j | 0 < i < j < |secs| && done[i] && done[j] && secs[i].Stored() && secs[j].Stored() ::
          Apart(secs[i], secs[j]))
  }

  /** Section `index` was written between the two positions. */
  predicate PlacedNext(s: Section, t: Section, index: nat, pos0: nat, pos1: nat) {
    && SameSection(s, t) && pos0 <= pos1
    && (0 < index && s.Stored() ==> pos0 <= t.offset && t.offset + t.size <= pos1)
  }

  lemma PlaceOne(secs: seq<Section>, done: seq<bool>, lo: nat, pos0: nat, i: nat, t: Section, pos1: nat)
    requires Placed(secs, done, lo, pos0) && i < |secs| && !done[i] && PlacedNext(secs[i], t, i, pos0, pos1)
    ensures Placed(secs[i := t], done[i := true], lo, pos1)
  {
  }

  lemma PlaceStep(secs: seq<Section>, done: seq<bool>, lo: nat, pos0: nat, i: nat, t: Section, pos1: nat)
    requires Placed(secs, done, lo, pos0) && i < |secs|
    requires if done[i] then t == secs[i] && pos1 == pos0 else PlacedNext(secs[i], t, i, pos0, pos1)
    ensures Placed(secs[i := t], done[i := true], lo, pos1) && pos0 <= pos1
  {
    if done[i] {
      assert secs[i := t] == secs && done[i := true] == done;
    } else {
      PlaceOne(secs, done, lo, pos0, i, t, pos1);
    }
  }

  lemma PlacedLater(secs: seq<Section>, done: seq<bool>, lo: nat, pos0: nat, pos1: nat)
    requires Placed(secs, done, lo, pos0) && pos0 <= pos1
    ensures Placed(secs, done, lo, pos1)
  {
  }

  /** Offset in the file and address in memory are equally far into the segment, modulo two to
      the 64: a loader that maps the segment puts the section at its address. */
  predicate InStep(s: Section, vaddr: Word64, start: Word64) {
    Plus(s.address, start) == Plus(s.offset, vaddr)
  }

  /** A section with bytes in the file, or one that had no address. */
  predicate Steps(s: Section) {
    s.stype != SHT_NULL && (!s.addressSet || (s.Stored() && s.size != 0))
  }

  /** The bytes to skip before a section of a segment; None aborts the layout. */
  function Gap(s: Section, generated: bool, vaddr: Word64, start: Word64, pos: Word64, fileSize: Word64):
    Option<Word64>
  {
    if !generated && s.addressSet && s.Stored() && s.size != 0 then
      var required, current := Minus(s.address, vaddr), Minus(pos, start);
      if required < current then None else Some(required - current)
    else if !generated && !s.addressSet then
      Some(Padding(if s.addrAlign == 0 then 1 else s.addrAlign, pos))
    else if generated then
      Some(Minus(Minus(s.offset, start), fileSize))
    else
      Some(0)
  }

  /** The section once it has been given its place; section 0 keeps its offset. */
  function Moved(s: Section, index: nat, vaddr: Word64, start: Word64, pos: Word64): Section {
    var t := if s.addressSet then s else s.(address := Minus(Plus(vaddr, pos), start), addressSet := true);
    if index != 0 then t.(offset := pos) else t
  }

  function End(s: Section, pos: Word64): Word64 {
    if s.stype != SHT_NOBITS then Plus(pos, s.size) else pos
  }

  lemma MovedInStep(s: Section, index: nat, vaddr: Word64, start: Word64, pos: Word64, file: Word64)
    requires Steps(s) && index > 0 && Gap(s, false, vaddr, start, pos, file).Some?
    ensures InStep(Moved(s, index, vaddr, start, Plus(pos, Gap(s, false, vaddr, start, pos, file).value)), vaddr, start)
  {
    hide Padding;
  }

  lemma MovedPlaced(s: Section, index: nat, vaddr: Word64, start: Word64, pos: Word64, gap: Word64)
    requires pos + gap < TWO64 && (s.stype != SHT_NOBITS ==> pos + gap + s.size < TWO64)
    ensures PlacedNext(s, Moved(s, index, vaddr, start, Plus(pos, gap)), index, pos, End(s, Plus(pos, gap)))
  {
  }

  lemma MovedAligned(s: Section, index: nat, vaddr: Word64, start: Word64, pos: Word64, file: Word64)
    requires Gap(s, false, vaddr, start, pos, file).Some?
    requires pos + Gap(s, false, vaddr, start, pos, file).value < TWO64
    ensures var gap := Gap(s, false, vaddr, start, pos, file).value;
            PutOnAlignment(s, Moved(s, index, vaddr, start, Plus(pos, gap)), index)
  {
    hide Padding, Minus;
  }

  /** Position and file size grow alike. */
  lemma MovedGrows(s: Section, pos: Word64, gap: Word64, file: Word64)
    requires s.stype != SHT_NOBITS
    ensures Minus(End(s, Plus(pos, gap)), Plus(file, Plus(s.size, gap))) == Minus(pos, file)
  {
  }

  /** Whether the section counts towards the segment's size in memory. */
  predicate InMemory(s: Section, segType: nat) {
    s.flags / SHF_ALLOC % 2 == 1 && !(s.flags / SHF_TLS % 2 == 1 && segType != PT_TLS && s.stype == SHT_NOBITS)
  }

  lemma EmitFacts(s: Section, index: nat, vaddr: Word64, start: Word64, pos: Word64, file: Word64, gap: Word64)
    requires Gap(s, false, vaddr, start, pos, file) == Some(gap)
    ensures var t := Moved(s, index, vaddr, start, Plus(pos, gap));
            && SameSection(s, t)
            && (Steps(s) && index > 0 ==> InStep(t, vaddr, start))
            && (pos + gap < TWO64 ==> PutOnAlignment(s, t, index))
            && (pos + gap < TWO64 && (s.stype != SHT_NOBITS ==> pos + gap + s.size < TWO64) ==>
                  PlacedNext(s, t, index, pos, End(s, Plus(pos, gap))))
            && (s.stype != SHT_NOBITS ==>
                  Minus(End(s, Plus(pos, gap)), Plus(file, Plus(s.size, gap))) == Minus(pos, file))
  {
    if pos + gap < TWO64 {
      MovedAligned(s, index, vaddr, start, pos, file);
    }
    hide Gap, InStep, End, Plus, Minus, PlacedNext, PutOnAlignment;
    if Steps(s) && index > 0 {
      MovedInStep(s, index, vaddr, start, pos, file);
    }
    if pos + gap < TWO64 && (s.stype != SHT_NOBITS ==> pos + gap + s.size < TWO64) {
      MovedPlaced(s, index, vaddr, start, pos, gap);
    }
    if s.stype != SHT_NOBITS {
      MovedGrows(s, pos, gap, file);
    }
  }

  /** Takes as much of the file as of memory. */
  predicate InBoth(s: Section) {
    s.stype == SHT_NULL || (s.stype != SHT_NOBITS && s.flags / SHF_ALLOC % 2 == 1)
  }

  /** Takes memory only; thread-local ones do so in a TLS segment alone. */
  predicate Blank(s: Section, segType: nat) {
    s.stype == SHT_NOBITS && s.flags / SHF_ALLOC % 2 == 1 && (s.flags / SHF_TLS % 2 == 0 || segType == PT_TLS)
  }

  function BlankSize(s: Section, segType: nat): Word64 {
    if Blank(s, segType) then s.size else 0
  }

  /** Nothing is skipped before a section that takes memory only. */
  predicate Counted(s: Section, segType: nat, done: bool) {
    || InBoth(s)
    || (s.stype == SHT_NOBITS && (Blank(s, segType) ==> !done && (s.addressSet || s.addrAlign <= 1)))
  }

  /** What a section adds to the segment's size in memory beyond that in the file. */
  lemma CountedGrows(s: Section, segType: nat, done: bool, vaddr: Word64, start: Word64, pos: Word64, file: Word64,
                     memory: Word64, gap: Word64)
    requires s.stype != SHT_NULL && Counted(s, segType, done)
    requires Gap(s, done, vaddr, start, pos, file) == Some(gap)
    ensures var by1 := Plus(s.size, gap);
            Minus(if InMemory(s, segType) then Plus(memory, by1) else memory,
                  if s.stype != SHT_NOBITS then Plus(file, by1) else file)
            == Plus(Minus(memory, file), BlankSize(s, segType))
  {
    if InBoth(s) {
      GrowAlike(memory, file, Plus(s.size, gap));
    } else if Blank(s, segType) {
      NothingSkipped(s, vaddr, start, pos, file);
      hide Gap;
      MemoryGrows(memory, file, s.size);
    }
  }

  lemma NothingSkipped(s: Section, vaddr: Word64, start: Word64, pos: Word64, file: Word64)
    requires s.stype == SHT_NOBITS && (s.addressSet || s.addrAlign <= 1)
    ensures Gap(s, false, vaddr, start, pos, file) == Some(0)
  {
    hide Minus;
  }

  lemma MemoryGrows(memory: Word64, file: Word64, size: Word64)
    ensures Minus(Plus(memory, size), file) == Plus(Minus(memory, file), size)
  {
  }

  lemma GeneratedEnds(s: Section, vaddr: Word64, start: Word64, pos: Word64, file: Word64)
    requires Gap(s, true, vaddr, start, pos, file).Some?
    ensures Plus(file, Plus(s.size, Gap(s, true, vaddr, start, pos, file).value))
            == Minus(Plus(s.offset, s.size), start)
  {
  }

  lemma PlusNothing(x: Word64)
    ensures Plus(x, 0) == x
  {
  }

  lemma GrowAlike(memory: Word64, file: Word64, by1: Word64)
    ensures Minus(Plus(memory, by1), Plus(file, by1)) == Minus(memory, file)
  {
  }

  // ---------------------------------------------------------------- one segment

  ghost predicate SameSections(before: seq<Section>, after: seq<Section>) {
    && |after| == |before|
    && forall i | 0 <= i < |before| :: SameSection(before[i], after[i])
  }

  /** What writing the first `n` sections of a segment has done. */
  ghost predicate Wrote(seg: Segment, n: nat, start: Word64, secs0: seq<Section>, done0: seq<bool>,
                        secs: seq<Section>, done: seq<bool>, wrapped: bool)
    requires n <= |seg.sections|
  {
    && |done0| == |done| == |secs0| && SameSections(secs0, secs)
    && (forall i | 0 <= i < |secs| :: done[i] <==> done0[i] || i in seg.sections[..n])
    && (forall i | 0 <= i < |secs| && (done0[i] || !done[i]) :: secs[i] == secs0[i])
    && (forall i | 0 < i < |secs| && done[i] && !done0[i] && Steps(secs0[i]) ::
          InStep(secs[i], seg.vaddr, start))
    && (!wrapped ==> forall i | 0 <= i < |secs| && done[i] && !done0[i] :: PutOnAlignment(secs0[i], secs[i], i))
  }

  lemma WroteStart(seg: Segment, start: Word64, secs: seq<Section>, done: seq<bool>, wrapped: bool)
    requires |done| == |secs|
    ensures Wrote(seg, 0, start, secs, done, secs, done, wrapped)
  {
  }

  lemma WroteOne(seg: Segment, n: nat, start: Word64, secs0: seq<Section>, done0: seq<bool>,
                 secs: seq<Section>, done: seq<bool>, t: Section, wrapped: bool, wrapped': bool)
    requires n < |seg.sections| && Wrote(seg, n, start, secs0, done0, secs, done, wrapped) && (wrapped ==> wrapped')
    requires var i := seg.sections[n];
             && i < |secs| && SameSection(secs[i], t) && (done[i] ==> t == secs[i])
             && (!done[i] && 0 < i && Steps(secs[i]) ==> InStep(t, seg.vaddr, start))
             && (!wrapped' && !done[i] ==> PutOnAlignment(secs[i], t, i))
    ensures var i := seg.sections[n];
            Wrote(seg, n + 1, start, secs0, done0, secs[i := t], done[i := true], wrapped')
  {
    hide InStep, PutOnAlignment;
    assert seg.sections[..n + 1] == seg.sections[..n] + [seg.sections[n]];
  }

  /** The stored sections written since `done0` lie between the two positions. */
  ghost predicate Within(secs: seq<Section>, done0: seq<bool>, done: seq<bool>, pos0: nat, pos1: nat) {
    && |done0| == |done| == |secs| && pos0 <= pos1
    && forall i | 0 < i < |secs| && done[i] && !done0[i] && secs[i].Stored() ::
         pos0 <= secs[i].offset && secs[i].offset + secs[i].size <= pos1
  }

  lemma WithinStart(secs: seq<Section>, done: seq<bool>, pos: nat)
    requires |done| == |secs|
    ensures Within(secs, done, done, pos, pos)
  {
  }

  lemma WithinStep(secs: seq<Section>, done0: seq<bool>, done: seq<bool>, lo: nat, pos0: nat,
                   i: nat, t: Section, pos1: nat)
    requires Within(secs, done0, done, lo, pos0) && i < |secs|
    requires if done[i] then t == secs[i] && pos1 == pos0 else PlacedNext(secs[i], t, i, pos0, pos1)
    ensures Within(secs[i := t], done0, done[i := true], lo, pos1)
  {
  }

  /** Each of the first `n` sections takes as much of the file as of memory, or is a new one that takes
      memory only. */
  ghost predicate Filling(seg: Segment, n: nat, secs: seq<Section>, done0: seq<bool>)
    requires n <= |seg.sections| && |done0| == |secs|
  {
    forall k | 0 <= k < n && seg.sections[k] < |secs| ::
      var s := secs[seg.sections[k]];
      Counted(s, seg.stype, done0[seg.sections[k]]) && (Blank(s, seg.stype) ==> seg.sections[k] !in seg.sections[..k])
  }

  /** The size of those that take memory only. */
  function BlankBytes(seg: Segment, n: nat, secs: seq<Section>): Word64
    requires n <= |seg.sections|
  {
    if n == 0 then 0
    else
      var i := seg.sections[n - 1];
      Plus(BlankBytes(seg, n - 1, secs), if i < |secs| then BlankSize(secs[i], seg.stype) else 0)
  }

  lemma {:induction false} BlankBytesSame(seg: Segment, n: nat, secs0: seq<Section>, secs: seq<Section>)
    requires n <= |seg.sections| && SameSections(secs0, secs)
    ensures BlankBytes(seg, n, secs) == BlankBytes(seg, n, secs0)
  {
    hide Plus;
    if n > 0 {
      BlankBytesSame(seg, n - 1, secs0, secs);
      var i := seg.sections[n - 1];
      assert i < |secs| ==> SameSection(secs0[i], secs[i]);
    }
  }

  lemma FillingSame(seg: Segment, n: nat, secs0: seq<Section>, secs: seq<Section>, done0: seq<bool>)
    requires n <= |seg.sections| && |done0| == |secs0| && SameSections(secs0, secs)
    requires forall i | 0 <= i < |secs0| && !done0[i] :: secs[i] == secs0[i]
    ensures Filling(seg, n, secs, done0) <==> Filling(seg, n, secs0, done0)
  {
    forall k | 0 <= k < n && seg.sections[k] < |secs|
      ensures var i := seg.sections[k];
              && (Counted(secs[i], seg.stype, done0[i]) <==> Counted(secs0[i], seg.stype, done0[i]))
              && (Blank(secs[i], seg.stype) <==> Blank(secs0[i], seg.stype))
    {
      assert SameSection(secs0[seg.sections[k]], secs[seg.sections[k]]);
    }
    hide Counted, Blank;
  }

  /** The sizes after the first `n` sections: in memory that in the file and what takes memory only, and
      ending with the last section if that had its place before. */
  ghost predicate Sized(seg: Segment, n: nat, secs0: seq<Section>, done0: seq<bool>, start: Word64,
                        memory0: Word64, file0: Word64, memory: Word64, file: Word64)
    requires n <= |seg.sections|
  {
    && |done0| == |secs0|
    && (n == 0 ==> memory == memory0 && file == file0)
    && (Filling(seg, n, secs0, done0) ==>
          Minus(memory, file) == Plus(Minus(memory0, file0), BlankBytes(seg, n, secs0)))
    && (n > 0 && seg.sections[n - 1] < |secs0| && done0[seg.sections[n - 1]] && secs0[seg.sections[n - 1]].Stored() ==>
          var s := secs0[seg.sections[n - 1]]; file == Minus(Plus(s.offset, s.size), start))
  }

  lemma SizedStart(seg: Segment, secs0: seq<Section>, done0: seq<bool>, start: Word64, memory: Word64, file: Word64)
    requires |done0| == |secs0|
    ensures Sized(seg, 0, secs0, done0, start, memory, file, memory, file)
  {
  }

  lemma SizedNext(seg: Segment, n: nat, secs0: seq<Section>, done0: seq<bool>, secs: seq<Section>, done: seq<bool>,
                  start: Word64, memory0: Word64, file0: Word64, memory1: Word64, file1: Word64,
                  memory: Word64, file: Word64, wrapped: bool)
    requires n < |seg.sections| && seg.sections[n] < |secs0|
    requires Sized(seg, n, secs0, done0, start, memory0, file0, memory1, file1)
    requires Wrote(seg, n, start, secs0, done0, secs, done, wrapped)
    requires var s := secs[seg.sections[n]];
             && (done[seg.sections[n]] && s.Stored() ==> file == Minus(Plus(s.offset, s.size), start))
             && (Counted(s, seg.stype, done[seg.sections[n]]) ==>
                   Minus(memory, file) == Plus(Minus(memory1, file1), BlankSize(s, seg.stype)))
    ensures Sized(seg, n + 1, secs0, done0, start, memory0, file0, memory, file)
  {
    var i := seg.sections[n];
    assert SameSection(secs0[i], secs[i]) && (!done[i] ==> secs[i] == secs0[i] && !done0[i]);
    assert done[i] <==> done0[i] || i in seg.sections[..n];
    if Filling(seg, n + 1, secs0, done0) {
      assert Filling(seg, n, secs0, done0);
      assert Counted(secs0[i], seg.stype, done0[i]) && (Blank(secs0[i], seg.stype) ==> i !in seg.sections[..n]);
      PlusTwice(Minus(memory0, file0), BlankBytes(seg, n, secs0), BlankSize(secs0[i], seg.stype));
    }
    hide InStep, Minus, Plus, PutOnAlignment, Wrote, Filling;
  }

  lemma PlusTwice(x: Word64, y: Word64, z: Word64)
    ensures Plus(Plus(x, y), z) == Plus(x, Plus(y, z))
  {
  }

  /** The first `n` sections are distinct, have not been placed yet, and none is NOBITS. */
  ghost predicate Plain(seg: Segment, n: nat, secs: seq<Section>, done: seq<bool>)
    requires n <= |seg.sections| && |done| == |secs|
    requires forall k | 0 <= k < |seg.sections| :: seg.sections[k] < |secs|
  {
    && (forall k | 0 <= k < n :: !done[seg.sections[k]] && secs[seg.sections[k]].stype != SHT_NOBITS)
    && (forall k, l | 0 <= k < l < n :: seg.sections[k] != seg.sections[l])
  }

  lemma PlainNext(seg: Segment, n: nat, start: Word64, secs0: seq<Section>, done0: seq<bool>,
                  secs: seq<Section>, done: seq<bool>, wrapped: bool)
    requires forall k | 0 <= k < |seg.sections| :: seg.sections[k] < |secs0|
    requires n < |seg.sections| && Wrote(seg, n, start, secs0, done0, secs, done, wrapped)
    requires Plain(seg, n + 1, secs0, done0)
    ensures Plain(seg, n, secs0, done0)
    ensures !done[seg.sections[n]] && secs[seg.sections[n]].stype != SHT_NOBITS
  {
    hide InStep;
    assert seg.sections[n] !in seg.sections[..n];
  }

  // ---------------------------------------------------------------- all segments

  function View(segs: seq<Segment>): (r: seq<Order.Segment>)
    ensures |r| == |segs|
    ensures forall i | 0 <= i < |segs| :: r[i] == Order.Segment(segs[i].sections, segs[i].offsetSet, segs[i].offset)
  {
    seq(|segs|, i requires 0 <= i < |segs| => Order.Segment(segs[i].sections, segs[i].offsetSet, segs[i].offset))
  }

  ghost predicate ValidOrder(segs: seq<Segment>, order: seq<nat>, count: nat) {
    && IsPermutation(order, |segs|)
    && forall s, k | 0 <= s < |segs| && 0 <= k < |segs[s].sections| :: segs[s].sections[k] < count
  }

  /** Section `i` belongs to one of the first `p` segments. */
  ghost predicate Covered(segs: seq<Segment>, order: seq<nat>, p: nat, i: nat)
    requires IsPermutation(order, |segs|) && p <= |segs|
  {
    exists q :: 0 <= q < p && i in segs[order[q]].sections
  }

  predicate StartsFile(seg: Segment) {
    seg.offsetSet && seg.offset == 0
  }

  /** The segment's first section has no place yet, and the segment does not start the file. */
  predicate Fresh(seg: Segment, done: seq<bool>) {
    |seg.sections| > 0 && !StartsFile(seg) && seg.sections[0] < |done| && !done[seg.sections[0]]
  }

  /** The p_align rule. */
  ghost predicate Congruent(seg: Segment) {
    var align := if seg.align > 0 then seg.align else 1;
    seg.offset % align == seg.vaddr % align
  }

  predicate SameSegment(s: Segment, t: Segment) {
    && t.stype == s.stype && t.align == s.align && t.vaddr == s.vaddr && t.sections == s.sections
    && t.memorySize >= s.memorySize && t.offsetSet
  }

  /** The sections this segment was the first to place are in step with it. */
  ghost predicate SectionsInStep(seg: Segment, done0: seq<bool>, secs0: seq<Section>, secs: seq<Section>) {
    && |done0| == |secs| == |secs0|
    && forall i | 0 < i < |secs| && i in seg.sections && !done0[i] && Steps(secs0[i]) ::
         InStep(secs[i], seg.vaddr, seg.offset)
  }

  /** Those of them that came without an address are on their own alignment. */
  ghost predicate SectionsAligned(seg: Segment, done0: seq<bool>, secs0: seq<Section>, secs: seq<Section>) {
    && |done0| == |secs| == |secs0|
    && forall i | 0 <= i < |secs| && i in seg.sections && !done0[i] :: PutOnAlignment(secs0[i], secs[i], i)
  }

  /** The segment's file image holds the bodies of its sections. */
  ghost predicate ImageHolds(seg: Segment, secs: seq<Section>) {
    forall i | 0 < i < |secs| && i in seg.sections && secs[i].Stored() ::
      seg.offset <= secs[i].offset && secs[i].offset + secs[i].size <= seg.offset + seg.fileSize
  }

  predicate IsTableSegment(seg: Segment) {
    seg.stype == PT_PHDR && |seg.sections| == 0
  }

  /** A segment begins and ends where its kind says: over the segment table, at the start of the
      file, or from the first to the last of the sections that earlier segments have placed. */
  ghost predicate Positioned(old0: Segment, done0: seq<bool>, seg: Segment, secs0: seq<Section>, secs: seq<Section>,
                             table: Extent) {
    var isTable, startsFile := old0.stype == PT_PHDR && |old0.sections| == 0, old0.offsetSet && old0.offset == 0;
    && |done0| == |secs| == |secs0|
    && (isTable ==> seg.offset == table.lo && table.lo + seg.fileSize == table.hi)
    && (startsFile && !isTable ==> seg.offset == 0)
    && (|old0.sections| == 0 && !isTable ==> seg.fileSize == 0)
    && (|old0.sections| > 0 ==>
          var first, last := old0.sections[0], old0.sections[|old0.sections| - 1];
          && (!startsFile && first < |secs| && done0[first] ==> seg.offset == secs[first].offset)
          && (last < |secs| && done0[last] && secs[last].Stored() ==>
                seg.fileSize == Minus(Plus(secs[last].offset, secs[last].size), seg.offset)))
    && (Filling(old0, |old0.sections|, secs0, done0) ==>
          var memory := Plus(seg.fileSize, BlankBytes(old0, |old0.sections|, secs0));
          seg.memorySize == if memory > old0.memorySize then memory else old0.memorySize)
  }

  /** Which sections have a place when segment `p` of the order has its turn. */
  ghost function DoneBefore(segs: seq<Segment>, order: seq<nat>, p: nat, count: nat): (r: seq<bool>)
    requires IsPermutation(order, |segs|) && p <= |segs|
    ensures |r| == count && forall i | 0 <= i < count :: r[i] <==> Covered(segs, order, p, i)
  {
    seq(count, i requires 0 <= i < count => Covered(segs, order, p, i))
  }

  /** What holds of segment `p` of the order once it has been written; the second part needs that
      no position wrapped. */
  ghost predicate SegmentWritten(segs0: seq<Segment>, order: seq<nat>, p: nat, secs0: seq<Section>,
                                 secs: seq<Section>, seg: Segment, wrapped: bool, table: Extent)
    requires ValidOrder(segs0, order, |secs0|) && p < |segs0|
  {
    var old0, done0 := segs0[order[p]], DoneBefore(segs0, order, p, |secs0|);
    && SameSegment(old0, seg)
    && SectionsInStep(seg, done0, secs0, secs)
    && (!wrapped ==> SectionsAligned(seg, done0, secs0, secs))
    && Positioned(old0, done0, seg, secs0, secs, table)
    && (!wrapped && Fresh(old0, done0) && old0.align <= 0x8000_0000_0000_0000 ==> Congruent(seg))
    && (!wrapped && |old0.sections| > 0 && Plain(old0, |old0.sections|, secs0, done0) ==> ImageHolds(seg, secs))
  }

  /** The state of the layout after the first `p` segments of the order. */
  ghost predicate Written(segs0: seq<Segment>, order: seq<nat>, p: nat, secs0: seq<Section>, secs: seq<Section>,
                          done: seq<bool>, segs: seq<Segment>, wrapped: bool, table: Extent)
    requires ValidOrder(segs0, order, |secs0|) && p <= |segs0|
  {
    && SameSections(secs0, secs) && |segs| == |segs0| && done == DoneBefore(segs0, order, p, |secs0|)
    && (forall i | 0 <= i < |secs0| && !done[i] :: secs[i] == secs0[i])
    && (forall q | 0 <= q < p :: SegmentWritten(segs0, order, q, secs0, secs, segs[order[q]], wrapped, table))
    && (forall q | p <= q < |segs0| :: segs[order[q]] == segs0[order[q]])
  }

  /** What holds of every segment at the end. */
  ghost predicate AllWritten(segs0: seq<Segment>, order: seq<nat>, secs0: seq<Section>, secs: seq<Section>,
                             segs: seq<Segment>, wrapped: bool, table: Extent)
    requires ValidOrder(segs0, order, |secs0|)
  {
    && |segs| == |segs0| == |order|
    && forall q | 0 <= q < |segs0| ::
         SegmentWritten(segs0, order, q, secs0, secs, segs[order[q]], wrapped, table)
  }

  lemma StartWritten(segs: seq<Segment>, order: seq<nat>, secs: seq<Section>, done: seq<bool>, wrapped: bool,
      table: Extent)
    requires ValidOrder(segs, order, |secs|) && |done| == |secs| && forall i | 0 <= i < |done| :: !done[i]
    ensures Written(segs, order, 0, secs, secs, done, segs, wrapped, table)
    ensures forall pos: nat :: Placed(secs, done, pos, pos)
  {
    assert done == DoneBefore(segs, order, 0, |secs|);
  }

  lemma DoneIs(segs0: seq<Segment>, order: seq<nat>, p: nat, secs0: seq<Section>, secs: seq<Section>,
               done: seq<bool>, segs: seq<Segment>, wrapped: bool, table: Extent)
    requires ValidOrder(segs0, order, |secs0|) && p <= |segs0|
    requires Written(segs0, order, p, secs0, secs, done, segs, wrapped, table)
    ensures done == DoneBefore(segs0, order, p, |secs0|)
  {
  }

  /** Later segments do not touch what earlier ones placed. */
  lemma StaysWritten(segs0: seq<Segment>, order: seq<nat>, q: nat, p: nat, secs0: seq<Section>, secs: seq<Section>,
                     secs': seq<Section>, seg: Segment, wrapped: bool, wrapped': bool, table: Extent)
    requires ValidOrder(segs0, order, |secs0|) && q < p <= |segs0| && |secs| == |secs'| == |secs0|
    requires SegmentWritten(segs0, order, q, secs0, secs, seg, wrapped, table) && (wrapped ==> wrapped')
    requires forall i | 0 <= i < |secs| && DoneBefore(segs0, order, p, |secs0|)[i] :: secs'[i] == secs[i]
    ensures SegmentWritten(segs0, order, q, secs0, secs', seg, wrapped', table)
  {
    hide InStep, Congruent, Plain, Fresh, PutOnAlignment, Filling, BlankBytes;
    forall i | 0 <= i < |secs| && i in seg.sections
      ensures secs'[i] == secs[i]
    {
      assert i in segs0[order[q]].sections;
      assert Covered(segs0, order, p, i);
    }
  }

  /** What StartSegment and WriteSegmentData together establish about a segment. */
  ghost predicate JustWritten(old0: Segment, done0: seq<bool>, seg: Segment, pos0: Word64, pos1: Word64, size: Word64,
                              secs0: seq<Section>, secs: seq<Section>, done: seq<bool>, wrapped: bool, table: Extent)
    requires forall k | 0 <= k < |old0.sections| :: old0.sections[k] < |secs0|
  {
    && SameSegment(old0, seg) && Positioned(old0, done0, seg, secs0, secs, table)
    && Wrote(old0, |old0.sections|, seg.offset, secs0, done0, secs, done, wrapped)
    && (Fresh(old0, done0) ==>
          && seg.offset == pos0 && size == 0
          && (!wrapped && old0.align <= 0x8000_0000_0000_0000 ==> Congruent(seg)))
    && (StartsFile(old0) && |old0.sections| > 0 ==> seg.offset == 0 && size == pos0)
    && (!wrapped ==> Within(secs, done0, done, pos0, pos1))
    && (Plain(old0, |old0.sections|, secs0, done0) ==> Minus(pos1, seg.fileSize) == Minus(pos0, size))
  }

  lemma ImageFollows(old0: Segment, done0: seq<bool>, seg: Segment, pos0: Word64, pos1: Word64, size: Word64,
                     secs0: seq<Section>, secs: seq<Section>, done: seq<bool>, table: Extent)
    requires forall k | 0 <= k < |old0.sections| :: old0.sections[k] < |secs0|
    requires JustWritten(old0, done0, seg, pos0, pos1, size, secs0, secs, done, false, table)
    requires |old0.sections| > 0 && Plain(old0, |old0.sections|, secs0, done0)
    ensures ImageHolds(seg, secs)
  {
    hide InStep, Congruent, SameSection;
    assert !done0[old0.sections[0]];
    assert Fresh(old0, done0) || StartsFile(old0);
    assert seg.offset <= pos0 <= pos1 && seg.offset + seg.fileSize == pos1;
    forall i | 0 < i < |secs| && i in seg.sections && secs[i].Stored()
      ensures seg.offset <= secs[i].offset && secs[i].offset + secs[i].size <= seg.offset + seg.fileSize
    {
      assert i in old0.sections[..|old0.sections|];
      assert !done0[i] && done[i];
    }
  }

  /** The record stored for a segment is positioned as it should be. */
  lemma PositionFollows(old0: Segment, done0: seq<bool>, seg: Segment, secs0: seq<Section>, secs: seq<Section>,
                        done: seq<bool>, size: Word64, memory: Word64, table: Extent, wrapped: bool)
    requires forall k | 0 <= k < |old0.sections| :: old0.sections[k] < |secs0|
    requires Wrote(old0, |old0.sections|, seg.offset, secs0, done0, secs, done, wrapped)
    requires Sized(old0, |old0.sections|, secs0, done0, seg.offset, size, size, memory, seg.fileSize)
    requires seg.memorySize == if old0.memorySize < memory then memory else old0.memorySize
    requires IsTableSegment(old0) ==> seg.offset == table.lo && table.lo + size == table.hi
    requires |old0.sections| == 0 && !IsTableSegment(old0) ==> size == 0 && (StartsFile(old0) ==> seg.offset == 0)
    requires |old0.sections| > 0 && StartsFile(old0) ==> seg.offset == 0
    requires |old0.sections| > 0 && !StartsFile(old0) && done0[old0.sections[0]] ==>
               seg.offset == secs0[old0.sections[0]].offset
    ensures Positioned(old0, done0, seg, secs0, secs, table)
  {
    hide InStep, PutOnAlignment, Filling;
    SumIfDifference(memory, seg.fileSize, size, BlankBytes(old0, |old0.sections|, secs0));
    hide Plus, Minus, BlankBytes;
  }

  lemma SumIfDifference(x: Word64, y: Word64, z: Word64, d: Word64)
    ensures Minus(x, y) == Plus(Minus(z, z), d) ==> x == Plus(y, d)
  {
  }

  /** The same with the sections as they were before the layout. */
  lemma PositionedSame(old0: Segment, done0: seq<bool>, seg: Segment, secs0: seq<Section>, secs: seq<Section>,
                       secs': seq<Section>, table: Extent)
    requires Positioned(old0, done0, seg, secs, secs', table) && SameSections(secs0, secs)
    requires forall i | 0 <= i < |secs0| && !done0[i] :: secs[i] == secs0[i]
    ensures Positioned(old0, done0, seg, secs0, secs', table)
  {
    FillingSame(old0, |old0.sections|, secs0, secs, done0);
    BlankBytesSame(old0, |old0.sections|, secs0, secs);
    hide Filling, BlankBytes, SameSections, Plus, Minus;
  }

  lemma InStepFollows(old0: Segment, done0: seq<bool>, seg: Segment, secs0: seq<Section>, secs: seq<Section>,
                      done: seq<bool>, wrapped: bool)
    requires Wrote(old0, |old0.sections|, seg.offset, secs0, done0, secs, done, wrapped) && SameSegment(old0, seg)
    ensures SectionsInStep(seg, done0, secs0, secs) && (!wrapped ==> SectionsAligned(seg, done0, secs0, secs))
  {
    hide InStep, SameSection, PutOnAlignment;
    assert old0.sections[..|old0.sections|] == old0.sections;
  }

  lemma PlainSame(seg: Segment, secs0: seq<Section>, secs: seq<Section>, done: seq<bool>)
    requires forall k | 0 <= k < |seg.sections| :: seg.sections[k] < |secs0|
    requires |done| == |secs0| && SameSections(secs0, secs) && Plain(seg, |seg.sections|, secs0, done)
    ensures Plain(seg, |seg.sections|, secs, done)
  {
  }

  lemma NewWritten(segs0: seq<Segment>, order: seq<nat>, p: nat, secs0: seq<Section>, secs: seq<Section>,
                   secs': seq<Section>, done': seq<bool>, seg: Segment, pos0: Word64, pos1: Word64, size: Word64,
                   wrapped: bool, table: Extent)
    requires ValidOrder(segs0, order, |secs0|) && p < |segs0| && SameSections(secs0, secs)
    requires forall i | 0 <= i < |secs0| && !DoneBefore(segs0, order, p, |secs0|)[i] :: secs[i] == secs0[i]
    requires JustWritten(segs0[order[p]], DoneBefore(segs0, order, p, |secs0|), seg, pos0, pos1, size, secs, secs',
                         done', wrapped, table)
    ensures SegmentWritten(segs0, order, p, secs0, secs', seg, wrapped, table)
  {
    var old0, done0 := segs0[order[p]], DoneBefore(segs0, order, p, |secs0|);
    InStepFollows(old0, done0, seg, secs, secs', done', wrapped);
    PositionedSame(old0, done0, seg, secs0, secs, secs', table);
    StepsSame(seg, done0, secs0, secs, secs');
    if !wrapped {
      AlignedSame(seg, done0, secs0, secs, secs');
    }
    if !wrapped && |old0.sections| > 0 && Plain(old0, |old0.sections|, secs0, done0) {
      PlainSame(old0, secs0, secs, done0);
      ImageFollows(old0, done0, seg, pos0, pos1, size, secs, secs', done', table);
    }
    hide InStep, SameSection, Plain, ImageHolds, SectionsInStep, SectionsAligned, Wrote, Within, DoneBefore,
         Positioned;
  }

  lemma AlignedSame(seg: Segment, done0: seq<bool>, secs0: seq<Section>, secs: seq<Section>, secs': seq<Section>)
    requires SectionsAligned(seg, done0, secs, secs') && |secs| == |secs0|
    requires forall i | 0 <= i < |secs0| && !done0[i] :: secs[i] == secs0[i]
    ensures SectionsAligned(seg, done0, secs0, secs')
  {
    hide PutOnAlignment;
  }

  lemma StepsSame(seg: Segment, done0: seq<bool>, secs0: seq<Section>, secs: seq<Section>, secs': seq<Section>)
    requires SectionsInStep(seg, done0, secs, secs') && |secs| == |secs0|
    requires forall i | 0 <= i < |secs0| && !done0[i] :: secs[i] == secs0[i]
    ensures SectionsInStep(seg, done0, secs0, secs')
  {
    hide InStep, Steps;
  }

  lemma DoneNext(segs0: seq<Segment>, order: seq<nat>, p: nat, count: nat, done: seq<bool>)
    requires IsPermutation(order, |segs0|) && p < |segs0| && |done| == count
    requires forall i | 0 <= i < count ::
               done[i] <==> DoneBefore(segs0, order, p, count)[i] || i in segs0[order[p]].sections
    ensures done == DoneBefore(segs0, order, p + 1, count)
  {
    forall i | 0 <= i < count
      ensures done[i] <==> Covered(segs0, order, p + 1, i)
    {
      if i in segs0[order[p]].sections {
        assert Covered(segs0, order, p + 1, i);
      } else {
        assert Covered(segs0, order, p + 1, i) <==> Covered(segs0, order, p, i);
      }
    }
  }

  lemma NextWritten(segs0: seq<Segment>, order: seq<nat>, p: nat, secs0: seq<Section>, secs: seq<Section>,
                    secs': seq<Section>, done: seq<bool>, done': seq<bool>, segs: seq<Segment>, seg: Segment,
                    pos0: Word64, pos1: Word64, size: Word64, wrapped: bool, wrapped': bool, table: Extent)
    requires ValidOrder(segs0, order, |secs0|) && p < |segs0| && (wrapped ==> wrapped')
    requires Written(segs0, order, p, secs0, secs, done, segs, wrapped, table)
    requires JustWritten(segs0[order[p]], done, seg, pos0, pos1, size, secs, secs', done', wrapped', table)
    ensures Written(segs0, order, p + 1, secs0, secs', done', segs[order[p] := seg], wrapped', table)
  {
    hide SegmentWritten, SameSections, Wrote, Within, Plain, Fresh, Congruent, SameSegment, StartsFile;
    NewWritten(segs0, order, p, secs0, secs, secs', done', seg, pos0, pos1, size, wrapped', table);
    WroteKeeps(segs0[order[p]], seg.offset, secs0, secs, done, secs', done', wrapped');
    DoneNext(segs0, order, p, |secs0|, done');
    forall q | 0 <= q < p
      ensures SegmentWritten(segs0, order, q, secs0, secs', segs[order[q]], wrapped', table)
    {
      StaysWritten(segs0, order, q, p, secs0, secs, secs', segs[order[q]], wrapped, wrapped', table);
    }
    hide JustWritten;
  }

  lemma WroteKeeps(seg: Segment, start: Word64, secs0: seq<Section>, secs: seq<Section>, done: seq<bool>,
                   secs': seq<Section>, done': seq<bool>, wrapped: bool)
    requires Wrote(seg, |seg.sections|, start, secs, done, secs', done', wrapped) && SameSections(secs0, secs)
    ensures SameSections(secs0, secs') && |done'| == |done| == |secs0| == |secs| == |secs'|
    ensures forall i | 0 <= i < |secs0| && (done[i] || !done'[i]) :: secs'[i] == secs[i]
    ensures forall i | 0 <= i < |secs0| :: done'[i] <==> done[i] || i in seg.sections
  {
    hide InStep, PutOnAlignment;
    assert seg.sections[..|seg.sections|] == seg.sections;
  }

  // ---------------------------------------------------------------- the rest of the file

  /** The sections that have a place are those that some segment lists. */
  ghost predicate DoneIfListed(done: seq<bool>, segs: seq<Segment>) {
    forall i | 0 <= i < |done| :: done[i] <==> exists s :: 0 <= s < |segs| && i in segs[s].sections
  }

  /** After every segment has had its turn, a section has a place exactly if a segment lists it. */
  lemma DoneIffListed(segs0: seq<Segment>, order: seq<nat>, secs0: seq<Section>, secs: seq<Section>,
                      segs: seq<Segment>, wrapped: bool, i: nat, table: Extent)
    requires ValidOrder(segs0, order, |secs0|) && i < |secs0|
    requires Written(segs0, order, |segs0|, secs0, secs, DoneBefore(segs0, order, |segs0|, |secs0|), segs, wrapped,
        table)
    ensures DoneBefore(segs0, order, |segs0|, |secs0|)[i] <==> exists s :: 0 <= s < |segs| && i in segs[s].sections
  {
    hide SectionsInStep, ImageHolds, Plain, Congruent, Fresh, SameSections, DoneBefore;
    forall s | 0 <= s < |segs|
      ensures segs[s].sections == segs0[s].sections && exists q :: 0 <= q < |order| && order[q] == s
    {
      PermutationIsOnto(order, |segs0|, s);
      var q :| 0 <= q < |order| && order[q] == s;
      assert SegmentWritten(segs0, order, q, secs0, secs, segs[order[q]], wrapped, table);
    }
  }

  function DoneUpTo(done0: seq<bool>, n: nat): (r: seq<bool>)
    ensures |r| == |done0| && forall i | 0 <= i < |done0| :: r[i] <==> done0[i] || i < n
  {
    seq(|done0|, i requires 0 <= i < |done0| => done0[i] || i < n)
  }

  /** The first `n` sections outside all segments have been placed, on their own alignment. */
  ghost predicate LoosePlaced(secs0: seq<Section>, done0: seq<bool>, n: nat, secs: seq<Section>, wrapped: bool) {
    && |done0| == |secs0| && SameSections(secs0, secs)
    && (forall i | 0 <= i < |secs| && (done0[i] || i >= n) :: secs[i] == secs0[i])
    && (!wrapped ==> forall i | 0 < i < |secs| && i < n && !done0[i] && secs[i].addrAlign > 0 ::
          secs[i].offset % secs[i].addrAlign == 0)
  }

  lemma LooseNext(secs0: seq<Section>, done0: seq<bool>, n: nat, secs: seq<Section>, t: Section,
                  lo: nat, pos0: nat, pos1: nat, wrapped: bool, wrapped': bool)
    requires LoosePlaced(secs0, done0, n, secs, wrapped) && n < |secs0| && (wrapped ==> wrapped')
    requires SameSection(secs[n], t) && (done0[n] ==> t == secs[n])
    requires !wrapped' && !done0[n] ==> PlacedNext(secs[n], t, n, pos0, pos1) && (n > 0 ==> OnAlignment(t))
    requires done0[n] ==> pos1 == pos0
    requires !wrapped ==> Placed(secs, DoneUpTo(done0, n), lo, pos0)
    ensures LoosePlaced(secs0, done0, n + 1, secs[n := t], wrapped')
    ensures !wrapped' ==> Placed(secs[n := t], DoneUpTo(done0, n + 1), lo, pos1)
  {
    assert DoneUpTo(done0, n + 1) == DoneUpTo(done0, n)[n := true];
    if !wrapped' {
      PlaceStep(secs, DoneUpTo(done0, n), lo, pos0, n, t, pos1);
    }
    hide Placed, PlacedNext, DoneUpTo;
  }

  /** The parts of an ELF file. */
  datatype Part = FileHeader | SegmentTable | Body(section: nat) | SectionTable

  datatype Extent = Extent(lo: nat, hi: nat) {
    predicate Holds(x: nat) { lo <= x < hi }
  }

  /** No byte of the file belongs to both. */
  ghost predicate Disjoint(a: Extent, b: Extent) {
    forall x: nat :: !(a.Holds(x) && b.Holds(x))
  }

  predicate IsPart(p: Part, secs: seq<Section>) {
    p.Body? ==> 0 < p.section < |secs| && secs[p.section].Stored()
  }

  function ExtentOf(p: Part, headerSize: nat, table: Extent, secs: seq<Section>, sectionTable: Extent): Extent
    requires IsPart(p, secs)
  {
    match p
    case FileHeader => Extent(0, headerSize)
    case SegmentTable => table
    case Body(i) => Extent(secs[i].offset, secs[i].offset + secs[i].size)
    case SectionTable => sectionTable
  }

  /** No two parts of the file overlap. */
  ghost predicate AllDisjoint(headerSize: nat, table: Extent, secs: seq<Section>, sectionTable: Extent) {
    forall p, q | IsPart(p, secs) && IsPart(q, secs) && p != q ::
      Disjoint(ExtentOf(p, headerSize, table, secs, sectionTable), ExtentOf(q, headerSize, table, secs, sectionTable))
  }

  /** Sections outside all segments start on their own alignment. */
  ghost predicate LooseAligned(segs: seq<Segment>, secs: seq<Section>) {
    forall i | 0 < i < |secs| && (forall s | 0 <= s < |segs| :: i !in segs[s].sections) :: OnAlignment(secs[i])
  }

  lemma PartsDisjoint(p: Part, q: Part, headerSize: nat, table: Extent, secs: seq<Section>, done: seq<bool>, lo: nat,
                      sectionTable: Extent)
    requires IsPart(p, secs) && IsPart(q, secs) && p != q
    requires headerSize <= lo && table.hi <= lo && (table.lo == headerSize || table.hi == 0)
    requires Placed(secs, done, lo, sectionTable.lo) && forall i | 0 <= i < |done| :: done[i]
    ensures Disjoint(ExtentOf(p, headerSize, table, secs, sectionTable),
                     ExtentOf(q, headerSize, table, secs, sectionTable))
  {
    if p.Body? && q.Body? {
      if p.section < q.section {
        assert Apart(secs[p.section], secs[q.section]);
      } else {
        assert Apart(secs[q.section], secs[p.section]);
      }
    }
  }

  /** The segment's alignment has been raised to the largest of its sections'. */
  ghost predicate Realigned(before: Segment, after: Segment, secs: seq<Section>, n: nat)
    requires n <= |before.sections| && forall k | 0 <= k < |before.sections| :: before.sections[k] < |secs|
  {
    && after == before.(align := after.align) && after.align >= before.align
    && (forall k | 0 <= k < n :: secs[before.sections[k]].addrAlign <= after.align)
    && (after.align == before.align || exists k | 0 <= k < n :: secs[before.sections[k]].addrAlign == after.align)
  }

  /** Nothing that the segments placed has been moved by what came after. */
  lemma FinallyWritten(segs0: seq<Segment>, order: seq<nat>, secs0: seq<Section>, secs: seq<Section>,
                       secs': seq<Section>, done: seq<bool>, segs: seq<Segment>, wrapped: bool, wrapped': bool,
                           table: Extent)
    requires ValidOrder(segs0, order, |secs0|) && done == DoneBefore(segs0, order, |segs0|, |secs0|)
    requires Written(segs0, order, |segs0|, secs0, secs, done, segs, wrapped, table) && (wrapped ==> wrapped')
    requires |secs| == |secs0| && LoosePlaced(secs, done, |secs|, secs', wrapped')
    ensures SameSections(secs0, secs')
    ensures forall q | 0 <= q < |segs0| :: SegmentWritten(segs0, order, q, secs0, secs', segs[order[q]], wrapped',
        table)
  {
    hide DoneBefore;
    forall q | 0 <= q < |segs0|
      ensures SegmentWritten(segs0, order, q, secs0, secs', segs[order[q]], wrapped', table)
    {
      StaysWritten(segs0, order, q, |segs0|, secs0, secs, secs', segs[order[q]], wrapped, wrapped', table);
    }
    hide SegmentWritten;
  }

  lemma LooseOnAlignment(secs0: seq<Section>, done0: seq<bool>, secs: seq<Section>, segs: seq<Segment>, wrapped: bool)
    requires LoosePlaced(secs0, done0, |secs0|, secs, wrapped)
    requires DoneIfListed(done0, segs)
    ensures !wrapped ==> LooseAligned(segs, secs)
  {
  }

  lemma AllPartsDisjoint(headerSize: nat, table: Extent, secs: seq<Section>, done: seq<bool>, lo: nat,
                         sectionTable: Extent)
    requires headerSize <= lo && table.hi <= lo && (table.lo == headerSize || table.hi == 0)
    requires Placed(secs, done, lo, sectionTable.lo) && forall i | 0 <= i < |done| :: done[i]
    ensures AllDisjoint(headerSize, table, secs, sectionTable)
  {
    hide Placed, Disjoint, ExtentOf;
    forall p, q | IsPart(p, secs) && IsPart(q, secs) && p != q
      ensures Disjoint(ExtentOf(p, headerSize, table, secs, sectionTable),
                       ExtentOf(q, headerSize, table, secs, sectionTable))
    {
      PartsDisjoint(p, q, headerSize, table, secs, done, lo, sectionTable);
    }
  }

  lemma WrittenSizes(segs0: seq<Segment>, order: seq<nat>, secs0: seq<Section>, secs: seq<Section>,
                     done: seq<bool>, segs: seq<Segment>, wrapped: bool, table: Extent)
    requires ValidOrder(segs0, order, |secs0|)
    requires Written(segs0, order, |segs0|, secs0, secs, done, segs, wrapped, table)
    ensures |segs| == |segs0| == |order|
  {
  }

  lemma AllDoneIffListed(segs0: seq<Segment>, order: seq<nat>, secs0: seq<Section>, secs: seq<Section>,
                         segs: seq<Segment>, wrapped: bool, table: Extent)
    requires ValidOrder(segs0, order, |secs0|)
    requires Written(segs0, order, |segs0|, secs0, secs, DoneBefore(segs0, order, |segs0|, |secs0|), segs, wrapped,
        table)
    ensures DoneIfListed(DoneBefore(segs0, order, |segs0|, |secs0|), segs)
  {
    hide Written;
    forall i | 0 <= i < |secs0|
      ensures DoneBefore(segs0, order, |segs0|, |secs0|)[i] <==> exists s :: 0 <= s < |segs| && i in segs[s].sections
    {
      DoneIffListed(segs0, order, secs0, secs, segs, wrapped, i, table);
    }
  }

  lemma Unaligned(align: nat, pos: nat)
    requires align > 0 && pos % align != 0
    ensures (pos + (align - pos % align)) % align == 0
  {
    SmallMod(align - pos % align, align);
    PaddingAligns(align, pos);
  }

  lemma LooseStart(secs: seq<Section>, done0: seq<bool>, wrapped: bool)
    requires |done0| == |secs|
    ensures LoosePlaced(secs, done0, 0, secs, wrapped) && DoneUpTo(done0, 0) == done0
  {
  }

  lemma SameSelf(s: Section)
    ensures SameSection(s, s)
  {
  }

  /** The whole file, once what follows the segments has its place. */
  lemma RestFacts(segs0: seq<Segment>, order: seq<nat>, secs0: seq<Section>, secs: seq<Section>, secs': seq<Section>,
                  done: seq<bool>, segs: seq<Segment>, wrapped: bool, wrapped': bool, headerSize: nat, lo: nat,
                  table: Extent, sectionTable: Extent)
    requires ValidOrder(segs0, order, |secs0|) && done == DoneBefore(segs0, order, |segs0|, |secs0|)
    requires Written(segs0, order, |segs0|, secs0, secs, done, segs, wrapped, table) && (wrapped ==> wrapped')
    requires |secs| == |secs0| == |secs'| && LoosePlaced(secs, done, |secs|, secs', wrapped')
    requires DoneIfListed(done, segs)
    requires !wrapped' ==> Placed(secs', DoneUpTo(done, |secs|), lo, sectionTable.lo)
    requires headerSize <= lo && table.hi <= lo && (table.lo == headerSize || table.hi == 0)
    ensures SameSections(secs0, secs') && AllWritten(segs0, order, secs0, secs', segs, wrapped', table)
    ensures !wrapped' ==> LooseAligned(segs, secs') && AllDisjoint(headerSize, table, secs', sectionTable)
  {
    WrittenSizes(segs0, order, secs0, secs, done, segs, wrapped, table);
    FinallyWritten(segs0, order, secs0, secs, secs', done, segs, wrapped, wrapped', table);
    hide DoneIfListed, Written, LoosePlaced, Placed, LooseAligned, AllDisjoint, SegmentWritten,
         SameSections, DoneBefore;
    LooseOnAlignment(secs, done, secs', segs, wrapped');
    if !wrapped' {
      AllPartsDisjoint(headerSize, table, secs', DoneUpTo(done, |secs|), lo, sectionTable);
    }
  }
}
