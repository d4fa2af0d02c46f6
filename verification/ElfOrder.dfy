/** The order in which the ELF writer lays out segments: containers before what they contain. */
module ElfOrder {
  import opened Permutations

  datatype Segment = Segment(sections: seq<nat>, offsetSet: bool, offset: nat) {
    /** An initialised file offset of 0. */
    predicate AtStart() { offsetSet && offset == 0 }
  }

  predicate Sorted(s: seq<nat>) {
    forall i, j | 0 <= i < j < |s| :: s[i] <= s[j]
  }

  // ---------------------------------------------------------------- containment

  /** `std::includes`: a single merge pass that assumes both ranges sorted. */
  predicate Includes(a: seq<nat>, b: seq<nat>)
    decreases |a|
  {
    if |b| == 0 then true
    else if |a| == 0 || b[0] < a[0] then false
    else if a[0] < b[0] then Includes(a[1..], b)
    else Includes(a[1..], b[1..])
  }

  predicate IsSubsequenceOf(inner: Segment, outer: Segment) {
    |inner.sections| < |outer.sections| && Includes(outer.sections, inner.sections)
  }

  /** A positive answer is always right: every section occurs in the other list as often. */
  lemma {:induction false} IncludesIsSound(a: seq<nat>, b: seq<nat>)
    requires Includes(a, b)
    ensures multiset(b) <= multiset(a)
    decreases |a|
  {
    if |b| > 0 {
      assert a == [a[0]] + a[1..] && b == [b[0]] + b[1..];
      IncludesIsSound(a[1..], if a[0] < b[0] then b else b[1..]);
    }
  }

  lemma Head(a: seq<nat>)
    requires |a| > 0
    ensures multiset(a) == multiset{a[0]} + multiset(a[1..])
  {
    assert a == [a[0]] + a[1..];
  }

  lemma DropUnused(a: seq<nat>, b: seq<nat>)
    requires |a| > 0 && multiset(b) <= multiset(a) && a[0] !in b
    ensures multiset(b) <= multiset(a[1..])
  {
    Head(a);
    assert multiset(b)[a[0]] == 0;
  }

  lemma DropCommon(a: seq<nat>, b: seq<nat>)
    requires |a| > 0 && |b| > 0 && a[0] == b[0] && multiset(b) <= multiset(a)
    ensures multiset(b[1..]) <= multiset(a[1..])
  {
    Head(a);
    Head(b);
    assert multiset(b[1..]) == multiset(b) - multiset{b[0]} && multiset(a[1..]) == multiset(a) - multiset{a[0]};
  }

  lemma InLarger(a: seq<nat>, b: seq<nat>)
    requires |b| > 0 && multiset(b) <= multiset(a)
    ensures |a| > 0 && exists i | 0 <= i < |a| :: a[i] == b[0]
  {
    assert b[0] in multiset(b);
    assert b[0] in multiset(a);
    assert b[0] in a;
  }

  /** On sorted lists a negative answer is right too. */
  lemma {:induction false} IncludesIsComplete(a: seq<nat>, b: seq<nat>)
    requires Sorted(a) && Sorted(b) && multiset(b) <= multiset(a)
    ensures Includes(a, b)
    decreases |a|
  {
    if |b| > 0 {
      InLarger(a, b);
      if a[0] < b[0] {
        DropUnused(a, b);
        IncludesIsComplete(a[1..], b);
      } else {
        DropCommon(a, b);
        IncludesIsComplete(a[1..], b[1..]);
      }
    }
  }

  /** What is found in a sorted list is sorted. */
  lemma {:induction false} IncludedIsSorted(a: seq<nat>, b: seq<nat>)
    requires Sorted(a) && Includes(a, b)
    ensures Sorted(b) && forall k | 0 <= k < |b| :: |a| > 0 && a[0] <= b[k]
    decreases |a|
  {
    if |b| > 0 {
      IncludedIsSorted(a[1..], if a[0] < b[0] then b else b[1..]);
      assert |a| > 1 ==> a[0] <= a[1..][0];
      assert b == [b[0]] + b[1..];
    }
  }

  /** The parts of a sorted list that are recognised are exactly the sorted ones. */
  lemma PartRecognisedIff(a: seq<nat>, b: seq<nat>)
    requires Sorted(a) && multiset(b) <= multiset(a)
    ensures Includes(a, b) <==> Sorted(b)
  {
    if Includes(a, b) {
      IncludedIsSorted(a, b);
    } else if Sorted(b) {
      IncludesIsComplete(a, b);
    }
  }

  /** The lists whose sorted parts are all recognised are exactly the sorted ones. */
  lemma RecognisedIffSorted(outer: Segment)
    ensures Sorted(outer.sections)
            <==> forall inner: Segment |
                   && Sorted(inner.sections) && |inner.sections| < |outer.sections|
                   && multiset(inner.sections) <= multiset(outer.sections) :: IsSubsequenceOf(inner, outer)
    ensures Sorted(outer.sections) ==>
              forall inner: Segment |
                && |inner.sections| < |outer.sections| && multiset(inner.sections) <= multiset(outer.sections) ::
                IsSubsequenceOf(inner, outer) <==> Sorted(inner.sections)
  {
    var a := outer.sections;
    if Sorted(a) {
      forall inner: Segment | |inner.sections| < |a| && multiset(inner.sections) <= multiset(a)
        ensures IsSubsequenceOf(inner, outer) <==> Sorted(inner.sections)
      {
        PartRecognisedIff(a, inner.sections);
      }
    } else {
      var b := Missed(a);
      var inner := Segment(b, false, 0);
      assert !IsSubsequenceOf(inner, outer);
    }
  }

  /** A sorted part of an unsorted list that the merge pass does not find. */
  lemma Missed(a: seq<nat>) returns (b: seq<nat>)
    requires !Sorted(a)
    ensures Sorted(b) && |b| < |a| && multiset(b) <= multiset(a) && !Includes(a, b)
  {
    var i := Descent(a);
    var x := a[i + 1];
    var k := 0;
    while a[k] <= x
      invariant k <= i && forall j | 0 <= j < k :: a[j] <= x
      decreases i - k
    {
      k := k + 1;
    }
    b := a[..k] + [x];
    MissedPart(a, i, k);
    CommonPrefix(a[..k], a[k..], [x]);
    assert a == a[..k] + a[k..];
  }

  lemma MissedPart(a: seq<nat>, i: nat, k: nat)
    requires k <= i && i + 1 < |a| && Sorted(a[..i + 1]) && forall j | 0 <= j < k :: a[j] <= a[i + 1]
    ensures Sorted(a[..k] + [a[i + 1]]) && multiset(a[..k] + [a[i + 1]]) <= multiset(a)
  {
    MissedIsPart(a, i, k);
    assert forall j | 0 <= j < k :: a[j] == a[..i + 1][j];
  }

  lemma MissedIsPart(a: seq<nat>, i: nat, k: nat)
    requires k <= i && i + 1 < |a|
    ensures multiset(a[..k] + [a[i + 1]]) <= multiset(a)
  {
    assert a == a[..k] + a[k..i + 1] + [a[i + 1]] + a[i + 2..];
  }

  /** The first place where a list steps down. */
  lemma Descent(a: seq<nat>) returns (i: nat)
    requires !Sorted(a)
    ensures i + 1 < |a| && a[i] > a[i + 1] && Sorted(a[..i + 1])
  {
    i := 0;
    while a[i] <= a[i + 1]
      invariant i + 1 < |a| && Sorted(a[..i + 1])
      decreases |a| - i
    {
      SortedSoFar(a, i + 2);
      i := i + 1;
    }
  }

  lemma SortedSoFar(a: seq<nat>, n: nat)
    requires n <= |a| && Sorted(a[..n])
    ensures n == |a| ==> Sorted(a)
  {
    assert a[..|a|] == a;
  }

  lemma {:induction false} CommonPrefix(p: seq<nat>, a: seq<nat>, b: seq<nat>)
    ensures Includes(p + a, p + b) == Includes(a, b)
  {
    if |p| == 0 {
      assert p + a == a && p + b == b;
    } else {
      CommonPrefix(p[1..], a, b);
      assert (p + a)[1..] == p[1..] + a && (p + b)[1..] == p[1..] + b;
    }
  }

  /** Containment passes on, of unsorted lists too. */
  lemma {:induction false} IncludesTransitive(a: seq<nat>, b: seq<nat>, c: seq<nat>)
    requires Includes(a, b) && Includes(b, c)
    ensures Includes(a, c)
    decreases |a|
  {
    if |c| > 0 {
      if a[0] < b[0] {
        IncludesTransitive(a[1..], b, c);
      } else {
        IncludesTransitive(a[1..], b[1..], if b[0] < c[0] then c else c[1..]);
      }
    }
  }

  // ---------------------------------------------------------------- the order

  /** No segment comes before one whose sections strictly contain its own. */
  ghost predicate OutermostFirst(segs: seq<Segment>, order: seq<nat>)
    requires forall i | 0 <= i < |order| :: order[i] < |segs|
  {
    forall i, j | 0 <= i < j < |order| :: !IsSubsequenceOf(segs[order[i]], segs[order[j]])
  }

  /** Segments with a nonzero offset come after all that start the file. */
  ghost predicate StartsInFront(segs: seq<Segment>, order: seq<nat>)
    requires forall i | 0 <= i < |order| :: order[i] < |segs|
  {
    forall i, j | 0 <= i < j < |order| && segs[order[j]].AtStart() :: segs[order[i]].offset == 0
  }

  /** What the first loop keeps. */
  ghost predicate FrontSoFar(segs: seq<Segment>, w: seq<nat>, nextSlot: nat, i: nat) {
    && IsPermutation(w, |segs|) && nextSlot <= i <= |w|
    && (forall k | 0 <= k < |w| :: w[k] < |segs|)
    && (forall k | 0 <= k < nextSlot :: segs[w[k]].offset == 0)
    && (forall k | nextSlot < k < i :: !segs[w[k]].AtStart())
  }

  /** One turn of the first loop: worklist and next slot. */
  ghost function FrontStep(segs: seq<Segment>, w: seq<nat>, nextSlot: nat, i: nat): (r: (seq<nat>, nat))
    requires FrontSoFar(segs, w, nextSlot, i) && i < |w|
    ensures |r.0| == |w| && FrontSoFar(segs, r.0, r.1, i + 1)
  {
    if i != nextSlot && segs[w[i]].AtStart() then
      var slot := if segs[w[nextSlot]].offset == 0 then nextSlot + 1 else nextSlot;
      SwapKeeps(w, i, slot, |segs|);
      (w[i := w[slot]][slot := w[i]], slot + 1)
    else
      (w, nextSlot)
  }

  lemma SwapKeeps(w: seq<nat>, i: nat, j: nat, n: nat)
    requires IsPermutation(w, n) && i < n && j < n
    ensures IsPermutation(w[i := w[j]][j := w[i]], n)
  {
  }

  ghost function FrontLoop(segs: seq<Segment>, w: seq<nat>, nextSlot: nat, i: nat): (r: seq<nat>)
    requires FrontSoFar(segs, w, nextSlot, i)
    ensures IsPermutation(r, |segs|) && StartsInFront(segs, r)
    decreases |w| - i
  {
    if i == |w| then w
    else
      var next := FrontStep(segs, w, nextSlot, i);
      FrontLoop(segs, next.0, next.1, i + 1)
  }

  /** The worklist after the first loop. */
  ghost function Front(segs: seq<Segment>): (r: seq<nat>)
    ensures IsPermutation(r, |segs|) && StartsInFront(segs, r)
  {
    FrontLoop(segs, Identity(|segs|), 0, 0)
  }

  /** One turn of the loop in `StartsFirst`. */
  method BringForward(segs: seq<Segment>, w0: seq<nat>, nextSlot0: nat, i: nat) returns (w: seq<nat>, nextSlot: nat)
    requires FrontSoFar(segs, w0, nextSlot0, i) && i < |w0|
    ensures (w, nextSlot) == FrontStep(segs, w0, nextSlot0, i)
  {
    hide IsPermutation;
    w, nextSlot := w0, nextSlot0;
    if i != nextSlot && segs[w[i]].AtStart() {
      if segs[w[nextSlot]].offset == 0 {
        nextSlot := nextSlot + 1;
      }
      w := w[i := w[nextSlot]][nextSlot := w[i]];
      nextSlot := nextSlot + 1;
    }
  }

  /** Brings the segments that start at address 0 to the front. */
  method StartsFirst(segs: seq<Segment>) returns (w: seq<nat>)
    ensures w == Front(segs) && IsPermutation(w, |segs|) && StartsInFront(segs, w)
  {
    w := Identity(|segs|);
    var nextSlot := 0;
    for i := 0 to |w|
      invariant |w| == |segs| && FrontSoFar(segs, w, nextSlot, i)
      invariant FrontLoop(segs, w, nextSlot, i) == Front(segs)
    {
      hide IsPermutation, StartsInFront, FrontSoFar, FrontStep;
      w, nextSlot := BringForward(segs, w, nextSlot, i);
    }
  }

  ghost function Sizes(segs: seq<Segment>, w: seq<nat>): (r: seq<nat>)
    requires forall i | 0 <= i < |w| :: w[i] < |segs|
    ensures |r| == |w| && forall i | 0 <= i < |w| :: r[i] == |segs[w[i]].sections|
  {
    seq(|w|, i requires 0 <= i < |w| => |segs[w[i]].sections|)
  }

  /** Position `r` holds the first of the largest sizes. */
  ghost predicate WidestAt(sizes: seq<nat>, r: nat) {
    && r < |sizes|
    && (forall k | 0 <= k < |sizes| :: sizes[k] <= sizes[r])
    && (forall k | 0 <= k < r :: sizes[k] < sizes[r])
  }

  ghost function Widest(sizes: seq<nat>): (r: nat)
    requires |sizes| > 0
    ensures WidestAt(sizes, r)
    decreases |sizes|
  {
    var n := |sizes| - 1;
    if n == 0 then 0
    else
      var r := Widest(sizes[..n]);
      if sizes[n] > sizes[r] then n else r
  }

  lemma WidestIs(sizes: seq<nat>, r: nat)
    requires WidestAt(sizes, r)
    ensures Widest(sizes) == r
  {
    assert WidestAt(sizes, Widest(sizes));
  }

  lemma SizesRotate(sizes: seq<nat>, i: nat)
    requires 0 < i < |sizes| && sizes[0] < sizes[i]
    ensures Widest(sizes[1..] + [sizes[0]]) == Widest(sizes) - 1
  {
    var v, r := sizes[1..] + [sizes[0]], Widest(sizes);
    assert WidestAt(sizes, r);
    assert r > 0;
    assert forall k | 0 <= k < |sizes| - 1 :: v[k] == sizes[k + 1];
    WidestIs(v, r - 1);
  }

  /** Rotating a contained segment to the back brings the widest one closer. */
  lemma Rotates(segs: seq<Segment>, w: seq<nat>, i: nat)
    requires 0 < i < |w| && forall k | 0 <= k < |w| :: w[k] < |segs|
    requires IsSubsequenceOf(segs[w[0]], segs[w[i]])
    ensures forall k | 0 <= k < |w| :: (w[1..] + [w[0]])[k] < |segs|
    ensures Widest(Sizes(segs, w[1..] + [w[0]])) == Widest(Sizes(segs, w)) - 1
  {
    hide Includes, Widest, WidestAt;
    var sizes := Sizes(segs, w);
    SizesRotate(sizes, i);
    assert Sizes(segs, w[1..] + [w[0]]) == sizes[1..] + [sizes[0]];
  }

  predicate InRange(segs: seq<Segment>, w: seq<nat>) {
    forall i | 0 <= i < |w| :: w[i] < |segs|
  }

  /** The rest of the worklist still holds exactly the segments not yet emitted. */
  ghost predicate Pending(segs: seq<Segment>, res: seq<nat>, w: seq<nat>) {
    && IsPermutation(res + w, |segs|)
    && InRange(segs, res) && InRange(segs, w)
    && OutermostFirst(segs, res)
    && forall i, j | 0 <= i < |res| && 0 <= j < |w| :: !IsSubsequenceOf(segs[res[i]], segs[w[j]])
  }

  lemma StartPending(segs: seq<Segment>, w: seq<nat>)
    requires IsPermutation(w, |segs|)
    ensures Pending(segs, [], w)
  {
    assert [] + w == w;
  }

  lemma Emit(segs: seq<Segment>, res: seq<nat>, w: seq<nat>)
    requires Pending(segs, res, w) && |w| > 0
    requires forall i | 0 < i < |w| :: !IsSubsequenceOf(segs[w[0]], segs[w[i]])
    ensures Pending(segs, res + [w[0]], w[1..])
  {
    hide IsSubsequenceOf;
    assert res + [w[0]] + w[1..] == res + w;
  }

  lemma Rotate(segs: seq<Segment>, res: seq<nat>, w: seq<nat>)
    requires Pending(segs, res, w) && |w| > 0
    ensures Pending(segs, res, w[1..] + [w[0]])
  {
    hide IsSubsequenceOf;
    var v := w[1..] + [w[0]];
    var n := |res|;
    forall i, j | 0 <= i < j < |segs|
      ensures (res + v)[i] < |segs| && (res + v)[j] < |segs| && (res + v)[i] != (res + v)[j]
    {
      var i', j' := Origin(n, |segs|, i), Origin(n, |segs|, j);
      assert (res + v)[i] == (res + w)[i'] && (res + v)[j] == (res + w)[j'] && i' != j';
    }
    assert (res + v)[|segs| - 1] == (res + w)[n];
  }

  /** Where position `i` of a list rotated from `n` on came from. */
  function Origin(n: nat, size: nat, i: nat): nat {
    if i < n then i else if i + 1 < size then i + 1 else n
  }

  /** The first place from `i` on that holds a container of the first segment. */
  ghost function FirstContainer(segs: seq<Segment>, w: seq<nat>, i: nat): (r: nat)
    requires 0 < i <= |w| && forall k | 0 <= k < |w| :: w[k] < |segs|
    ensures i <= r <= |w| && (r < |w| ==> IsSubsequenceOf(segs[w[0]], segs[w[r]]))
    ensures forall k | i <= k < r :: !IsSubsequenceOf(segs[w[0]], segs[w[k]])
    decreases |w| - i
  {
    if i == |w| || IsSubsequenceOf(segs[w[0]], segs[w[i]]) then i else FirstContainer(segs, w, i + 1)
  }

  /** What the second loop makes of a worklist. */
  ghost function Drain(segs: seq<Segment>, w: seq<nat>): seq<nat>
    requires forall k | 0 <= k < |w| :: w[k] < |segs|
    decreases |w|, if w == [] then 0 else Widest(Sizes(segs, w))
  {
    if w == [] then []
    else
      var i := FirstContainer(segs, w, 1);
      if i < |w| then
        Rotates(segs, w, i);
        Drain(segs, w[1..] + [w[0]])
      else
        [w[0]] + Drain(segs, w[1..])
  }

  lemma DrainEmits(segs: seq<Segment>, res: seq<nat>, w: seq<nat>)
    requires w != [] && InRange(segs, w) && FirstContainer(segs, w, 1) == |w|
    ensures res + Drain(segs, w) == res + [w[0]] + Drain(segs, w[1..])
  {
    hide IsSubsequenceOf, Widest, Sizes;
  }

  lemma {:induction false} DrainOrders(segs: seq<Segment>, res: seq<nat>, w: seq<nat>)
    requires InRange(segs, w) && Pending(segs, res, w)
    ensures IsPermutation(res + Drain(segs, w), |segs|) && InRange(segs, res + Drain(segs, w))
    ensures OutermostFirst(segs, res + Drain(segs, w))
    decreases |w|, if w == [] then 0 else Widest(Sizes(segs, w))
  {
    hide IsSubsequenceOf, Widest, Sizes, OutermostFirst, IsPermutation;
    if w == [] {
      assert res + w == res && Drain(segs, w) == [];
    } else {
      hide Pending;
      var i := FirstContainer(segs, w, 1);
      if i < |w| {
        Rotates(segs, w, i);
        Rotate(segs, res, w);
        DrainOrders(segs, res, w[1..] + [w[0]]);
      } else {
        Emit(segs, res, w);
        DrainOrders(segs, res + [w[0]], w[1..]);
        DrainEmits(segs, res, w);
      }
    }
  }

  /** The order that `get_ordered_segments` gives: containers, where recognised, come first. */
  ghost function OrderOf(segs: seq<Segment>): (r: seq<nat>)
    ensures IsPermutation(r, |segs|) && OutermostFirst(segs, r)
  {
    var w := Front(segs);
    StartPending(segs, w);
    DrainOrders(segs, [], w);
    assert [] + Drain(segs, w) == Drain(segs, w);
    Drain(segs, w)
  }

  /** The inner loop of `get_ordered_segments`. */
  method SearchContainer(segs: seq<Segment>, worklist: seq<nat>) returns (i: nat)
    requires worklist != [] && forall k | 0 <= k < |worklist| :: worklist[k] < |segs|
    ensures i == FirstContainer(segs, worklist, 1)
  {
    hide IsSubsequenceOf;
    i := 1;
    while i < |worklist| && !IsSubsequenceOf(segs[worklist[0]], segs[worklist[i]])
      invariant 1 <= i <= |worklist| && FirstContainer(segs, worklist, i) == FirstContainer(segs, worklist, 1)
    {
      i := i + 1;
    }
  }

  /** `get_ordered_segments`. */
  method OrderedSegments(segs: seq<Segment>) returns (res: seq<nat>)
    ensures res == OrderOf(segs) && IsPermutation(res, |segs|) && OutermostFirst(segs, res)
  {
    var worklist: seq<nat> := StartsFirst(segs);
    assert InRange(segs, worklist);
    hide Includes, IsSubsequenceOf, OutermostFirst, IsPermutation, StartsInFront, Sizes, Widest;
    res := [];
    while worklist != []
      invariant forall k | 0 <= k < |worklist| :: worklist[k] < |segs|
      invariant res + Drain(segs, worklist) == OrderOf(segs)
      decreases |worklist|, if worklist == [] then 0 else Widest(Sizes(segs, worklist))
    {
      var seg := worklist[0];
      var i := SearchContainer(segs, worklist);
      if i < |worklist| {
        Rotates(segs, worklist, i);
        worklist := worklist[1..] + [seg];
      } else {
        DrainEmits(segs, res, worklist);
        res, worklist := res + [seg], worklist[1..];
      }
    }
    assert res + [] == res;
  }

  /** On sorted section lists: a segment comes after every one that strictly contains it. */
  lemma ContainersComeFirst(segs: seq<Segment>, order: seq<nat>, i: nat, j: nat)
    requires IsPermutation(order, |segs|) && OutermostFirst(segs, order) && i < |segs| && j < |segs|
    requires var a, b := segs[order[i]].sections, segs[order[j]].sections;
             Sorted(a) && Sorted(b) && multiset(a) < multiset(b)
    ensures j < i
  {
    var a, b := segs[order[i]].sections, segs[order[j]].sections;
    SmallerMultiset(a, b);
    IncludesIsComplete(b, a);
    if i < j {
      assert IsSubsequenceOf(segs[order[i]], segs[order[j]]);
    }
  }

  lemma SmallerMultiset(a: seq<nat>, b: seq<nat>)
    requires multiset(a) < multiset(b)
    ensures |a| < |b|
  {
    var rest := multiset(b) - multiset(a);
    assert multiset(b) == multiset(a) + rest;
    assert |multiset(a)| == |a| && |multiset(b)| == |b|;
    assert rest != multiset{};
  }

  // ---------------------------------------------------------------- when containers come first

  /** A worklist drains from the front as long as nothing behind contains its segments. */
  lemma {:induction false} DrainPrefix(segs: seq<Segment>, w: seq<nat>, m: nat)
    requires m <= |w| && forall k | 0 <= k < |w| :: w[k] < |segs|
    requires forall p, q | 0 <= p < m && p < q < |w| :: !IsSubsequenceOf(segs[w[p]], segs[w[q]])
    ensures |Drain(segs, w)| >= m && Drain(segs, w)[..m] == w[..m]
    decreases m
  {
    hide IsSubsequenceOf;
    if m > 0 {
      var rest := w[1..];
      DrainPrefix(segs, rest, m - 1);
      assert FirstContainer(segs, w, 1) == |w|;
      assert w[..m] == [w[0]] + rest[..m - 1];
    }
  }

  lemma {:induction false} FrontOfPlain(segs: seq<Segment>, i: nat)
    requires forall k | 0 <= k < |segs| :: !segs[k].offsetSet
    requires i <= |segs| && FrontSoFar(segs, Identity(|segs|), 0, i)
    ensures FrontLoop(segs, Identity(|segs|), 0, i) == Identity(|segs|)
    decreases |segs| - i
  {
    hide FrontSoFar;
    if i < |segs| {
      assert FrontStep(segs, Identity(|segs|), 0, i) == (Identity(|segs|), 0);
      FrontOfPlain(segs, i + 1);
    }
  }

  /** Segments without offsets are taken in the order given. */
  lemma OrderOfPlain(segs: seq<Segment>, m: nat)
    requires m <= |segs| && forall k | 0 <= k < |segs| :: !segs[k].offsetSet
    requires forall p, q | 0 <= p < m && p < q < |segs| :: !IsSubsequenceOf(segs[p], segs[q])
    ensures |OrderOf(segs)| >= m && OrderOf(segs)[..m] == Identity(m)
  {
    hide IsSubsequenceOf;
    FrontOfPlain(segs, 0);
    DrainPrefix(segs, Identity(|segs|), m);
    assert Identity(|segs|)[..m] == Identity(m);
  }

  lemma OrderOfTwo(inner: seq<nat>, outer: seq<nat>)
    requires !Includes(outer, inner)
    ensures OrderOf([Segment(inner, false, 0), Segment(outer, false, 0)]) == [0, 1]
  {
    var segs := [Segment(inner, false, 0), Segment(outer, false, 0)];
    assert !IsSubsequenceOf(segs[0], segs[1]);
    OrderOfPlain(segs, 2);
    var order := OrderOf(segs);
    assert order == order[..2];
  }

  /** A container that the merge pass does not recognise may come second: an unsorted container. */
  lemma UnsortedContainerComesSecond()
    ensures multiset([1]) < multiset([2, 1]) && Sorted([1])
    ensures OrderOf([Segment([1], false, 0), Segment([2, 1], false, 0)]) == [0, 1]
  {
    assert multiset([2, 1]) == multiset{2, 1} && multiset([1]) == multiset{1};
    OrderOfTwo([1], [2, 1]);
  }

  /** And a sorted container of an unsorted list. */
  lemma UnsortedPartComesFirst()
    ensures multiset([2, 1]) < multiset([1, 2, 3]) && Sorted([1, 2, 3])
    ensures OrderOf([Segment([2, 1], false, 0), Segment([1, 2, 3], false, 0)]) == [0, 1]
  {
    assert multiset([2, 1]) == multiset{2, 1} && multiset([1, 2, 3]) == multiset{1, 2, 3};
    assert [1, 2, 3][1..] == [2, 3];
    assert !Includes([2, 3], [1]);
    OrderOfTwo([2, 1], [1, 2, 3]);
  }

  /** Every segment comes after all whose section lists strictly contain its own. */
  ghost predicate ContainersFirst(segs: seq<Segment>, order: seq<nat>)
    requires forall i | 0 <= i < |order| :: order[i] < |segs|
  {
    forall i, j | 0 <= i < j < |order| :: !(multiset(segs[order[i]].sections) < multiset(segs[order[j]].sections))
  }

  /** The segments have these section lists, in some order and with any offsets. */
  ghost predicate Arranges(segs: seq<Segment>, lists: seq<seq<nat>>, p: seq<nat>) {
    && |segs| == |lists| && IsPermutation(p, |lists|)
    && forall k | 0 <= k < |segs| :: p[k] < |lists| && segs[k].sections == lists[p[k]]
  }

  ghost predicate AllRecognised(lists: seq<seq<nat>>) {
    forall i, j | 0 <= i < |lists| && 0 <= j < |lists| && multiset(lists[i]) < multiset(lists[j]) ::
      Includes(lists[j], lists[i])
  }

  /** What the loop promises of one file: if every containment is recognised, containers are first. */
  lemma RecognisedComeFirst(segs: seq<Segment>, lists: seq<seq<nat>>, p: seq<nat>)
    requires Arranges(segs, lists, p) && AllRecognised(lists)
    ensures ContainersFirst(segs, OrderOf(segs))
  {
    var order := OrderOf(segs);
    forall i, j | 0 <= i < j < |order|
      ensures !(multiset(segs[order[i]].sections) < multiset(segs[order[j]].sections))
    {
      var a, b := segs[order[i]].sections, segs[order[j]].sections;
      assert a == lists[p[order[i]]] && b == lists[p[order[j]]];
      assert !IsSubsequenceOf(segs[order[i]], segs[order[j]]);
      if multiset(a) < multiset(b) {
        SmallerMultiset(a, b);
      }
    }
  }

  predicate Inside(inner: seq<nat>, outer: seq<nat>) {
    |inner| < |outer| && Includes(outer, inner)
  }

  lemma InsideTransitive(a: seq<nat>, b: seq<nat>, c: seq<nat>)
    requires Inside(c, b) && Inside(b, a)
    ensures Inside(c, a)
  {
    IncludesTransitive(a, b, c);
  }

  /** The indices in `o` of the recognised containers of list `i`. */
  ghost function Around(lists: seq<seq<nat>>, o: seq<nat>, i: nat): (r: seq<nat>)
    requires i < |lists| && forall k | 0 <= k < |o| :: o[k] < |lists|
    ensures forall k | 0 <= k < |r| :: r[k] in o && r[k] < |lists| && Inside(lists[i], lists[r[k]])
    decreases |o|
  {
    if o == [] then []
    else
      var n := |o| - 1;
      Around(lists, o[..n], i) + if Inside(lists[i], lists[o[n]]) then [o[n]] else []
  }

  ghost function Outside(lists: seq<seq<nat>>, o: seq<nat>, i: nat): (r: seq<nat>)
    requires i < |lists| && forall k | 0 <= k < |o| :: o[k] < |lists|
    ensures forall k | 0 <= k < |r| :: r[k] in o && r[k] < |lists| && !Inside(lists[i], lists[r[k]]) && r[k] != i
    decreases |o|
  {
    if o == [] then []
    else
      var n := |o| - 1;
      Outside(lists, o[..n], i) + if !Inside(lists[i], lists[o[n]]) && o[n] != i then [o[n]] else []
  }

  lemma {:induction false} PartsDistinct(lists: seq<seq<nat>>, o: seq<nat>, i: nat)
    requires i < |lists| && Distinct(o) && forall k | 0 <= k < |o| :: o[k] < |lists|
    ensures Distinct(Around(lists, o, i)) && Distinct(Outside(lists, o, i))
    decreases |o|
  {
    hide Inside;
    if o != [] {
      var n := |o| - 1;
      PartsDistinct(lists, o[..n], i);
      assert forall k | 0 <= k < n :: o[..n][k] != o[n];
    }
  }

  lemma {:induction false} PartsCount(lists: seq<seq<nat>>, o: seq<nat>, i: nat)
    requires i < |lists| && Distinct(o) && forall k | 0 <= k < |o| :: o[k] < |lists|
    ensures |Around(lists, o, i)| + |Outside(lists, o, i)| + (if i in o then 1 else 0) == |o|
    decreases |o|
  {
    assert !Inside(lists[i], lists[i]);
    hide Inside;
    if o != [] {
      var n := |o| - 1;
      PartsCount(lists, o[..n], i);
      assert o == o[..n] + [o[n]];
      assert o[n] !in o[..n] by {
        assert forall k | 0 <= k < n :: o[..n][k] != o[n];
      }
    }
  }

  lemma {:induction false} AroundInOrder(lists: seq<seq<nat>>, o: seq<nat>, i: nat)
    requires i < |lists| && forall k | 0 <= k < |o| :: o[k] < |lists|
    requires forall p, q | 0 <= p < q < |o| :: !Inside(lists[o[p]], lists[o[q]])
    ensures forall p, q | 0 <= p < q < |Around(lists, o, i)| ::
              !Inside(lists[Around(lists, o, i)[p]], lists[Around(lists, o, i)[q]])
    decreases |o|
  {
    hide Inside;
    if o != [] {
      var n := |o| - 1;
      AroundInOrder(lists, o[..n], i);
      var r := Around(lists, o[..n], i);
      forall p | 0 <= p < |r|
        ensures !Inside(lists[r[p]], lists[o[n]])
      {
        assert r[p] in o[..n];
      }
    }
  }

  /** The recognised containers of list `i`, the list itself, and then all others. */
  ghost function Adverse(lists: seq<seq<nat>>, o: seq<nat>, i: nat): (r: seq<nat>)
    requires IsPermutation(o, |lists|) && i < |lists|
    ensures IsPermutation(r, |lists|)
  {
    PermutationIsOnto(o, |lists|, i);
    PartsDistinct(lists, o, i);
    PartsCount(lists, o, i);
    Around(lists, o, i) + [i] + Outside(lists, o, i)
  }

  ghost function PlainSegments(lists: seq<seq<nat>>, o: seq<nat>): (r: seq<Segment>)
    requires IsPermutation(o, |lists|)
    ensures |r| == |lists| && forall k | 0 <= k < |r| :: r[k] == Segment(lists[o[k]], false, 0)
  {
    seq(|lists|, k requires 0 <= k < |lists| => Segment(lists[o[k]], false, 0))
  }

  /** In that arrangement no segment up to list `i` has a container behind it. */
  lemma AdverseDrains(lists: seq<seq<nat>>, o: seq<nat>, i: nat, p: nat, q: nat)
    requires IsPermutation(o, |lists|) && i < |lists|
    requires forall p, q | 0 <= p < q < |o| :: !Inside(lists[o[p]], lists[o[q]])
    requires p <= |Around(lists, o, i)| && p < q < |lists|
    ensures !Inside(lists[Adverse(lists, o, i)[p]], lists[Adverse(lists, o, i)[q]])
  {
    var u, r := Around(lists, o, i), Outside(lists, o, i);
    hide Includes, Around, Outside;
    AroundInOrder(lists, o, i);
    PartsCount(lists, o, i);
    PermutationIsOnto(o, |lists|, i);
    var x, y := Adverse(lists, o, i)[p], Adverse(lists, o, i)[q];
    if q > |u| {
      assert y == r[q - |u| - 1];
      if p < |u| && Inside(lists[x], lists[y]) {
        InsideTransitive(lists[y], lists[x], lists[i]);
      }
    }
  }

  lemma AdverseFacts(lists: seq<seq<nat>>, o: seq<nat>, i: nat, j: nat)
    requires IsPermutation(o, |lists|) && i < |lists| && j < |lists| && !Inside(lists[i], lists[j]) && i != j
    ensures var p, m := Adverse(lists, o, i), |Around(lists, o, i)|;
            m < |p| && p[m] == i && forall k | 0 <= k < m :: p[k] != j
  {
    hide Inside, Around, Outside;
  }

  /** Without offsets that arrangement is laid out as it stands, up to list `i`. */
  lemma AdverseOrder(lists: seq<seq<nat>>, o: seq<nat>, i: nat)
    requires IsPermutation(o, |lists|) && i < |lists|
    requires forall p, q | 0 <= p < q < |o| :: !Inside(lists[o[p]], lists[o[q]])
    ensures var order, m := OrderOf(PlainSegments(lists, Adverse(lists, o, i))), |Around(lists, o, i)| + 1;
            |order| >= m && order[..m] == Identity(m)
  {
    var segs, m := PlainSegments(lists, Adverse(lists, o, i)), |Around(lists, o, i)|;
    assert m < |lists| by {
      assert |Adverse(lists, o, i)| == |lists|;
    }
    hide Around, Adverse, IsPermutation, Includes;
    forall x, y | 0 <= x < m + 1 && x < y < |segs|
      ensures !IsSubsequenceOf(segs[x], segs[y])
    {
      AdverseDrains(lists, o, i, x, y);
    }
    OrderOfPlain(segs, m + 1);
  }

  lemma AnyOrder(lists: seq<seq<nat>>) returns (o: seq<nat>)
    ensures IsPermutation(o, |lists|) && forall p, q | 0 <= p < q < |o| :: !Inside(lists[o[p]], lists[o[q]])
  {
    var segs := PlainSegments(lists, Identity(|lists|));
    o := OrderOf(segs);
    forall p, q | 0 <= p < q < |o|
      ensures !Inside(lists[o[p]], lists[o[q]])
    {
      assert !IsSubsequenceOf(segs[o[p]], segs[o[q]]);
    }
  }

  /** A containment that is not recognised puts the container second in some arrangement. */
  lemma MissedComesSecond(lists: seq<seq<nat>>, i: nat, j: nat) returns (segs: seq<Segment>, p: seq<nat>)
    requires i < |lists| && j < |lists| && multiset(lists[i]) < multiset(lists[j]) && !Includes(lists[j], lists[i])
    ensures Arranges(segs, lists, p) && !ContainersFirst(segs, OrderOf(segs))
  {
    hide Around, Adverse, OrderOf, ContainersFirst;
    var o := AnyOrder(lists);
    p := Adverse(lists, o, i);
    segs := PlainSegments(lists, p);
    assert Arranges(segs, lists, p);
    AdverseFacts(lists, o, i, j);
    AdverseOrder(lists, o, i);
    SecondInOrder(lists, segs, p, |Around(lists, o, i)|, i, j);
  }

  lemma SecondInOrder(lists: seq<seq<nat>>, segs: seq<Segment>, p: seq<nat>, m: nat, i: nat, j: nat)
    requires Arranges(segs, lists, p) && m < |segs| && p[m] == i && j < |lists|
    requires multiset(lists[i]) < multiset(lists[j]) && forall k | 0 <= k < m :: p[k] != j
    requires |OrderOf(segs)| > m && OrderOf(segs)[..m + 1] == Identity(m + 1)
    ensures !ContainersFirst(segs, OrderOf(segs))
  {
    var order := OrderOf(segs);
    PermutationIsOnto(p, |lists|, j);
    var y :| 0 <= y < |p| && p[y] == j;
    PermutationIsOnto(order, |segs|, y);
    var q :| 0 <= q < |order| && order[q] == y;
    assert forall k | 0 <= k <= m :: order[k] == order[..m + 1][k] == k;
    assert order[m] == m && q > m;
    assert multiset(segs[order[m]].sections) < multiset(segs[order[q]].sections);
  }

  /** Containers come first in every arrangement of the segments exactly when the merge pass
      recognises every strict containment among their section lists. */
  lemma ContainersFirstIff(lists: seq<seq<nat>>)
    ensures (forall segs, p | Arranges(segs, lists, p) :: ContainersFirst(segs, OrderOf(segs)))
            <==> AllRecognised(lists)
  {
    if AllRecognised(lists) {
      forall segs, p | Arranges(segs, lists, p)
        ensures ContainersFirst(segs, OrderOf(segs))
      {
        RecognisedComeFirst(segs, lists, p);
      }
    } else {
      var i, j :| 0 <= i < |lists| && 0 <= j < |lists| && multiset(lists[i]) < multiset(lists[j])
                  && !Includes(lists[j], lists[i]);
      var segs, p := MissedComesSecond(lists, i, j);
    }
  }

  /** If the containing lists are sorted: exactly when the contained ones are too. */
  lemma ContainersFirstIffSorted(lists: seq<seq<nat>>)
    requires forall i, j | 0 <= i < |lists| && 0 <= j < |lists| && multiset(lists[i]) < multiset(lists[j]) ::
               Sorted(lists[j])
    ensures (forall segs, p | Arranges(segs, lists, p) :: ContainersFirst(segs, OrderOf(segs)))
            <==> forall i, j | 0 <= i < |lists| && 0 <= j < |lists| && multiset(lists[i]) < multiset(lists[j]) ::
                   Sorted(lists[i])
  {
    ContainersFirstIff(lists);
    hide Arranges, ContainersFirst, OrderOf, Sorted, Includes;
    forall i, j | 0 <= i < |lists| && 0 <= j < |lists| && multiset(lists[i]) < multiset(lists[j])
      ensures Includes(lists[j], lists[i]) <==> Sorted(lists[i])
    {
      PartRecognisedIff(lists[j], lists[i]);
    }
  }
}
