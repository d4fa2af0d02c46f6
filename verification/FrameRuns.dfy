/** Whole runs of the kernel frame allocator, started from the bitmap the boot code leaves. */
module FrameRuns {
  import opened FrameBitmap

  /** One call: a frame handed out, a frame released by `mark(k, false)`, or no frame left. */
  datatype Event = Handed(k: nat) | Released(k: nat) | Refused

  ghost predicate Least(free: set<nat>, k: nat) {
    k in free && forall i | i in free :: k <= i
  }

  /** The call is one the allocator makes on this bitmap: it hands out the least free frame,
      refuses only when none is free, and callers release frames in use. */
  ghost predicate Legal(words: seq<nat>, hi: nat, e: Event)
    requires hi <= 64 * |words|
  {
    match e
    case Handed(k) => Least(FreeSet(words, 64, 0, hi), k)
    case Released(k) => k < 64 * |words| && Used(words, 64, k)
    case Refused => FreeSet(words, 64, 0, hi) == {}
  }

  function Apply(words: seq<nat>, e: Event): (r: seq<nat>)
    ensures |r| == |words|
  {
    match e
    case Handed(k) => if k < 64 * |words| then Marked(words, 64, k, true) else words
    case Released(k) => if k < 64 * |words| then Marked(words, 64, k, false) else words
    case Refused => words
  }

  /** The bitmap after a run. */
  function After(words: seq<nat>, run: seq<Event>): (r: seq<nat>)
    ensures |r| == |words|
  {
    if run == [] then words else Apply(After(words, run[..|run| - 1]), run[|run| - 1])
  }

  ghost predicate LegalRun(words: seq<nat>, hi: nat, run: seq<Event>)
    requires hi <= 64 * |words|
  {
    forall i | 0 <= i < |run| :: Legal(After(words, run[..i]), hi, run[i])
  }

  lemma OneStep(words: seq<nat>, hi: nat, e: Event)
    requires hi <= 64 * |words| && Legal(words, hi, e)
    ensures var before, after := UsedSet(words, 64), UsedSet(Apply(words, e), 64);
            match e
            case Handed(k) => k !in before && after == before + {k}
            case Released(k) => k in before && after == before - {k}
            case Refused => after == before
  {
    if !e.Refused? {
      MarkSets(words, 64, e.k, e.Handed?, 0, hi);
    }
  }

  lemma RunStep(words: seq<nat>, run: seq<Event>, i: nat)
    requires i < |run|
    ensures After(words, run[..i + 1]) == Apply(After(words, run[..i]), run[i])
  {
    assert run[..i + 1][..i] == run[..i];
  }

  /** A frame in use stays in use until it is released. */
  lemma {:induction false} StaysUsed(words: seq<nat>, hi: nat, run: seq<Event>, i: nat, j: nat, k: nat)
    requires hi <= 64 * |words| && LegalRun(words, hi, run) && i <= j <= |run|
    requires k in UsedSet(After(words, run[..i]), 64)
    requires forall m | i <= m < j :: run[m] != Released(k)
    ensures k in UsedSet(After(words, run[..j]), 64)
    decreases j - i
  {
    if i < j {
      OneStep(After(words, run[..i]), hi, run[i]);
      RunStep(words, run, i);
      StaysUsed(words, hi, run, i + 1, j, k);
    }
  }

  /** Between two issues of one frame it was released: outstanding frames are distinct. */
  lemma NoDoubleIssue(words: seq<nat>, hi: nat, run: seq<Event>, i: nat, j: nat)
    requires hi <= 64 * |words| && LegalRun(words, hi, run) && i < j < |run|
    requires run[i].Handed? && run[j] == run[i]
    ensures exists m :: i < m < j && run[m] == Released(run[i].k)
  {
    var k := run[i].k;
    OneStep(After(words, run[..i]), hi, run[i]);
    RunStep(words, run, i);
    if forall m | i < m < j :: run[m] != Released(k) {
      StaysUsed(words, hi, run, i + 1, j, k);
      OneStep(After(words, run[..j]), hi, run[j]);
      assert false;
    }
  }

  /** No frame the boot code allocated is issued again before someone releases it. */
  lemma BootFramesAreKept(boot: seq<nat>, hi: nat, run: seq<Event>, j: nat)
    requires |boot| % 2 == 0 && hi <= 32 * |boot|
    requires LegalRun(Widen(boot), hi, run) && j < |run| && run[j].Handed?
    requires run[j].k in UsedSet(boot, 32)
    ensures exists m :: 0 <= m < j && run[m] == Released(run[j].k)
  {
    var words, k := Widen(boot), run[j].k;
    WidenKeepsUse(boot);
    if forall m | 0 <= m < j :: run[m] != Released(k) {
      assert run[..0] == [];
      StaysUsed(words, hi, run, 0, j, k);
      OneStep(After(words, run[..j]), hi, run[j]);
      assert false;
    }
  }

  function HandedOut(run: seq<Event>): nat {
    if run == [] then 0 else HandedOut(run[..|run| - 1]) + (if run[|run| - 1].Handed? then 1 else 0)
  }

  function GivenBack(run: seq<Event>): nat {
    if run == [] then 0 else GivenBack(run[..|run| - 1]) + (if run[|run| - 1].Released? then 1 else 0)
  }

  /** The number of pages in use changes by frames issued less frames released. */
  lemma {:induction false} UsageIsConserved(words: seq<nat>, hi: nat, run: seq<Event>)
    requires hi <= 64 * |words| && LegalRun(words, hi, run)
    ensures |UsedSet(After(words, run), 64)| == |UsedSet(words, 64)| + HandedOut(run) - GivenBack(run)
  {
    if run != [] {
      var n := |run| - 1;
      var init := run[..n];
      forall i | 0 <= i < n
        ensures Legal(After(words, init[..i]), hi, init[i])
      {
        assert init[..i] == run[..i];
      }
      UsageIsConserved(words, hi, init);
      OneStep(After(words, init), hi, run[n]);
    }
  }
}
