/** Lists without repetition, and permutations of the numbers below a bound. */
module Permutations {
  predicate Distinct<K(==)>(s: seq<K>) {
    forall i, j | 0 <= i < j < |s| :: s[i] != s[j]
  }

  ghost function Members<K>(s: seq<K>): set<K> {
    set x | x in s
  }

  lemma {:induction false} DistinctCount<K>(s: seq<K>)
    requires Distinct(s)
    ensures |Members(s)| == |s|
  {
    if |s| > 0 {
      DistinctCount(s[1..]);
      assert Members(s) == Members(s[1..]) + {s[0]};
    }
  }

  lemma SubsetCount<K>(a: set<K>, b: set<K>)
    requires a <= b
    ensures |a| <= |b| && (|a| == |b| ==> a == b)
  {
    assert b == a + (b - a);
  }

  /** `order` lists every number below `n` exactly once. */
  ghost predicate IsPermutation(order: seq<nat>, n: nat) {
    |order| == n && Distinct(order) && forall i | 0 <= i < n :: order[i] < n
  }

  function Identity(n: nat): (r: seq<nat>)
    ensures |r| == n && forall i | 0 <= i < n :: r[i] == i
  {
    seq(n, i => i)
  }

  /** A permutation misses no number. */
  lemma PermutationIsOnto(order: seq<nat>, n: nat, s: nat)
    requires IsPermutation(order, n) && s < n
    ensures s in order
  {
    DistinctCount(order);
    DistinctCount(Identity(n));
    forall x | x in Members(order)
      ensures x in Members(Identity(n))
    {
      assert Identity(n)[x] == x;
    }
    SubsetCount(Members(order), Members(Identity(n)));
    assert Identity(n)[s] == s && s in Members(order);
  }

  /** The sum of the costs picked out by a list of indices. */
  function TotalOf(costs: seq<nat>, picks: seq<nat>): nat
    requires forall i | 0 <= i < |picks| :: picks[i] < |costs|
  {
    if |picks| == 0 then 0 else TotalOf(costs, picks[..|picks| - 1]) + costs[picks[|picks| - 1]]
  }

  lemma {:induction false} TotalParts(costs: seq<nat>, a: seq<nat>, b: seq<nat>)
    requires forall i | 0 <= i < |a| :: a[i] < |costs|
    requires forall i | 0 <= i < |b| :: b[i] < |costs|
    ensures TotalOf(costs, a + b) == TotalOf(costs, a) + TotalOf(costs, b)
    decreases |b|
  {
    if |b| == 0 {
      assert a + b == a;
    } else {
      var n := |b| - 1;
      TotalParts(costs, a, b[..n]);
      assert (a + b)[..|a + b| - 1] == a + b[..n];
    }
  }

  lemma TotalMiddle(costs: seq<nat>, a: seq<nat>, m: nat, b: seq<nat>)
    requires m < |costs|
    requires forall i | 0 <= i < |a| :: a[i] < |costs|
    requires forall i | 0 <= i < |b| :: b[i] < |costs|
    ensures TotalOf(costs, a + [m] + b) == TotalOf(costs, a + b) + costs[m]
  {
    TotalParts(costs, a, [m]);
    TotalParts(costs, a + [m], b);
    TotalParts(costs, a, b);
    assert [m][..0] == [];
  }

  lemma IdentityStep(n: nat)
    ensures Identity(n + 1) == Identity(n) + [n]
  {
  }

  /** The order of the picks does not matter. */
  lemma {:induction false} TotalPermutes(costs: seq<nat>, order: seq<nat>, n: nat)
    requires IsPermutation(order, n) && n <= |costs|
    ensures TotalOf(costs, order) == TotalOf(costs, Identity(n))
    decreases n
  {
    if n > 0 {
      PermutationIsOnto(order, n, n - 1);
      var p :| 0 <= p < n && order[p] == n - 1;
      var rest := WithoutLast(order, n, p);
      TotalPermutes(costs, rest, n - 1);
      CutAt(order, p);
      hide IsPermutation;
      TotalMiddle(costs, order[..p], n - 1, order[p + 1..]);
      IdentityStep(n - 1);
      assert Identity(n)[..n - 1] == Identity(n - 1);
    } else {
      assert order == [] && Identity(0) == [];
    }
  }

  lemma CutAt<K>(h: seq<K>, p: nat)
    requires p < |h|
    ensures h == h[..p] + [h[p]] + h[p + 1..]
  {
  }

  lemma WithoutLast(order: seq<nat>, n: nat, p: nat) returns (rest: seq<nat>)
    requires IsPermutation(order, n) && p < n && order[p] == n - 1
    ensures rest == order[..p] + order[p + 1..] && IsPermutation(rest, n - 1)
  {
    rest := order[..p] + order[p + 1..];
    forall i | 0 <= i < n - 1
      ensures rest[i] == order[if i < p then i else i + 1] && rest[i] < n - 1
    {
      assert order[if i < p then i else i + 1] != order[p];
    }
  }
}
