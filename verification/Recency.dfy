/** Recency: which keys of a history were touched last, and in which order. */
module Recency {
  import opened Permutations

  // ---------------------------------------------------------------- recency

  function Remove<K(==)>(s: seq<K>, k: K): (r: seq<K>)
    ensures forall x | x in r :: x in s && x != k
    ensures forall x | x in s && x != k :: x in r
    ensures |r| <= |s| && (k !in s ==> r == s)
  {
    if |s| == 0 then [] else if s[0] == k then Remove(s[1..], k) else [s[0]] + Remove(s[1..], k)
  }

  /** The distinct keys of a history, the most recently touched first. */
  function Recent<K(==)>(history: seq<K>): (r: seq<K>)
    ensures forall x | x in r :: x in history
    ensures forall x | x in history :: x in r
  {
    if |history| == 0 then []
    else
      var n := |history| - 1;
      [history[n]] + Remove(Recent(history[..n]), history[n])
  }

  function Take<K>(s: seq<K>, n: nat): (r: seq<K>) {
    if |s| <= n then s else s[..n]
  }

  lemma DistinctCons<K>(x: K, s: seq<K>)
    ensures Distinct([x] + s) <==> Distinct(s) && x !in s
  {
    var t := [x] + s;
    assert forall i | 0 <= i < |s| :: t[i + 1] == s[i];
    assert t[0] == x && |t| == |s| + 1;
  }

  lemma {:induction false} RemoveDistinct<K>(s: seq<K>, k: K)
    requires Distinct(s)
    ensures Distinct(Remove(s, k)) && |Remove(s, k)| == |s| - if k in s then 1 else 0
  {
    if |s| > 0 {
      assert s == [s[0]] + s[1..];
      DistinctCons(s[0], s[1..]);
      RemoveDistinct(s[1..], k);
      DistinctCons(s[0], Remove(s[1..], k));
      hide Distinct;
    }
  }

  lemma {:induction false} RemoveParts<K>(s: seq<K>, t: seq<K>, k: K)
    ensures Remove(s + t, k) == Remove(s, k) + Remove(t, k)
  {
    if |s| == 0 {
      assert s + t == t;
    } else {
      assert (s + t)[1..] == s[1..] + t;
      RemoveParts(s[1..], t, k);
    }
  }

  lemma {:induction false} RecentDistinct<K>(history: seq<K>)
    ensures Distinct(Recent(history))
  {
    if |history| > 0 {
      var n := |history| - 1;
      RecentDistinct(history[..n]);
      RemoveDistinct(Recent(history[..n]), history[n]);
    }
  }

  lemma TakeExactly<K>(s: seq<K>, t: seq<K>, n: nat)
    requires |s| == n || (|s| < n && |t| == 0)
    ensures Take(s + t, n) == s
  {
    assert |t| == 0 ==> s + t == s;
  }

  lemma Assoc<K>(a: seq<K>, b: seq<K>, c: seq<K>)
    ensures a + b + c == a + (b + c)
  {
  }

  lemma SplitAt<K>(r: seq<K>, n: nat)
    requires n <= |r|
    ensures r == r[..n] + r[n..]
  {
  }

  lemma TouchHeld<K>(r: seq<K>, k: K, n: nat)
    requires Distinct(r) && n > 0 && k in Take(r, n)
    ensures Take([k] + Remove(r, k), n) == [k] + Remove(Take(r, n), k)
  {
    var m := if |r| <= n then |r| else n;
    SplitAt(r, m);
    RemoveParts(r[..m], r[m..], k);
    RemoveDistinct(r[..m], k);
    assert r[..m] == Take(r, n);
    hide Distinct, Take, Remove;
    Assoc([k], Remove(r[..m], k), Remove(r[m..], k));
    TakeExactly([k] + Remove(r[..m], k), Remove(r[m..], k), n);
  }

  lemma TouchNew<K>(r: seq<K>, k: K, n: nat)
    requires n > 0 && k !in Take(r, n)
    ensures Take([k] + Remove(r, k), n) == [k] + Take(r, n - 1)
  {
    if |r| < n {
      TakeExactly([k] + r, [], n);
    } else {
      NewBeyond(r, k, n);
      SplitAt(r, n - 1);
      RemoveParts(r[..n - 1], r[n - 1..], k);
      hide Remove;
      Assoc([k], r[..n - 1], Remove(r[n - 1..], k));
      TakeExactly([k] + r[..n - 1], Remove(r[n - 1..], k), n);
    }
  }

  lemma NewBeyond<K>(r: seq<K>, k: K, n: nat)
    requires 0 < n <= |r| && k !in Take(r, n)
    ensures k !in r[..n - 1]
  {
    assert forall i | 0 <= i < n - 1 :: r[..n - 1][i] == Take(r, n)[i];
  }

  /** Everything touched after the last touch of `k`, and nothing else, comes before it. */
  lemma {:induction false} RecentSplit<K>(a: seq<K>, k: K, b: seq<K>) returns (s: seq<K>, t: seq<K>)
    requires k !in b
    ensures Recent(a + [k] + b) == s + [k] + t
    ensures (forall x | x in s :: x in b) && (forall x | x in b :: x in s) && k !in t
    decreases |b|
  {
    hide Recent;
    if |b| == 0 {
      s, t := [], Remove(Recent(a), k);
      RecentEnd(a, k);
      assert a + [k] + b == a + [k] && s + [k] + t == [k] + t;
    } else {
      hide Remove;
      var n := |b| - 1;
      var x := b[n];
      var s', t' := RecentSplit(a, k, b[..n]);
      RecentEnd(a + [k] + b[..n], x);
      SplitAt(b, n);
      assert b == b[..n] + [x];
      Assoc(a + [k], b[..n], [x]);
      RemoveAround(s', k, t', x);
      s, t := [x] + Remove(s', x), Remove(t', x);
      Rejoin([x], Remove(s', x), [k], t);
    }
  }

  lemma RecentEnd<K>(h: seq<K>, k: K)
    ensures Recent(h + [k]) == [k] + Remove(Recent(h), k)
  {
    assert (h + [k])[..|h|] == h;
  }

  lemma RemoveAround<K>(s: seq<K>, k: K, t: seq<K>, x: K)
    requires x != k
    ensures Remove(s + [k] + t, x) == Remove(s, x) + [k] + Remove(t, x)
  {
    RemoveParts(s + [k], t, x);
    RemoveParts(s, [k], x);
    assert Remove([k], x) == [k];
  }

  lemma RemoveOnly<K>(a: seq<K>, k: K, b: seq<K>)
    requires k !in a && k !in b
    ensures Remove(a + [k] + b, k) == a + b
  {
    RemoveParts(a + [k], b, k);
    RemoveParts(a, [k], k);
    OneRemoved(k);
    hide Remove;
    assert a + [] == a;
  }

  lemma OneRemoved<K>(k: K)
    ensures Remove([k], k) == []
  {
    var none: seq<K> := [];
    assert [k][1..] == none;
  }

  lemma Rejoin<K>(a: seq<K>, b: seq<K>, c: seq<K>, d: seq<K>)
    ensures a + (b + c + d) == a + b + c + d
  {
  }

  /** The last position of a key in a history. */
  lemma LastTouch<K>(h: seq<K>, k: K) returns (p: nat)
    requires k in h
    ensures p < |h| && h[p] == k && k !in h[p + 1..]
  {
    p := |h| - 1;
    while h[p] != k
      invariant p < |h| && k !in h[p + 1..]
      invariant k in h[..p + 1]
      decreases p
    {
      assert h[p..] == [h[p]] + h[p + 1..];
      assert h[..p + 1] == h[..p] + [h[p]];
      p := p - 1;
    }
  }

  lemma HeldIffEarly<K>(s: seq<K>, k: K, t: seq<K>, n: nat)
    requires k !in s
    ensures k in Take(s + [k] + t, n) <==> |s| < n
  {
    var r := s + [k] + t;
    assert r[|s|] == k && forall i | 0 <= i < |s| :: r[i] == s[i];
    if |s| < n {
      assert Take(r, n)[|s|] == k;
    } else {
      assert Take(r, n) == r[..n] == s[..n];
    }
  }

  lemma DistinctPrefix<K>(s: seq<K>, t: seq<K>)
    requires Distinct(s + t)
    ensures Distinct(s)
  {
    assert forall i | 0 <= i < |s| :: s[i] == (s + t)[i];
  }

  /** Whether a key is held depends on how many distinct keys followed its last touch. */
  lemma HeldIffFewAfter<K>(h: seq<K>, k: K, p: nat, n: nat)
    requires p < |h| && h[p] == k && k !in h[p + 1..]
    ensures k in Take(Recent(h), n) <==> |Members(h[p + 1..])| < n
  {
    CutAt(h, p);
    var s, t := RecentSplit(h[..p], k, h[p + 1..]);
    RecentDistinct(h);
    hide Distinct, Take, Recent, Members;
    Assoc(s, [k], t);
    DistinctPrefix(s, [k] + t);
    DistinctCount(s);
    SameMembers(s, h[p + 1..]);
    assert k !in s;
    HeldIffEarly(s, k, t, n);
  }

  lemma SameMembers<K>(s: seq<K>, b: seq<K>)
    requires (forall x | x in s :: x in b) && (forall x | x in b :: x in s)
    ensures Members(s) == Members(b)
  {
  }

  lemma LaterTouch<K>(h: seq<K>, k: K, p: nat, q: nat)
    requires p < |h| && k !in h[p + 1..] && q < |h| && h[q] == k
    ensures q <= p
  {
    assert forall i | p < i < |h| :: h[i] == h[p + 1..][i - p - 1];
  }

  /** The hit rule of an LRU cache: a key is held exactly when fewer than `n` distinct keys have
      been touched since some touch of it. */
  lemma HitRule<K>(h: seq<K>, k: K, n: nat)
    ensures k in Take(Recent(h), n) <==> exists p :: 0 <= p < |h| && h[p] == k && |Members(h[p + 1..])| < n
  {
    hide Recent, Members, Take;
    if k in h {
      var p := LastTouch(h, k);
      HeldIffFewAfter(h, k, p, n);
      forall q | 0 <= q < |h| && h[q] == k
        ensures |Members(h[p + 1..])| <= |Members(h[q + 1..])|
      {
        LaterTouch(h, k, p, q);
        SuffixCount(h, q + 1, p + 1);
      }
    } else {
      assert k !in Recent(h);
      TakeMembers(Recent(h), n, k);
    }
  }

  lemma TakeMembers<K>(s: seq<K>, n: nat, k: K)
    requires k !in s
    ensures k !in Take(s, n)
  {
  }

  lemma SuffixCount<K>(h: seq<K>, i: nat, j: nat)
    requires i <= j <= |h|
    ensures |Members(h[j..])| <= |Members(h[i..])|
  {
    assert h[j..] == h[i..][j - i..];
    SubsetCount(Members(h[j..]), Members(h[i..]));
  }

  lemma TakeTake<K>(s: seq<K>, n: nat)
    requires n > 0
    ensures Take(Take(s, n), n - 1) == Take(s, n - 1)
  {
  }

  /** A cache of size `n` holds as many keys as it can. */
  lemma HeldCount<K>(h: seq<K>, n: nat)
    ensures |Take(Recent(h), n)| == if |Members(h)| <= n then |Members(h)| else n
  {
    RecentDistinct(h);
    DistinctCount(Recent(h));
    SameMembers(Recent(h), h);
  }
}
