/** A disk as a flat sequence of bytes, read and written in 512-byte sectors. */
module Sectors {
  import opened Division

  type Byte = x: nat | x < 256

  const SECTOR: nat := 512

  function Overwrite(d: seq<Byte>, at: nat, data: seq<Byte>): (r: seq<Byte>)
    requires at + |data| <= |d|
    ensures |r| == |d|
    ensures forall i | 0 <= i < |d| :: r[i] == if at <= i < at + |data| then data[i - at] else d[i]
  {
    d[..at] + data + d[at + |data|..]
  }

  /** The first `k` bytes of the data have been stored, and nothing else has changed. */
  ghost predicate Stored(before: seq<Byte>, after: seq<Byte>, at: nat, data: seq<Byte>, k: nat) {
    && k <= |data|
    && (k == 0 ==> after == before)
    && (k > 0 ==> at + k <= |before| && after == Overwrite(before, at, data[..k]))
  }

  /** Storing the next bytes extends what has been stored. */
  lemma StoreMore(before: seq<Byte>, middle: seq<Byte>, at: nat, data: seq<Byte>, k: nat, n: nat)
    requires Stored(before, middle, at, data, k) && k + n <= |data| && n > 0 && at + k + n <= |middle|
    ensures Stored(before, Overwrite(middle, at + k, data[k..k + n]), at, data, k + n)
  {
    assert |middle| == |before|;
    assert Overwrite(middle, at + k, data[k..k + n]) == Overwrite(before, at, data[..k + n]);
  }

  lemma StoreFirst(before: seq<Byte>, at: nat, data: seq<Byte>, k: nat)
    requires k <= |data| && at + k <= |before|
    ensures Stored(before, Overwrite(before, at, data[..k]), at, data, k)
  {
    assert Overwrite(before, at, []) == before;
    assert k == 0 ==> data[..k] == [];
  }

  lemma StoredAll(before: seq<Byte>, after: seq<Byte>, at: nat, data: seq<Byte>)
    requires Stored(before, after, at, data, |data|) && at + |data| <= |before|
    ensures after == Overwrite(before, at, data)
  {
    assert data[..|data|] == data;
  }

  lemma StoredNone(d: seq<Byte>, at: nat, data: seq<Byte>)
    ensures Stored(d, d, at, data, 0)
  {
  }

  lemma StoredNothing(before: seq<Byte>, after: seq<Byte>, at: nat, data: seq<Byte>)
    requires Stored(before, after, at, data, 0)
    ensures after == before
  {
  }

  lemma StoredIs(before: seq<Byte>, after: seq<Byte>, at: nat, data: seq<Byte>, k: nat)
    requires Stored(before, after, at, data, k) && k > 0
    ensures at + k <= |before| && k <= |data| && after == Overwrite(before, at, data[0..0 + k])
  {
    assert data[0..0 + k] == data[..k];
  }

  /** A prefix of a prefix. */
  lemma StoredPartly(before: seq<Byte>, after: seq<Byte>, at: nat, data: seq<Byte>, n: nat, k: nat)
    requires n <= |data| && Stored(before, after, at, data[..n], k)
    ensures Stored(before, after, at, data, k)
  {
    assert k <= n && data[..n][..k] == data[..k];
  }

  /** A sector whose middle has been patched, written back, changes only the patched bytes. */
  lemma PatchedSector(d: seq<Byte>, lba: nat, from: nat, data: seq<Byte>)
    requires (lba + 1) * SECTOR <= |d| && from + |data| <= SECTOR
    ensures Overwrite(d, lba * SECTOR, Overwrite(d[lba * SECTOR..(lba + 1) * SECTOR], from, data))
            == Overwrite(d, lba * SECTOR + from, data)
  {
  }

  /** Reading back what was stored. */
  lemma ReadsBack(d: seq<Byte>, at: nat, data: seq<Byte>)
    requires at + |data| <= |d|
    ensures Overwrite(d, at, data)[at..at + |data|] == data
  {
  }

  /** Storing only the first `k` bytes is as good as storing all exactly when the rest was there. */
  lemma PartIsEnough(d: seq<Byte>, at: nat, data: seq<Byte>, k: nat)
    requires at + |data| <= |d| && k <= |data|
    ensures Overwrite(d, at, data[..k]) == Overwrite(d, at, data) <==> d[at + k..at + |data|] == data[k..]
  {
    var part, whole := Overwrite(d, at, data[..k]), Overwrite(d, at, data);
    if part == whole {
      forall j | at + k <= j < at + |data|
        ensures d[j] == data[j - at]
      {
        assert part[j] == whole[j];
      }
    }
    if d[at + k..at + |data|] == data[k..] {
      forall j | 0 <= j < |d|
        ensures part[j] == whole[j]
      {
        if at + k <= j < at + |data| {
          assert d[at + k..at + |data|][j - at - k] == data[k..][j - at - k];
        }
      }
    }
  }

  /** The first `k` bytes of the buffer are those of the disk from `at` on. */
  ghost predicate Fetched(buffer: seq<Byte>, d: seq<Byte>, at: nat, k: nat) {
    k > 0 ==> k <= |buffer| && at + k <= |d| && buffer[..k] == d[at..at + k]
  }

  lemma FetchNone(buffer: seq<Byte>, d: seq<Byte>, at: nat)
    ensures Fetched(buffer, d, at, 0)
  {
  }

  lemma SlicePart(d: seq<Byte>, at: nat, from: nat, n: nat)
    requires at + SECTOR <= |d| && from + n <= SECTOR
    ensures d[at..at + SECTOR][from..from + n] == d[at + from..at + from + n]
  {
    var part := d[at..at + SECTOR][from..from + n];
    forall j | at + from <= j < at + from + n
      ensures part[j - at - from] == d[j]
    {
    }
  }

  lemma FetchMore(buffer: seq<Byte>, d: seq<Byte>, at: nat, k: nat, n: nat)
    requires Fetched(buffer, d, at, k) && k + n <= |buffer| && at + k + n <= |d| && n > 0
    ensures Fetched(Overwrite(buffer, k, d[at + k..at + k + n]), d, at, k + n)
  {
    var more := Overwrite(buffer, k, d[at + k..at + k + n]);
    assert more[..k + n] == buffer[..k] + d[at + k..at + k + n];
  }

  /** What was stored whole is what is fetched. */
  lemma WriteThenRead(before: seq<Byte>, after: seq<Byte>, at: nat, data: seq<Byte>, buffer: seq<Byte>)
    requires Stored(before, after, at, data, |data|) && Fetched(buffer, after, at, |data|)
    ensures |data| <= |buffer| && buffer[..|data|] == data
  {
    if |data| > 0 {
      StoredAll(before, after, at, data);
      ReadsBack(before, at, data);
    }
  }

  /** Bytes outside the range are never touched. */
  lemma OutsideUntouched(before: seq<Byte>, after: seq<Byte>, at: nat, data: seq<Byte>, k: nat, i: nat)
    requires Stored(before, after, at, data, k) && i < |before| && !(at <= i < at + |data|)
    ensures |after| == |before| && after[i] == before[i]
  {
  }

  /** Every byte that has changed is a byte of the data, at its place modulo `wrap`. */
  ghost predicate WritesOnly(before: seq<Byte>, after: seq<Byte>, at: nat, data: seq<Byte>, wrap: nat) {
    && |after| == |before| && wrap > 0
    && forall i | 0 <= i < |before| && after[i] != before[i] :: FromData(after[i], i, at, data, wrap)
  }

  ghost predicate FromData(b: Byte, i: nat, at: nat, data: seq<Byte>, wrap: nat)
    requires wrap > 0
  {
    exists k: nat :: k < |data| && IsPlace(i, at, k, wrap) && data[k] == b
  }

  predicate IsPlace(i: nat, at: nat, k: nat, wrap: nat)
    requires wrap > 0
  {
    (at + k) % wrap == i
  }

  lemma WritesNothing(d: seq<Byte>, at: nat, data: seq<Byte>, wrap: nat)
    requires wrap > 0
    ensures WritesOnly(d, d, at, data, wrap)
  {
  }

  /** Writing the bytes `k` to `k + n` of the data, at a place that does not cross the wrap. */
  lemma WritesMore(before: seq<Byte>, middle: seq<Byte>, at: nat, data: seq<Byte>, wrap: nat, k: nat, n: nat, p: nat)
    requires WritesOnly(before, middle, at, data, wrap) && k + n <= |data| && p + n <= |before| <= wrap
    requires n > 0 ==> IsPlace(p, at, k, wrap)
    ensures |middle| == |before|
    ensures WritesOnly(before, Overwrite(middle, p, data[k..k + n]), at, data, wrap)
  {
    var after := Overwrite(middle, p, data[k..k + n]);
    forall i | 0 <= i < |before| && after[i] != before[i]
      ensures FromData(after[i], i, at, data, wrap)
    {
      if p <= i < p + n {
        PlaceMoves(p, at, k, wrap, i - p);
        assert after[i] == data[k + (i - p)];
      } else {
        assert after[i] == middle[i];
      }
    }
  }

  lemma PlaceMoves(p: nat, at: nat, k: nat, wrap: nat, n: nat)
    requires wrap > 0 && IsPlace(p, at, k, wrap) && p + n < wrap
    ensures IsPlace(p + n, at, k + n, wrap)
  {
    Remainder(at + k + n, wrap, (at + k) / wrap, p + n);
  }

  /** `memcpy` of part of the sector just read. */
  method CopyPart(buffer: array<Byte>, total: nat, sector: array<Byte>, from: nat, n: nat,
                  ghost offset: nat, ghost lba: nat, ghost d: seq<Byte>)
    requires total + n <= buffer.Length && from + n <= sector.Length == SECTOR && buffer != sector && n > 0
    requires Fetched(buffer[..], d, offset, total) && (lba + 1) * SECTOR <= |d|
    requires sector[..] == d[lba * SECTOR..(lba + 1) * SECTOR] && lba * SECTOR + from == offset + total
    modifies buffer
    ensures buffer[total + n..] == old(buffer[total + n..])
    ensures Fetched(buffer[..], d, offset, total + n)
  {
    ghost var before, part := buffer[..], sector[from..from + n];
    assert part == sector[..][from..from + n];
    SlicePart(d, lba * SECTOR, from, n);
    assert offset + total + n <= |d| && part == d[offset + total..offset + total + n];
    hide Fetched;
    FetchMore(before, d, offset, total, n);
    forall k | 0 <= k < n {
      buffer[total + k] := sector[from + k];
    }
    hide Overwrite;
    assert buffer[..] == Overwrite(before, total, part);
  }

  lemma SuffixKept(before: seq<Byte>, after: seq<Byte>, m: nat, k: nat)
    requires |after| == |before| && m <= k <= |before| && after[m..] == before[m..]
    ensures after[k..] == before[k..]
  {
    assert after[k..] == after[m..][k - m..] && before[k..] == before[m..][k - m..];
  }

  lemma FetchedSector(buffer: seq<Byte>, d: seq<Byte>, lba: nat)
    requires |buffer| == SECTOR && Fetched(buffer, d, lba * SECTOR, SECTOR)
    ensures (lba + 1) * SECTOR <= |d| && buffer == d[lba * SECTOR..(lba + 1) * SECTOR]
  {
    assert buffer[..SECTOR] == buffer;
  }
}
