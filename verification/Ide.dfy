/** Byte ranges over an ATA drive that reads and writes whole sectors. */
module Ide {
  import opened Division
  import opened Sectors

  const WORD32: nat := 0x1_0000_0000
  const ENXIO: int := 6
  const EINVAL: int := 22
  const DRIVE_NOT_FOUND: int := 1
  const SEEK_INVALID: int := 2

  /** Bytes that 32-bit sector numbers tell apart. */
  const WRAP: nat := 0x200_0000_0000

  /** Byte ranges that end below two tebibytes less a sector, where no 32-bit sector number wraps. No
      drive is longer than that. */
  predicate Addressable(offset: nat, bytes: nat) {
    offset + bytes <= (WORD32 - 1) * SECTOR
  }

  /** The 32-bit sector number of a byte offset. */
  function SectorOf(offset: nat): (r: nat)
    ensures r < WORD32
  {
    offset / SECTOR % WORD32
  }

  /** The byte offset that the code goes to. */
  function Wrapped(offset: nat): (r: nat)
    ensures r < WRAP && (offset < WRAP ==> r == offset)
  {
    SectorOf(offset) * SECTOR + offset % SECTOR
  }

  lemma WrappedIs(offset: nat)
    ensures Wrapped(offset) == offset % WRAP
  {
    var s := offset / SECTOR;
    var q := s / WORD32;
    assert s == q * WORD32 + SectorOf(offset);
    Remainder(offset, WRAP, q, Wrapped(offset));
  }

  lemma NextSector(lba: nat, from: nat, at: nat, k: nat)
    requires lba < WORD32 && from < SECTOR && IsPlace(lba * SECTOR + from, at, k, WRAP)
    ensures IsPlace((lba + 1) % WORD32 * SECTOR, at, k + (SECTOR - from), WRAP)
  {
    var q := (at + k) / WRAP;
    if lba + 1 < WORD32 {
      Remainder(at + k + (SECTOR - from), WRAP, q, (lba + 1) * SECTOR);
    } else {
      Remainder(at + k + (SECTOR - from), WRAP, q + 1, 0);
    }
  }

  /** No range check wraps: the range ends in time, or a check fails before it gets so far. */
  predicate NeverWraps(offset: nat, bytes: nat, size: nat) {
    || Addressable(Wrapped(offset), bytes)
    || (SectorOf(offset) + 255 < WORD32 && size < WORD32 - 1)
  }

  /** How many bytes `writeBytes` stores when it succeeds: aligned requests go through an 8-bit
      sector count. */
  function StoredBytes(offset: nat, bytes: nat): nat {
    if bytes % SECTOR == 0 && offset % SECTOR == 0 then bytes / SECTOR % 256 * SECTOR else bytes
  }

  /** Nothing is lost exactly for unaligned requests and those of fewer than 256 sectors. */
  lemma AllStoredIff(offset: nat, bytes: nat)
    ensures StoredBytes(offset, bytes) <= bytes
    ensures StoredBytes(offset, bytes) == bytes
            <==> bytes % SECTOR != 0 || offset % SECTOR != 0 || bytes / SECTOR <= 255
  {
  }

  /** The smallest aligned request that loses bytes loses all of them: 256 sectors are written as
      none, and a drive that reports success has stored nothing. */
  lemma AllBytesLost(before: seq<Byte>, after: seq<Byte>, data: seq<Byte>)
    requires |data| == 131072 && Stored(before, after, 0, data, StoredBytes(0, 131072))
    ensures 131072 / SECTOR == 256 && StoredBytes(0, 131072) == 0 && after == before
  {
  }

  /** Beyond what 32-bit sector numbers reach nothing can have been stored or fetched right. */
  lemma BeyondReach(before: seq<Byte>, after: seq<Byte>, offset: nat, data: seq<Byte>, buffer: seq<Byte>)
    requires |before| <= (WORD32 - 1) * SECTOR && |data| > 0 && !Addressable(offset, |data|)
    ensures !Stored(before, after, offset, data, |data|) && !Fetched(buffer, before, offset, |data|)
  {
  }

  /** What decides whether a write that reports success has done what was asked: nothing was asked;
      or the range is addressable, and what was cut off was on the drive already. */
  ghost predicate Right(before: seq<Byte>, offset: nat, data: seq<Byte>) {
    || data == []
    || (&& Addressable(offset, |data|) && offset + |data| <= |before|
        && var k := StoredBytes(offset, |data|);
           k <= |data| && before[offset + k..offset + |data|] == data[k..])
  }

  lemma RightIff(before: seq<Byte>, after: seq<Byte>, offset: nat, data: seq<Byte>)
    requires |before| <= (WORD32 - 1) * SECTOR && (data == [] ==> after == before)
    requires Addressable(offset, |data|) ==> Stored(before, after, offset, data, StoredBytes(offset, |data|))
    ensures Stored(before, after, offset, data, |data|) <==> Right(before, offset, data)
  {
    var k := StoredBytes(offset, |data|);
    if data != [] && Addressable(offset, |data|) && offset + |data| <= |before| {
      assert data[..|data|] == data;
      AllStoredIff(offset, |data|);
      assert k <= |data|;
      PartIsEnough(before, offset, data, k);
      assert k == 0 ==> Overwrite(before, offset, data[..k]) == before;
    }
  }

  /** The state of a write after the first `done` bytes, with sector `lba` next. `straight` stands for
      no range check wrapping; `at` is the wrapped offset. */
  ghost predicate Progress(before: seq<Byte>, now: seq<Byte>, offset: nat, at: nat, data: seq<Byte>, done: nat,
                           lba: nat, straight: bool) {
    && done <= |data| && WritesOnly(before, now, offset, data, WRAP)
    && (done < |data| ==> IsPlace(lba * SECTOR, offset, done, WRAP))
    && (straight ==> Stored(before, now, at, data, done))
    && (straight && done < |data| ==> lba * SECTOR == at + done && lba + 1 < WORD32)
  }

  /** `straight`, as the loop needs it. */
  predicate EndsInTime(at: nat, bytes: nat, size: nat) {
    at + bytes <= (WORD32 - 1) * SECTOR || size < WORD32 - 1
  }

  lemma FirstProgress(before: seq<Byte>, offset: nat, data: seq<Byte>, lba: nat, from: nat, done: nat, size: nat,
                      straight: bool)
    requires |before| == size * SECTOR && lba < size < WORD32 && from < SECTOR && done <= |data|
    requires lba == SectorOf(offset) && from == offset % SECTOR && (done == SECTOR - from || done == |data|)
    requires from + done <= SECTOR && (straight ==> EndsInTime(Wrapped(offset), |data|, size))
    ensures var now := Overwrite(before, lba * SECTOR + from, data[..done]);
            Progress(before, now, offset, Wrapped(offset), data, done, (lba + 1) % WORD32, straight)
  {
    var at := Wrapped(offset);
    WrappedIs(offset);
    WritesNothing(before, offset, data, WRAP);
    assert data[..done] == data[0..0 + done];
    assert at == lba * SECTOR + from && IsPlace(at, offset, 0, WRAP);
    hide WritesOnly, Stored, IsPlace, SectorOf, Wrapped;
    WritesMore(before, before, offset, data, WRAP, 0, done, at);
    StoreFirst(before, at, data, done);
    if done < |data| {
      NextSector(lba, from, offset, 0);
    }
  }

  lemma StartProgress(before: seq<Byte>, offset: nat, data: seq<Byte>, size: nat)
    requires offset % SECTOR == 0 && |data| % SECTOR != 0
    ensures Progress(before, before, offset, Wrapped(offset), data, 0, SectorOf(offset),
                     NeverWraps(offset, |data|, size))
  {
    WrappedIs(offset);
    WritesNothing(before, offset, data, WRAP);
    hide WritesOnly;
  }

  lemma SectorProgress(before: seq<Byte>, middle: seq<Byte>, now: seq<Byte>, offset: nat, at: nat, data: seq<Byte>,
                       done: nat, lba: nat, size: nat, straight: bool)
    requires Progress(before, middle, offset, at, data, done, lba, straight) && done + SECTOR <= |data|
    requires |before| == |middle| == size * SECTOR && size < WORD32 && lba < WORD32
    requires straight ==> EndsInTime(at, |data|, size)
    requires lba + 1 < WORD32 ==> lba < size
    requires now == if lba < size then Overwrite(middle, lba * SECTOR, data[done..done + SECTOR]) else middle
    ensures Progress(before, now, offset, at, data, done + SECTOR, (lba + 1) % WORD32, straight)
  {
    hide WritesOnly, Stored, IsPlace;
    if lba < size {
      WritesMore(before, middle, offset, data, WRAP, done, SECTOR, lba * SECTOR);
    }
    if straight {
      StoreMore(before, middle, at, data, done, SECTOR);
    }
    NextSector(lba, 0, offset, done);
  }

  lemma LastProgress(before: seq<Byte>, middle: seq<Byte>, offset: nat, at: nat, data: seq<Byte>, done: nat, lba: nat,
                     size: nat, straight: bool)
    requires Progress(before, middle, offset, at, data, done, lba, straight) && done < |data| < done + SECTOR
    requires |before| == |middle| == size * SECTOR && lba < size < WORD32
    ensures var now := Overwrite(middle, lba * SECTOR, data[done..]);
            WritesOnly(before, now, offset, data, WRAP) && (straight ==> Stored(before, now, at, data, |data|))
  {
    hide WritesOnly, Stored, IsPlace;
    assert data[done..] == data[done..done + (|data| - done)];
    WritesMore(before, middle, offset, data, WRAP, done, |data| - done, lba * SECTOR);
    if straight {
      StoreMore(before, middle, at, data, done, |data| - done);
    }
  }

  class Drive {
    /** `reserved`: the drive exists. */
    const present: bool
    /** Sectors on the drive. */
    const size: nat
    const disk: array<Byte>
    /** How often the drive has reported an error. */
    ghost var failures: nat

    ghost predicate Valid() {
      size < WORD32 && disk.Length == size * SECTOR
    }

    constructor (present: bool, size: nat, disk: array<Byte>)
      requires size < WORD32 && disk.Length == size * SECTOR
      ensures Valid() && this.present == present && this.size == size && this.disk == disk && failures == 0
    {
      this.present, this.size, this.disk, failures := present, size, disk, 0;
    }

    /** Port input of `n` sectors; the drive can report an error at any sector, and does for one
        that it does not have. */
    method AccessRead(lba: nat, n: nat, buffer: array<Byte>) returns (err: nat)
      requires Valid() && n * SECTOR <= buffer.Length && buffer != disk
      modifies `failures, buffer
      ensures failures == old(failures) + if err == 0 then 0 else 1
      ensures buffer[n * SECTOR..] == old(buffer[n * SECTOR..])
      ensures err == 0 && n > 0 ==> lba + n <= size && buffer[..n * SECTOR] == disk[lba * SECTOR..(lba + n) * SECTOR]
    {
      for i := 0 to n
        invariant buffer[n * SECTOR..] == old(buffer[n * SECTOR..])
        invariant (i > 0 ==> lba + i <= size) && failures == old(failures)
        invariant forall k | 0 <= k < i * SECTOR :: buffer[k] == disk[lba * SECTOR + k]
      {
        err := *;
        if lba + i >= size && err == 0 {
          err := 2;
        }
        if err != 0 {
          failures := failures + 1;
          return;
        }
        forall k | 0 <= k < SECTOR {
          buffer[i * SECTOR + k] := disk[(lba + i) * SECTOR + k];
        }
      }
      err := 0;
    }

    /** Port output of one sector; the drive drops one that it does not have. */
    method StoreSector(s: nat, data: seq<Byte>)
      requires Valid() && |data| == SECTOR
      modifies disk
      ensures disk[..] == if s < size then Overwrite(old(disk[..]), s * SECTOR, data) else old(disk[..])
    {
      if s < size {
        forall k | 0 <= k < SECTOR {
          disk[s * SECTOR + k] := data[k];
        }
      }
    }

    /** How many of `n` sectors from `lba` on the drive has. */
    function OnDrive(lba: nat, n: nat): (r: nat)
      ensures r <= n && (lba + n <= size ==> r == n) && (r > 0 ==> lba + r <= size)
    {
      if lba + n <= size then n else if lba < size then size - lba else 0
    }

    /** Port output of `n` sectors; nothing in it is checked, so it never reports an error. */
    method AccessWrite(lba: nat, n: nat, data: seq<Byte>) returns (err: nat)
      requires Valid() && n * SECTOR <= |data|
      modifies disk
      ensures err == 0
      ensures Stored(old(disk[..]), disk[..], lba * SECTOR, data[..n * SECTOR], OnDrive(lba, n) * SECTOR)
    {
      var request := data[..n * SECTOR];
      StoredNone(disk[..], lba * SECTOR, request);
      assert OnDrive(lba, 0) == 0;
      hide Stored, OnDrive, Overwrite;
      for i := 0 to n
        invariant Stored(old(disk[..]), disk[..], lba * SECTOR, request, OnDrive(lba, i) * SECTOR)
      {
        NextOutput(old(disk[..]), disk[..], lba, request, i);
        StoreSector(lba + i, request[i * SECTOR..(i + 1) * SECTOR]);
      }
      err := 0;
    }

    lemma NextOutput(before: seq<Byte>, middle: seq<Byte>, lba: nat, request: seq<Byte>, i: nat)
      requires |middle| == size * SECTOR && (i + 1) * SECTOR <= |request|
      requires Stored(before, middle, lba * SECTOR, request, OnDrive(lba, i) * SECTOR)
      ensures var next := request[i * SECTOR..(i + 1) * SECTOR];
              Stored(before, if lba + i < size then Overwrite(middle, (lba + i) * SECTOR, next) else middle,
                     lba * SECTOR, request, OnDrive(lba, i + 1) * SECTOR)
    {
      hide Stored, Overwrite;
      if lba + i < size {
        StoreMore(before, middle, lba * SECTOR, request, i * SECTOR, SECTOR);
      }
    }

    /** `readSectors`; the sum in the range check is a 32-bit one. */
    method ReadSectors(n: nat, lba: nat, buffer: array<Byte>) returns (status: int)
      requires Valid() && n < 256 && lba < WORD32 && n * SECTOR <= buffer.Length && buffer != disk
      modifies `failures, buffer
      ensures failures >= old(failures)
      ensures status == 0 <==> present && (lba + n) % WORD32 <= size && failures == old(failures)
      ensures buffer[n * SECTOR..] == old(buffer[n * SECTOR..])
      ensures status == 0 && n > 0 ==>
                lba + n <= size && buffer[..n * SECTOR] == disk[lba * SECTOR..(lba + n) * SECTOR]
    {
      if !present {
        return -ENXIO;
      }
      if (lba + n) % WORD32 > size {
        return -EINVAL;
      }
      var err: int := AccessRead(lba, n, buffer);
      return -err;
    }

    /** `writeSectors`. */
    method WriteSectors(n: nat, lba: nat, data: seq<Byte>) returns (status: int)
      requires Valid() && n < 256 && lba < WORD32 && n * SECTOR <= |data|
      modifies disk
      ensures status == 0 <==> present && (lba + n) % WORD32 <= size
      ensures status != 0 ==> disk[..] == old(disk[..])
      ensures status == 0 ==>
                Stored(old(disk[..]), disk[..], lba * SECTOR, data[..n * SECTOR], OnDrive(lba, n) * SECTOR)
    {
      hide Stored, OnDrive;
      if !present {
        return -DRIVE_NOT_FOUND;
      }
      if (lba + n) % WORD32 > size {
        return -SEEK_INVALID;
      }
      var err: int := AccessWrite(lba, n, data);
      return -err;
    }

    /** `readBytes`: on success the caller's buffer holds exactly the requested bytes of the disk, from
        the wrapped offset on; so it is what was asked for exactly if the range is addressable. */
    method ReadBytes(bytes: nat, offset: nat, buffer: array<Byte>) returns (status: int)
      requires Valid() && bytes <= buffer.Length && buffer != disk
      modifies `failures, buffer
      ensures status == 0 ==> failures == old(failures)
      ensures present && offset + bytes <= size * SECTOR && failures == old(failures) ==> status == 0
      ensures buffer[bytes..] == old(buffer[bytes..])
      ensures status == 0 ==> Fetched(buffer[..], disk[..], Wrapped(offset), bytes)
      ensures status == 0 ==>
                (Fetched(buffer[..], disk[..], offset, bytes) <==> bytes == 0 || Addressable(offset, bytes))
    {
      WrappedIs(offset);
      hide Fetched;
      ghost var at := Wrapped(offset);
      assert at == SectorOf(offset) * SECTOR + offset % SECTOR;
      assert offset + bytes <= size * SECTOR && bytes > 0 ==> at == offset;
      hide SectorOf, Wrapped;
      status := ReadFrom(SectorOf(offset), offset % SECTOR, bytes, buffer, at);
      if status == 0 {
        FetchedIff(buffer[..], disk[..], offset, bytes);
      }
    }

    /** The loop of `readBytes`. */
    method ReadFrom(lba0: nat, from0: nat, bytes: nat, buffer: array<Byte>, ghost at: nat) returns (status: int)
      requires Valid() && bytes <= buffer.Length && buffer != disk
      requires lba0 < WORD32 && from0 < SECTOR && at == lba0 * SECTOR + from0
      modifies `failures, buffer
      ensures status == 0 ==> failures == old(failures) && Fetched(buffer[..], disk[..], at, bytes)
      ensures present && bytes > 0 && at + bytes <= size * SECTOR && failures == old(failures) ==> status == 0
      ensures bytes == 0 ==> status == 0
      ensures buffer[bytes..] == old(buffer[bytes..])
    {
      var total: nat, rest: nat := 0, bytes;
      var lba: nat, from: nat := lba0, from0;
      var readBuffer := new Byte[SECTOR];
      status := 0;
      FetchNone(buffer[..], disk[..], at);
      hide Fetched;
      while 0 < rest
        invariant total + rest == bytes && from < SECTOR && lba < WORD32 && status == 0 && failures == old(failures)
        invariant rest > 0 ==> lba * SECTOR + from == at + total
        invariant Fetched(buffer[..], disk[..], at, total)
        invariant buffer[bytes..] == old(buffer[bytes..])
      {
        var toCopy := if SECTOR - from < rest then SECTOR - from else rest;
        ghost var filled := buffer[..];
        if at + bytes <= size * SECTOR {
          OnTheDrive(lba, at + total, at + bytes);
        }
        status := ReadPart(lba, from, toCopy, total, buffer, readBuffer, at);
        if status != 0 {
          return;
        }
        SuffixKept(filled, buffer[..], total + toCopy, bytes);
        NextPart(lba, from, at, total, toCopy, rest);
        total, rest := total + toCopy, rest - toCopy;
        from, lba := 0, (lba + 1) % WORD32;
      }
    }

    lemma NextPart(lba: nat, from: nat, at: nat, total: nat, toCopy: nat, rest: nat)
      requires Valid() && lba < size && lba * SECTOR + from == at + total && from < SECTOR
      requires toCopy == if SECTOR - from < rest then SECTOR - from else rest
      ensures (lba + 1) % WORD32 == lba + 1 && (toCopy < rest ==> (lba + 1) * SECTOR == at + total + toCopy)
    {
    }

    /** One sector of `readBytes`, and the copy of the part that is wanted. */
    method ReadPart(lba: nat, from: nat, toCopy: nat, total: nat, buffer: array<Byte>, readBuffer: array<Byte>,
                    ghost at: nat)
      returns (status: int)
      requires Valid() && lba < WORD32 && from + toCopy <= SECTOR && toCopy > 0 && total + toCopy <= buffer.Length
      requires readBuffer.Length == SECTOR && buffer != disk && readBuffer != disk && readBuffer != buffer
      requires lba * SECTOR + from == at + total && Fetched(buffer[..], disk[..], at, total)
      modifies `failures, buffer, readBuffer
      ensures failures >= old(failures)
      ensures status == 0 <==> present && (lba + 1) % WORD32 <= size && failures == old(failures)
      ensures status != 0 ==> buffer[..] == old(buffer[..])
      ensures buffer[total + toCopy..] == old(buffer[total + toCopy..])
      ensures status == 0 ==> lba < size && Fetched(buffer[..], disk[..], at, total + toCopy)
    {
      hide Fetched;
      status := ReadSectors(1, lba, readBuffer);
      if status == 0 {
        assert readBuffer[..] == readBuffer[..1 * SECTOR];
        CopyPart(buffer, total, readBuffer, from, toCopy, at, lba, disk[..]);
      }
    }

    lemma FetchedIff(buffer: seq<Byte>, d: seq<Byte>, offset: nat, bytes: nat)
      requires |d| <= (WORD32 - 1) * SECTOR && Fetched(buffer, d, Wrapped(offset), bytes)
      ensures Fetched(buffer, d, offset, bytes) <==> bytes == 0 || Addressable(offset, bytes)
    {
    }

    /** `writeBytes`. Whether or not a sector operation fails, the only bytes that change are those of
        the range modulo two tebibytes, and they get the data's bytes. Unless a range check wraps, it
        is a prefix of the data that is stored from the wrapped offset on, on success all that fits
        the sector count. Success means that the request was carried out exactly if `Right`. */
    method WriteBytes(offset: nat, data: seq<Byte>) returns (status: int, ghost stored: nat)
      requires Valid()
      modifies `failures, disk
      ensures status == 0 ==> failures == old(failures)
      ensures present && offset + |data| <= size * SECTOR && failures == old(failures) ==> status == 0
      ensures WritesOnly(old(disk[..]), disk[..], offset, data, WRAP)
      ensures NeverWraps(offset, |data|, size) ==>
                && Stored(old(disk[..]), disk[..], Wrapped(offset), data, stored)
                && (status == 0 ==> stored == StoredBytes(offset, |data|))
      ensures status == 0 ==>
                (Stored(old(disk[..]), disk[..], offset, data, |data|) <==> Right(old(disk[..]), offset, data))
      ensures offset % SECTOR == 0 && |data| % SECTOR == 0 ==>
                (status == 0 <==> present && (SectorOf(offset) + |data| / SECTOR % 256) % WORD32 <= size)
    {
      hide Stored, WritesOnly;
      ghost var before := disk[..];
      status, stored := WriteAt(offset, data);
      if status == 0 {
        if Addressable(offset, |data|) {
          SameOffset(offset, |data|, size);
        }
        if data == [] {
          NothingWritten(before, disk[..], offset);
        }
        hide NeverWraps, Addressable, Wrapped;
        RightIff(before, disk[..], offset, data);
      }
    }

    lemma SameOffset(offset: nat, bytes: nat, size: nat)
      requires Addressable(offset, bytes)
      ensures Wrapped(offset) == offset && NeverWraps(offset, bytes, size)
    {
    }

    lemma NothingWritten(before: seq<Byte>, after: seq<Byte>, offset: nat)
      requires WritesOnly(before, after, offset, [], WRAP)
      ensures after == before
    {
      assert forall i | 0 <= i < |before| :: !FromData(after[i], i, offset, [], WRAP);
    }

    /** The body of `writeBytes`. */
    method WriteAt(offset: nat, data: seq<Byte>) returns (status: int, ghost stored: nat)
      requires Valid()
      modifies `failures, disk
      ensures status == 0 ==> failures == old(failures)
      ensures present && offset + |data| <= size * SECTOR && failures == old(failures) ==> status == 0
      ensures WritesOnly(old(disk[..]), disk[..], offset, data, WRAP)
      ensures NeverWraps(offset, |data|, size) ==>
                && Stored(old(disk[..]), disk[..], Wrapped(offset), data, stored)
                && (status == 0 ==> stored == StoredBytes(offset, |data|))
      ensures offset % SECTOR == 0 && |data| % SECTOR == 0 ==>
                (status == 0 <==> present && (SectorOf(offset) + |data| / SECTOR % 256) % WORD32 <= size)
    {
      hide WritesOnly, Stored, NeverWraps, Wrapped, StoredBytes, SectorOf;
      if |data| % SECTOR == 0 && offset % SECTOR == 0 {
        InRange(offset, |data|);
        status, stored := WriteAligned(SectorOf(offset), data, offset);
      } else {
        AllStored(offset, |data|);
        status, stored := WriteParts(offset, data);
      }
    }

    /** The branch for anything but whole sectors. */
    method WriteParts(offset: nat, data: seq<Byte>) returns (status: int, ghost stored: nat)
      requires Valid() && (|data| % SECTOR != 0 || offset % SECTOR != 0)
      modifies `failures, disk
      ensures status == 0 ==> failures == old(failures)
      ensures present && offset + |data| <= size * SECTOR && failures == old(failures) ==> status == 0
      ensures WritesOnly(old(disk[..]), disk[..], offset, data, WRAP)
      ensures NeverWraps(offset, |data|, size) ==>
                && Stored(old(disk[..]), disk[..], Wrapped(offset), data, stored)
                && (status == 0 ==> stored == |data|)
    {
      hide Progress, Stored, WritesOnly, SectorOf, Wrapped, NeverWraps, StoredBytes, EndsInTime;
      var bytes := |data|;
      var lba: nat, from: nat := SectorOf(offset), offset % SECTOR;
      status, stored := 0, 0;
      ghost var before, at, straight := disk[..], Wrapped(offset), NeverWraps(offset, bytes, size);
      WritesNothing(before, offset, data, WRAP);
      StoredNone(before, at, data);
      StaysStraight(offset, bytes);
      var done := 0;
      if from != 0 {
        done := if SECTOR - from < bytes then SECTOR - from else bytes;
        status := PatchSector(lba, from, data[..done]);
        if status != 0 {
          return;
        }
        FirstProgress(before, offset, data, lba, from, done, size, straight);
        lba := (lba + 1) % WORD32;
      } else {
        StartProgress(before, offset, data, size);
      }
      status, stored := WriteRest(lba, offset, at, data, done, before, straight);
    }

    lemma StaysStraight(offset: nat, bytes: nat)
      requires Valid()
      ensures NeverWraps(offset, bytes, size) ==> EndsInTime(Wrapped(offset), bytes, size)
      ensures offset + bytes <= size * SECTOR && (bytes > 0 || offset % SECTOR > 0) ==>
                && NeverWraps(offset, bytes, size) && Wrapped(offset) == offset
                && (SectorOf(offset) + 1) % WORD32 <= size
    {
      assert offset + bytes <= size * SECTOR && (bytes > 0 || offset % SECTOR > 0) ==> offset / SECTOR < size;
    }

    lemma InRange(offset: nat, bytes: nat)
      requires Valid() && bytes % SECTOR == 0 && offset % SECTOR == 0
      ensures offset + bytes <= size * SECTOR ==> (SectorOf(offset) + bytes / SECTOR % 256) % WORD32 <= size
    {
    }

    lemma AllStored(offset: nat, bytes: nat)
      requires bytes % SECTOR != 0 || offset % SECTOR != 0
      ensures StoredBytes(offset, bytes) == bytes
    {
    }

    /** The branch for whole sectors. */
    method WriteAligned(lba: nat, data: seq<Byte>, ghost offset: nat) returns (status: int, ghost stored: nat)
      requires Valid() && |data| % SECTOR == 0 && offset % SECTOR == 0 && lba == SectorOf(offset)
      modifies disk
      ensures WritesOnly(old(disk[..]), disk[..], offset, data, WRAP)
      ensures NeverWraps(offset, |data|, size) ==>
                && Stored(old(disk[..]), disk[..], Wrapped(offset), data, stored)
                && (status == 0 ==> stored == StoredBytes(offset, |data|))
      ensures status == 0 <==> present && (lba + |data| / SECTOR % 256) % WORD32 <= size
    {
      var n: nat := |data| / SECTOR % 256;
      AllStoredIff(offset, |data|);
      ghost var before, at := disk[..], Wrapped(offset);
      WrappedIs(offset);
      WritesNothing(before, offset, data, WRAP);
      StoredNone(before, at, data);
      assert at == lba * SECTOR && IsPlace(at, offset, 0, WRAP);
      assert NeverWraps(offset, |data|, size) ==> lba + n < WORD32;
      hide SectorOf, Wrapped, NeverWraps, IsPlace, WritesOnly;
      status := WriteSectors(n, lba, data);
      stored := 0;
      if status == 0 {
        stored := OnDrive(lba, n) * SECTOR;
        StoredPartly(before, disk[..], at, data, n * SECTOR, stored);
        if stored > 0 {
          WritesMore(before, before, offset, data, WRAP, 0, stored, at);
          StoredIs(before, disk[..], at, data, stored);
        }
      }
    }

    /** The loop over the sectors after the first. */
    method WriteRest(lba0: nat, ghost offset: nat, ghost at: nat, data: seq<Byte>, done0: nat,
                     ghost before: seq<Byte>, ghost straight: bool)
      returns (status: int, ghost stored: nat)
      requires Valid() && lba0 < WORD32 && |before| == disk.Length
      requires Progress(before, disk[..], offset, at, data, done0, lba0, straight)
      requires straight ==> EndsInTime(at, |data|, size)
      modifies `failures, disk
      ensures status == 0 ==> failures == old(failures)
      ensures straight && present && at + |data| <= size * SECTOR && failures == old(failures) ==> status == 0
      ensures WritesOnly(before, disk[..], offset, data, WRAP)
      ensures straight ==> Stored(before, disk[..], at, data, stored)
      ensures straight && status == 0 ==> stored == |data|
    {
      ProgressMeans(before, disk[..], offset, at, data, done0, lba0, straight);
      ghost var fits := straight && at + |data| <= size * SECTOR;
      hide Progress, Stored, WritesOnly, EndsInTime;
      var lba: nat, done: nat := lba0, done0;
      status, stored := 0, done;
      while done < |data|
        invariant done <= |data| && stored == done && lba < WORD32 && status == 0 && failures == old(failures)
        invariant Progress(before, disk[..], offset, at, data, done, lba, straight)
      {
        ghost var middle := disk[..];
        ProgressMeans(before, middle, offset, at, data, done, lba, straight);
        if fits {
          OnTheDrive(lba, at + done, at + |data|);
        }
        if |data| - done < SECTOR {
          status := PatchSector(lba, 0, data[done..]);
          if status == 0 {
            LastProgress(before, middle, offset, at, data, done, lba, size, straight);
            stored := |data|;
          }
          return;
        }
        status := WriteOne(lba, data[done..done + SECTOR]);
        if status != 0 {
          return;
        }
        SectorProgress(before, middle, disk[..], offset, at, data, done, lba, size, straight);
        done := done + SECTOR;
        stored := done;
        lba := (lba + 1) % WORD32;
      }
      ProgressMeans(before, disk[..], offset, at, data, done, lba, straight);
    }

    lemma OnTheDrive(lba: nat, from: nat, to: nat)
      requires Valid() && lba * SECTOR <= from < to <= size * SECTOR
      ensures (lba + 1) % WORD32 <= size
    {
    }

    lemma ProgressMeans(before: seq<Byte>, now: seq<Byte>, offset: nat, at: nat, data: seq<Byte>, done: nat, lba: nat,
                        straight: bool)
      requires Progress(before, now, offset, at, data, done, lba, straight)
      ensures done <= |data| && WritesOnly(before, now, offset, data, WRAP)
      ensures straight ==> Stored(before, now, at, data, done) && (done < |data| ==> lba * SECTOR == at + done)
    {
    }

    /** One whole sector; the last sector number passes the range check and goes nowhere. */
    method WriteOne(lba: nat, data: seq<Byte>) returns (status: int)
      requires Valid() && lba < WORD32 && |data| == SECTOR
      modifies disk
      ensures status == 0 <==> present && (lba + 1) % WORD32 <= size
      ensures status != 0 ==> disk[..] == old(disk[..])
      ensures status == 0 ==> lba < size || lba + 1 == WORD32
      ensures status == 0 ==>
                disk[..] == if lba < size then Overwrite(old(disk[..]), lba * SECTOR, data) else old(disk[..])
    {
      hide Stored;
      status := WriteSectors(1, lba, data);
      assert data[..1 * SECTOR] == data;
      if status == 0 {
        if lba < size {
          StoredAll(old(disk[..]), disk[..], lba * SECTOR, data);
        } else {
          StoredNothing(old(disk[..]), disk[..], lba * SECTOR, data);
        }
      }
    }

    /** Read a sector, replace part of it, write it back. */
    method PatchSector(lba: nat, from: nat, data: seq<Byte>) returns (status: int)
      requires Valid() && lba < WORD32 && from + |data| <= SECTOR
      modifies `failures, disk
      ensures failures >= old(failures)
      ensures status == 0 <==> present && (lba + 1) % WORD32 <= size && failures == old(failures)
      ensures status != 0 ==> disk[..] == old(disk[..])
      ensures status == 0 ==> lba < size && disk[..] == Overwrite(old(disk[..]), lba * SECTOR + from, data)
    {
      hide Stored;
      var writeBuffer := new Byte[SECTOR](_ => 0);
      status := ReadSectors(1, lba, writeBuffer);
      if status != 0 {
        return;
      }
      assert writeBuffer[..] == writeBuffer[..1 * SECTOR] == disk[lba * SECTOR..(lba + 1) * SECTOR];
      var patched := Overwrite(writeBuffer[..], from, data);
      status := WriteSectors(1, lba, patched);
      if status == 0 {
        assert patched[..1 * SECTOR] == patched;
        StoredAll(old(disk[..]), disk[..], lba * SECTOR, patched);
        PatchedSector(old(disk[..]), lba, from, data);
      }
    }
  }

  /** A sector written two tebibytes from the start lands at the start, and the write reports success. */
  method WriteFarAway(drive: Drive, data: seq<Byte>) returns (status: int)
    requires drive.Valid() && drive.present && drive.size > 0 && |data| == SECTOR
    modifies drive`failures, drive.disk
    ensures status == 0 && drive.disk[..] == Overwrite(old(drive.disk[..]), 0, data)
    ensures !Stored(old(drive.disk[..]), drive.disk[..], 0x200_0000_0000, data, |data|)
  {
    ghost var stored;
    ghost var before := drive.disk[..];
    FarAway(drive.size);
    hide Stored, WritesOnly, NeverWraps, Wrapped, Right;
    status, stored := drive.WriteBytes(0x200_0000_0000, data);
    StoredAll(before, drive.disk[..], 0, data);
    BeyondReach(before, drive.disk[..], 0x200_0000_0000, data, []);
  }

  lemma FarAway(size: nat)
    requires size < WORD32
    ensures SectorOf(0x200_0000_0000) == 0 && Wrapped(0x200_0000_0000) == 0
    ensures NeverWraps(0x200_0000_0000, SECTOR, size) && !Addressable(0x200_0000_0000, SECTOR)
    ensures StoredBytes(0x200_0000_0000, SECTOR) == SECTOR
  {
  }
}
