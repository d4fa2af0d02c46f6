/** Byte ranges through an AHCI port: read in transfers of eight, two and one block, written block by block. */
module Ahci {
  import opened Sectors

  datatype Status = Success | DiskError | Hung

  /** Blocks needed for `count` bytes. */
  function Blocks(count: nat): nat {
    (count + SECTOR - 1) / SECTOR
  }

  /** A full transfer leaves that many blocks less to read. */
  lemma BlocksAfter(count: nat, n: nat)
    requires Blocks(count) >= n
    ensures count > n * SECTOR ==> Blocks(count - n * SECTOR) == Blocks(count) - n
    ensures count <= n * SECTOR ==> Blocks(count) == n
  {
  }

  class Port {
    const disk: array<Byte>
    /** `physicalBuffers[1]`. */
    const dma: array<Byte>
    /** How many transfers have failed. */
    ghost var failures: nat

    constructor (disk: array<Byte>, dma: array<Byte>)
      ensures this.disk == disk && this.dma == dma && failures == 0
    {
      this.disk, this.dma := disk, dma;
      failures := 0;
    }

    ghost predicate Valid() {
      disk != dma && dma.Length == 8 * SECTOR
    }

    /** One transfer of `n` blocks from the disk; it can fail, and does beyond the disk. */
    method Access(lba: nat, n: nat) returns (status: Status)
      requires Valid() && n <= 8
      modifies `failures, dma
      ensures failures == old(failures) + if status == Success then 0 else 1
      ensures status == Success ==>
                (lba + n) * SECTOR <= disk.Length && dma[..n * SECTOR] == disk[lba * SECTOR..(lba + n) * SECTOR]
    {
      status := *;
      if (lba + n) * SECTOR > disk.Length && status == Success {
        status := DiskError;
      }
      if status != Success {
        failures := failures + 1;
      } else {
        forall k | 0 <= k < n * SECTOR {
          dma[k] := disk[lba * SECTOR + k];
        }
      }
    }

    /** One turn of a transfer loop: fetch `chunk` blocks and copy what is still wanted. */
    method Transfer(lba: nat, chunk: nat, count: nat, buffer: array<Byte>, done: nat, ghost start: nat)
      returns (status: Status, size: nat)
      requires Valid() && 0 < chunk <= 8 && count > 0 && done + count <= buffer.Length
      requires buffer != disk && buffer != dma && lba * SECTOR == start * SECTOR + done
      requires Fetched(buffer[..], disk[..], start * SECTOR, done)
      modifies `failures, dma, buffer
      ensures failures == old(failures) + if status == Success then 0 else 1
      ensures size == if count < chunk * SECTOR then count else chunk * SECTOR
      ensures buffer[done + size..] == old(buffer[done + size..])
      ensures status == Success ==> Fetched(buffer[..], disk[..], start * SECTOR, done + size)
    {
      size := if count < chunk * SECTOR then count else chunk * SECTOR;
      status := Access(lba, chunk);
      if status != Success {
        status := DiskError;
        return;
      }
      ghost var block := dma[..];
      forall k | 0 <= k < size {
        buffer[done + k] := dma[k];
      }
      assert dma[..] == block && dma[..][..chunk * SECTOR] == dma[..chunk * SECTOR];
      CopiedRange(old(buffer[..]), buffer[..], disk[..], dma[..], lba, chunk, start, done, size);
    }

    /** A transfer loop: as long as `chunk` blocks are wanted, fetch that many. */
    method TransferAll(lba0: nat, chunk: nat, count0: nat, buffer: array<Byte>, done0: nat, ghost start: nat)
      returns (status: Status, lba: nat, count: nat, done: nat)
      requires Valid() && 0 < chunk <= 8 && done0 + count0 <= buffer.Length
      requires buffer != disk && buffer != dma && (count0 > 0 ==> lba0 * SECTOR == start * SECTOR + done0)
      requires Fetched(buffer[..], disk[..], start * SECTOR, done0)
      modifies `failures, dma, buffer
      ensures failures == old(failures) + if status == Success then 0 else 1
      ensures status == Success || status == DiskError
      ensures done + count == done0 + count0
      ensures status == Success ==>
                && Blocks(count) < chunk
                && (count > 0 ==> lba * SECTOR == start * SECTOR + done)
                && Fetched(buffer[..], disk[..], start * SECTOR, done)
      ensures buffer[done0 + count0..] == old(buffer[done0 + count0..])
    {
      hide Fetched;
      status, lba, count, done := Success, lba0, count0, done0;
      while chunk <= Blocks(count) && count > 0
        invariant done + count == done0 + count0 && status == Success && failures == old(failures)
        invariant count > 0 ==> lba * SECTOR == start * SECTOR + done
        invariant Fetched(buffer[..], disk[..], start * SECTOR, done)
        invariant buffer[done0 + count0..] == old(buffer[done0 + count0..])
        decreases count
      {
        var size;
        BlocksAfter(count, chunk);
        status, size := Transfer(lba, chunk, count, buffer, done, start);
        if status != Success {
          return DiskError, lba, count, done;
        }
        lba, count, done := lba + chunk, count - size, done + size;
      }
    }

    /** `read`: it succeeds exactly if every transfer does, and then the buffer holds exactly `count` bytes
        from block `lba` on. */
    method Read(lba: nat, count: nat, buffer: array<Byte>) returns (status: Status)
      requires Valid() && count <= buffer.Length && buffer != disk && buffer != dma
      modifies `failures, dma, buffer
      ensures buffer[count..] == old(buffer[count..])
      ensures status == Success ==> Fetched(buffer[..], disk[..], lba * SECTOR, count)
      ensures failures >= old(failures) && (status == Success <==> failures == old(failures))
    {
      var at, rest, done;
      status, at, rest, done := TransferAll(lba, 8, count, buffer, 0, lba);
      if status == Success {
        status, at, rest, done := TransferAll(at, 2, rest, buffer, done, lba);
      }
      if status == Success {
        status, at, rest, done := TransferAll(at, 1, rest, buffer, done, lba);
      }
    }

    /** `readBytes`: the same for any byte range. */
    method ReadBytes(count: nat, offset: nat, buffer: array<Byte>) returns (status: Status)
      requires Valid() && count <= buffer.Length && buffer != disk && buffer != dma
      modifies `failures, dma, buffer
      ensures buffer[count..] == old(buffer[count..])
      ensures status == Success ==> Fetched(buffer[..], disk[..], offset, count)
      ensures status == Success <==> failures == old(failures)
    {
      var total: nat, rest: nat := 0, count;
      var lba: nat, from: nat := offset / SECTOR, offset % SECTOR;
      var readBuffer := new Byte[SECTOR];
      FetchNone(buffer[..], disk[..], offset);
      assert lba * SECTOR + from == offset;
      while 0 < rest
        invariant total + rest == count && from < SECTOR
        invariant rest > 0 ==> lba * SECTOR + from == offset + total
        invariant Fetched(buffer[..], disk[..], offset, total) && failures == old(failures)
        invariant buffer[count..] == old(buffer[count..])
      {
        hide Fetched;
        status := Read(lba, SECTOR, readBuffer);
        if status != Success {
          return;
        }
        var toCopy := if SECTOR - from < rest then SECTOR - from else rest;
        FetchedSector(readBuffer[..], disk[..], lba);
        CopyPart(buffer, total, readBuffer, from, toCopy, offset, lba, disk[..]);
        total, rest, from, lba := total + toCopy, rest - toCopy, 0, lba + 1;
      }
      status := Success;
    }

    /** One transfer of a block to the disk; it can fail, and does beyond the disk. A transfer that fails may
        have stored the block or not. */
    method AccessWrite(lba: nat) returns (status: Status)
      requires Valid()
      modifies `failures, disk
      ensures failures == old(failures) + if status == Success then 0 else 1
      ensures status == Success ==>
                (lba + 1) * SECTOR <= disk.Length
                && disk[..] == Overwrite(old(disk[..]), lba * SECTOR, dma[..SECTOR])
      ensures SameBeyond(old(disk[..]), disk[..], lba * SECTOR, (lba + 1) * SECTOR)
    {
      status := *;
      var stored: bool := *;
      if (lba + 1) * SECTOR > disk.Length {
        if status == Success {
          status := DiskError;
        }
      } else if stored || status == Success {
        forall k | 0 <= k < SECTOR {
          disk[lba * SECTOR + k] := dma[k];
        }
      }
      if status != Success {
        failures := failures + 1;
      }
    }

    /** `write`, for whole blocks. */
    method Write(lba0: nat, data: seq<Byte>) returns (status: Status)
      requires Valid() && |data| % SECTOR == 0
      modifies `failures, dma, disk
      ensures failures >= old(failures) && (status == Success <==> failures == old(failures))
      ensures status == Success ==> Stored(old(disk[..]), disk[..], lba0 * SECTOR, data, |data|)
      ensures status == Success && |data| > 0 ==> lba0 * SECTOR + |data| <= disk.Length
      ensures SameBeyond(old(disk[..]), disk[..], lba0 * SECTOR, lba0 * SECTOR + |data|)
    {
      hide Stored;
      ghost var before := disk[..];
      var done: nat, lba := 0, lba0;
      StoredNone(before, lba0 * SECTOR, data);
      status := Success;
      while done < |data|
        invariant done <= |data| && done % SECTOR == 0 && lba * SECTOR == lba0 * SECTOR + done
        invariant failures == old(failures) && status == Success
        invariant Stored(before, disk[..], lba0 * SECTOR, data, done)
        invariant done > 0 ==> lba0 * SECTOR + done <= disk.Length
        invariant SameBeyond(before, disk[..], lba0 * SECTOR, lba0 * SECTOR + |data|)
      {
        ghost var middle := disk[..];
        forall k | 0 <= k < SECTOR {
          dma[k] := data[done + k];
        }
        assert dma[..SECTOR] == data[done..done + SECTOR];
        status := AccessWrite(lba);
        if status != Success {
          return;
        }
        assert disk[..] == Overwrite(middle, lba0 * SECTOR + done, data[done..done + SECTOR]);
        StoreMore(before, middle, lba0 * SECTOR, data, done, SECTOR);
        done, lba := done + SECTOR, lba + 1;
      }
    }

    /** Read a block into `writeBuffer`, replace part of it, write it back. */
    method Patch(lba: nat, from: nat, data: seq<Byte>, writeBuffer: array<Byte>) returns (status: Status)
      requires Valid() && from + |data| <= SECTOR == writeBuffer.Length && writeBuffer != disk && writeBuffer != dma
      modifies `failures, dma, disk, writeBuffer
      ensures failures >= old(failures) && (status == Success <==> failures == old(failures))
      ensures status == Success ==>
                && (lba + 1) * SECTOR <= disk.Length
                && disk[..] == Overwrite(old(disk[..]), lba * SECTOR + from, data)
                && writeBuffer[..] == Overwrite(SectorAt(old(disk[..]), lba), from, data)
      ensures SameBeyond(old(disk[..]), disk[..], lba * SECTOR, (lba + 1) * SECTOR)
    {
      ghost var before := disk[..];
      status := Read(lba, SECTOR, writeBuffer);
      if status != Success {
        return;
      }
      FetchedSector(writeBuffer[..], before, lba);
      ghost var sector := writeBuffer[..];
      forall k | 0 <= k < |data| {
        writeBuffer[from + k] := data[k];
      }
      assert writeBuffer[..] == Overwrite(sector, from, data);
      hide Stored;
      status := Write(lba, writeBuffer[..]);
      if status == Success {
        StoredAll(before, disk[..], lba * SECTOR, writeBuffer[..]);
        PatchedSector(before, lba, from, data);
      }
    }

    /** `writeBytes`: it succeeds exactly if every transfer does, which is the right result exactly if `Right`.
        Nothing outside the blocks of the range changes. */
    method WriteBytes(data: seq<Byte>, offset: nat) returns (status: Status)
      requires Valid()
      modifies `failures, dma, disk
      ensures status == Success <==> failures == old(failures)
      ensures status == Success && offset + |data| <= disk.Length ==>
                (Stored(old(disk[..]), disk[..], offset, data, |data|) <==> Right(old(disk[..]), offset, data))
      ensures SameOutside(old(disk[..]), disk[..], offset, |data|)
    {
      hide Stored, SameOutside, Kept, Right;
      ghost var before := disk[..];
      status := WriteAt(data, offset);
      if status == Success && offset + |data| <= disk.Length {
        RightIff(before, disk[..], offset, data);
      }
    }

    /** The body of `writeBytes`: what it stores is `Kept`. */
    method WriteAt(data: seq<Byte>, offset: nat) returns (status: Status)
      requires Valid()
      modifies `failures, dma, disk
      ensures status == Success <==> failures == old(failures)
      ensures status == Success ==>
                var kept := Kept(old(disk[..]), offset, data);
                Stored(old(disk[..]), disk[..], offset, kept, |kept|)
      ensures SameOutside(old(disk[..]), disk[..], offset, |data|)
    {
      hide Stored, SameBeyond, SameOutside, Kept, Going, FirstPart, Overwrite;
      ghost var before := disk[..];
      var lba: nat, from: nat := offset / SECTOR, offset % SECTOR;
      ghost var kept := Kept(before, offset, data);
      if |data| % SECTOR == 0 && from == 0 {
        KeptAligned(before, offset, data);
        status := Write(lba, data[..|data| % WORD32]);
        RangeInside(before, disk[..], offset, |data|, |data| % WORD32);
        return;
      }
      status := Success;
      var writeBuffer := new Byte[SECTOR](_ => 0);
      var done := 0;
      if from != 0 {
        done := FirstPart(offset, |data|);
        status := Patch(lba, from, data[..done], writeBuffer);
        if status != Success {
          FirstInside(before, disk[..], offset, |data|);
          return;
        }
        assert lba * SECTOR + from == offset;
        GoingFirst(before, disk[..], offset, data);
        lba := lba + 1;
      } else {
        assert writeBuffer[..] == Zeros();
        GoingStart(before, offset, data);
      }
      KeptSize(before, offset, data);
      status := WriteRest(data, offset, done, lba, writeBuffer, before, kept);
    }

    /** The loop of `writeBytes`, whose full blocks come from `writeBuffer`. */
    method WriteRest(data: seq<Byte>, ghost offset: nat, done0: nat, lba0: nat, writeBuffer: array<Byte>,
                     ghost before: seq<Byte>, ghost kept: seq<Byte>)
      returns (status: Status)
      requires Valid() && writeBuffer.Length == SECTOR && writeBuffer != disk && writeBuffer != dma
      requires Going(before, disk[..], offset, data, kept, writeBuffer[..], done0, lba0)
      modifies `failures, dma, disk, writeBuffer
      ensures failures >= old(failures) && (status == Success <==> failures == old(failures))
      ensures status == Success ==> Stored(before, disk[..], offset, kept, |kept|)
      ensures SameOutside(before, disk[..], offset, |data|)
    {
      hide Stored, SameBeyond, SameOutside, Going;
      status := Success;
      var done, lba := done0, lba0;
      GoingMeans(before, disk[..], offset, data, kept, writeBuffer[..], done, lba);
      while done < |data|
        invariant failures == old(failures) && status == Success && writeBuffer[..] == old(writeBuffer[..])
        invariant done <= |data| && Going(before, disk[..], offset, data, kept, writeBuffer[..], done, lba)
      {
        ghost var middle, w := disk[..], writeBuffer[..];
        if |data| - done < SECTOR {
          status := Patch(lba, 0, data[done..], writeBuffer);
          GoingOutside(before, middle, disk[..], offset, data, kept, w, done, lba);
          if status == Success {
            GoingLast(before, middle, offset, data, kept, w, done, lba);
          }
          return;
        }
        status := Write(lba, writeBuffer[..]);
        GoingOutside(before, middle, disk[..], offset, data, kept, w, done, lba);
        if status != Success {
          return;
        }
        GoingNext(before, middle, disk[..], offset, data, kept, w, done, lba);
        done, lba := done + SECTOR, lba + 1;
      }
      GoingMeans(before, disk[..], offset, data, kept, writeBuffer[..], done, lba);
    }
  }

  // ---------------------------------------------------------------- what a write keeps of its data

  const WORD32: nat := 0x1_0000_0000

  function Zeros(): (r: seq<Byte>)
    ensures |r| == SECTOR
  {
    seq(SECTOR, _ => 0)
  }

  /** Block `lba` of the disk; zeros stand for one that it does not have. */
  function SectorAt(d: seq<Byte>, lba: nat): (r: seq<Byte>)
    ensures |r| == SECTOR
  {
    if (lba + 1) * SECTOR <= |d| then d[lba * SECTOR..(lba + 1) * SECTOR] else Zeros()
  }

  /** How many bytes of a write go to the block in which it starts, if not at that block's first byte. */
  function FirstPart(offset: nat, n: nat): (r: nat)
    ensures r <= n && (offset % SECTOR > 0 ==> offset % SECTOR + r <= SECTOR)
  {
    var from := offset % SECTOR;
    if from == 0 then 0 else if SECTOR - from < n then SECTOR - from else n
  }

  /** What is in the write buffer when the loop over the blocks starts. */
  function LeftOver(d: seq<Byte>, offset: nat, data: seq<Byte>): (r: seq<Byte>)
    ensures |r| == SECTOR
  {
    if offset % SECTOR == 0 then Zeros()
    else Overwrite(SectorAt(d, offset / SECTOR), offset % SECTOR, data[..FirstPart(offset, |data|)])
  }

  /** Every full block replaced by `w`. */
  function Repeated(rest: seq<Byte>, w: seq<Byte>): (r: seq<Byte>)
    requires |w| == SECTOR
    ensures |r| == |rest|
  {
    if |rest| < SECTOR then rest else w + Repeated(rest[SECTOR..], w)
  }

  /** The bytes that end up on the disk. */
  function Kept(d: seq<Byte>, offset: nat, data: seq<Byte>): (r: seq<Byte>)
    ensures |r| <= |data|
  {
    if |data| % SECTOR == 0 && offset % SECTOR == 0 then data[..|data| % WORD32]
    else
      var first := FirstPart(offset, |data|);
      data[..first] + Repeated(data[first..], LeftOver(d, offset, data))
  }

  /** Byte `i` is in the block of the range's first byte or in a later one that starts within the range. */
  predicate InBlocks(i: nat, offset: nat, n: nat) {
    offset / SECTOR <= i / SECTOR && (i / SECTOR == offset / SECTOR || i / SECTOR * SECTOR < offset + n)
  }

  ghost predicate SameBeyond(before: seq<Byte>, after: seq<Byte>, lo: nat, hi: nat) {
    |after| == |before| && forall i | 0 <= i < |before| && !(lo <= i < hi) :: after[i] == before[i]
  }

  /** Nothing outside those blocks has changed. */
  ghost predicate SameOutside(before: seq<Byte>, after: seq<Byte>, offset: nat, n: nat) {
    |after| == |before| && forall i | 0 <= i < |before| && !InBlocks(i, offset, n) :: after[i] == before[i]
  }

  lemma NothingChanged(d: seq<Byte>, offset: nat, n: nat)
    ensures SameOutside(d, d, offset, n)
  {
  }

  lemma RangeInside(before: seq<Byte>, after: seq<Byte>, offset: nat, n: nat, k: nat)
    requires k <= n && SameBeyond(before, after, offset, offset + k)
    ensures SameOutside(before, after, offset, n)
  {
  }

  lemma FirstInside(before: seq<Byte>, after: seq<Byte>, offset: nat, n: nat)
    requires SameBeyond(before, after, offset / SECTOR * SECTOR, (offset / SECTOR + 1) * SECTOR)
    ensures SameOutside(before, after, offset, n)
  {
  }

  lemma BlockInside(before: seq<Byte>, middle: seq<Byte>, after: seq<Byte>, offset: nat, n: nat, done: nat, lba: nat)
    requires done < n && lba * SECTOR == offset + done && SameOutside(before, middle, offset, n)
    requires SameBeyond(middle, after, lba * SECTOR, (lba + 1) * SECTOR)
    ensures SameOutside(before, after, offset, n)
  {
    forall i: nat | lba * SECTOR <= i < (lba + 1) * SECTOR
      ensures InBlocks(i, offset, n)
    {
      assert i / SECTOR == lba;
    }
    hide InBlocks;
  }

  /** The state of a write after the first `done` bytes, with block `lba` next. */
  ghost predicate Going(before: seq<Byte>, now: seq<Byte>, offset: nat, data: seq<Byte>, kept: seq<Byte>, w: seq<Byte>,
                        done: nat, lba: nat) {
    && |w| == SECTOR && done <= |data| == |kept| && (done < |data| ==> lba * SECTOR == offset + done)
    && kept[done..] == Repeated(data[done..], w)
    && Stored(before, now, offset, kept, done) && SameOutside(before, now, offset, |data|)
  }

  lemma GoingMeans(before: seq<Byte>, now: seq<Byte>, offset: nat, data: seq<Byte>, kept: seq<Byte>, w: seq<Byte>,
                   done: nat, lba: nat)
    requires Going(before, now, offset, data, kept, w, done, lba)
    ensures done <= |data| && SameOutside(before, now, offset, |data|)
    ensures done == |data| ==> Stored(before, now, offset, kept, |kept|)
  {
  }

  lemma GoingOutside(before: seq<Byte>, middle: seq<Byte>, after: seq<Byte>, offset: nat, data: seq<Byte>,
                     kept: seq<Byte>, w: seq<Byte>, done: nat, lba: nat)
    requires Going(before, middle, offset, data, kept, w, done, lba) && done < |data|
    requires SameBeyond(middle, after, lba * SECTOR, (lba + 1) * SECTOR)
    ensures SameOutside(before, after, offset, |data|)
  {
    hide Stored, Repeated, SameBeyond, SameOutside;
    BlockInside(before, middle, after, offset, |data|, done, lba);
  }

  lemma GoingNext(before: seq<Byte>, middle: seq<Byte>, after: seq<Byte>, offset: nat, data: seq<Byte>,
                  kept: seq<Byte>, w: seq<Byte>, done: nat, lba: nat)
    requires Going(before, middle, offset, data, kept, w, done, lba) && done + SECTOR <= |data|
    requires Stored(middle, after, lba * SECTOR, w, |w|) && lba * SECTOR + SECTOR <= |middle|
    requires SameOutside(before, after, offset, |data|)
    ensures Going(before, after, offset, data, kept, w, done + SECTOR, lba + 1)
  {
    RepeatedStep(data, kept, done, w);
    hide Stored, Repeated, SameOutside;
    StoredAll(middle, after, lba * SECTOR, w);
    StoreMore(before, middle, offset, kept, done, SECTOR);
  }

  /** The last part goes through a block that is read, patched and written. */
  lemma GoingLast(before: seq<Byte>, middle: seq<Byte>, offset: nat, data: seq<Byte>, kept: seq<Byte>, w: seq<Byte>,
                  done: nat, lba: nat)
    requires Going(before, middle, offset, data, kept, w, done, lba) && done < |data| < done + SECTOR
    requires (lba + 1) * SECTOR <= |middle|
    ensures Stored(before, Overwrite(middle, lba * SECTOR + 0, data[done..]), offset, kept, |kept|)
  {
    LastPart(data, kept, done, w);
    hide Stored, Repeated, SameOutside;
    StoreMore(before, middle, offset, kept, done, |data| - done);
  }

  lemma GoingStart(before: seq<Byte>, offset: nat, data: seq<Byte>)
    requires offset % SECTOR == 0 && |data| % SECTOR != 0
    ensures Going(before, before, offset, data, Kept(before, offset, data), Zeros(), 0, offset / SECTOR)
  {
    KeptApart(before, offset, data);
    StoredNone(before, offset, Kept(before, offset, data));
    NothingChanged(before, offset, |data|);
    hide Stored, SameOutside, Kept, Repeated;
  }

  lemma GoingFirst(before: seq<Byte>, after: seq<Byte>, offset: nat, data: seq<Byte>)
    requires offset % SECTOR != 0 && (offset / SECTOR + 1) * SECTOR <= |before|
    requires offset + FirstPart(offset, |data|) <= |before|
    requires after == Overwrite(before, offset, data[..FirstPart(offset, |data|)])
    requires SameBeyond(before, after, offset / SECTOR * SECTOR, (offset / SECTOR + 1) * SECTOR)
    ensures Going(before, after, offset, data, Kept(before, offset, data), LeftOver(before, offset, data),
                  FirstPart(offset, |data|), offset / SECTOR + 1)
  {
    var kept, done := Kept(before, offset, data), FirstPart(offset, |data|);
    KeptApart(before, offset, data);
    FirstInside(before, after, offset, |data|);
    hide Stored, SameOutside, SameBeyond, Kept, Repeated, LeftOver, Overwrite;
    StoreFirst(before, offset, kept, done);
    assert done < |data| ==> done == SECTOR - offset % SECTOR;
    hide FirstPart;
  }

  lemma LastPart(data: seq<Byte>, kept: seq<Byte>, done: nat, w: seq<Byte>)
    requires |kept| == |data| && done <= |data| < done + SECTOR && |w| == SECTOR
    requires kept[done..] == Repeated(data[done..], w)
    ensures kept[done..done + (|data| - done)] == data[done..] && done + (|data| - done) == |kept|
  {
  }

  lemma KeptAligned(d: seq<Byte>, offset: nat, data: seq<Byte>)
    requires |data| % SECTOR == 0 && offset % SECTOR == 0
    ensures Kept(d, offset, data) == data[..|data| % WORD32] && |data| % WORD32 % SECTOR == 0
    ensures offset / SECTOR * SECTOR == offset
  {
  }

  lemma KeptApart(d: seq<Byte>, offset: nat, data: seq<Byte>)
    requires |data| % SECTOR != 0 || offset % SECTOR != 0
    ensures var kept, first := Kept(d, offset, data), FirstPart(offset, |data|);
            && |kept| == |data| && kept[..first] == data[..first]
            && kept[first..] == Repeated(data[first..], LeftOver(d, offset, data))
  {
    hide Repeated, LeftOver, FirstPart;
  }

  lemma KeptSize(d: seq<Byte>, offset: nat, data: seq<Byte>)
    requires |data| % SECTOR != 0 || offset % SECTOR != 0
    ensures |Kept(d, offset, data)| == |data|
  {
  }

  lemma RepeatedStep(data: seq<Byte>, kept: seq<Byte>, done: nat, w: seq<Byte>)
    requires |kept| == |data| && done + SECTOR <= |data| && |w| == SECTOR && kept[done..] == Repeated(data[done..], w)
    ensures kept[done..done + SECTOR] == w && kept[done + SECTOR..] == Repeated(data[done + SECTOR..], w)
  {
    assert data[done..][SECTOR..] == data[done + SECTOR..];
    hide Repeated;
    assert kept[done..][..SECTOR] == kept[done..done + SECTOR] && kept[done..][SECTOR..] == kept[done + SECTOR..];
  }

  /** Every full block of `rest` is `w`. */
  ghost predicate AllBlocks(rest: seq<Byte>, w: seq<Byte>) {
    forall b: nat | (b + 1) * SECTOR <= |rest| :: rest[b * SECTOR..(b + 1) * SECTOR] == w
  }

  lemma {:induction false} RepeatedIff(rest: seq<Byte>, w: seq<Byte>)
    requires |w| == SECTOR
    ensures Repeated(rest, w) == rest <==> AllBlocks(rest, w)
    decreases |rest|
  {
    if |rest| >= SECTOR {
      RepeatedIff(rest[SECTOR..], w);
      BlocksSplit(rest, w);
      assert rest == rest[..SECTOR] + rest[SECTOR..];
    }
  }

  lemma BlocksSplit(rest: seq<Byte>, w: seq<Byte>)
    requires |rest| >= SECTOR
    ensures AllBlocks(rest, w) <==> rest[..SECTOR] == w && AllBlocks(rest[SECTOR..], w)
  {
    var more := rest[SECTOR..];
    if AllBlocks(rest, w) {
      assert rest[0 * SECTOR..(0 + 1) * SECTOR] == w;
      forall b: nat | (b + 1) * SECTOR <= |more|
        ensures more[b * SECTOR..(b + 1) * SECTOR] == w
      {
        assert rest[(b + 1) * SECTOR..(b + 1 + 1) * SECTOR] == w;
      }
    }
    if rest[..SECTOR] == w && AllBlocks(more, w) {
      forall b: nat | (b + 1) * SECTOR <= |rest|
        ensures rest[b * SECTOR..(b + 1) * SECTOR] == w
      {
        if b > 0 {
          assert more[(b - 1) * SECTOR..(b - 1 + 1) * SECTOR] == w;
        }
      }
    }
  }

  /** A write that succeeds has stored its data if and only if: aligned, it is shorter than two to the 32, or
      the bytes that are cut off were there already; otherwise, every full block after the first part equals
      what the write buffer holds, which is the block of the first part or zeros. */
  ghost predicate Right(d: seq<Byte>, offset: nat, data: seq<Byte>)
    requires offset + |data| <= |d|
  {
    if |data| % SECTOR == 0 && offset % SECTOR == 0 then
      var k := |data| % WORD32;
      k <= |data| && d[offset + k..offset + |data|] == data[k..]
    else AllBlocks(data[FirstPart(offset, |data|)..], LeftOver(d, offset, data))
  }

  lemma RightIff(before: seq<Byte>, after: seq<Byte>, offset: nat, data: seq<Byte>)
    requires offset + |data| <= |before|
    requires var kept := Kept(before, offset, data); Stored(before, after, offset, kept, |kept|)
    ensures Stored(before, after, offset, data, |data|) <==> Right(before, offset, data)
  {
    var kept := Kept(before, offset, data);
    StoredWhole(before, after, offset, kept);
    StoredWholeIff(before, after, offset, data);
    KeptRight(before, offset, data);
    hide Stored, Overwrite, Kept, Right;
  }

  lemma KeptRight(d: seq<Byte>, offset: nat, data: seq<Byte>)
    requires offset + |data| <= |d|
    ensures Overwrite(d, offset, Kept(d, offset, data)) == Overwrite(d, offset, data) <==> Right(d, offset, data)
  {
    if |data| % SECTOR == 0 && offset % SECTOR == 0 {
      hide Overwrite, AllBlocks, LeftOver;
      PartIsEnough(d, offset, data, |data| % WORD32);
    } else {
      KeptWhole(d, offset, data);
      hide Kept, AllBlocks, LeftOver, Overwrite, FirstPart;
      SameOverwrite(d, offset, Kept(d, offset, data), data);
    }
  }

  lemma KeptWhole(d: seq<Byte>, offset: nat, data: seq<Byte>)
    requires |data| % SECTOR != 0 || offset % SECTOR != 0
    ensures |Kept(d, offset, data)| == |data|
    ensures Kept(d, offset, data) == data
            <==> AllBlocks(data[FirstPart(offset, |data|)..], LeftOver(d, offset, data))
  {
    KeptApart(d, offset, data);
    var kept, first := Kept(d, offset, data), FirstPart(offset, |data|);
    RepeatedIff(data[first..], LeftOver(d, offset, data));
    hide Kept, Repeated, LeftOver, AllBlocks, FirstPart;
    BothParts(kept, data, first);
  }

  lemma BothParts(a: seq<Byte>, b: seq<Byte>, n: nat)
    requires |a| == |b| && n <= |a| && a[..n] == b[..n]
    ensures a == b <==> a[n..] == b[n..]
  {
    assert a == a[..n] + a[n..] && b == b[..n] + b[n..];
  }

  lemma StoredWhole(before: seq<Byte>, after: seq<Byte>, at: nat, data: seq<Byte>)
    requires at + |data| <= |before| && Stored(before, after, at, data, |data|)
    ensures after == Overwrite(before, at, data)
  {
    StoredAll(before, after, at, data);
  }

  lemma StoredWholeIff(before: seq<Byte>, after: seq<Byte>, at: nat, data: seq<Byte>)
    requires at + |data| <= |before|
    ensures Stored(before, after, at, data, |data|) <==> after == Overwrite(before, at, data)
  {
    assert data[..|data|] == data;
    assert data == [] ==> Overwrite(before, at, data) == before;
  }

  lemma SameOverwrite(d: seq<Byte>, at: nat, a: seq<Byte>, b: seq<Byte>)
    requires |a| == |b| && at + |a| <= |d|
    ensures Overwrite(d, at, a) == Overwrite(d, at, b) <==> a == b
  {
    assert Overwrite(d, at, a)[at..at + |a|] == a && Overwrite(d, at, b)[at..at + |b|] == b;
  }

  /** The smallest such write: of 513 bytes at the start of the disk the last alone is stored, behind zeros. */
  lemma BlockLost(d: seq<Byte>, data: seq<Byte>)
    requires |data| == 513 <= |d| && data[0] != 0
    ensures Kept(d, 0, data) == Zeros() + [data[512]] && !Right(d, 0, data)
  {
    assert data[0..] == data && data[..0] == [];
    assert Repeated(data, Zeros()) == Zeros() + Repeated(data[SECTOR..], Zeros());
    assert data[SECTOR..] == [data[512]];
    assert data[0 * SECTOR..(0 + 1) * SECTOR][0] == data[0];
  }

  lemma CopiedRange(before: seq<Byte>, after: seq<Byte>, d: seq<Byte>, dma: seq<Byte>, lba: nat, chunk: nat,
                    start: nat, done: nat, size: nat)
    requires Fetched(before, d, start * SECTOR, done) && lba * SECTOR == start * SECTOR + done
    requires 0 < size <= chunk * SECTOR <= |dma| && (lba + chunk) * SECTOR <= |d| && done + size <= |before|
    requires dma[..chunk * SECTOR] == d[lba * SECTOR..(lba + chunk) * SECTOR]
    requires |after| == |before| && forall k | 0 <= k < |before| ::
               after[k] == if done <= k < done + size then dma[k - done] else before[k]
    ensures Fetched(after, d, start * SECTOR, done + size)
  {
    forall k | 0 <= k < size
      ensures dma[k] == d[lba * SECTOR + k]
    {
      assert dma[..chunk * SECTOR][k] == dma[k];
    }
    assert after == Overwrite(before, done, d[start * SECTOR + done..start * SECTOR + done + size]);
    FetchMore(before, d, start * SECTOR, done, size);
  }
}
