/** Byte ranges over a disk of 512-byte sectors: `read_ata` and `write_ata`. */
module Ata {
  import opened CInt

  const SECTOR := 512

  type Bytes = seq<Byte>

  /** Bytes the code moves for a request: its size, except that a request starting inside a sector
      and ending before the sector does is carried on to the end of the sector. */
  function Moved(offset: nat, size: nat): nat {
    if offset % SECTOR != 0 && offset % SECTOR + size < SECTOR then SECTOR - offset % SECTOR else size
  }

  /** First sector of the whole-sector loop. */
  function StartBlock(offset: nat): nat { offset / SECTOR + (if offset % SECTOR != 0 then 1 else 0) }

  /** Whether there is a partial last sector to do. */
  predicate HasLast(offset: nat, size: nat, last: nat) { (offset + size) % SECTOR != 0 && StartBlock(offset) <= last }

  /** Last sector of the whole-sector loop, in unsigned 32-bit arithmetic: worked out from the size
      asked for, with the partial last sector taken off as the clamped size `c` says. */
  function LastBlock(offset: nat, size: nat, c: nat): nat {
    var last := ToUint32(offset + size - 1) / SECTOR;
    if HasLast(offset, c, last) then ToUint32(last - 1) else last
  }

  /** The loop touches only sectors inside the request exactly when the request is not one of fewer
      than 512 bytes at offset 0: there the last sector wraps below zero. */
  lemma LoopStaysInside(offset: nat, size: nat)
    requires offset + size < UINT32_SIZE
    ensures (StartBlock(offset) <= LastBlock(offset, size, size) ==> (LastBlock(offset, size, size) + 1) * SECTOR <= offset + size)
            <==> !(offset == 0 && size < SECTOR)
  {
  }

  /** Where the whole-sector loop starts and ends, in bytes. */
  function Lo(offset: nat): nat { StartBlock(offset) * SECTOR }

  function Hi(offset: nat, size: nat): nat {
    if StartBlock(offset) <= LastBlock(offset, size, size) then (LastBlock(offset, size, size) + 1) * SECTOR else Lo(offset)
  }

  /** The three parts of a transfer, the first partial sector, the whole sectors and the last partial
      sector, join up to the range moved. */
  lemma PartsJoin(offset: nat, size: nat)
    requires offset + size < UINT32_SIZE && !(offset == 0 && size < SECTOR)
    ensures var last := ToUint32(offset + size - 1) / SECTOR;
            var end := offset + Moved(offset, size);
            && offset <= Lo(offset) <= Hi(offset, size) <= end
            && (offset % SECTOR == 0 ==> Lo(offset) == offset)
            && (offset % SECTOR != 0 ==> Lo(offset) == offset + (SECTOR - offset % SECTOR))
            && (if (offset + size) % SECTOR != 0 && StartBlock(offset) <= last
                then end == offset + size && Hi(offset, size) == last * SECTOR == end - (offset + size) % SECTOR
                     && LastBlock(offset, size, size) == ToUint32(last - 1)
                else Hi(offset, size) == end && LastBlock(offset, size, size) == last)
  {
  }

  /** `d` with the bytes at `at` replaced by `s`. */
  function Splice(d: Bytes, at: nat, s: Bytes): Bytes
    requires at + |s| <= |d|
  {
    d[..at] + s + d[at + |s|..]
  }

  /** Inside [offset, lo) and [hi, end) the bytes are `data`'s, counted from `offset`; elsewhere they are as before. */
  ghost predicate Patched(before: Bytes, after: Bytes, data: Bytes, offset: nat, lo: int, hi: int, end: nat) {
    && |after| == |before| && end <= offset + |data|
    && lo <= offset + |data| && offset <= hi
    && forall p {:trigger after[p]} :: 0 <= p < |after| ==>
         after[p] == (if offset <= p < lo || hi <= p < end then data[p - offset] else before[p])
  }

  lemma PatchNothing(d: Bytes, data: Bytes, offset: nat, end: nat)
    requires offset <= end <= offset + |data|
    ensures Patched(d, d, data, offset, offset, end, end)
  {
  }

  /** Writing the next bytes of `data` after `lo`. */
  lemma PatchLow(before: Bytes, after: Bytes, data: Bytes, offset: nat, lo: nat, hi: nat, end: nat, lo': nat)
    requires Patched(before, after, data, offset, lo, hi, end) && offset <= lo <= lo' <= |after| && lo' <= offset + |data|
    ensures Patched(before, Splice(after, lo, data[lo - offset..lo' - offset]), data, offset, lo', hi, end)
  {
  }

  /** Writing the bytes of `data` that end at `end`. */
  lemma PatchHigh(before: Bytes, after: Bytes, data: Bytes, offset: nat, lo: nat, end: nat, hi: nat)
    requires Patched(before, after, data, offset, lo, end, end) && offset <= hi <= end <= |after|
    ensures Patched(before, Splice(after, hi, data[hi - offset..end - offset]), data, offset, lo, hi, end)
  {
  }

  lemma PatchAll(before: Bytes, after: Bytes, data: Bytes, offset: nat, lo: int, hi: int, end: nat)
    requires Patched(before, after, data, offset, lo, hi, end) && offset <= end <= |before| && hi <= lo <= end
    ensures after == Splice(before, offset, data[..end - offset])
  {
  }

  /** Rewriting a sector with some of its bytes replaced replaces those bytes of the disk. */
  lemma SectorSplice(d: Bytes, lba: nat, at: nat, s: Bytes)
    requires (lba + 1) * SECTOR <= |d| && at + |s| <= SECTOR
    ensures Splice(d, lba * SECTOR, Splice(d[lba * SECTOR..(lba + 1) * SECTOR], at, s)) == Splice(d, lba * SECTOR + at, s)
  {
  }

  /** How a transfer ends: done, or at the first sector that is not on the disk or whose bytes are not
      in the caller's buffer. */
  datatype Outcome = Done(size: nat) | OffDisk(lba: nat) | OffBuffer(lba: nat)

  /** The size after the clamp of `write_ata` on a disk of `n` bytes. */
  function Clamped(offset: nat, size: nat, n: nat): nat { if offset <= n < offset + size then n - offset else size }

  /** The requests served exactly: on the disk, not fewer than 512 bytes at offset 0, and with a
      buffer for every byte moved. */
  predicate Serves(offset: nat, size: nat, n: nat, length: nat) {
    offset + size <= n && !(offset == 0 && size < SECTOR) && Moved(offset, size) <= length
  }

  /** A request with bytes to move, on the disk, that starts on a sector boundary or reaches the end of
      its first sector, and is not one of fewer than 512 bytes at offset 0. */
  predicate Regular(offset: nat, size: nat, n: nat) {
    && 0 < size && offset + size <= n
    && (offset % 512 == 0 || offset % 512 + size >= 512) && (offset == 0 ==> size >= 512)
  }

  lemma RegularServed(offset: nat, size: nat, n: nat, length: nat)
    requires Regular(offset, size, n) && size <= length
    ensures Serves(offset, size, n, length) && Moved(offset, size) == size
  {
  }

  /** `after` is `before` with the bytes from `at` on replaced by the first `size` of `data`. */
  ghost predicate Replaced(before: Bytes, after: Bytes, at: nat, data: Bytes, size: nat) {
    && |after| == |before| && size <= |data|
    && forall p :: 0 <= p < |after| ==> after[p] == if at <= p < at + size then data[p - at] else before[p]
  }

  lemma SpliceReplaces(before: Bytes, at: nat, data: Bytes, size: nat)
    requires size <= |data| && at + size <= |before|
    ensures Replaced(before, Splice(before, at, data[..size]), at, data, size)
  {
  }

  function Min(a: nat, b: nat): nat { if a < b then a else b }

  function Max(a: nat, b: nat): nat { if a < b then b else a }

  class Device {
    var disk: Bytes

    constructor (disk: Bytes)
      requires |disk| % SECTOR == 0
      ensures this.disk == disk && Valid()
    {
      this.disk := disk;
    }

    predicate Valid()
      reads this
    {
      |disk| % SECTOR == 0
    }

    method ReadSector(lba: nat) returns (tmp: Bytes)
      requires (lba + 1) * SECTOR <= |disk|
      ensures tmp == disk[lba * SECTOR..(lba + 1) * SECTOR]
    {
      tmp := disk[lba * SECTOR..(lba + 1) * SECTOR];
    }

    method WriteSector(lba: nat, tmp: Bytes)
      requires (lba + 1) * SECTOR <= |disk| && |tmp| == SECTOR
      modifies this
      ensures disk == Splice(old(disk), lba * SECTOR, tmp)
    {
      disk := disk[..lba * SECTOR] + tmp + disk[(lba + 1) * SECTOR..];
    }

    /** The read-modify-write of a partial sector. */
    method WritePart(lba: nat, at: nat, s: Bytes)
      requires (lba + 1) * SECTOR <= |disk| && at + |s| <= SECTOR
      modifies this
      ensures disk == Splice(old(disk), lba * SECTOR + at, s)
    {
      SectorSplice(disk, lba, at, s);
      var tmp := ReadSector(lba);
      tmp := Splice(tmp, at, s);
      WriteSector(lba, tmp);
    }

    /** The whole-sector loop of `write_ata`, up to the first sector that is not on the disk or not in
        the buffer. */
    method WriteSectors(first: nat, last: nat, buffer: Bytes, x: nat, ghost d0: Bytes, ghost offset: nat, ghost hi: nat, ghost end: nat)
      returns (k: nat)
      requires Patched(d0, disk, buffer, offset, offset + x, hi, end) && offset + x == first * SECTOR
      modifies this
      ensures |disk| == old(|disk|) && k == Stop(first, last, |disk|, offset + |buffer|)
      ensures Patched(d0, disk, buffer, offset, k * SECTOR, hi, end)
    {
      hide Patched;
      k := first;
      var xOffset := x;
      while k <= last && (k + 1) * SECTOR <= |disk| && xOffset + SECTOR <= |buffer|
        invariant first <= k && offset + xOffset == k * SECTOR && |disk| == old(|disk|)
        invariant Patched(d0, disk, buffer, offset, k * SECTOR, hi, end)
        invariant Stop(first, last, |disk|, offset + |buffer|) == Stop(k, last, |disk|, offset + |buffer|)
        decreases last + 1 - k
      {
        PatchLow(d0, disk, buffer, offset, offset + xOffset, hi, end, offset + xOffset + SECTOR);
        WriteSector(k, buffer[xOffset..xOffset + SECTOR]);
        xOffset := xOffset + SECTOR;
        k := k + 1;
      }
    }

    /** The unaligned first sector of `write_ata`; `ok` if the buffer reaches the sector's end. */
    method WriteFirst(offset: nat, size: nat, buffer: Bytes) returns (ok: bool, startBlock: nat, xOffset: nat)
      requires Valid() && offset <= |disk| && size <= |buffer|
      modifies this
      ensures Valid() && |disk| == old(|disk|) && ok == (Moved(offset, size) <= |buffer|) && (!ok ==> disk == old(disk))
      ensures ok ==>
        var end := offset + Moved(offset, size);
        && startBlock == StartBlock(offset) && offset + xOffset == Lo(offset)
        && Patched(old(disk), disk, buffer, offset, Lo(offset), end, end)
    {
      hide Patched, Moved, Lo, StartBlock;
      startBlock, xOffset, ok := offset / SECTOR, 0, true;
      FirstPart(offset, size);
      FirstSector(offset, size, |disk|, |buffer|);
      ghost var end := offset + Moved(offset, size);
      if offset % SECTOR != 0 {
        var at := offset % SECTOR;
        var prefix := SECTOR - at;
        if prefix > |buffer| {
          ok := false;
          return;
        }
        PatchNothing(disk, buffer, offset, end);
        PatchLow(disk, disk, buffer, offset, offset, end, end, offset + prefix);
        WritePart(startBlock, at, buffer[..prefix]);
        xOffset := xOffset + prefix;
        startBlock := startBlock + 1;
      } else {
        PatchNothing(disk, buffer, offset, end);
      }
    }

    /** The partial last sector of `write_ata`, whose number was worked out before the clamp. */
    method WriteLast(offset: nat, size: nat, buffer: Bytes, startBlock: nat, last: nat, ghost d0: Bytes) returns (endBlock: nat)
      requires Valid() && offset + size <= |disk| && offset + size < UINT32_SIZE && Moved(offset, size) <= |buffer|
      requires startBlock == StartBlock(offset) && (HasLast(offset, size, last) ==> last == ToUint32(offset + size - 1) / SECTOR)
      requires var end := offset + Moved(offset, size); Patched(d0, disk, buffer, offset, Lo(offset), end, end)
      modifies this
      ensures Valid() && |disk| == old(|disk|) && endBlock == (if HasLast(offset, size, last) then ToUint32(last - 1) else last)
      ensures var end := offset + Moved(offset, size);
              Patched(d0, disk, buffer, offset, Lo(offset), if HasLast(offset, size, last) then last * SECTOR else end, end)
    {
      hide Patched, Moved, Lo, StartBlock, ToUint32;
      endBlock := last;
      if (offset + size) % SECTOR != 0 && startBlock <= endBlock {
        LastPart(offset, size);
        var postfix := (offset + size) % SECTOR;
        PatchHigh(d0, disk, buffer, offset, Lo(offset), offset + size, offset + size - postfix);
        WritePart(endBlock, 0, buffer[size - postfix..size]);
        endBlock := ToUint32(endBlock - 1);
      }
    }

    /** `write_ata`. A served request puts its bytes in place and changes no other byte. A request past
        the end of the disk fills the disk to its end and then goes for the sector behind it. One of
        fewer than 512 bytes at offset 0 runs through the buffer or the disk to its end. */
    method WriteAta(offset: nat, size: nat, buffer: Bytes) returns (r: Outcome)
      requires Valid() && offset + size < UINT32_SIZE && size <= |buffer| < UINT32_SIZE
      modifies this
      ensures Valid()
      ensures r.Done? <==> old(|disk|) < offset || Serves(offset, size, old(|disk|), |buffer|)
      ensures Regular(offset, size, old(|disk|)) ==> r == Done(size) && Replaced(old(disk), disk, offset, buffer, size)
      ensures old(|disk|) < offset ==> r == Done(0) && disk == old(disk)
      ensures Serves(offset, size, old(|disk|), |buffer|) ==>
        var n := Moved(offset, size);
        r == Done(size) && offset + n <= old(|disk|) && disk == Splice(old(disk), offset, buffer[..n])
      ensures offset <= old(|disk|) < offset + size ==>
        r == OffDisk(old(|disk|) / SECTOR) && disk == Splice(old(disk), offset, buffer[..old(|disk|) - offset])
      ensures offset + size <= old(|disk|) && Moved(offset, size) > |buffer| ==> r == OffBuffer(offset / SECTOR) && disk == old(disk)
      ensures offset == 0 && size < SECTOR && size <= old(|disk|) ==>
        var n := Max(size, Min(old(|disk|), |buffer|) / SECTOR * SECTOR);
        n <= old(|disk|) && n <= |buffer| && disk == Splice(old(disk), 0, buffer[..n])
    {
      hide Moved, StartBlock, Lo, Patched, ToUint32, HasLast, Stop, LastBlock, Splice, LastPartAt, Replaced;
      if offset > |disk| {
        return Done(0);
      }
      var n, length := |disk|, size;
      if offset + size > n {
        length := n - offset;
      }
      ghost var d0 := disk;
      if Regular(offset, size, n) { RegularServed(offset, size, n, |buffer|); }
      if offset + size > n { ClampEnds(offset, size, n); }
      if offset == 0 && size < SECTOR && size <= n { ShortEnds(size, n, |buffer|); }
      var ok, startBlock, xOffset := WriteFirst(offset, length, buffer);
      if !ok {
        return OffBuffer(offset / SECTOR);
      }
      var k, endBlock := WriteRest(offset, size, length, buffer, startBlock, xOffset, d0);
      if Serves(offset, size, n, |buffer|) {
        ServedDisk(d0, disk, buffer, offset, size, k);
        if Regular(offset, size, n) {
          SpliceReplaces(d0, offset, buffer, size);
        }
      } else if offset + size > n {
        ClampedDisk(d0, disk, buffer, offset, size, k);
      } else {
        ShortDisk(d0, disk, buffer, size, k);
      }
      r := if k > endBlock then Done(length) else if (k + 1) * SECTOR > |disk| then OffDisk(k) else OffBuffer(k);
    }

    /** The partial last sector, then the loop. */
    method WriteRest(offset: nat, size: nat, length: nat, buffer: Bytes, startBlock: nat, xOffset: nat, ghost d0: Bytes)
      returns (k: nat, endBlock: nat)
      requires Valid() && offset <= |disk| && offset + size < UINT32_SIZE && length == Clamped(offset, size, |disk|)
      requires Moved(offset, length) <= |buffer| && startBlock == StartBlock(offset) && offset + xOffset == Lo(offset)
      requires var end := offset + Moved(offset, length); Patched(d0, disk, buffer, offset, Lo(offset), end, end)
      modifies this
      ensures Valid() && |disk| == old(|disk|) && endBlock == LastBlock(offset, size, length)
      ensures k == Stop(startBlock, endBlock, |disk|, offset + |buffer|)
      ensures Patched(d0, disk, buffer, offset, k * SECTOR, LastPartAt(offset, size, length), offset + Moved(offset, length))
    {
      hide Moved, Patched, ToUint32, Stop;
      var last := ToUint32(offset + size - 1) / SECTOR;
      if offset + size > |disk| { ClampEnds(offset, size, |disk|); }
      endBlock := WriteLast(offset, length, buffer, startBlock, last, d0);
      k := WriteSectors(startBlock, endBlock, buffer, xOffset, d0, offset, LastPartAt(offset, size, length), offset + Moved(offset, length));
    }

    /** `memcpy` into a buffer. */
    static method CopyInto(buffer: array<Byte>, at: nat, data: Bytes)
      requires at + |data| <= buffer.Length
      modifies buffer
      ensures buffer[..] == Splice(old(buffer[..]), at, data)
    {
      ghost var b0 := buffer[..];
      for i := 0 to |data|
        invariant buffer[..at] == b0[..at] && buffer[at..at + i] == data[..i] && buffer[at + i..] == b0[at + i..]
      {
        buffer[at + i] := data[i];
      }
    }

    /** The disk from `offset` on. */
    ghost function From(offset: nat): Bytes
      reads this
    {
      if offset <= |disk| then disk[offset..] else []
    }

    /** The unaligned first sector of `read_ata`. */
    method ReadFirst(offset: nat, size: nat, buffer: array<Byte>) returns (stop: Outcome, startBlock: nat, xOffset: nat)
      requires Valid() && size <= buffer.Length
      modifies buffer
      ensures stop.Done? <==> offset % SECTOR == 0 || (offset < |disk| && Moved(offset, size) <= buffer.Length)
      ensures !stop.Done? ==> buffer[..] == old(buffer[..])
      ensures stop.Done? ==>
        var end := Min(Moved(offset, size), |From(offset)|);
        && startBlock == StartBlock(offset) && offset + xOffset == Lo(offset)
        && (xOffset == 0 || xOffset <= |From(offset)|) && Patched(old(buffer[..]), buffer[..], From(offset), 0, xOffset, end, end)
    {
      hide Patched, Moved, Lo, StartBlock, Splice, From;
      startBlock, xOffset, stop := offset / SECTOR, 0, Done(0);
      FirstPart(offset, size);
      FirstSector(offset, size, |disk|, buffer.Length);
      ghost var data := From(offset);
      ghost var end := Min(Moved(offset, size), |data|);
      PatchNothing(buffer[..], data, 0, end);
      if offset % SECTOR != 0 {
        var at := offset % SECTOR;
        var prefix := SECTOR - at;
        if (startBlock + 1) * SECTOR > |disk| {
          return OffDisk(startBlock), startBlock, xOffset;
        }
        if prefix > buffer.Length {
          return OffBuffer(startBlock), startBlock, xOffset;
        }
        FromSlice(offset, 0, prefix);
        PatchLow(buffer[..], buffer[..], data, 0, 0, end, end, prefix);
        var tmp := ReadSector(startBlock);
        SliceOfSector(disk, startBlock, at, prefix);
        CopyInto(buffer, 0, tmp[at..at + prefix]);
        xOffset := xOffset + prefix;
        startBlock := startBlock + 1;
      }
    }

    lemma FromSlice(offset: nat, i: nat, j: nat)
      requires i <= j && offset + j <= |disk|
      ensures j <= |From(offset)| && From(offset)[i..j] == disk[offset + i..offset + j]
    {
      SliceOfSlice(disk, offset, |disk| - offset, i, j);
      assert disk[offset..offset + (|disk| - offset)] == disk[offset..];
    }

    /** The partial last sector of `read_ata`. */
    method ReadLast(offset: nat, size: nat, buffer: array<Byte>, startBlock: nat, lo: nat, ghost b0: Bytes) returns (stop: Outcome, endBlock: nat)
      requires Valid() && offset + size < UINT32_SIZE && size <= buffer.Length && startBlock == StartBlock(offset)
      requires lo == Lo(offset) - offset
      requires var end := Min(Moved(offset, size), |From(offset)|); Patched(b0, buffer[..], From(offset), 0, lo, end, end)
      modifies buffer
      ensures stop.Done? <==> !HasLast(offset, size, ToUint32(offset + size - 1) / SECTOR) || offset + size <= |disk|
      ensures !stop.Done? ==> buffer[..] == old(buffer[..])
      ensures stop.Done? ==>
        var end := Min(Moved(offset, size), |From(offset)|);
        && endBlock == LastBlock(offset, size, size)
        && Patched(b0, buffer[..], From(offset), 0, lo,
                   if HasLast(offset, size, ToUint32(offset + size - 1) / SECTOR) then LastPartAt(offset, size, size) - offset else end, end)
    {
      hide Patched, Moved, Lo, StartBlock, ToUint32, Splice, From;
      endBlock, stop := ToUint32(offset + size - 1) / SECTOR, Done(0);
      if (offset + size) % SECTOR != 0 && startBlock <= endBlock {
        LastPart(offset, size);
        LastOnDisk(endBlock, offset + size, |disk|);
        var postfix := (offset + size) % SECTOR;
        if (endBlock + 1) * SECTOR > |disk| {
          return OffDisk(endBlock), endBlock;
        }
        FromSlice(offset, size - postfix, size);
        PatchHigh(b0, buffer[..], From(offset), 0, lo, size, size - postfix);
        var tmp := ReadSector(endBlock);
        SliceOfSector(disk, endBlock, 0, postfix);
        assert tmp[..postfix] == tmp[0..0 + postfix];
        CopyInto(buffer, size - postfix, tmp[..postfix]);
        endBlock := ToUint32(endBlock - 1);
      }
    }

    /** The whole-sector loop of `read_ata`. */
    method ReadSectors(first: nat, last: nat, buffer: array<Byte>, x: nat, ghost offset: nat, ghost b0: Bytes, ghost hi: nat, ghost end: nat)
      returns (k: nat)
      requires offset + x == first * SECTOR && (x == 0 || x <= |From(offset)|)
      requires Patched(b0, buffer[..], From(offset), 0, x, hi, end)
      modifies buffer
      ensures k == Stop(first, last, |disk|, offset + buffer.Length) && offset <= k * SECTOR
      ensures Patched(b0, buffer[..], From(offset), 0, k * SECTOR - offset, hi, end)
    {
      hide Patched, From;
      k := first;
      var xOffset := x;
      while k <= last && (k + 1) * SECTOR <= |disk| && xOffset + SECTOR <= buffer.Length
        invariant first <= k && offset + xOffset == k * SECTOR
        invariant Patched(b0, buffer[..], From(offset), 0, xOffset, hi, end)
        invariant Stop(first, last, |disk|, offset + buffer.Length) == Stop(k, last, |disk|, offset + buffer.Length)
        decreases last + 1 - k
      {
        FromSlice(offset, xOffset, xOffset + SECTOR);
        PatchLow(b0, buffer[..], From(offset), 0, xOffset, hi, end, xOffset + SECTOR);
        var tmp := ReadSector(k);
        CopyInto(buffer, xOffset, tmp);
        xOffset := xOffset + SECTOR;
        k := k + 1;
      }
    }

    /** `read_ata`: a served request gets exactly its slice of the disk and leaves the rest of the
        buffer; whatever else is asked for, a byte of the buffer is left alone or gets the disk's byte
        at its place. */
    method ReadAta(offset: nat, size: nat, buffer: array<Byte>) returns (r: Outcome)
      requires Valid() && offset + size < UINT32_SIZE && size <= buffer.Length < UINT32_SIZE
      modifies buffer
      ensures r.Done? <==> Serves(offset, size, |disk|, buffer.Length) || (size == 0 && offset % SECTOR == 0 && offset > 0)
      ensures Serves(offset, size, |disk|, buffer.Length) ==>
        var n := Moved(offset, size);
        r == Done(size) && offset + n <= |disk| && buffer[..] == Splice(old(buffer[..]), 0, disk[offset..offset + n])
      ensures Regular(offset, size, |disk|) ==> r == Done(size) && Replaced(old(buffer[..]), buffer[..], 0, disk[offset..], size)
      ensures forall p :: 0 <= p < buffer.Length ==>
        buffer[p] == old(buffer[p]) || (offset + p < |disk| && buffer[p] == disk[offset + p])
    {
      hide Moved, StartBlock, Lo, Patched, ToUint32, Stop, LastBlock, Splice, LastPartAt, Replaced;
      ghost var b0 := buffer[..];
      var startBlock, xOffset;
      r, startBlock, xOffset := ReadFirst(offset, size, buffer);
      if r.Done? {
        r := ReadRest(offset, size, buffer, startBlock, xOffset, b0);
      }
      if Regular(offset, size, |disk|) {
        RegularServed(offset, size, |disk|, buffer.Length);
        assert disk[offset..offset + size] == disk[offset..][..size];
        SpliceReplaces(b0, 0, disk[offset..], size);
      }
    }

    /** The partial last sector, then the loop. */
    method ReadRest(offset: nat, size: nat, buffer: array<Byte>, startBlock: nat, xOffset: nat, ghost b0: Bytes) returns (r: Outcome)
      requires Valid() && offset + size < UINT32_SIZE && size <= buffer.Length == |b0| < UINT32_SIZE
      requires offset % SECTOR == 0 || (offset < |disk| && Moved(offset, size) <= buffer.Length)
      requires startBlock == StartBlock(offset) && offset + xOffset == Lo(offset) && (xOffset == 0 || xOffset <= |From(offset)|)
      requires var end := Min(Moved(offset, size), |From(offset)|); Patched(b0, buffer[..], From(offset), 0, xOffset, end, end)
      modifies buffer
      ensures r.Done? <==> Serves(offset, size, |disk|, buffer.Length) || (size == 0 && offset % SECTOR == 0 && offset > 0)
      ensures Serves(offset, size, |disk|, buffer.Length) ==>
        var n := Moved(offset, size);
        r == Done(size) && offset + n <= |disk| && buffer[..] == Splice(b0, 0, disk[offset..offset + n])
      ensures forall p :: 0 <= p < buffer.Length ==>
        buffer[p] == b0[p] || (offset + p < |disk| && buffer[p] == disk[offset + p])
    {
      hide Moved, StartBlock, Lo, Patched, ToUint32, Stop, LastBlock, Splice, LastPartAt, Serves, HasLast, From;
      ghost var data := From(offset);
      ghost var end := Min(Moved(offset, size), |data|);
      ghost var partial := HasLast(offset, size, ToUint32(offset + size - 1) / SECTOR);
      var endBlock;
      r, endBlock := ReadLast(offset, size, buffer, startBlock, xOffset, b0);
      LastFails(offset, size, |disk|, buffer.Length);
      if !r.Done? {
        ReadInPlace(b0, buffer[..], offset, xOffset, end, end);
        return;
      }
      LoIs(offset);
      ghost var hi := if partial then LastPartAt(offset, size, size) - offset else end;
      var k := ReadSectors(startBlock, endBlock, buffer, xOffset, offset, b0, hi, end);
      ReadInPlace(b0, buffer[..], offset, k * SECTOR - offset, hi, end);
      ReadConcluded(b0, buffer[..], offset, size, k, hi, end);
      r := if k > endBlock then Done(size) else if (k + 1) * SECTOR > |disk| then OffDisk(k) else OffBuffer(k);
    }

    lemma ReadInPlace(b0: Bytes, b1: Bytes, offset: nat, lo: nat, hi: nat, end: nat)
      requires Patched(b0, b1, From(offset), 0, lo, hi, end)
      ensures forall p :: 0 <= p < |b1| ==> p < |b0| && (b1[p] == b0[p] || (offset + p < |disk| && b1[p] == disk[offset + p]))
    {
      InPlace(b0, b1, From(offset), lo, hi, end);
      PatchBound(b0, b1, From(offset), 0, lo, hi, end);
    }

    lemma ReadConcluded(b0: Bytes, b1: Bytes, offset: nat, size: nat, k: nat, hi: nat, end: nat)
      requires Valid() && offset + size < UINT32_SIZE && size <= |b0| < UINT32_SIZE
      requires offset % SECTOR == 0 || (offset < |disk| && Moved(offset, size) <= |b0|)
      requires HasLast(offset, size, ToUint32(offset + size - 1) / SECTOR) ==> offset + size <= |disk|
      requires k == Stop(StartBlock(offset), LastBlock(offset, size, size), |disk|, offset + |b0|) && offset <= k * SECTOR
      requires end == Min(Moved(offset, size), |From(offset)|)
      requires hi == if HasLast(offset, size, ToUint32(offset + size - 1) / SECTOR) then LastPartAt(offset, size, size) - offset else end
      requires Patched(b0, b1, From(offset), 0, k * SECTOR - offset, hi, end)
      ensures k > LastBlock(offset, size, size)
              <==> Serves(offset, size, |disk|, |b0|) || (size == 0 && offset % SECTOR == 0 && offset > 0)
      ensures Serves(offset, size, |disk|, |b0|) ==>
        var n := Moved(offset, size);
        offset + n <= |disk| && n <= |b0| && b1 == Splice(b0, 0, disk[offset..offset + n])
    {
      hide Moved, StartBlock, Patched, ToUint32, Stop, LastBlock, Splice, LastPartAt, HasLast;
      if Serves(offset, size, |disk|, |b0|) {
        ServedBuffer(b0, b1, From(offset), offset, size, |disk|, k, hi, end);
        FromSlice(offset, 0, Moved(offset, size));
        assert From(offset)[0..Moved(offset, size)] == From(offset)[..Moved(offset, size)];
      } else {
        ReadFails(offset, size, |disk|, |b0|);
      }
    }

    /** Reading back a range just written returns what was written. */
    method WriteThenRead(offset: nat, size: nat, buffer: Bytes, out: array<Byte>)
      requires Valid() && offset + size < UINT32_SIZE && size <= |buffer| < UINT32_SIZE && out.Length < UINT32_SIZE
      requires Serves(offset, size, |disk|, |buffer|) && Moved(offset, size) == size <= out.Length
      modifies this, out
      ensures out[..size] == buffer[..size] && out[size..] == old(out[size..])
      ensures offset + size <= old(|disk|) && disk == Splice(old(disk), offset, buffer[..size])
    {
      hide Moved;
      var w := WriteAta(offset, size, buffer);
      var r := ReadAta(offset, size, out);
      assert disk[offset..offset + size] == buffer[..size];
    }
  }

  /** Where the partial last sector begins, or the end if there is none. */
  ghost function LastPartAt(offset: nat, size: nat, c: nat): nat {
    var last := ToUint32(offset + size - 1) / SECTOR;
    if HasLast(offset, c, last) then last * SECTOR else offset + Moved(offset, c)
  }

  /** Where the loop from `first` to `last` stops: past `last`, or at the first sector that ends beyond
      byte `disk` or byte `buffer`. */
  function Stop(first: nat, last: nat, disk: nat, buffer: nat): (k: nat)
    ensures k == Max(first, Min(last + 1, Min(disk, buffer) / SECTOR))
    decreases last + 1 - first
  {
    if first <= last && (first + 1) * SECTOR <= disk && (first + 1) * SECTOR <= buffer then Stop(first + 1, last, disk, buffer)
    else first
  }

  lemma FirstPart(offset: nat, size: nat)
    ensures offset <= Lo(offset) <= offset + Moved(offset, size)
    ensures Lo(offset) == if offset % SECTOR == 0 then offset else offset + (SECTOR - offset % SECTOR)
  {
  }

  /** The sector an unaligned request starts in: on the disk if and only if the offset is, and carried
      to its end if and only if the buffer holds that many bytes. */
  lemma FirstSector(offset: nat, size: nat, n: nat, length: nat)
    requires n % SECTOR == 0 && size <= length
    ensures StartBlock(offset) == offset / SECTOR + (if offset % SECTOR != 0 then 1 else 0)
    ensures offset % SECTOR == 0 ==> Moved(offset, size) == size
    ensures offset % SECTOR != 0 ==>
      && ((offset / SECTOR + 1) * SECTOR <= n <==> offset < n)
      && (Moved(offset, size) <= length <==> SECTOR - offset % SECTOR <= length)
      && offset / SECTOR * SECTOR + offset % SECTOR == offset && (offset / SECTOR + 1) * SECTOR == offset + (SECTOR - offset % SECTOR)
  {
  }

  lemma LastPart(offset: nat, size: nat)
    requires offset + size < UINT32_SIZE && HasLast(offset, size, ToUint32(offset + size - 1) / SECTOR)
    ensures var last, postfix := ToUint32(offset + size - 1) / SECTOR, (offset + size) % SECTOR;
            && Moved(offset, size) == size && postfix <= size && last * SECTOR == offset + size - postfix
            && Lo(offset) <= last * SECTOR
  {
  }

  /** On a disk of whole sectors, the sector a request ends in is there if and only if the request's end is. */
  lemma LastOnDisk(last: nat, end: nat, n: nat)
    requires n % SECTOR == 0 && last * SECTOR < end < (last + 1) * SECTOR
    ensures (last + 1) * SECTOR <= n <==> end <= n
  {
  }

  /** With the two ends meeting, or the low part past the high one, all bytes up to the further end are in place. */
  lemma PatchDone(before: Bytes, after: Bytes, data: Bytes, offset: nat, lo: nat, hi: nat, end: nat)
    requires Patched(before, after, data, offset, lo, hi, end)
    ensures hi <= lo && offset <= lo && Max(lo, end) <= |before| ==>
              Max(lo, end) <= offset + |data| && after == Splice(before, offset, data[..Max(lo, end) - offset])
  {
  }

  /** A clamped request ends with the disk, so it has no partial last sector. */
  lemma ClampEnds(offset: nat, size: nat, n: nat)
    requires n % SECTOR == 0 && offset <= n < offset + size
    ensures var c := Clamped(offset, size, n); c == n - offset && Moved(offset, c) == c && (offset + c) % SECTOR == 0
  {
  }

  /** A served request: the loop comes to its end, where the last part begins. */
  lemma ServedEnds(offset: nat, size: nat, n: nat, length: nat)
    requires n % SECTOR == 0 && offset + size < UINT32_SIZE && size <= length && Serves(offset, size, n, length)
    ensures var k, end := Stop(StartBlock(offset), LastBlock(offset, size, size), n, offset + length), offset + Moved(offset, size);
            k > LastBlock(offset, size, size) && offset <= k * SECTOR == LastPartAt(offset, size, size) <= end <= n
  {
    hide Stop;
    PartsJoin(offset, size);
    if offset < n { EndOnDisk(offset, size, n); }
  }

  /** A clamped request: the loop stops behind the disk's last sector, short of its end. */
  lemma ClampedEnds(offset: nat, size: nat, n: nat, length: nat)
    requires n % SECTOR == 0 && offset <= n < offset + size < UINT32_SIZE && size <= length
    ensures var c := Clamped(offset, size, n);
            && Stop(StartBlock(offset), LastBlock(offset, size, c), n, offset + length) == n / SECTOR <= LastBlock(offset, size, c)
            && LastPartAt(offset, size, c) == n
  {
    hide Stop;
    ClampEnds(offset, size, n);
  }

  /** Fewer than 512 bytes at offset 0: the loop runs on until the disk or the buffer ends. */
  lemma ShortEnds(size: nat, n: nat, length: nat)
    requires n % SECTOR == 0 && size < SECTOR && size <= n && size <= length < UINT32_SIZE
    ensures Stop(0, LastBlock(0, size, size), n, length) == Min(n, length) / SECTOR <= LastBlock(0, size, size)
    ensures Moved(0, size) == size && StartBlock(0) == 0 && LastPartAt(0, size, size) == 0
  {
    hide Stop;
  }

  /** The write has left the disk with the buffer's bytes up to where the loop stopped, and its last part. */
  ghost predicate Left(d0: Bytes, d1: Bytes, buffer: Bytes, offset: nat, size: nat, k: nat) {
    var c := Clamped(offset, size, |d0|);
    && k == Stop(StartBlock(offset), LastBlock(offset, size, c), |d0|, offset + |buffer|)
    && Patched(d0, d1, buffer, offset, k * SECTOR, LastPartAt(offset, size, c), offset + Moved(offset, c))
  }

  lemma ServedDisk(d0: Bytes, d1: Bytes, buffer: Bytes, offset: nat, size: nat, k: nat)
    requires |d0| % SECTOR == 0 && offset + size < UINT32_SIZE && size <= |buffer| && Serves(offset, size, |d0|, |buffer|)
    requires Left(d0, d1, buffer, offset, size, k)
    ensures k > LastBlock(offset, size, size) && offset + Moved(offset, size) <= |d0|
    ensures d1 == Splice(d0, offset, buffer[..Moved(offset, size)])
  {
    hide Moved, Stop, Patched, LastBlock, LastPartAt, Splice;
    ServedEnds(offset, size, |d0|, |buffer|);
    PatchDone(d0, d1, buffer, offset, k * SECTOR, LastPartAt(offset, size, size), offset + Moved(offset, size));
  }

  lemma ClampedDisk(d0: Bytes, d1: Bytes, buffer: Bytes, offset: nat, size: nat, k: nat)
    requires |d0| % SECTOR == 0 && offset <= |d0| < offset + size < UINT32_SIZE && size <= |buffer|
    requires Left(d0, d1, buffer, offset, size, k)
    ensures k == |d0| / SECTOR <= LastBlock(offset, size, Clamped(offset, size, |d0|))
    ensures d1 == Splice(d0, offset, buffer[..|d0| - offset])
  {
    hide Moved, Stop, Patched, LastBlock, LastPartAt, Splice;
    var n, c := |d0|, Clamped(offset, size, |d0|);
    ClampEnds(offset, size, n);
    ClampedEnds(offset, size, n, |buffer|);
    PatchDone(d0, d1, buffer, offset, k * SECTOR, LastPartAt(offset, size, c), offset + Moved(offset, c));
  }

  lemma ShortDisk(d0: Bytes, d1: Bytes, buffer: Bytes, size: nat, k: nat)
    requires |d0| % SECTOR == 0 && size < SECTOR && size <= |d0| && size <= |buffer| < UINT32_SIZE
    requires Left(d0, d1, buffer, 0, size, k)
    ensures k == Min(|d0|, |buffer|) / SECTOR <= LastBlock(0, size, size)
    ensures var n := Max(size, k * SECTOR); n <= |d0| && n <= |buffer| && d1 == Splice(d0, 0, buffer[..n])
  {
    hide Moved, Stop, Patched, LastBlock, LastPartAt, Splice;
    ShortEnds(size, |d0|, |buffer|);
    PatchDone(d0, d1, buffer, 0, k * SECTOR, LastPartAt(0, size, size), Moved(0, size));
  }

  /** A request that is not served and does not fail at its first or last partial sector fails in the
      loop, unless it asks for nothing at a sector boundary behind the first. */
  lemma ReadFails(offset: nat, size: nat, n: nat, length: nat)
    requires n % SECTOR == 0 && offset + size < UINT32_SIZE && size <= length < UINT32_SIZE && !Serves(offset, size, n, length)
    requires offset % SECTOR == 0 || (offset < n && Moved(offset, size) <= length)
    requires HasLast(offset, size, ToUint32(offset + size - 1) / SECTOR) ==> offset + size <= n
    ensures Stop(StartBlock(offset), LastBlock(offset, size, size), n, offset + length) <= LastBlock(offset, size, size)
            <==> !(size == 0 && offset % SECTOR == 0 && offset > 0)
  {
    hide Stop;
    if offset == 0 && size < SECTOR && size <= n {
      ShortEnds(size, n, length);
    }
  }

  lemma LastPartIs(offset: nat, size: nat)
    requires offset + size < UINT32_SIZE && HasLast(offset, size, ToUint32(offset + size - 1) / SECTOR)
    ensures offset <= LastPartAt(offset, size, size) <= offset + size && Moved(offset, size) == size
  {
    LastPart(offset, size);
  }

  /** A partial last sector off the disk belongs to a request that is not served and is not empty; one
      on the disk begins inside the request. */
  lemma LastFails(offset: nat, size: nat, n: nat, length: nat)
    requires offset + size < UINT32_SIZE
    ensures HasLast(offset, size, ToUint32(offset + size - 1) / SECTOR) ==>
      && (offset + size > n ==> !Serves(offset, size, n, length) && !(size == 0 && offset % SECTOR == 0))
      && offset <= LastPartAt(offset, size, size)
  {
    if HasLast(offset, size, ToUint32(offset + size - 1) / SECTOR) { LastPartIs(offset, size); }
  }

  lemma LoIs(offset: nat)
    ensures Lo(offset) == StartBlock(offset) * SECTOR
  {
  }

  lemma ServedBuffer(b0: Bytes, b1: Bytes, data: Bytes, offset: nat, size: nat, n: nat, k: nat, hi: nat, end: nat)
    requires n % SECTOR == 0 && offset + size < UINT32_SIZE && size <= |b0| && Serves(offset, size, n, |b0|) && |data| == n - offset
    requires k == Stop(StartBlock(offset), LastBlock(offset, size, size), n, offset + |b0|) && offset <= k * SECTOR
    requires end == Min(Moved(offset, size), |data|)
    requires hi == if HasLast(offset, size, ToUint32(offset + size - 1) / SECTOR) then LastPartAt(offset, size, size) - offset else end
    requires Patched(b0, b1, data, 0, k * SECTOR - offset, hi, end)
    ensures k > LastBlock(offset, size, size) && Moved(offset, size) <= |data| && Moved(offset, size) <= |b0|
    ensures b1 == Splice(b0, 0, data[..Moved(offset, size)])
  {
    hide Moved, Stop, Patched, LastBlock, Splice, ToUint32, StartBlock, LastPartAt, HasLast;
    ServedEnds(offset, size, n, |b0|);
    NoLastPart(offset, size);
    PatchAll(b0, b1, data, 0, hi, hi, Moved(offset, size));
  }

  lemma NoLastPart(offset: nat, size: nat)
    ensures !HasLast(offset, size, ToUint32(offset + size - 1) / SECTOR) ==> LastPartAt(offset, size, size) == offset + Moved(offset, size)
  {
  }

  /** A patched buffer has the data's bytes at their place, or its own. */
  lemma InPlace(before: Bytes, after: Bytes, data: Bytes, lo: nat, hi: nat, end: nat)
    requires Patched(before, after, data, 0, lo, hi, end)
    ensures forall p :: 0 <= p < |after| ==> after[p] == before[p] || (p < |data| && after[p] == data[p])
  {
  }

  lemma PatchBound(before: Bytes, after: Bytes, data: Bytes, offset: nat, lo: nat, hi: nat, end: nat)
    requires Patched(before, after, data, offset, lo, hi, end)
    ensures end <= offset + |data| && |after| == |before|
  {
  }

  /** The sectors of the transfer are on the disk, whose size is a whole number of sectors. */
  lemma EndOnDisk(offset: nat, size: nat, n: nat)
    requires n % SECTOR == 0 && offset + size <= n && offset < n
    ensures offset + Moved(offset, size) <= n && (offset / SECTOR + 1) * SECTOR <= n
    ensures offset + size > 0 && offset + size < UINT32_SIZE ==> (ToUint32(offset + size - 1) / SECTOR + 1) * SECTOR <= n
  {
  }

  lemma SliceOfSector(d: Bytes, lba: nat, at: nat, n: nat)
    requires (lba + 1) * SECTOR <= |d| && at + n <= SECTOR
    ensures d[lba * SECTOR..(lba + 1) * SECTOR][at..at + n] == d[lba * SECTOR + at..lba * SECTOR + at + n]
  {
    SliceOfSlice(d, lba * SECTOR, SECTOR, at, at + n);
  }

  lemma SliceOfSlice(d: Bytes, offset: nat, n: nat, i: nat, j: nat)
    requires offset + n <= |d| && i <= j <= n
    ensures d[offset..offset + n][i..j] == d[offset + i..offset + j]
  {
    var a, b := d[offset..offset + n][i..j], d[offset + i..offset + j];
    assert |a| == |b| && forall k :: 0 <= k < |a| ==> a[k] == d[offset + i + k] == b[k];
  }

  /** The loop of a write keeps to the disk if and only if the request does and is not one of fewer
      than 512 bytes at offset 0 on a disk that does not reach as far as the wrapped bound. The clamp
      has no part in this: the loop's last sector comes from the size before it. */
  lemma ClampOverruns(offset: nat, size: nat, n: nat)
    requires n % SECTOR == 0 && offset <= n && offset + size < UINT32_SIZE
    ensures var last := LastBlock(offset, size, Clamped(offset, size, n));
            (StartBlock(offset) <= last ==> (last + 1) * SECTOR <= n)
            <==> offset + size <= n && (offset == 0 && size < SECTOR ==> n >= (if size == 0 then UINT32_SIZE else UINT32_SIZE * SECTOR))
  {
  }

  /** Two sectors written to a disk of one: the size is clamped to 512, the loop still goes to sector 1. */
  lemma ClampExample()
    ensures Clamped(0, 1024, 512) == 512 && LastBlock(0, 1024, 512) == 1 && Stop(0, 1, 512, 1024) == 1
  {
  }

  /** Two disks agree outside a range. */
  ghost predicate SameOutside(d: Bytes, e: Bytes, lo: nat, hi: nat) {
    |d| == |e| && forall p :: 0 <= p < |d| && !(lo <= p < hi) ==> d[p] == e[p]
  }

  /** A write changes no byte outside its range, whatever the buffer, if and only if it starts on a
      sector boundary or reaches the end of its first sector. */
  lemma MovesExactly(d: Bytes, offset: nat, size: nat)
    requires offset + Moved(offset, size) <= |d|
    ensures (forall b: Bytes {:trigger Splice(d, offset, b)} ::
               |b| == Moved(offset, size) ==> SameOutside(d, Splice(d, offset, b), offset, offset + size))
            <==> offset % SECTOR == 0 || offset % SECTOR + size >= SECTOR
  {
    var n := Moved(offset, size);
    if n != size {
      var other: Byte := if d[offset + size] == 0 then 1 else 0;
      var b: Bytes := d[offset..offset + n][size := other];
      assert Splice(d, offset, b)[offset + size] == other;
      assert !SameOutside(d, Splice(d, offset, b), offset, offset + size);
    }
  }

  /** One byte at offset 1 carries 511; 100 bytes at offset 0 set the loop off to sector 2^32 - 1. */
  lemma ShortTransferExample()
    ensures Moved(1, 1) == 511 && LastBlock(0, 100, 100) == 0xffff_ffff && StartBlock(0) == 0
  {
  }
}
