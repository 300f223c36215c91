/** Reading and writing the bytes of a file through its block map (kernel/src/ext2fs/inode.c,
    e2_inode_io, over e2_read_block and e2_write_block). */
module Ext2FileIO {
  import opened Arithmetic
  import opened BlockDevice

  /** The file as plain bytes: its blocks one after the other. */
  function Contents(disk: seq<Byte>, block: seq<nat>, bs: nat): (r: seq<Byte>)
    requires forall i :: 0 <= i < |block| ==> At(block[i], bs) + bs <= |disk|
    ensures |r| == At(|block|, bs)
  {
    if block == [] then []
    else
      AtSum(1, |block| - 1, bs);
      Bytes(disk, At(block[0], bs), bs) + Contents(disk, block[1..], bs)
  }

  ghost predicate OnDisk(disk: seq<Byte>, block: seq<nat>, bs: nat)
  {
    forall i :: 0 <= i < |block| ==> At(block[i], bs) + bs <= |disk|
  }

  ghost predicate Distinct(block: seq<nat>) { forall i, j :: 0 <= i < j < |block| ==> block[i] != block[j] }

  /** Block `i` of the file is bytes At(i) up to At(i + 1) of its contents. */
  lemma {:induction false} ContentsAt(disk: seq<Byte>, block: seq<nat>, bs: nat, i: nat)
    requires OnDisk(disk, block, bs) && i < |block|
    ensures At(i, bs) + bs <= At(|block|, bs)
    ensures Contents(disk, block, bs)[At(i, bs)..At(i, bs) + bs] == Bytes(disk, At(block[i], bs), bs)
  {
    hide At;
    hide Bytes;
    AtSum(i, 1, bs);
    AtMonotone(i + 1, |block|, bs);
    if i > 0 {
      AtSum(i - 1, 1, bs);
      AtSum(1, |block| - 1, bs);
      ContentsAt(disk, block[1..], bs, i - 1);
      var first, rest := Bytes(disk, At(block[0], bs), bs), Contents(disk, block[1..], bs);
      assert |first| == bs;
      assert (first + rest)[At(i, bs)..At(i, bs) + bs] == rest[At(i - 1, bs)..At(i - 1, bs) + bs];
    } else {
      AtSum(0, 0, bs);
    }
  }

  /** Writing block `i` of a file whose blocks differ changes those bytes of its contents and no others. */
  lemma {:induction false} ContentsPatch(disk: seq<Byte>, block: seq<nat>, bs: nat, i: nat, x: seq<Byte>)
    requires OnDisk(disk, block, bs) && Distinct(block) && i < |block| && |x| == bs > 0
    ensures OnDisk(Patch(disk, At(block[i], bs), x), block, bs) && At(i, bs) + bs <= At(|block|, bs)
    ensures Contents(Patch(disk, At(block[i], bs), x), block, bs) == Patch(Contents(disk, block, bs), At(i, bs), x)
  {
    hide At;
    hide Patch;
    hide Bytes;
    AtSum(i, 1, bs);
    AtMonotone(i + 1, |block|, bs);
    AtSum(1, |block| - 1, bs);
    var first, rest := Bytes(disk, At(block[0], bs), bs), Contents(disk, block[1..], bs);
    if i == 0 {
      AtSum(0, 0, bs);
      OtherBlocks(disk, block[1..], bs, block[0], x);
      PatchReadsBack(disk, At(block[0], bs), x);
      PatchHead(first, rest, x);
    } else {
      AtSum(i - 1, 1, bs);
      ContentsPatch(disk, block[1..], bs, i - 1, x);
      BlockApart(disk, bs, block[i], block[0], x);
      PatchTail(first, rest, At(i - 1, bs), x);
    }
  }

  lemma PatchHead(first: seq<Byte>, rest: seq<Byte>, x: seq<Byte>)
    requires |x| == |first|
    ensures Patch(first + rest, 0, x) == x + rest
  {
  }

  lemma PatchTail(first: seq<Byte>, rest: seq<Byte>, k: nat, x: seq<Byte>)
    requires k + |x| <= |rest|
    ensures Patch(first + rest, |first| + k, x) == first + Patch(rest, k, x)
  {
  }

  /** A write to block `b` leaves block `c` alone. */
  lemma BlockApart(disk: seq<Byte>, bs: nat, b: nat, c: nat, x: seq<Byte>)
    requires b != c && |x| == bs > 0 && At(b, bs) + bs <= |disk| && At(c, bs) + bs <= |disk|
    ensures Bytes(Patch(disk, At(b, bs), x), At(c, bs), bs) == Bytes(disk, At(c, bs), bs)
  {
    hide At;
    hide Patch;
    hide Bytes;
    if b < c {
      AtSum(b, 1, bs);
      AtMonotone(b + 1, c, bs);
    } else {
      AtSum(c, 1, bs);
      AtMonotone(c + 1, b, bs);
    }
    StretchApart(disk, At(b, bs), At(c, bs), x);
  }

  lemma StretchApart(disk: seq<Byte>, p: nat, q: nat, x: seq<Byte>)
    requires (p + |x| <= q || q + |x| <= p) && p + |x| <= |disk| && q + |x| <= |disk|
    ensures Bytes(Patch(disk, p, x), q, |x|) == Bytes(disk, q, |x|)
  {
    var d, n := Patch(disk, p, x), |x|;
    forall k | 0 <= k < n ensures Bytes(d, q, n)[k] == Bytes(disk, q, n)[k] {
      PatchBytes(disk, p, x, q + k);
    }
  }

  lemma {:induction false} OtherBlocks(disk: seq<Byte>, block: seq<nat>, bs: nat, b: nat, x: seq<Byte>)
    requires OnDisk(disk, block, bs) && b !in block && |x| == bs > 0 && At(b, bs) + bs <= |disk|
    ensures OnDisk(Patch(disk, At(b, bs), x), block, bs)
    ensures Contents(Patch(disk, At(b, bs), x), block, bs) == Contents(disk, block, bs)
  {
    hide At;
    hide Bytes;
    hide Patch;
    if block != [] {
      BlockApart(disk, bs, b, block[0], x);
      OtherBlocks(disk, block[1..], bs, b, x);
    }
  }

  /** The bytes `m` up to `m + n` of block `i` of the file. */
  lemma PieceOfBlock(disk: seq<Byte>, block: seq<nat>, bs: nat, i: nat, m: nat, n: nat)
    requires OnDisk(disk, block, bs) && i < |block| && m + n <= bs
    ensures At(i, bs) + m + n <= At(|block|, bs)
    ensures Bytes(disk, At(block[i], bs), bs)[m..m + n] == Bytes(Contents(disk, block, bs), At(i, bs) + m, n)
  {
    hide At;
    hide Contents;
    ContentsAt(disk, block, bs, i);
    var c := Contents(disk, block, bs);
    assert Bytes(disk, At(block[i], bs), bs) == Bytes(c, At(i, bs), bs);
    BytesOfBytes(c, At(i, bs), bs, m, n);
  }

  /** The index of the block that holds byte `off`, and how it lies in the file. */
  lemma BlockIndex(off: nat, bs: nat, n: nat)
    requires bs > 0 && off < At(n, bs)
    ensures Quotient(off, bs) < n && off == At(Quotient(off, bs), bs) + Remainder(off, bs) && Remainder(off, bs) < bs
  {
    hide At;
    hide Quotient;
    hide Remainder;
    Division(off, bs);
    if Quotient(off, bs) >= n { AtMonotone(n, Quotient(off, bs), bs); }
  }

  class File {
    const dev: Device
    const bs: nat
    /** The inode's transfer buffer, one block long. */
    const rw: array<Byte>
    var block: seq<nat>
    var isize: nat

    /** The in-memory part of e2_read_inode: the block map and a fresh transfer buffer. */
    constructor (device: Device, blocksize: nat, blocks: seq<nat>, size: nat)
      requires blocksize > 0 && device.Valid() && device.bad == {}
      requires OnDisk(device.disk, blocks, blocksize) && Distinct(blocks) && size <= At(|blocks|, blocksize)
      ensures Valid() && dev == device && bs == blocksize && block == blocks && isize == size && fresh(rw)
    {
      dev, bs, block, isize := device, blocksize, blocks, size;
      rw := new Byte[blocksize](_ => 0);
    }

    ghost predicate Valid()
      reads this, dev
    {
      && bs > 0 && dev.Valid() && dev.bad == {} && rw.Length == bs && rw != dev.block
      && OnDisk(dev.disk, block, bs) && Distinct(block) && isize <= At(|block|, bs)
    }

    ghost function View(): seq<Byte>
      reads this, dev
      requires Valid()
    {
      Contents(dev.disk, block, bs)
    }

    /** e2_read_block of one block. */
    method ReadBlock(b: nat, buffer: array<Byte>, at: nat)
      requires Valid() && At(b, bs) + bs <= |dev.disk| && buffer != dev.block && at + bs <= buffer.Length
      modifies buffer, dev.block
      ensures buffer[..] == Splice(old(buffer[..]), at, Bytes(dev.disk, At(b, bs), bs))
    {
      hide At;
      hide Splice;
      hide Bytes;
      CeilingLeast(At(b, bs) + bs, dev.blksz, dev.sectors);
      var r := dev.Read(At(b, bs), bs, buffer, at);
    }

    /** e2_write_block of one block. */
    method WriteBlock(b: nat, buffer: array<Byte>, at: nat)
      requires Valid() && At(b, bs) + bs <= |dev.disk| && buffer != dev.block && at + bs <= buffer.Length
      modifies dev`disk, dev.block
      ensures dev.Valid() && dev.disk == Patch(old(dev.disk), At(b, bs), buffer[at..at + bs])
    {
      hide At;
      hide Patch;
      CeilingLeast(At(b, bs) + bs, dev.blksz, dev.sectors);
      var r;
      ghost var done;
      r, done := dev.Write(At(b, bs), bs, buffer, at);
    }

    /** Part of block `i` of the file, through the transfer buffer. */
    method ReadPart(i: nat, m: nat, n: nat, buffer: array<Byte>, to: nat)
      requires Valid() && i < |block| && m + n <= bs && buffer != rw && buffer != dev.block && to + n <= buffer.Length
      modifies buffer, rw, dev.block
      ensures At(i, bs) + m + n <= |View()|
      ensures buffer[..] == Splice(old(buffer[..]), to, Bytes(View(), At(i, bs) + m, n))
    {
      hide At;
      hide Splice;
      hide Bytes;
      hide Contents;
      ReadBlock(block[i], rw, 0);
      SpliceWhole(old(rw[..]), Bytes(dev.disk, At(block[i], bs), bs));
      assert rw[m..m + n] == rw[..][m..m + n];
      PieceOfBlock(dev.disk, block, bs, i, m, n);
      Copy(rw, m, n, buffer, to);
    }

    /** The loop over whole blocks. */
    method ReadBlocks(first: nat, n: nat, buffer: array<Byte>, to: nat)
      requires Valid() && first + n <= |block| && buffer != rw && buffer != dev.block && to + At(n, bs) <= buffer.Length
      modifies buffer, dev.block
      ensures At(first, bs) + At(n, bs) <= |View()|
      ensures buffer[..] == Splice(old(buffer[..]), to, Bytes(View(), At(first, bs), At(n, bs)))
    {
      hide At;
      hide Splice;
      hide Bytes;
      hide Contents;
      AtSum(first, n, bs);
      AtMonotone(first + n, |block|, bs);
      AtSum(0, 0, bs);
      SpliceNothing(buffer[..], to);
      NoBytes(View(), At(first, bs));
      var i := 0;
      while i < n
        invariant i <= n && At(first, bs) + At(i, bs) <= |View()| && to + At(i, bs) <= buffer.Length
        invariant buffer[..] == Splice(old(buffer[..]), to, Bytes(View(), At(first, bs), At(i, bs)))
      {
        AtSum(i, 1, bs);
        AtSum(first, i, bs);
        AtMonotone(i + 1, n, bs);
        AtSum(first, i + 1, bs);
        AtMonotone(first + i + 1, |block|, bs);
        ReadBlock(block[first + i], buffer, to + At(i, bs));
        WholeBlock(dev.disk, block, bs, first + i);
        BytesSplit(View(), At(first, bs), At(i, bs), bs);
        SpliceSplice(old(buffer[..]), to, Bytes(View(), At(first, bs), At(i, bs)), Bytes(View(), At(first + i, bs), bs));
        i := i + 1;
      }
    }

    /** e2_inode_io with EXT2_READ: clamped at the file size, then a partial first block, whole blocks and
        a partial last one. */
    method Read(offset: nat, size: nat, buffer: array<Byte>) returns (completed: nat)
      requires Valid() && buffer != rw && buffer != dev.block && size <= buffer.Length
      modifies buffer, rw, dev.block
      ensures completed == if offset >= isize then 0 else if offset + size > isize then isize - offset else size
      ensures completed == 0 || offset + completed <= |View()|
      ensures buffer[..] == Splice(old(buffer[..]), 0, Bytes(View(), offset, completed))
    {
      hide At;
      hide Splice;
      hide Bytes;
      hide Contents;
      hide Quotient;
      hide Remainder;
      SpliceNothing(buffer[..], 0);
      NoBytes(View(), offset);
      if offset >= isize {
        return 0;
      }
      var count := if offset + size > isize then isize - offset else size;
      BlockIndex(offset, bs, |block|);
      var q, m, done := Quotient(offset, bs), Remainder(offset, bs), 0;
      if m != 0 {
        var n := if count <= bs - m then count else bs - m;
        ReadPart(q, m, n, buffer, 0);
        if count <= bs - m {
          return count;
        }
        AtSum(q, 1, bs);
        done, q := n, q + 1;
      }
      ReadRest(offset, q, done, count, buffer);
      SpliceSplice(old(buffer[..]), 0, Bytes(View(), offset, done), Bytes(View(), offset + done, count - done));
      BytesSplit(View(), offset, done, count - done);
      completed := count;
    }

    /** The aligned remainder of a read. */
    method ReadRest(offset: nat, q: nat, done: nat, count: nat, buffer: array<Byte>)
      requires Valid() && buffer != rw && buffer != dev.block && done <= count <= buffer.Length
      requires offset + done == At(q, bs) && offset + count <= At(|block|, bs)
      modifies buffer, rw, dev.block
      ensures buffer[..] == Splice(old(buffer[..]), done, Bytes(View(), offset + done, count - done))
    {
      hide At;
      hide Splice;
      hide Bytes;
      hide Contents;
      hide Quotient;
      hide Remainder;
      var left := count - done;
      Division(left, bs);
      var n := Quotient(left, bs);
      AtSum(q, n, bs);
      WholeBlocksFit(q, n, |block|, bs);
      ReadBlocks(q, n, buffer, done);
      var rest := left - At(n, bs);
      if rest != 0 {
        LastBlockFits(q + n, rest, |block|, bs);
        ReadPart(q + n, 0, rest, buffer, done + At(n, bs));
        SpliceSplice(old(buffer[..]), done, Bytes(View(), At(q, bs), At(n, bs)), Bytes(View(), At(q + n, bs), rest));
        BytesSplit(View(), At(q, bs), At(n, bs), rest);
      }
    }

    /** A whole block of the file is written from the buffer. */
    method WriteWhole(i: nat, buffer: array<Byte>, at: nat)
      requires Valid() && i < |block| && buffer != dev.block && at + bs <= buffer.Length
      modifies dev`disk, dev.block
      ensures Valid() && At(i, bs) + bs <= |View()|
      ensures View() == Patch(old(View()), At(i, bs), buffer[at..at + bs])
      ensures Untouched(dev.disk, old(dev.disk), block, bs)
    {
      hide At;
      hide Patch;
      hide Contents;
      ContentsPatch(dev.disk, block, bs, i, buffer[at..at + bs]);
      PatchUntouched(dev.disk, block, bs, i, buffer[at..at + bs]);
      WriteBlock(block[i], buffer, at);
    }

    /** Part of a block of the file: read it, change it, write it back. */
    method WritePart(i: nat, m: nat, n: nat, buffer: array<Byte>, from: nat)
      requires Valid() && i < |block| && m + n <= bs && buffer != rw && buffer != dev.block && from + n <= buffer.Length
      modifies dev`disk, rw, dev.block
      ensures Valid() && At(i, bs) + m + n <= |View()|
      ensures View() == Patch(old(View()), At(i, bs) + m, buffer[from..from + n])
      ensures Untouched(dev.disk, old(dev.disk), block, bs)
    {
      hide At;
      hide Patch;
      hide Contents;
      hide Splice;
      hide Bytes;
      ReadBlock(block[i], rw, 0);
      SpliceWhole(old(rw[..]), Bytes(dev.disk, At(block[i], bs), bs));
      WholeBlock(dev.disk, block, bs, i);
      ghost var x := buffer[from..from + n];
      Copy(buffer, from, n, rw, m);
      assert rw[0..0 + bs] == rw[..];
      PatchIsSplice(View(), At(i, bs), rw[..]);
      PatchInner(View(), At(i, bs), bs, m, x);
      WriteWhole(i, rw, 0);
    }

    /** The loop over whole blocks. */
    method WriteBlocks(first: nat, n: nat, buffer: array<Byte>, from: nat)
      requires Valid() && first + n <= |block| && buffer != rw && buffer != dev.block && from + At(n, bs) <= buffer.Length
      modifies dev`disk, dev.block
      ensures Valid() && At(first, bs) + At(n, bs) <= |View()|
      ensures View() == Patch(old(View()), At(first, bs), buffer[from..from + At(n, bs)])
      ensures Untouched(dev.disk, old(dev.disk), block, bs)
    {
      hide At;
      hide Patch;
      hide Contents;
      AtSum(first, n, bs);
      AtMonotone(first + n, |block|, bs);
      AtSum(0, 0, bs);
      PatchNothing(View(), At(first, bs));
      assert buffer[from..from + 0] == [];
      var i := 0;
      while i < n
        invariant Valid() && i <= n && At(first, bs) + At(i, bs) <= |View()| && from + At(i, bs) <= buffer.Length
        invariant View() == Patch(old(View()), At(first, bs), buffer[from..from + At(i, bs)])
        invariant Untouched(dev.disk, old(dev.disk), block, bs)
      {
        AtSum(i, 1, bs);
        AtSum(first, i, bs);
        AtMonotone(i + 1, n, bs);
        AtSum(first, i + 1, bs);
        AtMonotone(first + i + 1, |block|, bs);
        ghost var k, before := from + At(i, bs), dev.disk;
        WriteWhole(first + i, buffer, from + At(i, bs));
        UntouchedThrough(dev.disk, before, old(dev.disk), block, bs);
        PatchPatch(old(View()), At(first, bs), buffer[from..k], buffer[k..k + bs]);
        assert buffer[from..k + bs] == buffer[from..k] + buffer[k..k + bs];
        i := i + 1;
      }
    }

    /** The aligned remainder of a write. */
    method WriteRest(offset: nat, q: nat, done: nat, count: nat, buffer: array<Byte>)
      requires Valid() && buffer != rw && buffer != dev.block && done <= count <= buffer.Length
      requires offset + done == At(q, bs) && offset + count <= At(|block|, bs)
      modifies dev`disk, rw, dev.block
      ensures Valid()
      ensures View() == Patch(old(View()), offset + done, buffer[done..count])
      ensures Untouched(dev.disk, old(dev.disk), block, bs)
    {
      hide At;
      hide Patch;
      hide Contents;
      hide Quotient;
      hide Remainder;
      var left := count - done;
      Division(left, bs);
      var n := Quotient(left, bs);
      AtSum(q, n, bs);
      WholeBlocksFit(q, n, |block|, bs);
      WriteBlocks(q, n, buffer, done);
      var rest := left - At(n, bs);
      if rest != 0 {
        LastBlockFits(q + n, rest, |block|, bs);
        ghost var k, before := done + At(n, bs), dev.disk;
        WritePart(q + n, 0, rest, buffer, done + At(n, bs));
        UntouchedThrough(dev.disk, before, old(dev.disk), block, bs);
        PatchPatch(old(View()), At(q, bs), buffer[done..k], buffer[k..count]);
        assert buffer[done..count] == buffer[done..k] + buffer[k..count];
      }
    }

    /** e2_inode_io with EXT2_WRITE, inside the current size: exactly the given bytes of the file change,
        and no byte of the disk outside the file's blocks. */
    method Write(offset: nat, size: nat, buffer: array<Byte>) returns (completed: nat)
      requires Valid() && buffer != rw && buffer != dev.block && size <= buffer.Length && offset + size <= isize
      modifies dev`disk, rw, dev.block
      ensures Valid() && completed == size
      ensures View() == Patch(old(View()), offset, buffer[..size])
      ensures Untouched(dev.disk, old(dev.disk), block, bs)
    {
      hide At;
      hide Patch;
      hide Contents;
      hide Quotient;
      hide Remainder;
      PatchNothing(View(), offset);
      assert buffer[..0] == [];
      completed := size;
      Division(offset, bs);
      var q, m, done := Quotient(offset, bs), Remainder(offset, bs), 0;
      if m != 0 {
        LastBlockFits(q, m, |block|, bs);
        var n := if size <= bs - m then size else bs - m;
        WritePart(q, m, n, buffer, 0);
        assert buffer[0..0 + n] == buffer[..n];
        if size <= bs - m {
          return;
        }
        AtSum(q, 1, bs);
        done, q := n, q + 1;
      }
      ghost var before := dev.disk;
      WriteRest(offset, q, done, size, buffer);
      UntouchedThrough(dev.disk, before, old(dev.disk), block, bs);
      PatchPatch(old(View()), offset, buffer[..done], buffer[done..size]);
      assert buffer[..size] == buffer[..done] + buffer[done..size];
    }
  }

  ghost predicate InFile(k: nat, block: seq<nat>, bs: nat)
  {
    exists i :: 0 <= i < |block| && At(block[i], bs) <= k < At(block[i], bs) + bs
  }

  /** The two disks agree on every byte that is in no block of the file. */
  ghost predicate Untouched(d: seq<Byte>, e: seq<Byte>, block: seq<nat>, bs: nat)
  {
    |d| == |e| && forall k :: 0 <= k < |d| && !InFile(k, block, bs) ==> d[k] == e[k]
  }

  lemma UntouchedThrough(d: seq<Byte>, e: seq<Byte>, f: seq<Byte>, block: seq<nat>, bs: nat)
    requires Untouched(d, e, block, bs) && Untouched(e, f, block, bs)
    ensures Untouched(d, f, block, bs)
  {
  }

  lemma PatchUntouched(disk: seq<Byte>, block: seq<nat>, bs: nat, i: nat, x: seq<Byte>)
    requires i < |block| && |x| == bs && At(block[i], bs) + bs <= |disk|
    ensures Untouched(Patch(disk, At(block[i], bs), x), disk, block, bs)
  {
    hide At;
    var d := Patch(disk, At(block[i], bs), x);
    forall k | 0 <= k < |d| && !InFile(k, block, bs) ensures d[k] == disk[k] {
      PatchBytes(disk, At(block[i], bs), x, k);
    }
  }

  lemma PatchIsSplice(d: seq<Byte>, at: nat, x: seq<Byte>)
    requires at + |x| <= |d|
    ensures Patch(d, at, x) == Splice(d, at, x)
  {
  }

  lemma NoBytes(d: seq<Byte>, off: nat)
    ensures Bytes(d, off, 0) == []
  {
  }

  lemma WholeBlock(disk: seq<Byte>, block: seq<nat>, bs: nat, i: nat)
    requires OnDisk(disk, block, bs) && i < |block|
    ensures At(i, bs) + bs <= At(|block|, bs)
    ensures Bytes(disk, At(block[i], bs), bs) == Bytes(Contents(disk, block, bs), At(i, bs), bs)
  {
    hide At;
    hide Contents;
    PieceOfBlock(disk, block, bs, i, 0, bs);
  }

  lemma WholeBlocksFit(q: nat, n: nat, k: nat, bs: nat)
    requires bs > 0 && At(q, bs) + At(n, bs) <= At(k, bs)
    ensures q + n <= k
  {
    hide At;
    AtSum(q, n, bs);
    if q + n > k { AtSum(k, 1, bs); AtMonotone(k + 1, q + n, bs); }
  }

  lemma LastBlockFits(q: nat, rest: nat, k: nat, bs: nat)
    requires bs > 0 && rest > 0 && At(q, bs) + rest <= At(k, bs)
    ensures q < k
  {
    hide At;
    if q >= k { AtMonotone(k, q, bs); }
  }

  // ----- Where blocks are on the device

  const OFFSETS: nat := 0x1_0000_0000

  /** The offset e2_read_block and e2_write_block give: a 32-bit product. */
  function Offset(block: nat, bs: nat): nat { At(block, bs) % OFFSETS }

  ghost predicate Apart(a: nat, b: nat, bs: nat) { Offset(a, bs) + bs <= Offset(b, bs) || Offset(b, bs) + bs <= Offset(a, bs) }

  /** The blocks of a device are read and written at places of their own exactly when they fit in 4 GiB; otherwise
      block 0 and the first block past 4 GiB are one. */
  lemma OffsetsApart(n: nat, bs: nat)
    requires bs > 0 && Remainder(OFFSETS, bs) == 0
    ensures (forall a: nat, b: nat :: a < b < n ==> Apart(a, b, bs)) <==> At(n, bs) <= OFFSETS
  {
    if At(n, bs) <= OFFSETS {
      forall a: nat, b: nat | a < b < n ensures Apart(a, b, bs) { Below(a, b, n, bs); }
    } else {
      var q := Quotient(OFFSETS, bs);
      Division(OFFSETS, bs);
      AtSum(0, 0, bs);
      if n <= q { AtMonotone(n, q, bs); }
      assert !Apart(0, q, bs) by { hide At; hide Quotient; hide Remainder; }
    }
  }

  lemma Below(a: nat, b: nat, n: nat, bs: nat)
    requires bs > 0 && a < b < n && At(n, bs) <= OFFSETS
    ensures Apart(a, b, bs)
  {
    hide At;
    AtSum(a, 1, bs);
    AtSum(b, 1, bs);
    AtMonotone(a + 1, b, bs);
    AtMonotone(b + 1, n, bs);
  }
}
