/** Byte-level I/O over a device of fixed-size sectors (kernel/src/block.c). */
module BlockDevice {
  import opened Arithmetic

  type Byte = x: int | 0 <= x < 256

  const EIO: int := -5

  // ----- Sequences with a stretch replaced

  function Splice(s: seq<Byte>, at: nat, data: seq<Byte>): (r: seq<Byte>)
    requires at + |data| <= |s|
    ensures |r| == |s|
  {
    s[..at] + data + s[at + |data|..]
  }

  lemma SpliceSplice(s: seq<Byte>, at: nat, x: seq<Byte>, y: seq<Byte>)
    requires at + |x| + |y| <= |s|
    ensures Splice(Splice(s, at, x), at + |x|, y) == Splice(s, at, x + y)
  {
  }

  lemma SpliceNothing(s: seq<Byte>, at: nat)
    requires at <= |s|
    ensures Splice(s, at, []) == s
  {
  }

  lemma SpliceWhole(s: seq<Byte>, x: seq<Byte>)
    requires |x| == |s|
    ensures Splice(s, 0, x) == x
  {
  }

  /** The `n` bytes of `d` from `off` on; no bytes are also had where `d` has ended. */
  function Bytes(d: seq<Byte>, off: nat, n: nat): (r: seq<Byte>)
    requires n == 0 || off + n <= |d|
    ensures |r| == n
  {
    if n == 0 then [] else d[off..off + n]
  }

  lemma BytesSplit(d: seq<Byte>, off: nat, a: nat, b: nat)
    requires a + b == 0 || off + a + b <= |d|
    ensures Bytes(d, off, a + b) == Bytes(d, off, a) + Bytes(d, off + a, b)
  {
  }

  lemma BytesOfBytes(d: seq<Byte>, off: nat, n: nat, m: nat, k: nat)
    requires off + n <= |d| && m + k <= n
    ensures Bytes(d, off, n)[m..m + k] == Bytes(d, off + m, k)
  {
    if k > 0 {
      var a, b := Bytes(d, off, n)[m..m + k], d[off + m..off + m + k];
      forall j | 0 <= j < k ensures a[j] == b[j] {
        assert Bytes(d, off, n)[m + j] == d[off + m + j];
      }
    }
  }

  /** `d` with the bytes `x` written at `off`; writing no bytes is possible anywhere. */
  function Patch(d: seq<Byte>, off: nat, x: seq<Byte>): (r: seq<Byte>)
    requires x == [] || off + |x| <= |d|
    ensures |r| == |d|
  {
    if x == [] then d else Splice(d, off, x)
  }

  lemma PatchNothing(d: seq<Byte>, off: nat)
    ensures Patch(d, off, []) == d
  {
  }

  lemma PatchPatch(d: seq<Byte>, off: nat, x: seq<Byte>, y: seq<Byte>)
    requires x + y == [] || off + |x| + |y| <= |d|
    ensures Patch(Patch(d, off, x), off + |x|, y) == Patch(d, off, x + y)
  {
    if x == [] {
      assert x + y == y;
    } else if y == [] {
      assert x + y == x;
    } else {
      SpliceSplice(d, off, x, y);
    }
  }

  /** Reading a stretch, patching it and writing it back patches the whole. */
  lemma PatchInner(d: seq<Byte>, p: nat, n: nat, m: nat, x: seq<Byte>)
    requires 0 < n && p + n <= |d| && m + |x| <= n
    ensures Splice(d, p, Splice(Bytes(d, p, n), m, x)) == Patch(d, p + m, x)
  {
    var inner := Splice(Bytes(d, p, n), m, x);
    var r, t := Splice(d, p, inner), Patch(d, p + m, x);
    forall k | 0 <= k < |d| ensures r[k] == t[k] {
      if p <= k < p + n {
        assert r[k] == inner[k - p];
        assert inner[k - p] == if m <= k - p < m + |x| then x[k - p - m] else d[k];
      }
    }
  }

  /** What a patch does byte by byte. */
  lemma PatchBytes(d: seq<Byte>, off: nat, x: seq<Byte>, k: nat)
    requires (x == [] || off + |x| <= |d|) && k < |d|
    ensures Patch(d, off, x)[k] == if off <= k < off + |x| then x[k - off] else d[k]
  {
  }

  /** Reading back what was written. */
  lemma PatchReadsBack(d: seq<Byte>, off: nat, x: seq<Byte>)
    requires x == [] || off + |x| <= |d|
    ensures Bytes(Patch(d, off, x), off, |x|) == x
  {
  }

  // ----- Sectors

  /** How a byte range falls on sectors: the part in a partly used first sector, and the aligned
      rest. */
  lemma Extent(off: nat, count: nat, bs: nat)
    requires bs > 0
    ensures var q, m := Quotient(off, bs), Remainder(off, bs);
            && (m != 0 && count <= bs - m ==> Ceiling(off + count, bs) == q + 1)
            && (m != 0 && count > bs - m ==>
                  && off + (bs - m) == At(q + 1, bs)
                  && Ceiling(off + count, bs) == q + 1 + Ceiling(count - (bs - m), bs))
            && (m == 0 ==> off == At(q, bs) && Ceiling(off + count, bs) == q + Ceiling(count, bs))
  {
    hide At;
    hide Quotient;
    hide Remainder;
    var q, m := Quotient(off, bs), Remainder(off, bs);
    Division(off, bs);
    AtSum(q, 1, bs);
    if m != 0 && count <= bs - m {
      if m + count == bs { DivisionUnique(off + count, bs, q + 1, 0); } else { DivisionUnique(off + count, bs, q, m + count); }
    } else {
      var from := if m == 0 then q else q + 1;
      var rest := if m == 0 then count else count - (bs - m);
      Division(rest, bs);
      AtSum(from, Quotient(rest, bs), bs);
      DivisionUnique(off + count, bs, from + Quotient(rest, bs), Remainder(rest, bs));
    }
  }

  /** memcpy */
  method Copy(source: array<Byte>, from: nat, n: nat, target: array<Byte>, to: nat)
    requires source != target && from + n <= source.Length && to + n <= target.Length
    modifies target
    ensures target[..] == Splice(old(target[..]), to, source[from..from + n])
  {
    forall k | 0 <= k < n {
      target[to + k] := source[from + k];
    }
  }

  class Device {
    const blksz: nat
    const sectors: nat
    var disk: seq<Byte>
    /** Sectors whose transfers fail. */
    var bad: set<nat>
    /** The bounce buffer, one sector long. */
    const block: array<Byte>

    constructor (blocksize: nat, content: seq<Byte>, n: nat, faulty: set<nat>)
      requires blocksize > 0 && |content| == At(n, blocksize)
      ensures Valid() && blksz == blocksize && sectors == n && disk == content && bad == faulty && fresh(block)
    {
      blksz, sectors, disk, bad := blocksize, n, content, faulty;
      block := new Byte[blocksize](_ => 0);
    }

    ghost predicate Valid()
      reads this
    {
      blksz > 0 && block.Length == blksz && |disk| == At(sectors, blksz)
    }

    /** Every sector from `lo` up to `hi` exists and transfers without error. */
    ghost predicate Good(lo: nat, hi: nat)
      reads this`bad
    {
      lo < hi ==> hi <= sectors && forall s :: lo <= s < hi ==> s !in bad
    }

    lemma GoodSplit(lo: nat, mid: nat, hi: nat)
      requires lo <= mid <= hi
      ensures Good(lo, hi) <==> Good(lo, mid) && Good(mid, hi)
    {
    }

    lemma GoodEmpty(lo: nat)
      ensures Good(lo, lo)
    {
    }

    /** The driver's read: `count` sectors from `lba` into the buffer at `at`. */
    method ReadSectors(lba: nat, count: nat, buffer: array<Byte>, at: nat) returns (error: int)
      requires Valid() && count > 0 && at + At(count, blksz) <= buffer.Length
      modifies buffer
      ensures error == 0 <==> Good(lba, lba + count)
      ensures error != 0 ==> error == EIO && buffer[..] == old(buffer[..])
      ensures error == 0 ==>
                && At(lba, blksz) + At(count, blksz) <= |disk|
                && buffer[..] == Splice(old(buffer[..]), at, Bytes(disk, At(lba, blksz), At(count, blksz)))
    {
      hide At;
      if lba + count > sectors || exists s :: lba <= s < lba + count && s in bad {
        return EIO;
      }
      AtSum(lba, count, blksz);
      AtMonotone(lba + count, sectors, blksz);
      var first, length := At(lba, blksz), At(count, blksz);
      forall k | 0 <= k < length {
        buffer[at + k] := disk[first + k];
      }
      error := 0;
    }

    /** The driver's write: `count` sectors from the buffer at `at`. */
    method WriteSectors(lba: nat, count: nat, buffer: array<Byte>, at: nat) returns (error: int)
      requires Valid() && count > 0 && at + At(count, blksz) <= buffer.Length
      modifies this`disk
      ensures Valid()
      ensures error == 0 <==> Good(lba, lba + count)
      ensures error != 0 ==> error == EIO && disk == old(disk)
      ensures error == 0 ==>
                && At(lba, blksz) + At(count, blksz) <= |disk|
                && disk == Splice(old(disk), At(lba, blksz), buffer[at..at + At(count, blksz)])
    {
      hide At;
      if lba + count > sectors || exists s :: lba <= s < lba + count && s in bad {
        return EIO;
      }
      AtSum(lba, count, blksz);
      AtMonotone(lba + count, sectors, blksz);
      disk := Splice(disk, At(lba, blksz), buffer[at..at + At(count, blksz)]);
      error := 0;
    }

    /** The bytes of sector `lba` from `m` on, through the bounce buffer. */
    method ReadPart(lba: nat, m: nat, n: nat, buffer: array<Byte>, to: nat) returns (error: int)
      requires Valid() && buffer != block && m + n <= blksz && to + n <= buffer.Length
      modifies buffer, block
      ensures error == 0 <==> Good(lba, lba + 1)
      ensures error != 0 ==> error == EIO
      ensures error == 0 ==>
                && At(lba, blksz) + m + n <= |disk|
                && buffer[..] == Splice(old(buffer[..]), to, Bytes(disk, At(lba, blksz) + m, n))
    {
      hide At;
      hide Splice;
      hide Good;
      hide Bytes;
      AtSum(0, 1, blksz);
      error := ReadSectors(lba, 1, block, 0);
      if error != 0 {
        return error;
      }
      ghost var p := At(lba, blksz);
      SpliceWhole(old(block[..]), Bytes(disk, p, blksz));
      BytesOfBytes(disk, p, blksz, m, n);
      assert block[m..m + n] == block[..][m..m + n];
      Copy(block, m, n, buffer, to);
    }

    /** The aligned remainder of block_read: whole sectors straight into the caller's buffer, a partial
        last one through the bounce buffer. */
    method ReadAligned(first: nat, count: nat, buffer: array<Byte>, at: nat) returns (error: int)
      requires Valid() && buffer != block && at + count <= buffer.Length
      modifies buffer, block
      ensures error == 0 || error == EIO
      ensures error == 0 <==> Good(first, first + Ceiling(count, blksz))
      ensures error == 0 ==>
                && (count == 0 || At(first, blksz) + count <= |disk|)
                && buffer[..] == Splice(old(buffer[..]), at, Bytes(disk, At(first, blksz), count))
    {
      hide At;
      hide Quotient;
      hide Remainder;
      hide Splice;
      hide Bytes;
      Division(count, blksz);
      AtSum(0, 0, blksz);
      var lba, left, n := first, count, Quotient(count, blksz);
      ghost var p, whole := At(first, blksz), At(n, blksz);
      AtSum(first, n, blksz);
      error := 0;
      SpliceNothing(buffer[..], at);
      assert Bytes(disk, p, 0) == [];
      if left >= blksz {
        error := ReadSectors(lba, n, buffer, at);
        if error != 0 {
          return error;
        }
        lba := lba + n;
        left := left - At(n, blksz);
      }
      assert buffer[..] == Splice(old(buffer[..]), at, Bytes(disk, p, whole));
      if left != 0 {
        error := ReadPart(lba, 0, left, buffer, at + (count - left));
        if error != 0 {
          return error;
        }
        SpliceSplice(old(buffer[..]), at, Bytes(disk, p, whole), Bytes(disk, p + whole, left));
        BytesSplit(disk, p, whole, left);
      }
    }

    /** block_read: a partial first sector through the bounce buffer, then the aligned rest. */
    method Read(off: nat, count: nat, buffer: array<Byte>, at: nat) returns (result: int)
      requires Valid() && buffer != block && at + count <= buffer.Length
      modifies buffer, block
      ensures Good(Quotient(off, blksz), Ceiling(off + count, blksz)) ==>
                && result == count && (count == 0 || off + count <= |disk|)
                && buffer[..] == Splice(old(buffer[..]), at, Bytes(disk, off, count))
      ensures !Good(Quotient(off, blksz), Ceiling(off + count, blksz)) ==> result == EIO
    {
      hide At;
      hide Quotient;
      hide Remainder;
      hide Ceiling;
      hide Good;
      hide Splice;
      hide Bytes;
      Division(off, blksz);
      Extent(off, count, blksz);
      var lba, left, m := Quotient(off, blksz), count, Remainder(off, blksz);
      var error;
      if m != 0 {
        GoodSplit(lba, lba + 1, Ceiling(off + count, blksz));
        var n := if left > blksz - m then blksz - m else left;
        error := ReadPart(lba, m, n, buffer, at);
        if error != 0 {
          return error;
        }
        if left <= blksz - m {
          return left;
        }
        left := left - n;
        lba := lba + 1;
      }
      error := ReadAligned(lba, left, buffer, at + (count - left));
      if error != 0 {
        return error;
      }
      if m != 0 {
        SpliceSplice(old(buffer[..]), at, Bytes(disk, off, count - left), Bytes(disk, off + (count - left), left));
        BytesSplit(disk, off, count - left, left);
      }
      result := count;
    }

    /** Read a sector, change bytes in it, write it back. */
    method WritePart(lba: nat, m: nat, n: nat, buffer: array<Byte>, from: nat) returns (error: int)
      requires Valid() && buffer != block && m + n <= blksz && from + n <= buffer.Length
      modifies this`disk, block
      ensures Valid()
      ensures error == 0 <==> Good(lba, lba + 1)
      ensures error != 0 ==> error == EIO && disk == old(disk)
      ensures error == 0 ==>
                && At(lba, blksz) + m + n <= |disk|
                && disk == Patch(old(disk), At(lba, blksz) + m, buffer[from..from + n])
    {
      hide At;
      hide Splice;
      hide Good;
      hide Bytes;
      hide Patch;
      AtSum(0, 1, blksz);
      error := ReadSectors(lba, 1, block, 0);
      if error != 0 {
        return error;
      }
      ghost var p, x := At(lba, blksz), buffer[from..from + n];
      SpliceWhole(old(block[..]), Bytes(disk, p, blksz));
      Copy(buffer, from, n, block, m);
      PatchInner(disk, p, blksz, m, x);
      assert block[0..blksz] == block[..];
      error := WriteSectors(lba, 1, block, 0);
    }

    /** The aligned remainder of block_write.  `done` bytes have been written when it returns. */
    method WriteAligned(first: nat, count: nat, buffer: array<Byte>, at: nat) returns (error: int, ghost done: nat)
      requires Valid() && buffer != block && at + count <= buffer.Length
      modifies this`disk, block
      ensures Valid()
      ensures error == 0 || error == EIO
      ensures error == 0 <==> Good(first, first + Ceiling(count, blksz))
      ensures done <= count && (error == 0 ==> done == count) && (done == 0 || At(first, blksz) + done <= |disk|)
      ensures disk == Patch(old(disk), At(first, blksz), buffer[at..at + done])
    {
      hide At;
      hide Quotient;
      hide Remainder;
      hide Splice;
      Division(count, blksz);
      AtSum(0, 0, blksz);
      var lba, left, n := first, count, Quotient(count, blksz);
      ghost var p := At(first, blksz);
      AtSum(first, n, blksz);
      error, done := 0, 0;
      if left >= blksz {
        error := WriteSectors(lba, n, buffer, at);
        if error != 0 {
          return;
        }
        done := At(n, blksz);
        lba := lba + n;
        left := left - At(n, blksz);
      }
      assert disk == Patch(old(disk), p, buffer[at..at + done]);
      if left != 0 {
        error := WritePart(lba, 0, left, buffer, at + (count - left));
        if error != 0 {
          return;
        }
        PatchPatch(old(disk), p, buffer[at..at + done], buffer[at + done..at + count]);
        assert buffer[at..at + count] == buffer[at..at + done] + buffer[at + done..at + count];
        done := count;
      }
    }

    /** block_write: a partial first sector by read-change-write, then the aligned rest.  `done` is the
        number of bytes that reached the disk: all of them, or a prefix when a sector fails. */
    method Write(off: nat, count: nat, buffer: array<Byte>, at: nat) returns (result: int, ghost done: nat)
      requires Valid() && buffer != block && at + count <= buffer.Length
      modifies this`disk, block
      ensures Valid()
      ensures done <= count && (done == 0 || off + done <= |disk|)
      ensures disk == Patch(old(disk), off, buffer[at..at + done])
      ensures count == 0 || Good(Quotient(off, blksz), Ceiling(off + count, blksz)) ==> result == count == done
      ensures count > 0 && !Good(Quotient(off, blksz), Ceiling(off + count, blksz)) ==> result == EIO
    {
      hide At;
      hide Quotient;
      hide Remainder;
      hide Ceiling;
      hide Good;
      hide Splice;
      hide Patch;
      PatchNothing(disk, off);
      assert buffer[at..at + 0] == [];
      if count == 0 {
        return 0, 0;
      }
      Division(off, blksz);
      Extent(off, count, blksz);
      var lba, left, m := Quotient(off, blksz), count, Remainder(off, blksz);
      var error;
      done := 0;
      if m != 0 {
        GoodSplit(lba, lba + 1, Ceiling(off + count, blksz));
        var n := if left > blksz - m then blksz - m else left;
        error := WritePart(lba, m, n, buffer, at);
        if error != 0 {
          return error, 0;
        }
        done := n;
        left := left - n;
        if left == 0 {
          GoodEmpty(lba + 1);
          return count, count;
        }
        lba := lba + 1;
      }
      ghost var more;
      error, more := WriteAligned(lba, left, buffer, at + (count - left));
      PatchPatch(old(disk), off, buffer[at..at + done], buffer[at + done..at + done + more]);
      assert buffer[at..at + done + more] == buffer[at..at + done] + buffer[at + done..at + done + more];
      done := done + more;
      if error != 0 {
        return error, done;
      }
      result := count;
    }
  }
}
