/** Directory blocks as bytes: the "Linked Directory Entry Structure" of "The Second Extended File
    System, Internal Layout".  A record is a 32-bit inode number, a 16-bit record length, an 8-bit name
    length, an 8-bit file type and the name; records follow each other and fill the block. */
module Ext2Dirent {
  import opened BlockDevice
  import opened LittleEndian

  const HEAD: nat := 8

  // ----- Records

  /** A record: its length, and for a record in use its inode number and name. */
  datatype Record = Free(size: nat) | Used(size: nat, ino: nat, name: seq<Byte>)

  function InodeAt(b: seq<Byte>, at: nat): nat
    requires at + HEAD <= |b|
  {
    U32(b, at)
  }

  function LengthAt(b: seq<Byte>, at: nat): nat
    requires at + HEAD <= |b|
  {
    U16(b, at + 4)
  }

  function NameLengthAt(b: seq<Byte>, at: nat): nat
    requires at + HEAD <= |b|
  {
    b[at + 6]
  }

  /** A record of sane length starts at `at`: a multiple of four, inside the block up to `hi`, and long
      enough for its name if it is in use. */
  predicate RecordAt(b: seq<Byte>, at: nat, hi: nat)
  {
    && hi <= |b| && at + HEAD <= hi
    && HEAD <= LengthAt(b, at) && LengthAt(b, at) % 4 == 0 && at + LengthAt(b, at) <= hi
    && (InodeAt(b, at) != 0 ==> HEAD + NameLengthAt(b, at) <= LengthAt(b, at))
  }

  /** Records fill the bytes from `lo` to `hi`. */
  predicate Tiled(b: seq<Byte>, lo: nat, hi: nat)
    decreases hi - lo
  {
    lo == hi || (lo < hi && RecordAt(b, lo, hi) && Tiled(b, lo + LengthAt(b, lo), hi))
  }

  function Decode(b: seq<Byte>, at: nat): Record
    requires at + HEAD <= |b| && (InodeAt(b, at) != 0 ==> at + HEAD + NameLengthAt(b, at) <= |b|)
  {
    if InodeAt(b, at) == 0 then Free(LengthAt(b, at))
    else Used(LengthAt(b, at), InodeAt(b, at), b[at + HEAD..at + HEAD + NameLengthAt(b, at)])
  }

  function Records(b: seq<Byte>, lo: nat, hi: nat): seq<Record>
    requires Tiled(b, lo, hi)
    decreases hi - lo
  {
    if lo == hi then [] else [Decode(b, lo)] + Records(b, lo + LengthAt(b, lo), hi)
  }

  lemma {:induction false} RecordsConcat(b: seq<Byte>, lo: nat, mid: nat, hi: nat)
    requires Tiled(b, lo, mid) && Tiled(b, mid, hi) && hi <= |b|
    ensures Tiled(b, lo, hi) && Records(b, lo, hi) == Records(b, lo, mid) + Records(b, mid, hi)
    decreases mid - lo
  {
    hide InodeAt;
    hide LengthAt;
    hide NameLengthAt;
    hide Decode;
    if lo < mid {
      TiledOrder(b, mid, hi);
      var next := lo + LengthAt(b, lo);
      RecordsConcat(b, next, mid, hi);
      assert RecordAt(b, lo, hi);
      var r, s, t := Decode(b, lo), Records(b, next, mid), Records(b, mid, hi);
      assert [r] + (s + t) == [r] + s + t;
    }
  }

  lemma {:induction false} TiledOrder(b: seq<Byte>, lo: nat, hi: nat)
    requires Tiled(b, lo, hi)
    ensures lo <= hi
  {
  }

  ghost predicate SameBytes(b: seq<Byte>, c: seq<Byte>, lo: nat, hi: nat)
  {
    hi <= |b| && hi <= |c| && forall k :: lo <= k < hi ==> b[k] == c[k]
  }

  lemma RecordFrame(b: seq<Byte>, c: seq<Byte>, at: nat, hi: nat)
    requires RecordAt(b, at, hi) && SameBytes(b, c, at, hi)
    ensures RecordAt(c, at, hi) && LengthAt(c, at) == LengthAt(b, at) && Decode(c, at) == Decode(b, at)
  {
    assert InodeAt(b, at) == InodeAt(c, at) && NameLengthAt(b, at) == NameLengthAt(c, at);
    var m := NameLengthAt(b, at);
    if InodeAt(b, at) != 0 { assert b[at + HEAD..at + HEAD + m] == c[at + HEAD..at + HEAD + m]; }
  }

  /** Records read only the bytes they cover. */
  lemma {:induction false} RecordsFrame(b: seq<Byte>, c: seq<Byte>, lo: nat, hi: nat)
    requires Tiled(b, lo, hi) && SameBytes(b, c, lo, hi)
    ensures Tiled(c, lo, hi) && Records(c, lo, hi) == Records(b, lo, hi)
    decreases hi - lo
  {
    if lo < hi {
      RecordFrame(b, c, lo, hi);
      RecordsFrame(b, c, lo + LengthAt(b, lo), hi);
    }
  }

  // ----- Writing a record

  /** `c` is `b` with a record in use written at `at`: header, name and the terminator strcpy adds. */
  ghost predicate Filled(b: seq<Byte>, c: seq<Byte>, at: nat, size: nat, ino: nat, kind: Byte, name: seq<Byte>)
  {
    var n := |name|;
    && |c| == |b| && n < 256 && at + HEAD + n <= |b|
    && c[at..at + 4] == Bytes32(ino) && c[at + 4..at + 6] == Bytes16(size) && c[at + 6] == n && c[at + 7] == kind
    && c[at + HEAD..at + HEAD + n] == name
    && (at + HEAD + n < |b| ==> c[at + HEAD + n] == 0)
    && forall k :: 0 <= k < |b| && (k < at || at + HEAD + n < k) ==> c[k] == b[k]
  }

  lemma FilledDecodes(b: seq<Byte>, c: seq<Byte>, at: nat, size: nat, ino: nat, kind: Byte, name: seq<Byte>, hi: nat)
    requires Filled(b, c, at, size, ino, kind, name) && 0 < ino < 0x1_0000_0000 && size < 65536
    requires HEAD + |name| <= size && size % 4 == 0 && at + size <= hi <= |b|
    ensures RecordAt(c, at, hi) && LengthAt(c, at) == size && Decode(c, at) == Used(size, ino, name)
  {
    hide U16;
    hide U32;
    ReadBack32(c, at, ino);
    ReadBack16(c, at + 4, size);
  }

  /** `c` is `b` with the header of a free record at `at`; its name length and type are left as they are. */
  ghost predicate Freed(b: seq<Byte>, c: seq<Byte>, at: nat, size: nat)
  {
    && |c| == |b| && at + HEAD <= |b|
    && c[at..at + 4] == Bytes32(0) && c[at + 4..at + 6] == Bytes16(size)
    && forall k :: 0 <= k < |b| && (k < at || at + 6 <= k) ==> c[k] == b[k]
  }

  lemma FreedDecodes(c: seq<Byte>, at: nat, size: nat, hi: nat)
    requires at + HEAD <= |c| && c[at..at + 4] == Bytes32(0) && c[at + 4..at + 6] == Bytes16(size)
    requires HEAD <= size < 65536 && size % 4 == 0 && at + size <= hi <= |c|
    ensures RecordAt(c, at, hi) && LengthAt(c, at) == size && Decode(c, at) == Free(size)
  {
    hide U16;
    hide U32;
    ReadBack32(c, at, 0);
    ReadBack16(c, at + 4, size);
  }

  /** A tiling whose record at `at` is replaced by `mid`, records that fill the same bytes. */
  lemma ReplaceRecord(b: seq<Byte>, c: seq<Byte>, at: nat, end: nat, hi: nat)
    requires Tiled(b, 0, at) && Tiled(b, end, hi) && hi <= |b| && |c| == |b| && at <= end
    requires Tiled(c, at, end) && SameBytes(b, c, 0, at) && SameBytes(b, c, end, hi)
    ensures Tiled(c, 0, hi)
    ensures Records(c, 0, hi) == Records(b, 0, at) + Records(c, at, end) + Records(b, end, hi)
  {
    hide RecordAt;
    RecordsFrame(b, c, 0, at);
    RecordsFrame(b, c, end, hi);
    TiledOrder(b, end, hi);
    RecordsConcat(c, 0, at, end);
    RecordsConcat(c, 0, end, hi);
  }
}
