/** The loops over directory blocks of kernel/src/ext2fs/inode.c, byte for byte. */
module Ext2Directory {
  import opened BlockDevice
  import opened LittleEndian
  import opened Ext2Dirent
  import opened Options
  import opened Ext2Names

  const ENOENT: int := -2

  /** The record at `at` of a block tiled up to there and from there on. */
  lemma RecordHere(b: seq<Byte>, at: nat, hi: nat)
    requires Tiled(b, 0, at) && Tiled(b, at, hi) && hi <= |b| && at < hi
    ensures RecordAt(b, at, hi) && at + LengthAt(b, at) <= hi
    ensures Records(b, at, hi) == [Decode(b, at)] + Records(b, at + LengthAt(b, at), hi)
    ensures Tiled(b, at + LengthAt(b, at), hi) && Tiled(b, 0, at + LengthAt(b, at))
    ensures Records(b, 0, at + LengthAt(b, at)) == Records(b, 0, at) + [Decode(b, at)]
    ensures LengthAt(b, at) > 0
  {
    var n := at + LengthAt(b, at);
    assert RecordAt(b, at, n);
    assert Records(b, n, n) == [];
    assert Records(b, at, n) == [Decode(b, at)];
    RecordsConcat(b, 0, at, n);
  }

  // ----- Searching one block

  /** The inner loop of e2_inode_lookup and e2_inode_unlink: the record in use with this name, if any. */
  method FindName(b: seq<Byte>, name: Name) returns (at: Option<nat>, ghost k: nat)
    requires Tiled(b, 0, |b|)
    ensures at.None? ==> FindIndex(Records(b, 0, |b|), name) == None
    ensures at.Some? ==>
              && Tiled(b, 0, at.value) && Tiled(b, at.value, |b|) && at.value < |b|
              && k == |Records(b, 0, at.value)| && FindIndex(Records(b, 0, |b|), name) == Some(k)
              && Records(b, 0, |b|) == Records(b, 0, at.value) + Records(b, at.value, |b|)
  {
    hide RecordAt;
    var iter := 0;
    while iter < |b|
      invariant iter <= |b| && Tiled(b, 0, iter) && Tiled(b, iter, |b|)
      invariant FindIndex(Records(b, 0, iter), name) == None
      decreases |b| - iter
    {
      RecordHere(b, iter, |b|);
      RecordsConcat(b, 0, iter, |b|);
      Known(b, iter, |b|);
      if InodeAt(b, iter) != 0 && NameLengthAt(b, iter) == |name| && b[iter + HEAD..iter + HEAD + |name|] == name {
        k := |Records(b, 0, iter)|;
        FirstThere(Records(b, 0, iter), Records(b, iter, |b|), name);
        return Some(iter), k;
      }
      NotYet(Records(b, 0, iter), Decode(b, iter), name);
      iter := iter + LengthAt(b, iter);
    }
    at, k := None, 0;
  }

  lemma Known(b: seq<Byte>, at: nat, hi: nat)
    requires RecordAt(b, at, hi)
    ensures at + HEAD <= |b| && (InodeAt(b, at) != 0 ==> at + HEAD + NameLengthAt(b, at) <= |b|)
  {
  }

  lemma {:induction false} FirstThere(a: seq<Record>, c: seq<Record>, name: Name)
    requires FindIndex(a, name) == None && c != [] && c[0].Used? && c[0].name == name
    ensures FindIndex(a + c, name) == Some(|a|)
  {
    assert (a + c)[|a|] == c[0];
    assert forall i :: 0 <= i < |a| ==> (a + c)[i] == a[i];
  }

  lemma NotYet(a: seq<Record>, r: Record, name: Name)
    requires FindIndex(a, name) == None && !(r.Used? && r.name == name)
    ensures FindIndex(a + [r], name) == None
  {
    assert forall i :: 0 <= i < |a| ==> (a + [r])[i] == a[i];
  }

  /** The inner loop of e2_inode_link: the first free record with room for the name. */
  method FindRoom(b: seq<Byte>, n: nat) returns (at: Option<nat>, ghost k: nat)
    requires Tiled(b, 0, |b|)
    ensures at.None? ==> FirstFit(Records(b, 0, |b|), n) == None
    ensures at.Some? ==>
              && Tiled(b, 0, at.value) && Tiled(b, at.value, |b|) && at.value < |b|
              && at.value + HEAD <= |b| && InodeAt(b, at.value) == 0 && LengthAt(b, at.value) >= HEAD + n
              && k == |Records(b, 0, at.value)| && FirstFit(Records(b, 0, |b|), n) == Some(k)
              && Records(b, 0, |b|) == Records(b, 0, at.value) + Records(b, at.value, |b|)
  {
    hide RecordAt;
    hide InodeAt;
    hide LengthAt;
    hide NameLengthAt;
    hide FirstFit;
    var iter := 0;
    NoRecords(b, n);
    while iter < |b|
      invariant iter <= |b| && Tiled(b, 0, iter) && Tiled(b, iter, |b|)
      invariant FirstFit(Records(b, 0, iter), n) == None
      decreases |b| - iter
    {
      RecordHere(b, iter, |b|);
      RecordsConcat(b, 0, iter, |b|);
      Known(b, iter, |b|);
      if InodeAt(b, iter) == 0 && LengthAt(b, iter) >= HEAD + n {
        k := |Records(b, 0, iter)|;
        FitThere(Records(b, 0, iter), Records(b, iter, |b|), n);
        return Some(iter), k;
      }
      NoFitYet(Records(b, 0, iter), Decode(b, iter), n);
      iter := iter + LengthAt(b, iter);
    }
    at, k := None, 0;
  }

  lemma NoRecords(b: seq<Byte>, n: nat)
    ensures Tiled(b, 0, 0) && FirstFit(Records(b, 0, 0), n) == None
  {
  }

  lemma {:induction false} FitThere(a: seq<Record>, c: seq<Record>, n: nat)
    requires FirstFit(a, n) == None && c != [] && c[0].Free? && c[0].size >= HEAD + n
    ensures FirstFit(a + c, n) == Some(|a|)
  {
    if a == [] {
      assert a + c == c;
    } else {
      FitThere(a[1..], c, n);
      assert (a + c)[1..] == a[1..] + c;
    }
  }

  lemma {:induction false} NoFitYet(a: seq<Record>, r: Record, n: nat)
    requires FirstFit(a, n) == None && !(r.Free? && r.size >= HEAD + n)
    ensures FirstFit(a + [r], n) == None
  {
    if a != [] {
      NoFitYet(a[1..], r, n);
      assert (a + [r])[1..] == a[1..] + [r];
    }
  }

  // ----- Writing one record

  /** The file type of the record. */
  predicate HasType(b: seq<Byte>, at: nat, kind: Byte) { at + HEAD <= |b| && b[at + 7] == kind }

  /** The body of e2_inode_link on the block that holds the chosen record; `past` says that the terminator is
      written to the byte after the block. */
  method WriteEntry(b: seq<Byte>, at: nat, ino: nat, kind: Byte, name: Name, ghost k: nat) returns (c: seq<Byte>, past: bool)
    requires |b| < 65536 && Tiled(b, 0, at) && Tiled(b, at, |b|) && at < |b| && k == |Records(b, 0, at)|
    requires InodeAt(b, at) == 0 && LengthAt(b, at) >= HEAD + |name| && |name| < 256 && 0 < ino < 0x1_0000_0000
    ensures Tiled(b, 0, |b|) && |c| == |b| && Tiled(c, 0, |c|)
    ensures k < |Records(b, 0, |b|)| && Records(b, 0, |b|)[k] == Free(LengthAt(b, at))
    ensures Records(c, 0, |c|) == LinkAt(Records(b, 0, |b|), k, ino, name)
    ensures past <==> Overruns(Records(b, 0, |b|), k, name)
    ensures HasType(c, at, kind)
  {
    hide InodeAt;
    hide LengthAt;
    hide Tiled;
    hide Filled;
    BlockRecords(b, at, k);
    EmptyTail(b, at + LengthAt(b, at));
    if LengthAt(b, at) - Needed(|name|) > HEAD {
      c := WriteSplit(b, at, ino, kind, name, k);
      past := false;
    } else {
      LengthHere(b, at);
      c, past := Fill(b, at, LengthAt(b, at), ino, kind, name);
      WholeWritten(b, c, at, LengthAt(b, at), ino, kind, name, k);
    }
  }

  /** The same where the record is split in two. */
  method WriteSplit(b: seq<Byte>, at: nat, ino: nat, kind: Byte, name: Name, ghost k: nat) returns (c: seq<Byte>)
    requires |b| < 65536 && Tiled(b, 0, at) && Tiled(b, at, |b|) && at < |b| && k == |Records(b, 0, at)|
    requires at + HEAD <= |b| && InodeAt(b, at) == 0 && LengthAt(b, at) - Needed(|name|) > HEAD
    requires |name| < 256 && 0 < ino < 0x1_0000_0000
    ensures Tiled(b, 0, |b|) && |c| == |b| && Tiled(c, 0, |c|)
    ensures k < |Records(b, 0, |b|)| && Records(b, 0, |b|)[k] == Free(LengthAt(b, at))
    ensures Records(c, 0, |c|) == LinkAt(Records(b, 0, |b|), k, ino, name)
    ensures HasType(c, at, kind)
  {
    hide InodeAt;
    hide LengthAt;
    hide Tiled;
    hide Records;
    hide Bytes16;
    hide Bytes32;
    hide LinkAt;
    hide Needed;
    BlockRecords(b, at, k);
    var size, needed := LengthAt(b, at), Needed(|name|);
    var sp := at + needed;
    var e := PutFree(b, sp, size - needed);
    var d := PutLength(e, at, needed);
    assert d[sp..sp + 4] == e[sp..sp + 4] && d[sp + 4..sp + 6] == e[sp + 4..sp + 6];
    assert forall i :: 0 <= i < |b| && (i < at || at + size <= i) ==> d[i] == b[i];
    var past;
    c, past := Fill(d, at, needed, ino, kind, name);
    hide Freed;
    SplitWritten(b, d, c, at, size, ino, kind, name, k);
  }

  /** The header of the record split off. */
  method PutFree(b: seq<Byte>, at: nat, size: nat) returns (c: seq<Byte>)
    requires at + HEAD <= |b|
    ensures Freed(b, c, at, size)
  {
    c := PutLength(b, at, size);
    ghost var d := c;
    c := Splice(c, at, Bytes32(0));
    assert c[at + 4..at + 6] == d[at + 4..at + 6];
  }

  method PutLength(b: seq<Byte>, at: nat, size: nat) returns (c: seq<Byte>)
    requires at + HEAD <= |b|
    ensures |c| == |b| && c[at + 4..at + 6] == Bytes16(size)
    ensures forall k :: 0 <= k < |b| && (k < at + 4 || at + 6 <= k) ==> c[k] == b[k]
  {
    c := Splice(b, at + 4, Bytes16(size));
  }

  /** The inode number, the name length, the file type, and strcpy of the name with its terminator. */
  method Fill(b: seq<Byte>, at: nat, size: nat, ino: nat, kind: Byte, name: Name) returns (c: seq<Byte>, past: bool)
    requires |name| < 256 && at + HEAD + |name| <= |b| && b[at + 4..at + 6] == Bytes16(size)
    ensures Filled(b, c, at, size, ino, kind, name) && (past <==> at + HEAD + |name| == |b|) && HasType(c, at, kind)
  {
    var n := |name|;
    c := Splice(b, at, Bytes32(ino));
    c := c[at + 6 := n];
    c := c[at + 7 := kind];
    assert c[at + 4..at + 6] == b[at + 4..at + 6] && c[at..at + 4] == Bytes32(ino);
    ghost var d := c;
    c := Splice(c, at + HEAD, name);
    assert c[at + 4..at + 6] == d[at + 4..at + 6] && c[at..at + 4] == d[at..at + 4];
    assert c[at + HEAD..at + HEAD + n] == name;
    past := at + HEAD + n == |c|;
    if !past {
      d := c;
      c := c[at + HEAD + n := 0];
      assert c[at + 4..at + 6] == d[at + 4..at + 6] && c[at..at + 4] == d[at..at + 4];
      assert c[at + HEAD..at + HEAD + n] == d[at + HEAD..at + HEAD + n];
    }
  }

  lemma LengthHere(b: seq<Byte>, at: nat)
    requires at + HEAD <= |b|
    ensures b[at + 4..at + 6] == Bytes16(LengthAt(b, at))
  {
    WriteBack16(b, at + 4);
  }

  lemma BlockRecords(b: seq<Byte>, at: nat, k: nat)
    requires Tiled(b, 0, at) && Tiled(b, at, |b|) && at < |b| && k == |Records(b, 0, at)|
    ensures Tiled(b, 0, |b|) && k < |Records(b, 0, |b|)| && at + HEAD <= |b|
    ensures Records(b, 0, |b|)[k].size == LengthAt(b, at)
    ensures InodeAt(b, at) == 0 ==> Records(b, 0, |b|)[k].Free?
    ensures Records(b, 0, |b|)[..k] == Records(b, 0, at)
    ensures at + LengthAt(b, at) <= |b| && LengthAt(b, at) % 4 == 0 && HEAD <= LengthAt(b, at)
    ensures Tiled(b, at + LengthAt(b, at), |b|)
    ensures Records(b, 0, |b|)[k + 1..] == Records(b, at + LengthAt(b, at), |b|)
  {
    RecordHere(b, at, |b|);
    RecordsConcat(b, 0, at, |b|);
  }

  /** The chosen record was split: two records now fill its bytes. */
  lemma SplitWritten(b: seq<Byte>, d: seq<Byte>, c: seq<Byte>, at: nat, size: nat, ino: nat, kind: Byte, name: Name, k: nat)
    requires |b| < 65536 && Tiled(b, 0, at) && Tiled(b, at, |b|) && at < |b| && k == |Records(b, 0, at)|
    requires InodeAt(b, at) == 0 && size == LengthAt(b, at) && 0 < ino < 0x1_0000_0000 && |name| < 256
    requires size > Needed(|name|) + HEAD && |d| == |b|
    requires var sp := at + Needed(|name|);
             && sp + 6 <= |d| && d[sp..sp + 4] == Bytes32(0) && d[sp + 4..sp + 6] == Bytes16(size - Needed(|name|))
    requires forall i :: 0 <= i < |b| && (i < at || at + size <= i) ==> d[i] == b[i]
    requires Filled(d, c, at, Needed(|name|), ino, kind, name)
    ensures Tiled(b, 0, |b|) && Tiled(c, 0, |c|) && k < |Records(b, 0, |b|)| && Records(b, 0, |b|)[k] == Free(size)
    ensures Records(c, 0, |c|) == LinkAt(Records(b, 0, |b|), k, ino, name)
  {
    hide Tiled;
    hide Records;
    hide InodeAt;
    hide LengthAt;
    hide Needed;
    hide Bytes16;
    hide Bytes32;
    var needed := Needed(|name|);
    BlockRecords(b, at, k);
    TwoWritten(d, c, at, size, ino, kind, name);
    var end := at + size;
    assert SameBytes(b, c, 0, at) && SameBytes(b, c, end, |b|);
    hide SameBytes;
    hide Filled;
    ReplaceRecord(b, c, at, end, |b|);
  }

  lemma TwoWritten(d: seq<Byte>, c: seq<Byte>, at: nat, size: nat, ino: nat, kind: Byte, name: Name)
    requires size < 65536 && size % 4 == 0 && at + size <= |d| && 0 < ino < 0x1_0000_0000 && |name| < 256
    requires size > Needed(|name|) + HEAD
    requires var sp := at + Needed(|name|);
             && sp + 6 <= |d| && d[sp..sp + 4] == Bytes32(0) && d[sp + 4..sp + 6] == Bytes16(size - Needed(|name|))
    requires Filled(d, c, at, Needed(|name|), ino, kind, name)
    ensures Tiled(c, at, at + size)
    ensures Records(c, at, at + size) == [Used(Needed(|name|), ino, name), Free(size - Needed(|name|))]
  {
    hide Tiled;
    hide Records;
    hide RecordAt;
    hide LengthAt;
    hide Decode;
    hide Needed;
    hide Bytes16;
    hide Bytes32;
    var needed := Needed(|name|);
    var sp, end := at + needed, at + size;
    SplitHeader(d, c, at, ino, kind, name, size - needed);
    assert |c| == |d|;
    hide Filled;
    FilledDecodes(d, c, at, needed, ino, kind, name, end);
    FreedDecodes(c, sp, size - needed, end);
    TwoRecords(c, at, sp, end);
  }

  lemma SplitHeader(d: seq<Byte>, c: seq<Byte>, at: nat, ino: nat, kind: Byte, name: Name, rest: nat)
    requires Filled(d, c, at, Needed(|name|), ino, kind, name) && |name| < 256
    requires var sp := at + Needed(|name|);
             sp + 6 <= |d| && d[sp..sp + 4] == Bytes32(0) && d[sp + 4..sp + 6] == Bytes16(rest)
    ensures var sp := at + Needed(|name|);
            c[sp..sp + 4] == Bytes32(0) && c[sp + 4..sp + 6] == Bytes16(rest)
  {
    var sp := at + Needed(|name|);
    assert d[sp] == d[sp..sp + 4][0] == 0;
    assert c[sp] == d[sp] && forall i :: sp < i < sp + 6 ==> c[i] == d[i];
    assert c[sp..sp + 4] == d[sp..sp + 4] && c[sp + 4..sp + 6] == d[sp + 4..sp + 6];
  }

  lemma TwoRecords(c: seq<Byte>, at: nat, sp: nat, end: nat)
    requires end <= |c| && RecordAt(c, at, end) && at + LengthAt(c, at) == sp
    requires RecordAt(c, sp, end) && sp + LengthAt(c, sp) == end
    ensures Tiled(c, at, end) && Records(c, at, end) == [Decode(c, at), Decode(c, sp)]
  {
    hide RecordAt;
    hide LengthAt;
    assert Tiled(c, end, end) && Records(c, end, end) == [];
    OneMore(c, sp, end);
    OneMore(c, at, end);
  }

  lemma OneMore(c: seq<Byte>, at: nat, end: nat)
    requires RecordAt(c, at, end) && Tiled(c, at + LengthAt(c, at), end)
    ensures Tiled(c, at, end) && Records(c, at, end) == [Decode(c, at)] + Records(c, at + LengthAt(c, at), end)
  {
  }

  /** The chosen record was used whole: one record fills its bytes, and if the name fills it too the
      terminator has cleared the first byte of the next record. */
  lemma WholeWritten(b: seq<Byte>, c: seq<Byte>, at: nat, size: nat, ino: nat, kind: Byte, name: Name, k: nat)
    requires |b| < 65536 && Tiled(b, 0, at) && Tiled(b, at, |b|) && at < |b| && k == |Records(b, 0, at)|
    requires InodeAt(b, at) == 0 && size == LengthAt(b, at) && 0 < ino < 0x1_0000_0000 && |name| < 256
    requires HEAD + |name| <= size <= Needed(|name|) + HEAD && Filled(b, c, at, size, ino, kind, name)
    ensures Tiled(b, 0, |b|) && Tiled(c, 0, |c|) && k < |Records(b, 0, |b|)| && Records(b, 0, |b|)[k] == Free(size)
    ensures Records(c, 0, |c|) == LinkAt(Records(b, 0, |b|), k, ino, name)
  {
    hide Tiled;
    hide Records;
    hide RecordAt;
    hide InodeAt;
    hide LengthAt;
    hide Decode;
    hide Needed;
    BlockRecords(b, at, k);
    var end := at + size;
    assert SameBytes(b, c, 0, at);
    OneWritten(b, c, at, size, ino, kind, name);
    EmptyTail(b, end);
    RecordsFrame(b, c, 0, at);
    RecordsConcat(c, 0, at, end);
    if size == HEAD + |name| && end < |b| {
      assert c[end] == 0 && SameBytes(b, c, end + 1, |b|);
      hide SameBytes;
      hide Filled;
      SmudgeRecords(b, c, end, |b|);
    } else {
      assert SameBytes(b, c, end, |b|);
      hide SameBytes;
      hide Filled;
      RecordsFrame(b, c, end, |b|);
    }
    RecordsConcat(c, 0, end, |c|);
  }

  lemma OneWritten(b: seq<Byte>, c: seq<Byte>, at: nat, size: nat, ino: nat, kind: Byte, name: Name)
    requires Filled(b, c, at, size, ino, kind, name) && 0 < ino < 0x1_0000_0000 && size < 65536
    requires HEAD + |name| <= size && size % 4 == 0 && at + size <= |b|
    ensures Tiled(c, at, at + size) && Records(c, at, at + size) == [Used(size, ino, name)]
  {
    FilledDecodes(b, c, at, size, ino, kind, name, at + size);
    assert Tiled(c, at + size, at + size) && Records(c, at + size, at + size) == [];
    OneMore(c, at, at + size);
  }

  lemma EmptyTail(b: seq<Byte>, end: nat)
    requires Tiled(b, end, |b|)
    ensures end == |b| <==> Records(b, end, |b|) == []
  {
  }

  /** Clearing the first byte of a record. */
  lemma SmudgeRecords(b: seq<Byte>, c: seq<Byte>, at: nat, hi: nat)
    requires Tiled(b, at, hi) && at < hi <= |b| && |c| == |b| && c[at] == 0 && SameBytes(b, c, at + 1, hi)
    ensures Tiled(c, at, hi) && Records(b, at, hi) != []
    ensures Records(c, at, hi) == [Smudge(Records(b, at, hi)[0])] + Records(b, at, hi)[1..]
  {
    SmudgeOne(b, c, at, hi);
    RecordsFrame(b, c, at + LengthAt(b, at), hi);
    OneMore(c, at, hi);
  }

  lemma SmudgeOne(b: seq<Byte>, c: seq<Byte>, at: nat, hi: nat)
    requires RecordAt(b, at, hi) && hi <= |b| && |c| == |b| && c[at] == 0 && SameBytes(b, c, at + 1, hi)
    ensures RecordAt(c, at, hi) && LengthAt(c, at) == LengthAt(b, at) && Decode(c, at) == Smudge(Decode(b, at))
  {
    hide U32;
    hide U16;
    LowByte(b, c, at);
    SameHigh(b, c, at);
    var x := U32(b, at);
    assert NameLengthAt(b, at) == NameLengthAt(c, at);
    var m := NameLengthAt(b, at);
    if x != 0 { assert b[at + HEAD..at + HEAD + m] == c[at + HEAD..at + HEAD + m]; }
  }

  /** Clearing the low byte of a word. */
  lemma LowByte(b: seq<Byte>, c: seq<Byte>, at: nat)
    requires at + 4 <= |b| == |c| && c[at] == 0 && forall i :: at < i < at + 4 ==> b[i] == c[i]
    ensures U32(c, at) == U32(b, at) - U32(b, at) % 256
  {
  }

  lemma SameHigh(b: seq<Byte>, c: seq<Byte>, at: nat)
    requires at + 6 <= |b| == |c| && b[at + 4] == c[at + 4] && b[at + 5] == c[at + 5]
    ensures U16(c, at + 4) == U16(b, at + 4)
  {
  }

  // ----- The directory

  ghost predicate Blocks(blocks: seq<seq<Byte>>, bs: nat)
  {
    forall i :: 0 <= i < |blocks| ==> |blocks[i]| == bs && Tiled(blocks[i], 0, bs)
  }

  ghost function View(blocks: seq<seq<Byte>>, bs: nat): (v: seq<seq<Record>>)
    requires Blocks(blocks, bs)
    ensures |v| == |blocks| && forall i :: 0 <= i < |v| ==> v[i] == Records(blocks[i], 0, bs)
  {
    seq(|blocks|, i requires 0 <= i < |blocks| => Records(blocks[i], 0, bs))
  }

  lemma ViewUpdate(blocks: seq<seq<Byte>>, bs: nat, j: nat, c: seq<Byte>)
    requires Blocks(blocks, bs) && j < |blocks| && |c| == bs && Tiled(c, 0, bs)
    ensures Blocks(blocks[j := c], bs)
    ensures View(blocks[j := c], bs) == View(blocks, bs)[j := Records(c, 0, bs)]
  {
  }

  lemma ViewAppend(blocks: seq<seq<Byte>>, bs: nat, c: seq<Byte>)
    requires Blocks(blocks, bs) && |c| == bs && Tiled(c, 0, bs)
    ensures Blocks(blocks + [c], bs) && View(blocks + [c], bs) == View(blocks, bs) + [Records(c, 0, bs)]
  {
  }

  lemma {:induction false} FindAllSkip(rss: seq<seq<Record>>, j: nat, name: Name)
    requires j <= |rss| && forall i :: 0 <= i < j ==> FindIndex(rss[i], name) == None
    ensures FindAll(rss, name) == FindAll(rss[j..], name)
    ensures HolderOf(rss, name) == match HolderOf(rss[j..], name) case None => None case Some(h) => Some(j + h)
  {
    if j == 0 {
      assert rss[0..] == rss;
    } else {
      FindAllSkip(rss[1..], j - 1, name);
      assert rss[1..][j - 1..] == rss[j..];
    }
  }

  lemma {:induction false} FitAllSkip(rss: seq<seq<Record>>, j: nat, n: nat)
    requires j <= |rss| && forall i :: 0 <= i < j ==> FirstFit(rss[i], n) == None
    ensures FitAll(rss[j..], n).None? ==> FitAll(rss, n) == None
    ensures FitAll(rss[j..], n).Some? ==>
              var p := FitAll(rss[j..], n).value; FitAll(rss, n) == Some((j + p.0, p.1))
  {
    if j == 0 {
      assert rss[0..] == rss;
    } else {
      FitAllSkip(rss[1..], j - 1, n);
      assert rss[1..][j - 1..] == rss[j..];
    }
  }

  /** A directory: the contents of its blocks, and of block number 0 of the device, where an entry goes
      when no block could be allocated for it. */
  class Directory {
    const bs: nat
    var blocks: seq<seq<Byte>>
    var boot: seq<Byte>

    ghost predicate Valid()
      reads this
    {
      1024 <= bs < 65536 && bs % 4 == 0 && |boot| == bs && Blocks(blocks, bs)
    }

    /** e2_inode_lookup */
    method Lookup(name: Name) returns (r: Option<nat>)
      requires Valid()
      ensures r == FindAll(View(blocks, bs), name)
    {
      hide RecordAt;
      hide InodeAt;
      hide LengthAt;
      hide NameLengthAt;
      ghost var v := View(blocks, bs);
      var i := 0;
      while i < |blocks|
        invariant i <= |blocks|
        invariant forall x :: 0 <= x < i ==> FindIndex(v[x], name) == None
      {
        var at, k := FindName(blocks[i], name);
        if at.Some? {
          FindAllSkip(v, i, name);
          RecordHere(blocks[i], at.value, bs);
          assert v[i][k] == Decode(blocks[i], at.value);
          EntryHere(blocks[i], at.value);
          return Some(InodeAt(blocks[i], at.value));
        }
        i := i + 1;
      }
      FindAllSkip(v, i, name);
      r := None;
    }

    /** The loop of e2_inode_link over the blocks. */
    method FindBlock(n: nat) returns (place: Option<(nat, nat)>, ghost k: nat)
      requires Valid()
      ensures place.None? ==> FitAll(View(blocks, bs), n) == None
      ensures place.Some? ==>
                && place.value.0 < |blocks| && FitAll(View(blocks, bs), n) == Some((place.value.0, k))
                && var b, at := blocks[place.value.0], place.value.1;
                   && Tiled(b, 0, at) && Tiled(b, at, |b|) && at + HEAD <= |b| && k == |Records(b, 0, at)|
                   && InodeAt(b, at) == 0 && LengthAt(b, at) >= HEAD + n
    {
      hide Tiled;
      hide Records;
      hide FitAll;
      hide FirstFit;
      ghost var v := View(blocks, bs);
      var i := 0;
      while i < |blocks|
        invariant i <= |blocks| && forall x :: 0 <= x < i ==> FirstFit(v[x], n) == None
      {
        var at;
        at, k := FindRoom(blocks[i], n);
        if at.Some? {
          FitAllHere(v, i, n);
          FitAllSkip(v, i, n);
          return Some((i, at.value)), k;
        }
        i := i + 1;
      }
      FitAllNone(v, n);
      place, k := None, 0;
    }

    /** e2_inode_link; `grown` says whether a block could be allocated when one is needed, `self` that the directory
        is linked into itself, `past` that the terminator of the name is written after the end of the block's
        buffer.  It does not return where it waits for a lock of its own. */
    method Link(name: Name, ino: nat, kind: Byte, grown: bool, self: bool) returns (result: Option<int>, past: bool)
      requires Valid() && |name| < 256 && 0 < ino < 0x1_0000_0000
      modifies this
      ensures Valid() && result == if LinkHangs(old(View(blocks, bs)), |name|, grown, self) then None else Some(0)
      ensures result.None? ==> blocks == old(blocks) && boot == old(boot) && !past
      ensures result.Some? ==> View(blocks, bs) == Linked(old(View(blocks, bs)), bs, ino, name, grown)
      ensures FitAll(old(View(blocks, bs)), |name|).Some? || grown ==> boot == old(boot)
      ensures result.Some? && FitAll(old(View(blocks, bs)), |name|).None? && !grown ==>
                Tiled(boot, 0, bs) && Records(boot, 0, bs) == Placed(bs, ino, name)
      ensures var v, p := old(View(blocks, bs)), FitAll(old(View(blocks, bs)), |name|);
              past <==> result.Some? && p.Some? && Overruns(v[p.value.0], p.value.1, name)
    {
      hide Tiled;
      hide Records;
      hide FitAll;
      hide InodeAt;
      hide LengthAt;
      result, past := None, false;
      if self {
        return;
      }
      var place, k := FindBlock(|name|);
      if place.Some? {
        var i, c := place.value.0, [];
        c, past := WriteEntry(blocks[i], place.value.1, ino, kind, name, k);
        ViewUpdate(blocks, bs, i, c);
        blocks, result := blocks[i := c], Some(0);
        return;
      }
      if (if grown then |blocks| + 1 else |blocks|) > 12 {
        return;
      }
      var c := FreshBlock(bs, ino, kind, name);
      if grown {
        ViewAppend(blocks, bs, c);
        blocks := blocks + [c];
      } else {
        boot := c;
      }
      result := Some(0);
    }

    /** e2_inode_unlink; `self` says that the name is the directory's own, whose lock is held. */
    method Unlink(name: Name, self: bool) returns (result: Option<int>)
      requires Valid()
      modifies this`blocks
      ensures Valid()
      ensures View(blocks, bs) == Unlinked(old(View(blocks, bs)), name)
      ensures result == if FindAll(old(View(blocks, bs)), name).None? then Some(ENOENT) else if self then None else Some(0)
    {
      hide Tiled;
      hide Records;
      ghost var v := View(blocks, bs);
      var i := 0;
      while i < |blocks|
        invariant i <= |blocks| && blocks == old(blocks)
        invariant forall x :: 0 <= x < i ==> FindIndex(v[x], name) == None
      {
        var at, k := FindName(blocks[i], name);
        if at.Some? {
          FindAllSkip(v, i, name);
          HolderHere(v, i, name);
          HolderFinds(v, name);
          var c := ClearEntry(blocks[i], at.value, k);
          ViewUpdate(blocks, bs, i, c);
          blocks := blocks[i := c];
          return if self then None else Some(0);
        }
        i := i + 1;
      }
      FindAllSkip(v, i, name);
      HolderFinds(v, name);
      result := Some(ENOENT);
    }
  }

  lemma EntryHere(b: seq<Byte>, at: nat)
    requires at + HEAD <= |b| && (InodeAt(b, at) != 0 ==> at + HEAD + NameLengthAt(b, at) <= |b|)
    ensures Decode(b, at).Used? ==> Decode(b, at).ino == InodeAt(b, at)
  {
  }

  lemma FitAllHere(rss: seq<seq<Record>>, i: nat, n: nat)
    requires i < |rss| && FirstFit(rss[i], n).Some?
    ensures FitAll(rss[i..], n) == Some((0, FirstFit(rss[i], n).value))
  {
  }

  lemma FitAllNone(rss: seq<seq<Record>>, n: nat)
    requires forall x :: 0 <= x < |rss| ==> FirstFit(rss[x], n) == None
    ensures FitAll(rss, n) == None
  {
    FitAllSkip(rss, |rss|, n);
  }

  lemma HolderHere(rss: seq<seq<Record>>, i: nat, name: Name)
    requires i < |rss| && FindIndex(rss[i], name).Some?
    ensures HolderOf(rss[i..], name) == Some(0)
  {
  }

  /** A new block of the directory: one free record, then the entry. */
  method FreshBlock(bs: nat, ino: nat, kind: Byte, name: Name) returns (c: seq<Byte>)
    requires 1024 <= bs < 65536 && bs % 4 == 0 && |name| < 256 && 0 < ino < 0x1_0000_0000
    ensures |c| == bs && Tiled(c, 0, bs) && Records(c, 0, bs) == Placed(bs, ino, name) && HasType(c, 0, kind)
  {
    var zero: seq<Byte> := seq(bs, i => 0);
    c := PutFree(zero, 0, bs);
    FreedDecodes(c, 0, bs, bs);
    FreedOne(c, 0, bs);
    EntryFree(c);
    hide Tiled;
    hide Records;
    hide RecordAt;
    hide LengthAt;
    hide InodeAt;
    EmptyPrefix(c);
    var d, past := WriteEntry(c, 0, ino, kind, name, 0);
    c := d;
  }

  lemma EntryFree(c: seq<Byte>)
    requires HEAD <= |c| && (InodeAt(c, 0) != 0 ==> HEAD + NameLengthAt(c, 0) <= |c|) && Decode(c, 0).Free?
    ensures InodeAt(c, 0) == 0
  {
  }

  lemma EmptyPrefix(c: seq<Byte>)
    ensures Tiled(c, 0, 0) && Records(c, 0, 0) == []
  {
  }

  /** Clearing the inode number of a record. */
  method ClearEntry(b: seq<Byte>, at: nat, ghost k: nat) returns (c: seq<Byte>)
    requires |b| < 65536 && Tiled(b, 0, at) && Tiled(b, at, |b|) && at < |b| && k == |Records(b, 0, at)|
    ensures Tiled(b, 0, |b|) && |c| == |b| && Tiled(c, 0, |c|) && k < |Records(b, 0, |b|)|
    ensures Records(c, 0, |c|) == UnlinkAt(Records(b, 0, |b|), k)
  {
    BlockRecords(b, at, k);
    c := Splice(b, at, Bytes32(0));
    ClearedRecords(b, c, at, k);
  }

  lemma ClearedRecords(b: seq<Byte>, c: seq<Byte>, at: nat, k: nat)
    requires |b| < 65536 && Tiled(b, 0, at) && Tiled(b, at, |b|) && at < |b| && k == |Records(b, 0, at)|
    requires at + 4 <= |b| && c == Splice(b, at, Bytes32(0))
    ensures Tiled(b, 0, |b|) && |c| == |b| && Tiled(c, 0, |c|) && k < |Records(b, 0, |b|)|
    ensures Records(c, 0, |c|) == UnlinkAt(Records(b, 0, |b|), k)
  {
    hide Tiled;
    hide Records;
    hide RecordAt;
    hide LengthAt;
    hide InodeAt;
    hide Bytes32;
    hide Bytes16;
    BlockRecords(b, at, k);
    var size := LengthAt(b, at);
    var end := at + size;
    LengthHere(b, at);
    assert c[at..at + 4] == Bytes32(0);
    assert c[at + 4..at + 6] == b[at + 4..at + 6];
    assert SameBytes(b, c, 0, at) && SameBytes(b, c, end, |b|);
    FreedOne(c, at, size);
    hide Splice;
    hide SameBytes;
    ReplaceRecord(b, c, at, end, |b|);
  }

  lemma FreedOne(c: seq<Byte>, at: nat, size: nat)
    requires at + size <= |c| && HEAD <= size < 65536 && size % 4 == 0
    requires c[at..at + 4] == Bytes32(0) && c[at + 4..at + 6] == Bytes16(size)
    ensures Tiled(c, at, at + size) && Records(c, at, at + size) == [Free(size)]
  {
    FreedDecodes(c, at, size, at + size);
    assert Tiled(c, at + size, at + size) && Records(c, at + size, at + size) == [];
    OneMore(c, at, at + size);
  }
}
