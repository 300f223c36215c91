/** The block map of an ext2 inode: twelve direct blocks, one single-indirect and one double-indirect
    block (kernel/src/ext2fs/inode.c, e2_inode_read_block_map and e2_inode_write_block_map).

    A file system block is a sequence of `p` 32-bit block numbers.  The layout read from is the one of
    "The Second Extended File System, Internal Layout": entry k of the map is direct for k < 12, comes
    from the indirect block for k < 12 + p, and from block (k - 12 - p) / p of the double-indirect block
    for k < 12 + p + p * p. */
module Ext2BlockMap {
  import opened Arithmetic
  import Ext2Space

  const ENOSPC: int := -28

  /** Block `b` of the store; blocks never written read as zeros. */
  function BlockOf(store: map<nat, seq<nat>>, p: nat, b: nat): (r: seq<nat>)
    requires forall c :: c in store ==> |store[c]| == p
    ensures |r| == p
  {
    if b in store then store[b] else seq(p, _ => 0)
  }

  ghost predicate StoreOk(store: map<nat, seq<nat>>, p: nat) { forall c :: c in store ==> |store[c]| == p }

  /** What entry `k` of the block map is, by the on-disk format. */
  function Lookup(iblock: seq<nat>, store: map<nat, seq<nat>>, p: nat, k: nat): nat
    requires |iblock| == 15 && p > 0 && (forall c :: c in store ==> |store[c]| == p) && k < 12 + p + At(p, p)
  {
    if k < 12 then iblock[k]
    else if k < 12 + p then BlockOf(store, p, iblock[12])[k - 12]
    else
      var j := k - 12 - p;
      Division(j, p);
      QuotientBound(j, p, p);
      BlockOf(store, p, BlockOf(store, p, iblock[13])[Quotient(j, p)])[Remainder(j, p)]
  }

  lemma QuotientBound(j: nat, p: nat, n: nat)
    requires p > 0 && j < At(n, p)
    ensures Quotient(j, p) < n
  {
    hide At;
    hide Quotient;
    hide Remainder;
    Division(j, p);
    if Quotient(j, p) >= n { AtMonotone(n, Quotient(j, p), p); }
  }

  /** The entries of the double-indirect block as e2_inode_write_block_map sees them before it starts. */
  function Doubles(iblock: seq<nat>, store: map<nat, seq<nat>>, p: nat): (r: seq<nat>)
    requires |iblock| == 15 && forall c :: c in store ==> |store[c]| == p
    ensures |r| == p
  {
    if iblock[13] == 0 then seq(p, _ => 0) else BlockOf(store, p, iblock[13])
  }

  /** Nonzero entries differ from each other and from everything in `others`. */
  ghost predicate Apart(s: seq<nat>, others: set<nat>)
  {
    && (forall i, j :: 0 <= i < j < |s| && s[i] != 0 ==> s[i] != s[j])
    && (forall i :: 0 <= i < |s| && s[i] != 0 ==> s[i] !in others)
  }

  ghost predicate TidyMap(iblock: seq<nat>, store: map<nat, seq<nat>>, p: nat, pool: seq<nat>)
    requires |iblock| == 15 && StoreOk(store, p)
  {
    && Apart(iblock[12..], {})
    && Apart(Doubles(iblock, store, p), {iblock[12], iblock[13], iblock[14]})
    && (forall i :: 0 <= i < |pool| ==> pool[i] !in iblock[12..] && pool[i] !in Doubles(iblock, store, p))
  }

  ghost function ReachOf(iblock: seq<nat>, store: map<nat, seq<nat>>, p: nat, pool: seq<nat>): set<nat>
    requires |iblock| == 15 && StoreOk(store, p)
  {
    (set b | b in iblock[12..]) + (set b | b in Doubles(iblock, store, p)) + (set b | b in pool)
  }

  /** What e2_alloc_block hands out: distinct blocks, none of them block 0, which stands for failure. */
  ghost predicate PoolOk(pool: seq<nat>)
  {
    (forall i, j :: 0 <= i < j < |pool| ==> pool[i] != pool[j]) && forall i :: 0 <= i < |pool| ==> pool[i] != 0
  }

  /** The blocks the allocator of the file system hands out are such a pool exactly when block 0 is in use, and then
      none of them is in a map whose blocks are held. */
  lemma AllocatorPool(s: Ext2Space.State, iblock: seq<nat>, store: map<nat, seq<nat>>, p: nat)
    requires Ext2Space.Good(s) && |iblock| == 15 && StoreOk(store, p)
    requires forall b :: (b in iblock[12..] || b in Doubles(iblock, store, p)) && b != 0 ==> b in s.held
    ensures PoolOk(Ext2Space.Supply(s)) <==> !Ext2Space.Vacant(s.sp, 0)
    ensures var pool := Ext2Space.Supply(s);
            PoolOk(pool) ==>
              (TidyMap(iblock, store, p, pool) <==>
               && Apart(iblock[12..], {})
               && Apart(Doubles(iblock, store, p), {iblock[12], iblock[13], iblock[14]}))
  {
    var pool := Ext2Space.Supply(s);
    Ext2Space.SupplyIsVacant(s);
    assert 0 in pool <==> Ext2Space.Vacant(s.sp, 0);
    hide Ext2Space.Supply;
    hide Doubles;
    hide Apart;
    forall i | 0 <= i < |pool| && pool[i] != 0
      ensures pool[i] !in iblock[12..] && pool[i] !in Doubles(iblock, store, p)
    {
      assert pool[i] in pool && Ext2Space.Vacant(s.sp, pool[i]);
      assert pool[i] in s.held ==> Ext2Space.Holds(s.sp, pool[i]);
    }
  }

  class Inode {
    const p: nat
    var iblock: seq<nat>
    var store: map<nat, seq<nat>>
    /** The blocks e2_alloc_block will hand out, in order. */
    var pool: seq<nat>

    ghost predicate Valid()
      reads this
    {
      && p > 0 && |iblock| == 15 && StoreOk(store, p)
      && PoolOk(pool)
    }

    /** The blocks this inode uses for its map: distinct, and not waiting to be allocated. */
    ghost predicate Tidy()
      reads this
      requires |iblock| == 15 && StoreOk(store, p)
    {
      TidyMap(iblock, store, p, pool)
    }

    /** The blocks a write of the map may touch: the inode's indirect blocks, and blocks waiting to be
        allocated.  Block 0 is among them exactly when a pointer is still missing. */
    ghost function Reach(): set<nat>
      reads this
      requires |iblock| == 15 && StoreOk(store, p)
    {
      ReachOf(iblock, store, p, pool)
    }

    method Alloc() returns (b: nat)
      requires Valid()
      modifies this`pool
      ensures Valid()
      ensures old(pool) == [] ==> b == 0 && pool == []
      ensures old(pool) != [] ==> b == old(pool)[0] && b != 0 && pool == old(pool)[1..] && b !in pool
    {
      if pool == [] {
        return 0;
      }
      b := pool[0];
      pool := pool[1..];
    }

    /** e2_inode_read_block_map */
    method ReadMap(n: nat) returns (m: seq<nat>)
      requires Valid() && n <= 12 + p + At(p, p)
      ensures |m| == n && forall k :: 0 <= k < n ==> m[k] == Lookup(iblock, store, p, k)
    {
      m := [];
      while |m| < 12 && |m| < n
        invariant |m| <= n && |m| <= 12
        invariant forall k :: 0 <= k < |m| ==> m[k] == Lookup(iblock, store, p, k)
      {
        m := m + [iblock[|m|]];
      }
      if |m| == n {
        return;
      }
      var buffer := BlockOf(store, p, iblock[12]);
      var i := 0;
      while i < p && |m| < n
        invariant i <= p && |m| == 12 + i && |m| <= n
        invariant forall k :: 0 <= k < |m| ==> m[k] == Lookup(iblock, store, p, k)
      {
        m := m + [buffer[i]];
        i := i + 1;
      }
      if |m| == n {
        return;
      }
      buffer := BlockOf(store, p, iblock[13]);
      var d := 0;
      AtSum(0, 0, p);
      while d < p && |m| < n
        invariant d <= p && |m| <= n
        invariant |m| == n || |m| == 12 + p + At(d, p)
        invariant forall k :: 0 <= k < |m| ==> m[k] == Lookup(iblock, store, p, k)
      {
        var indirect := BlockOf(store, p, buffer[d]);
        m := ReadIndirect(m, n, d, indirect);
        AtSum(d, 1, p);
        d := d + 1;
      }
    }

    /** The innermost loop: the entries of one indirect block of the double-indirect level. */
    method ReadIndirect(start: seq<nat>, n: nat, d: nat, indirect: seq<nat>) returns (m: seq<nat>)
      requires Valid() && n <= 12 + p + At(p, p) && d < p && |start| == 12 + p + At(d, p) && |start| < n
      requires indirect == BlockOf(store, p, BlockOf(store, p, iblock[13])[d])
      requires forall k :: 0 <= k < |start| ==> start[k] == Lookup(iblock, store, p, k)
      ensures |m| == if n < 12 + p + At(d, p) + p then n else 12 + p + At(d, p) + p
      ensures forall k :: 0 <= k < |m| ==> m[k] == Lookup(iblock, store, p, k)
    {
      hide At;
      hide Quotient;
      hide Remainder;
      m := start;
      var i := 0;
      while i < p && |m| < n
        invariant i <= p && |m| == 12 + p + At(d, p) + i && |m| <= n
        invariant forall k :: 0 <= k < |m| ==> m[k] == Lookup(iblock, store, p, k)
      {
        DivisionUnique(At(d, p) + i, p, d, i);
        m := m + [indirect[i]];
        i := i + 1;
      }
    }

    /** The loop over the double-indirect level: a block is allocated for every entry that has none, and
        each takes the next `p` entries of the map. */
    method WriteDoubles(m: seq<nat>, n: nat, first: seq<nat>, ghost own: set<nat>)
        returns (r: int, buffer: seq<nat>, idx: nat)
      requires Valid() && 12 + p < n <= 12 + p + At(p, p) && Padded(n, p) <= |m|
      requires |first| == p && Apart(first, own) && (forall i :: 0 <= i < |pool| ==> pool[i] !in own && pool[i] !in first)
      modifies this`store, this`pool
      ensures Valid() && (r == 0 || (r == ENOSPC && pool == []))
      ensures |buffer| == p && Apart(buffer, own) && (forall e :: 0 <= e < p ==> buffer[e] in first || buffer[e] in old(pool))
      ensures forall i :: 0 <= i < |pool| ==> pool[i] !in own && pool[i] !in buffer && pool[i] in old(pool)
      ensures idx == Padded(n, p) || r != 0
      ensures r == 0 ==> Written(m, buffer, store, p, Covered(n, p))
      ensures forall b :: Same(store, old(store), b) || (b != 0 && b in buffer)
    {
      hide At;
      hide Quotient;
      hide Remainder;
      hide Written;
      hide Apart;
      WrittenNone(m, first, store, p);
      r, buffer, idx := 0, first, 12 + p;
      var d := 0;
      AtSum(0, 0, p);
      CeilingLeast(n - 12 - p, p, p);
      while d < p && idx < n
        invariant Valid() && d <= p && idx == 12 + p + At(d, p) && d <= Covered(n, p)
        invariant |buffer| == p && Apart(buffer, own) && (forall e :: 0 <= e < p ==> buffer[e] in first || buffer[e] in old(pool))
        invariant forall i :: 0 <= i < |pool| ==> pool[i] !in own && pool[i] !in buffer && pool[i] in old(pool)
        invariant Written(m, buffer, store, p, d)
        invariant forall b :: Same(store, old(store), b) || b in buffer[..d]
      {
        CeilingAbove(n - 12 - p, p, d);
        if buffer[d] == 0 {
          var b := Alloc();
          if b == 0 {
            WrittenNonzero(m, buffer, store, p, d);
            return ENOSPC, buffer, idx;
          }
          BufferGrows(m, buffer, store, p, d, b, own);
          buffer := buffer[d := b];
        }
        OneMoreBlock(m, buffer, store, p, d, own);
        store := store[buffer[d] := m[idx..idx + p]];
        assert buffer[..d + 1] == buffer[..d] + [buffer[d]];
        AtSum(d, 1, p);
        idx := idx + p;
        d := d + 1;
      }
      if d < p { CeilingLeast(n - 12 - p, p, d); }
      WrittenNonzero(m, buffer, store, p, d);
    }

    /** The indirect level: its block is allocated if there is none, without looking at the result. */
    method WriteSingle(m: seq<nat>)
      requires Valid() && Tidy() && 12 + p <= |m|
      modifies this`iblock, this`store, this`pool
      ensures Valid() && SingleDone(iblock, store, p, m)
      ensures iblock == old(iblock)[12 := iblock[12]]
      ensures iblock[12] == 0 <==> old(iblock)[12] == 0 && old(pool) == []
      ensures Tidy() && store == old(store)[iblock[12] := m[12..12 + p]]
      ensures pool == old(pool) || (|old(pool)| > 0 && pool == old(pool)[1..] && iblock[12] == old(pool)[0])
      ensures old(iblock)[12] != 0 ==> iblock[12] == old(iblock)[12]
      ensures Frame(store, old(store), old(Reach())) && Reach() <= old(Reach())
    {
      ghost var doubles := Doubles(iblock, store, p);
      if iblock[12] == 0 {
        var b := Alloc();
        iblock := iblock[12 := b];
      }
      store := store[iblock[12] := m[12..12 + p]];
      assert iblock[12..] == [iblock[12], iblock[13], iblock[14]];
      assert old(iblock)[12..] == [old(iblock)[12], iblock[13], iblock[14]];
      assert Doubles(iblock, store, p) == doubles;
    }

    /** The double-indirect level.  Afterwards the code goes on to the triple-indirect level unless the
        last indirect block was filled exactly. */
    method WriteDouble(m: seq<nat>, n: nat) returns (r: int, idx: nat)
      requires Valid() && Tidy() && 12 + p < n <= 12 + p + At(p, p) && Padded(n, p) <= |m|
      requires SingleDone(iblock, store, p, m)
      modifies this`iblock, this`store, this`pool
      ensures Valid() && iblock[14] == old(iblock)[14] && iblock[..13] == old(iblock)[..13] && |iblock| == 15
      ensures r == 0 || (r == ENOSPC && pool == [])
      ensures r == 0 ==>
                && Tidy() && SingleDone(iblock, store, p, m) && DoubleDone(iblock, store, p, m, n)
                && idx == Padded(n, p)
      ensures r == 0 ==> Reach() <= old(Reach())
      ensures Frame(store, old(store), old(Reach()))
    {
      hide At;
      hide Quotient;
      hide Remainder;
      hide Padded;
      hide Covered;
      hide Written;
      idx := 0;
      var buffer := Doubles(iblock, store, p);
      if iblock[13] == 0 {
        var b := Alloc();
        iblock := iblock[13 := b];
        if b == 0 {
          return ENOSPC, 0;
        }
      }
      ghost var own := {iblock[12], iblock[13], iblock[14]};
      assert iblock[12..] == [iblock[12], iblock[13], iblock[14]];
      assert old(iblock)[12..] == [iblock[12], old(iblock)[13], iblock[14]];
      ghost var before := store;
      r, buffer, idx := WriteDoubles(m, n, buffer, own);
      if r != 0 {
        return;
      }
      DoubleTidy(iblock, store, p, pool, buffer);
      DoubleReach(old(iblock), iblock, before, store, p, old(pool), pool, buffer);
      DoublePlaced(iblock, before, store, p, m, n, buffer);
      store := store[iblock[13] := buffer];
    }

    /** The triple-indirect level when nothing is left to write: a block is allocated and cleared, or
        read and written back. */
    method WriteEmptyTriple(ghost m: seq<nat>, ghost n: nat) returns (r: int)
      requires Valid() && Tidy() && n > 12 + p && SingleDone(iblock, store, p, m) && DoubleDone(iblock, store, p, m, n)
      modifies this`iblock, this`store, this`pool
      ensures Valid() && (r == 0 || (r == ENOSPC && pool == []))
      ensures |iblock| == 15 && iblock[..14] == old(iblock)[..14]
      ensures r == 0 ==>
                && Tidy() && iblock[14] != 0
                && SingleDone(iblock, store, p, m) && DoubleDone(iblock, store, p, m, n)
      ensures Frame(store, old(store), old(Reach()))
    {
      var buffer := BlockOf(store, p, iblock[14]);
      if iblock[14] == 0 {
        var b := Alloc();
        iblock := iblock[14 := b];
        if b == 0 {
          return ENOSPC;
        }
        buffer := seq(p, _ => 0);
      }
      assert iblock[12..] == [iblock[12], iblock[13], iblock[14]];
      assert old(iblock)[12..] == [iblock[12], iblock[13], old(iblock)[14]];
      assert iblock[14] != iblock[12] && iblock[14] != iblock[13] && iblock[14] !in Doubles(iblock, store, p);
      store := store[iblock[14] := buffer];
      WrittenFrame(m, store[iblock[13]], old(store), store, p, Covered(n, p));
      r := 0;
    }

    /** e2_inode_write_block_map.  `special` says the inode is a device or a pipe, which has no map. */
    method WriteMap(m: seq<nat>, n: nat, special: bool) returns (r: int)
      requires Valid() && Tidy() && n <= 12 + p + At(p, p) && Padded(n, p) <= |m|
      modifies this`iblock, this`store, this`pool
      ensures Valid() && (r == 0 || (r == ENOSPC && pool == []))
      ensures special ==> r == 0 && iblock == old(iblock) && store == old(store) && pool == old(pool)
      ensures !special && r == 0 ==> Tidy() && forall k :: 0 <= k < n ==> Lookup(iblock, store, p, k) == m[k]
      ensures Frame(store, old(store), old(Reach()))
      // A triple-indirect block that no entry needs is allocated exactly when the last indirect block of
      // the double-indirect level is not full.
      ensures !special && r == 0 && n > 12 && old(iblock)[14] == 0 ==> (iblock[14] != 0 <==> n > 12 + p && Padded(n, p) != n)
      // The single-indirect block is written to block 0, and success reported, exactly when there was none and none
      // was left to allocate.
      ensures !special && 12 < n <= 12 + p ==>
                && r == 0 && (iblock[12] == 0 <==> old(iblock)[12] == 0 && old(pool) == [])
                && store == old(store)[iblock[12] := m[12..12 + p]]
    {
      hide At;
      hide Lookup;
      hide Covered;
      if special {
        return 0;
      }
      if n == 0 {
        iblock := seq(12, _ => 0) + iblock[12..];
        DropIndirect();
        return 0;
      }
      PaddedLonger(n, p);
      WriteDirect(m, n);
      if n <= 12 {
        DropIndirect();
        MapReadsBack(iblock, store, p, m, n);
        return 0;
      }
      r := WriteIndirect(m, n);
    }

    /** A map without indirect blocks has none of the three pointers. */
    method DropIndirect()
      requires Valid()
      modifies this`iblock
      ensures Valid() && Tidy() && iblock == old(iblock)[..12] + [0, 0, 0]
    {
      iblock := iblock[12 := 0][13 := 0][14 := 0];
      assert iblock[12..] == [0, 0, 0];
    }

    /** The loop over the direct blocks. */
    method WriteDirect(m: seq<nat>, n: nat)
      requires Valid() && Tidy() && n <= |m|
      modifies this`iblock
      ensures Valid() && Tidy() && DirectDone(iblock, m, n) && Reach() == old(Reach())
      ensures iblock[12] == old(iblock)[12] && iblock[14] == old(iblock)[14]
    {
      var i := 0;
      while i < 12 && i < n
        invariant i <= 12 && i <= n && |iblock| == 15 && iblock[12..] == old(iblock)[12..] && iblock[13] == old(iblock)[13]
        invariant forall k :: 0 <= k < i ==> iblock[k] == m[k]
      {
        iblock := iblock[i := m[i]];
        i := i + 1;
      }
      assert iblock[12..] == [iblock[12], iblock[13], iblock[14]];
      assert old(iblock)[12..] == [old(iblock)[12], old(iblock)[13], old(iblock)[14]];
    }

    /** The indirect levels of a map longer than the direct blocks. */
    method WriteIndirect(m: seq<nat>, n: nat) returns (r: int)
      requires Valid() && Tidy() && 12 < n <= 12 + p + At(p, p) && n <= Padded(n, p) <= |m| && DirectDone(iblock, m, n)
      modifies this`iblock, this`store, this`pool
      ensures Valid() && (r == 0 || (r == ENOSPC && pool == []))
      ensures r == 0 ==> Tidy() && forall k :: 0 <= k < n ==> Lookup(iblock, store, p, k) == m[k]
      ensures r == 0 && old(iblock)[14] == 0 ==> (iblock[14] != 0 <==> n > 12 + p && Padded(n, p) != n)
      ensures n <= 12 + p ==>
                && r == 0 && (iblock[12] == 0 <==> old(iblock)[12] == 0 && old(pool) == [])
                && store == old(store)[iblock[12] := m[12..12 + p]]
      ensures Frame(store, old(store), old(Reach()))
    {
      hide At;
      hide Quotient;
      hide Remainder;
      hide Lookup;
      hide Covered;
      hide Doubles;
      hide Frame;
      WriteSingle(m);
      ghost var s1, r1 := store, Reach();
      if 12 + p >= n {
        MapReadsBack(iblock, store, p, m, n);
        return 0;
      }
      var idx;
      r, idx := WriteDouble(m, n);
      FrameThrough(store, s1, old(store), r1, old(Reach()));
      if r != 0 {
        return;
      }
      if idx == n {
        MapReadsBack(iblock, store, p, m, n);
        return 0;
      }
      ghost var s2, r2 := store, Reach();
      r := WriteEmptyTriple(m, n);
      FrameThrough(store, s2, old(store), r2, old(Reach()));
      if r != 0 {
        return;
      }
      MapReadsBack(iblock, store, p, m, n);
    }
  }

  // ----- While the blocks of the double-indirect level are written

  lemma WrittenNone(m: seq<nat>, buffer: seq<nat>, store: map<nat, seq<nat>>, p: nat)
    ensures Written(m, buffer, store, p, 0)
  {
  }

  lemma WrittenNonzero(m: seq<nat>, buffer: seq<nat>, store: map<nat, seq<nat>>, p: nat, d: nat)
    requires Written(m, buffer, store, p, d)
    ensures forall e :: 0 <= e < d && e < |buffer| ==> buffer[e] != 0
  {
  }

  lemma BufferGrows(m: seq<nat>, buffer: seq<nat>, store: map<nat, seq<nat>>, p: nat, d: nat, b: nat, own: set<nat>)
    requires d < |buffer| && buffer[d] == 0 && Written(m, buffer, store, p, d) && Apart(buffer, own)
    requires b != 0 && b !in buffer && b !in own
    ensures Written(m, buffer[d := b], store, p, d) && Apart(buffer[d := b], own)
  {
    hide Placed;
  }

  lemma OneMoreBlock(m: seq<nat>, buffer: seq<nat>, store: map<nat, seq<nat>>, p: nat, d: nat, own: set<nat>)
    requires d < |buffer| && buffer[d] != 0 && Written(m, buffer, store, p, d) && Apart(buffer, own)
    requires 12 + p + At(d, p) + p <= |m|
    ensures Written(m, buffer, store[buffer[d] := m[12 + p + At(d, p)..12 + p + At(d, p) + p]], p, d + 1)
  {
    hide At;
    var t := store[buffer[d] := m[12 + p + At(d, p)..12 + p + At(d, p) + p]];
    forall e | 0 <= e < d + 1 && e < |buffer| ensures Placed(m, buffer[e], t, p, e) {
      if e < d { assert Placed(m, buffer[e], store, p, e) && buffer[e] != buffer[d]; }
    }
  }

  // ----- Once the double-indirect block itself is written

  lemma DoubleTidy(iblock: seq<nat>, store: map<nat, seq<nat>>, p: nat, pool: seq<nat>, buffer: seq<nat>)
    requires |iblock| == 15 && StoreOk(store, p) && iblock[13] != 0 && |buffer| == p
    requires Apart(iblock[12..], {}) && Apart(buffer, {iblock[12], iblock[13], iblock[14]})
    requires forall i :: 0 <= i < |pool| ==> pool[i] !in iblock[12..] && pool[i] !in buffer
    ensures var t := store[iblock[13] := buffer]; StoreOk(t, p) && TidyMap(iblock, t, p, pool) && Doubles(iblock, t, p) == buffer
  {
  }

  lemma DoubleReach(iblock0: seq<nat>, iblock: seq<nat>, store0: map<nat, seq<nat>>, store: map<nat, seq<nat>>, p: nat,
                    pool0: seq<nat>, pool: seq<nat>, buffer: seq<nat>)
    requires |iblock0| == |iblock| == 15 && StoreOk(store0, p) && StoreOk(store, p) && |buffer| == p && iblock[13] != 0
    requires iblock == iblock0[13 := iblock[13]] && (iblock[13] == iblock0[13] || iblock[13] in pool0)
    requires forall e :: 0 <= e < p ==> buffer[e] in Doubles(iblock0, store0, p) || buffer[e] in pool0
    requires forall i :: 0 <= i < |pool| ==> pool[i] in pool0
    requires forall b :: Same(store, store0, b) || (b != 0 && b in buffer)
    ensures var t := store[iblock[13] := buffer]; var r := ReachOf(iblock0, store0, p, pool0);
            StoreOk(t, p) && ReachOf(iblock, t, p, pool) <= r && Frame(t, store0, r)
  {
    var t, r := store[iblock[13] := buffer], ReachOf(iblock0, store0, p, pool0);
    assert iblock0[12..] == [iblock0[12], iblock0[13], iblock0[14]];
    assert iblock[12..] == [iblock0[12], iblock[13], iblock0[14]];
    assert iblock[13] in r && forall b :: b in buffer ==> b in r;
    assert Doubles(iblock, t, p) == buffer;
    hide Doubles;
    forall b | b !in r ensures Same(t, store0, b) { assert Same(store, store0, b) && b != iblock[13]; }
  }

  lemma DoublePlaced(iblock: seq<nat>, store0: map<nat, seq<nat>>, store: map<nat, seq<nat>>, p: nat,
                     m: seq<nat>, n: nat, buffer: seq<nat>)
    requires |iblock| == 15 && |buffer| == p > 0 && n > 12 + p && iblock[13] != 0 && iblock[13] != iblock[12]
    requires SingleDone(iblock, store0, p, m) && Written(m, buffer, store, p, Covered(n, p))
    requires Apart(buffer, {iblock[12], iblock[13], iblock[14]})
    requires forall b :: Same(store, store0, b) || (b != 0 && b in buffer)
    ensures var t := store[iblock[13] := buffer]; SingleDone(iblock, t, p, m) && DoubleDone(iblock, t, p, m, n)
  {
    hide Covered;
    hide At;
    assert Same(store, store0, iblock[12]);
    forall e | 0 <= e < Covered(n, p) && e < p ensures Placed(m, buffer[e], store[iblock[13] := buffer], p, e) {
      assert Placed(m, buffer[e], store, p, e) && buffer[e] != iblock[13];
    }
  }

  /** The direct, the single-indirect and the double-indirect part of a map of `n` entries are in
      place. */
  ghost predicate DirectDone(iblock: seq<nat>, m: seq<nat>, n: nat)
  {
    |iblock| == 15 && n <= |m| && forall k :: 0 <= k < n && k < 12 ==> iblock[k] == m[k]
  }

  ghost predicate SingleDone(iblock: seq<nat>, store: map<nat, seq<nat>>, p: nat, m: seq<nat>)
  {
    |iblock| == 15 && 12 + p <= |m| && iblock[12] in store && store[iblock[12]] == m[12..12 + p]
  }

  ghost predicate DoubleDone(iblock: seq<nat>, store: map<nat, seq<nat>>, p: nat, m: seq<nat>, n: nat)
    requires p > 0 && n > 12 + p
  {
    |iblock| == 15 && iblock[13] != 0 && iblock[13] in store && Written(m, store[iblock[13]], store, p, Covered(n, p))
  }

  /** What is in place is what the format reads back. */
  lemma MapReadsBack(iblock: seq<nat>, store: map<nat, seq<nat>>, p: nat, m: seq<nat>, n: nat)
    requires p > 0 && StoreOk(store, p) && n <= 12 + p + At(p, p) && DirectDone(iblock, m, n)
    requires n > 12 ==> SingleDone(iblock, store, p, m)
    requires n > 12 + p ==> DoubleDone(iblock, store, p, m, n)
    ensures forall k :: 0 <= k < n ==> Lookup(iblock, store, p, k) == m[k]
  {
    hide At;
    hide Quotient;
    hide Remainder;
    hide Covered;
    forall k | 0 <= k < n ensures Lookup(iblock, store, p, k) == m[k] {
      if k >= 12 + p { DoubleReadsBack(iblock, store, p, m, n, k); }
    }
  }

  lemma DoubleReadsBack(iblock: seq<nat>, store: map<nat, seq<nat>>, p: nat, m: seq<nat>, n: nat, k: nat)
    requires p > 0 && StoreOk(store, p) && n <= 12 + p + At(p, p) && 12 + p <= k < n <= |m|
    requires DoubleDone(iblock, store, p, m, n)
    ensures Lookup(iblock, store, p, k) == m[k]
  {
    hide At;
    hide Quotient;
    hide Remainder;
    var j := k - 12 - p;
    Division(j, p);
    QuotientBound(j, p, p);
    CeilingAbove(n - 12 - p, p, Quotient(j, p));
    var buffer := store[iblock[13]];
    assert Placed(m, buffer[Quotient(j, p)], store, p, Quotient(j, p));
  }

  lemma WrittenFrame(m: seq<nat>, buffer: seq<nat>, s: map<nat, seq<nat>>, t: map<nat, seq<nat>>, p: nat, d: nat)
    requires Written(m, buffer, s, p, d) && forall b :: b in buffer ==> Same(s, t, b)
    ensures Written(m, buffer, t, p, d)
  {
    forall e | 0 <= e < d && e < |buffer| ensures Placed(m, buffer[e], t, p, e) {
      assert Placed(m, buffer[e], s, p, e) && Same(s, t, buffer[e]);
    }
  }

  /** The two stores differ at most on the blocks of `r`. */
  ghost predicate Frame(s: map<nat, seq<nat>>, t: map<nat, seq<nat>>, r: set<nat>)
  {
    forall b :: b !in r ==> Same(s, t, b)
  }

  lemma FrameThrough(s: map<nat, seq<nat>>, t: map<nat, seq<nat>>, u: map<nat, seq<nat>>, q: set<nat>, r: set<nat>)
    requires Frame(s, t, q) && Frame(t, u, r) && q <= r
    ensures Frame(s, u, r)
  {
    forall b | b !in r ensures Same(s, u, b) { assert Same(s, t, b) && Same(t, u, b); }
  }

  ghost predicate Same(s: map<nat, seq<nat>>, t: map<nat, seq<nat>>, b: nat)
  {
    (b in s <==> b in t) && (b in s ==> s[b] == t[b])
  }

  /** How many indirect blocks of the double-indirect level `n` entries need. */
  function Covered(n: nat, p: nat): nat
    requires p > 0 && n >= 12 + p
  {
    Ceiling(n - 12 - p, p)
  }

  /** The length of a map of `n` entries, rounded up to whole indirect blocks. */
  function Padded(n: nat, p: nat): nat
    requires p > 0
  {
    if n <= 12 then n else if n <= 12 + p then 12 + p else 12 + p + At(Covered(n, p), p)
  }

  /** A file of one block more than the direct and single-indirect blocks hold: the double-indirect level has one
      indirect block, not full, so a triple-indirect block is allocated that nothing needs. */
  lemma TripleNeedless(p: nat)
    requires p > 1
    ensures var n := 12 + p + 1; 12 + p < n <= 12 + p + At(p, p) && Padded(n, p) == 12 + 2 * p != n
  {
    CeilingLeast(1, p, 1);
  }

  lemma PaddedLonger(n: nat, p: nat)
    requires p > 0
    ensures n <= Padded(n, p)
  {
    hide At;
    if n > 12 + p { CeilingFacts(n - 12 - p, p); }
  }

  /** The first `d` blocks of the double-indirect level hold their stretches of the map. */
  ghost predicate Written(m: seq<nat>, buffer: seq<nat>, store: map<nat, seq<nat>>, p: nat, d: nat)
  {
    forall e :: 0 <= e < d && e < |buffer| ==> Placed(m, buffer[e], store, p, e)
  }

  ghost predicate Placed(m: seq<nat>, b: nat, store: map<nat, seq<nat>>, p: nat, e: nat)
  {
    && b != 0 && b in store
    && 12 + p + At(e, p) + p <= |m| && store[b] == m[12 + p + At(e, p)..12 + p + At(e, p) + p]
  }
}
