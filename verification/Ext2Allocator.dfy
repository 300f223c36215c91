/** The allocation loops of kernel/src/ext2fs/block.c and inode.c over the bitmaps of the block groups.
    Blocks are searched, set and cleared through 32-bit words; inodes are searched and set through
    bytes and cleared through words of a shorter buffer. */
module Ext2Allocator {
  import opened Arithmetic
  import opened Bits
  import opened Options
  import opened Ext2Space

  const EXT2_BAD_INO: nat := 1

  lemma WordInMap(sp: Space, g: nat, b: nat)
    requires Shape(sp) && g < |sp.maps| && b < sp.per
    ensures MapOk(sp, g) && 4 * (b / 32) + 4 <= |sp.maps[g]| && b / 8 < |sp.maps[g]|
  {
    assert MapOk(sp, g);
  }

  /** The search from a group on, one group at a time. */
  lemma SearchGroup(sp: Space, g: nat)
    requires Shape(sp) && g < |sp.maps|
    ensures MapOk(sp, g)
    ensures SearchFrom(sp, g) ==
            if sp.free[g] == 0 then SearchFrom(sp, g + 1)
            else
              var b := FirstClear(sp.maps[g], sp.per, 0);
              if b.Some? then Some(Place(g, b.value)) else SearchFrom(sp, g + 1)
  {
    assert MapOk(sp, g);
  }

  lemma SearchGroups(sp: Space)
    requires Shape(sp)
    ensures SearchFrom(sp, |sp.maps|) == None
  {
  }

  /** The loop over the bits of a group, through words. */
  method FindBit(bitmap: seq<bv8>, per: nat) returns (b: nat)
    requires |bitmap| % 4 == 0 && per <= 8 * |bitmap|
    ensures b <= per
    ensures FirstClear(bitmap, per, 0) == if b < per then Some(b) else None
  {
    hide Bit;
    hide Test32;
    hide WordAt;
    hide PutWord;
    b := 0;
    while b < per
      invariant b <= per && FirstClear(bitmap, per, b) == FirstClear(bitmap, per, 0)
    {
      WordIsBytes(bitmap, b);
      if !Test32(WordAt(bitmap, b / 32), b % 32) {
        return;
      }
      b := b + 1;
    }
  }

  class Blocks {
    const per: nat
    var maps: seq<seq<bv8>>
    var free: seq<nat>
    var total: nat

    ghost function View(): Space
      reads this
    {
      Space(per, maps, free, total)
    }

    /** e2_alloc_block; 0 when there is none. */
    method Alloc() returns (block: nat)
      requires Shape(View())
      modifies this
      ensures var p := Search(old(View()));
              && (p.None? ==> View() == old(View()) && block == 0)
              && (p.Some? ==> View() == Take(old(View()), p.value) && block == Number(View(), p.value))
    {
      hide SearchFrom;
      hide FirstClear;
      hide WordAt;
      hide PutWord;
      hide SetBit;
      hide Set32;
      block := 0;
      if total == 0 {
        return 0;
      }
      var bg := 0;
      while bg < |maps|
        invariant bg <= |maps| && View() == old(View())
        invariant SearchFrom(View(), bg) == Search(View())
      {
        SearchGroup(View(), bg);
        if free[bg] != 0 {
          var bitmap := maps[bg];
          var b := FindBit(bitmap, per);
          if b < per {
            WordInMap(View(), bg, b);
            WordIsBytes(bitmap, b);
            bitmap := PutWord(bitmap, b / 32, Set32(WordAt(bitmap, b / 32), b % 32));
            maps := maps[bg := bitmap];
            free := free[bg := free[bg] - 1];
            total := total - 1;
            block := b + At(bg, per);
            return;
          }
        }
        bg := bg + 1;
      }
      SearchGroups(View());
    }

    /** e2_free_block */
    method Free(block: nat)
      requires Shape(View()) && Within(View(), PlaceOf(View(), block))
      modifies this
      ensures View() == Give(old(View()), PlaceOf(old(View()), block))
    {
      var bg, local := Quotient(block, per), Remainder(block, per);
      var bitmap := maps[bg];
      WordInMap(View(), bg, local);
      WordIsBytes(bitmap, local);
      bitmap := PutWord(bitmap, local / 32, Clear32(WordAt(bitmap, local / 32), local % 32));
      maps := maps[bg := bitmap];
      total := total + 1;
      free := free[bg := free[bg] + 1];
    }
  }

  class Inodes {
    const per: nat
    var maps: seq<seq<bv8>>
    var free: seq<nat>
    var total: nat

    ghost function View(): Space
      reads this
    {
      Space(per, maps, free, total)
    }

    /** e2_alloc_inode; EXT2_BAD_INO when there is none. */
    method Alloc() returns (ino: nat)
      requires Shape(View())
      modifies this
      ensures var p := SearchByBytes(old(View()));
              && (p.None? ==> View() == old(View()) && ino == EXT2_BAD_INO)
              && (p.Some? ==> View() == Take(old(View()), p.value) && ino == Number(View(), p.value) + 1)
    {
      ino := EXT2_BAD_INO;
      if total == 0 {
        return;
      }
      var bg := 0;
      while bg < |maps| && free[bg] == 0
        invariant bg <= |maps| && FirstGroup(View(), bg) == FirstGroup(View(), 0)
      {
        bg := bg + 1;
      }
      if bg == |maps| {
        return;
      }
      assert MapOk(View(), bg);
      var size := BytesFor(per);
      var idx, bit := FindByte(maps[bg], size);
      if idx == size {
        return;
      }
      var bitmap := maps[bg];
      assert (8 * idx + bit) / 8 == idx && (8 * idx + bit) % 8 == bit;
      maps := maps[bg := bitmap[idx := Set8(bitmap[idx], bit)]];
      free := free[bg := free[bg] - 1];
      total := total - 1;
      ino := At(bg, per) + idx * 8 + bit + 1;
    }

    /** The tail of e2_free_inode: `per / 8` bytes of the bitmap go into a buffer of that length, which
        is then used as words, so the last word may reach into whatever follows the buffer (`slack`);
        `per / 8` bytes are written back. */
    method Free(ino: nat, slack: seq<bv8>)
      requires Shape(View()) && ino > 0 && Within(View(), PlaceOf(View(), ino - 1)) && |slack| == 8
      modifies this
      ensures View() == FreedInode(old(View()), PlaceOf(old(View()), ino - 1))
    {
      var bg, local := Quotient(ino - 1, per), Remainder(ino - 1, per);
      var n := per / 8;
      ghost var disk := maps[bg];
      var buffer := maps[bg][..n] + slack;
      WordIsBytes(buffer, local);
      buffer := PutWord(buffer, local / 32, Clear32(WordAt(buffer, local / 32), local % 32));
      PrefixClear(disk, n, slack, local);
      maps := maps[bg := buffer[..n] + maps[bg][n..]];
      free := free[bg := free[bg] + 1];
      total := total + 1;
      assert local >= 8 * n ==> maps == old(maps);
    }
  }

  /** Clearing a bit in a copy of the first `n` bytes and writing those bytes back. */
  lemma PrefixClear(s: seq<bv8>, n: nat, slack: seq<bv8>, b: nat)
    requires n <= |s| && b / 8 < |s| && b / 8 < n + |slack|
    ensures var r := ClearBit(s[..n] + slack, b)[..n] + s[n..];
            r == if b < 8 * n then ClearBit(s, b) else s
  {
  }

  /** What e2_free_inode leaves: the counts go up, but only bits in whole bytes are cleared. */
  function FreedInode(sp: Space, p: Place): Space
    requires Shape(sp) && p.group < |sp.maps| && p.bit < sp.per
  {
    if p.bit < 8 * (sp.per / 8) then Give(sp, p) else Give(sp, p).(maps := sp.maps)
  }

  /** Exactly which inode numbers e2_free_inode really releases: those whose bit lies in the whole
      bytes of the group's bitmap.  For the others the counts no longer agree. */
  lemma FreeInodeAgrees(sp: Space, p: Place)
    requires Inv(sp) && Within(sp, p) && BitAt(sp, p)
    ensures Inv(FreedInode(sp, p)) <==> p.bit < 8 * (sp.per / 8)
  {
    GiveKeepsInv(sp, p);
    var t := Give(sp, p).(maps := sp.maps);
    assert MapOk(t, p.group) == MapOk(sp, p.group);
    assert t.free[p.group] == Clear(t.maps[p.group], t.per) + 1;
  }

  /** With a number of inodes in a group that is no multiple of eight, the last one is not released. */
  lemma LastInodeStays(per: nat, words: nat)
    requires 0 < per <= 32 * words && per % 8 != 0
    ensures var sp := Uniform(per, words, 0xFF, 0);
            Inv(sp) && Within(sp, Place(0, per - 1)) && !Inv(FreedInode(sp, Place(0, per - 1)))
  {
    FullGroup(per, words);
    UniformShape(per, words, 0xFF, 0);
    FreeInodeAgrees(Uniform(per, words, 0xFF, 0), Place(0, per - 1));
  }

  // ----- Runs of e2_alloc_inode and e2_free_inode

  /** One call; `held` has inode numbers less one. */
  ghost function InodeStep(s: State, c: Call): Option<State>
    requires Good(s)
  {
    match c
    case Allocate =>
      var p := SearchByBytes(s.sp);
      if p.None? then Some(s) else Some(State(Take(s.sp, p.value), s.held + {Number(s.sp, p.value)}))
    case Release(n) =>
      if n !in s.held then None
      else
        assert Holds(s.sp, n);
        Some(State(FreedInode(s.sp, PlaceOf(s.sp, n)), s.held - {n}))
  }

  /** A run, as far as the counts agree. */
  ghost function InodeRun(s: State, cs: seq<Call>): Option<State>
    requires Good(s)
    decreases |cs|
  {
    if cs == [] then Some(s)
    else
      var t := InodeStep(s, cs[0]);
      if t.None? || !Good(t.value) then None else InodeRun(t.value, cs[1..])
  }

  /** With a number of inodes in a group that is a multiple of eight, every run of e2_alloc_inode and e2_free_inode
      is one of the first-free search and release by number: the counts agree throughout, and held plus free
      numbers never change in number. */
  lemma {:induction false} InodeRunKeeps(s: State, cs: seq<Call>)
    requires Good(s) && s.sp.per % 8 == 0
    ensures InodeRun(s, cs) == Run(s, cs)
    ensures InodeRun(s, cs).Some? ==>
              var t := InodeRun(s, cs).value; Good(t) && t.sp.total + |t.held| == s.sp.total + |s.held|
    decreases |cs|
  {
    hide Good;
    hide Step;
    hide InodeStep;
    if cs != [] {
      SameStep(s, cs[0]);
      if Step(s, cs[0]).Some? {
        StepKeeps(s, cs[0]);
        InodeRunKeeps(Step(s, cs[0]).value, cs[1..]);
      }
    }
  }

  lemma SameStep(s: State, c: Call)
    requires Good(s) && s.sp.per % 8 == 0
    ensures InodeStep(s, c) == Step(s, c)
  {
    hide SearchByBytes;
    hide Search;
    hide Clear;
    SearchesAgree(s.sp);
    if c.Release? && c.n in s.held { assert Holds(s.sp, c.n); }
  }

  /** The two loops over bytes and bits of e2_alloc_inode. */
  method FindByte(bitmap: seq<bv8>, size: nat) returns (idx: nat, bit: nat)
    requires size <= |bitmap|
    ensures idx <= size
    ensures idx == size ==> FirstClear(bitmap, 8 * size, 0) == None
    ensures idx < size ==> bit < 8 && FirstClear(bitmap, 8 * size, 0) == Some(8 * idx + bit)
  {
    hide Test8;
    hide Bit;
    idx, bit := 0, 0;
    while idx < size
      invariant idx <= size && FirstClear(bitmap, 8 * size, 8 * idx) == FirstClear(bitmap, 8 * size, 0)
    {
      FullByte(bitmap[idx]);
      bit := 0;
      if bitmap[idx] != 0xFF {
        while bit < 8 && Test8(bitmap[idx], bit)
          invariant bit <= 8 && forall k: nat :: k < bit ==> Test8(bitmap[idx], k)
          invariant FirstClear(bitmap, 8 * size, 8 * idx + bit) == FirstClear(bitmap, 8 * size, 0)
        {
          BitInByte(bitmap, idx, bit);
          bit := bit + 1;
        }
        BitInByte(bitmap, idx, if bit < 8 then bit else 0);
        return;
      }
      PassByte(bitmap, 8 * size, idx);
      idx := idx + 1;
    }
  }

  lemma BitInByte(s: seq<bv8>, i: nat, k: nat)
    requires i < |s| && k < 8
    ensures Bit(s, 8 * i + k) <==> Test8(s[i], k)
  {
    assert (8 * i + k) / 8 == i && (8 * i + k) % 8 == k;
  }

  lemma PassByte(s: seq<bv8>, n: nat, i: nat)
    requires 8 * i + 8 <= n <= 8 * |s| && forall k: nat :: k < 8 ==> Test8(s[i], k)
    ensures FirstClear(s, n, 8 * i) == FirstClear(s, n, 8 * i + 8)
  {
    hide Test8;
    hide Bit;
    var k := 0;
    while k < 8
      invariant k <= 8 && FirstClear(s, n, 8 * i) == FirstClear(s, n, 8 * i + k)
    {
      BitInByte(s, i, k);
      k := k + 1;
    }
  }
}
