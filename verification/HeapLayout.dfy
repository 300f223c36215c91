/** The kernel heap allocator on values: the blocks that tile the heap in address order, and the
    hole list in list order.  Every function here follows one function of kernel/src/kheap.c; the
    pointer-level allocator in module KernelHeap is proved to compute these functions.

    Addresses are integers.  Where the C code subtracts two unsigned words in an order that can
    go below zero, the 32-bit wrap-around is written out. */
module HeapLayout {
  const HEADER: int := 16
  const FOOTER: int := 8
  const OVERHEAD: int := 24
  const PAGE: int := 4096
  const WORD: int := 0x1_0000_0000

  datatype Block = Block(addr: int, size: int)

  datatype Layout = Layout(start: int, end: int, max: int, blocks: seq<Block>, holes: seq<Block>)

  // ----- Tilings

  /** The blocks of `s` lie end to end and fill [lo, hi). */
  ghost predicate Tiles(s: seq<Block>, lo: int, hi: int)
  {
    if s == [] then lo == hi
    else s[0].addr == lo && s[0].size >= OVERHEAD && Tiles(s[1..], lo + s[0].size, hi)
  }

  function AddrAt(s: seq<Block>, i: nat, hi: int): int
    requires i <= |s|
  {
    if i < |s| then s[i].addr else hi
  }

  lemma {:induction false} TilesSplit(s: seq<Block>, lo: int, hi: int, i: nat)
    requires Tiles(s, lo, hi) && i <= |s|
    ensures lo <= AddrAt(s, i, hi) <= hi
    ensures Tiles(s[..i], lo, AddrAt(s, i, hi)) && Tiles(s[i..], AddrAt(s, i, hi), hi)
    ensures i < |s| ==> s[i].size >= OVERHEAD && s[i].addr + s[i].size == AddrAt(s, i + 1, hi) <= hi
  {
    if s == [] {
    } else if i == 0 {
      assert s[0..] == s;
      TilesSplit(s[1..], lo + s[0].size, hi, 0);
    } else {
      TilesSplit(s[1..], lo + s[0].size, hi, i - 1);
      assert s[..i][1..] == s[1..][..i - 1];
      assert s[i..] == s[1..][i - 1..];
    }
  }

  lemma {:induction false} TilesConcat(a: seq<Block>, b: seq<Block>, lo: int, mid: int, hi: int)
    requires Tiles(a, lo, mid) && Tiles(b, mid, hi)
    ensures Tiles(a + b, lo, hi)
  {
    if a == [] {
      assert a + b == b;
    } else {
      TilesConcat(a[1..], b, lo + a[0].size, mid, hi);
      assert (a + b)[1..] == a[1..] + b;
    }
  }

  /** Replacing a stretch of blocks by others that tile the same addresses. */
  lemma TilesSplice(s: seq<Block>, lo: int, hi: int, i: nat, j: nat, mid: seq<Block>)
    requires Tiles(s, lo, hi) && i <= j <= |s|
    requires Tiles(mid, AddrAt(s, i, hi), AddrAt(s, j, hi))
    ensures Tiles(s[..i] + mid + s[j..], lo, hi)
  {
    TilesSplit(s, lo, hi, i);
    TilesSplit(s, lo, hi, j);
    TilesConcat(s[..i], mid, lo, AddrAt(s, i, hi), AddrAt(s, j, hi));
    TilesConcat(s[..i] + mid, s[j..], lo, AddrAt(s, j, hi), hi);
  }

  /** Earlier blocks end where or before later ones begin, so addresses tell blocks apart. */
  lemma TilesOrder(s: seq<Block>, lo: int, hi: int, i: nat, j: nat)
    requires Tiles(s, lo, hi) && i < j < |s|
    ensures s[i].addr + s[i].size <= s[j].addr
    ensures s[i].addr < s[j].addr
  {
    TilesSplit(s, lo, hi, i + 1);
    TilesSplit(s, lo, hi, i);
    TilesSplit(s[i + 1..], AddrAt(s, i + 1, hi), hi, j - i - 1);
  }

  lemma TilesUnique(s: seq<Block>, lo: int, hi: int)
    requires Tiles(s, lo, hi)
    ensures forall i, j :: 0 <= i < |s| && 0 <= j < |s| && s[i].addr == s[j].addr ==> i == j
    ensures forall i, j :: 0 <= i < j < |s| ==> s[i].addr + s[i].size <= s[j].addr
    ensures forall i :: 0 <= i < |s| ==> s[i].size >= OVERHEAD && lo <= s[i].addr && s[i].addr + s[i].size <= hi
  {
    forall i, j | 0 <= i < j < |s| ensures s[i].addr + s[i].size <= s[j].addr && s[i].addr < s[j].addr {
      TilesOrder(s, lo, hi, i, j);
    }
    forall i | 0 <= i < |s| ensures s[i].size >= OVERHEAD && lo <= s[i].addr && s[i].addr + s[i].size <= hi {
      TilesSplit(s, lo, hi, i);
    }
  }

  // ----- The hole list

  ghost predicate Distinct(s: seq<Block>) { forall i, j :: 0 <= i < j < |s| ==> s[i] != s[j] }

  ghost predicate BySize(s: seq<Block>) { forall i, j :: 0 <= i < j < |s| ==> s[i].size <= s[j].size }

  /** list_add_ordered with heap_compare_headers: before the first entry that is no smaller. */
  function Insert(b: Block, s: seq<Block>): (r: seq<Block>)
    ensures |r| == |s| + 1
  {
    if s == [] then [b]
    else if b.size <= s[0].size then [b] + s
    else [s[0]] + Insert(b, s[1..])
  }

  /** list_rem */
  function Remove(b: Block, s: seq<Block>): (r: seq<Block>)
    ensures |r| == |s| - (if b in s then 1 else 0)
  {
    if s == [] then []
    else if s[0] == b then s[1..]
    else [s[0]] + Remove(b, s[1..])
  }

  lemma {:induction false} InsertMembers(b: Block, s: seq<Block>)
    ensures forall x :: x in Insert(b, s) <==> x == b || x in s
  {
    if s != [] && b.size > s[0].size {
      InsertMembers(b, s[1..]);
      assert s == [s[0]] + s[1..];
      assert forall x :: x in [s[0]] + Insert(b, s[1..]) <==> x == s[0] || x in Insert(b, s[1..]);
    }
  }

  lemma {:induction false} RemoveMembers(b: Block, s: seq<Block>)
    requires Distinct(s)
    ensures forall x :: x in Remove(b, s) <==> x in s && x != b
  {
    if s != [] {
      assert s == [s[0]] + s[1..];
      if s[0] != b {
        RemoveMembers(b, s[1..]);
        assert forall x :: x in [s[0]] + Remove(b, s[1..]) <==> x == s[0] || x in Remove(b, s[1..]);
      }
    }
  }

  lemma {:induction false} InsertFacts(b: Block, s: seq<Block>)
    ensures forall x :: x in Insert(b, s) <==> x == b || x in s
    ensures Distinct(s) && b !in s ==> Distinct(Insert(b, s))
    ensures BySize(s) ==> BySize(Insert(b, s))
  {
    InsertMembers(b, s);
    if s != [] && b.size > s[0].size {
      InsertFacts(b, s[1..]);
      var t := Insert(b, s[1..]);
      forall k | 0 <= k < |t| ensures t[k] == b || t[k] in s[1..] {
        assert t[k] in t;
      }
    }
  }

  lemma {:induction false} RemoveFacts(b: Block, s: seq<Block>)
    requires Distinct(s)
    ensures forall x :: x in Remove(b, s) <==> x in s && x != b
    ensures Distinct(Remove(b, s))
    ensures BySize(s) ==> BySize(Remove(b, s))
  {
    RemoveMembers(b, s);
    if s != [] && s[0] != b {
      RemoveFacts(b, s[1..]);
      var t := Remove(b, s[1..]);
      forall k | 0 <= k < |t| ensures t[k] in s[1..] {
        assert t[k] in t;
      }
    }
  }

  // ----- Layout invariants

  /** Tiling and hole list agree; neighbouring holes are still allowed, as they are half-way
      through an operation. */
  ghost predicate Consistent(h: Layout)
  {
    && Tiles(h.blocks, h.start, h.end)
    && Distinct(h.holes)
    && BySize(h.holes)
    && forall b :: b in h.holes ==> b in h.blocks
  }

  ghost predicate NoAdjacentHoles(h: Layout)
  {
    forall i, j :: 0 <= i && j == i + 1 && j < |h.blocks| ==> h.blocks[i] !in h.holes || h.blocks[j] !in h.holes
  }

  ghost predicate Bounds(h: Layout) { 0 <= h.start < h.end <= h.max < WORD }

  ghost predicate Inv(h: Layout)
  {
    Bounds(h) && Consistent(h) && NoAdjacentHoles(h)
  }

  /** The blocks handed out and not yet freed. */
  function Live(h: Layout): set<Block>
  {
    set b | b in h.blocks && b !in h.holes
  }

  // ----- Freeing: merge backwards, merge forwards, insert

  function Join(s: seq<Block>, i: nat): seq<Block>
    requires i + 1 < |s|
  {
    s[..i] + [Block(s[i].addr, s[i].size + s[i + 1].size)] + s[i + 2..]
  }

  datatype Merge = Merge(h: Layout, i: nat)

  function MergeBack(h: Layout, i: nat): (m: Merge)
    requires i < |h.blocks|
    ensures m.i < |m.h.blocks|
    decreases i
  {
    if i > 0 && h.blocks[i - 1] in h.holes then
      MergeBack(h.(blocks := Join(h.blocks, i - 1), holes := Remove(h.blocks[i - 1], h.holes)), i - 1)
    else Merge(h, i)
  }

  function MergeForward(h: Layout, i: nat): (m: Merge)
    requires i < |h.blocks|
    ensures m.i < |m.h.blocks|
    decreases |h.blocks|
  {
    if i + 1 < |h.blocks| && h.blocks[i + 1] in h.holes then
      MergeForward(h.(blocks := Join(h.blocks, i), holes := Remove(h.blocks[i + 1], h.holes)), i)
    else Merge(h, i)
  }

  /** heap_free_nolock on the header of block `i`. */
  function FreeAt(h: Layout, i: nat): Layout
    requires i < |h.blocks|
  {
    var m := MergeBack(h, i);
    var n := MergeForward(m.h, m.i);
    n.h.(holes := Insert(n.h.blocks[n.i], n.h.holes))
  }

  /** A block of a tiling occurs nowhere else in it, nor does any block with its address. */
  lemma TilesOnce(s: seq<Block>, lo: int, hi: int, k: nat)
    requires Tiles(s, lo, hi) && k < |s|
    ensures s[k].size >= OVERHEAD && lo <= s[k].addr && s[k].addr + s[k].size == AddrAt(s, k + 1, hi) <= hi
    ensures forall b :: b in s[..k] || b in s[k + 1..] ==> b.addr != s[k].addr
  {
    TilesSplit(s, lo, hi, k);
    forall b | b in s[..k] || b in s[k + 1..] ensures b.addr != s[k].addr {
      var j :| 0 <= j < |s| && j != k && s[j] == b;
      if j < k { TilesOrder(s, lo, hi, j, k); } else { TilesOrder(s, lo, hi, k, j); }
    }
  }

  lemma JoinTiles(h: Layout, k: nat)
    requires Consistent(h) && k + 1 < |h.blocks|
    ensures Tiles(Join(h.blocks, k), h.start, h.end)
    ensures Join(h.blocks, k)[k] !in h.blocks
    ensures forall b :: b in Join(h.blocks, k) <==>
              b == Join(h.blocks, k)[k] || (b in h.blocks && b != h.blocks[k] && b != h.blocks[k + 1])
  {
    var s, t := h.blocks, Join(h.blocks, k);
    TilesOnce(s, h.start, h.end, k);
    TilesOnce(s, h.start, h.end, k + 1);
    TilesSplice(s, h.start, h.end, k, k + 2, [t[k]]);
    assert s == s[..k] + [s[k], s[k + 1]] + s[k + 2..];
    assert s[..k + 1] == s[..k] + [s[k]];
    assert s[k + 1..] == [s[k + 1]] + s[k + 2..];
  }

  /** What one merge of blocks k and k+1, of which `gone` leaves the hole list and `kept` is the
      block being freed, does to a layout. */
  lemma JoinFacts(h: Layout, k: nat, gone: nat, kept: nat)
    requires Consistent(h) && k + 1 < |h.blocks|
    requires (gone == k && kept == k + 1) || (gone == k + 1 && kept == k)
    requires h.blocks[gone] in h.holes && h.blocks[kept] !in h.holes
    ensures var h' := h.(blocks := Join(h.blocks, k), holes := Remove(h.blocks[gone], h.holes));
            && Consistent(h')
            && h'.blocks[k] !in h'.holes
            && h'.blocks[k].size >= h.blocks[kept].size
            && (forall b :: b in h'.holes ==> b in h.holes)
            && Live(h') - {h'.blocks[k]} == Live(h) - {h.blocks[kept]}
            && (NoAdjacentHoles(h) ==> NoAdjacentHoles(h'))
  {
    JoinTiles(h, k);
    RemoveFacts(h.blocks[gone], h.holes);
    TilesOnce(h.blocks, h.start, h.end, gone);
    JoinAdjacent(h, k, gone, kept);
  }

  lemma JoinAdjacent(h: Layout, k: nat, gone: nat, kept: nat)
    requires Consistent(h) && k + 1 < |h.blocks|
    requires (gone == k && kept == k + 1) || (gone == k + 1 && kept == k)
    requires h.blocks[gone] in h.holes && h.blocks[kept] !in h.holes
    ensures var h' := h.(blocks := Join(h.blocks, k), holes := Remove(h.blocks[gone], h.holes));
            NoAdjacentHoles(h) ==> NoAdjacentHoles(h')
  {
    var h' := h.(blocks := Join(h.blocks, k), holes := Remove(h.blocks[gone], h.holes));
    var s, t := h.blocks, h'.blocks;
    JoinTiles(h, k);
    RemoveFacts(s[gone], h.holes);
    if NoAdjacentHoles(h) {
      forall i, j | 0 <= i && j == i + 1 && j < |t| ensures t[i] !in h'.holes || t[j] !in h'.holes {
        if j < k {
          assert t[i] == s[i] && t[j] == s[j];
        } else if i > k {
          assert t[i] == s[i + 1] && t[j] == s[j + 1];
        }
      }
    }
  }

  lemma {:induction false} MergeBackFacts(h: Layout, i: nat)
    requires Consistent(h) && i < |h.blocks| && h.blocks[i] !in h.holes
    ensures var m := MergeBack(h, i);
            && Consistent(m.h) && m.h.blocks[m.i] !in m.h.holes
            && Live(m.h) - {m.h.blocks[m.i]} == Live(h) - {h.blocks[i]}
            && (m.i > 0 ==> m.h.blocks[m.i - 1] !in m.h.holes)
            && (NoAdjacentHoles(h) ==> NoAdjacentHoles(m.h))
            && m.h.blocks[m.i].size >= h.blocks[i].size
            && m.h.start == h.start && m.h.end == h.end && m.h.max == h.max
    decreases i
  {
    if i > 0 && h.blocks[i - 1] in h.holes {
      JoinFacts(h, i - 1, i - 1, i);
      MergeBackFacts(h.(blocks := Join(h.blocks, i - 1), holes := Remove(h.blocks[i - 1], h.holes)), i - 1);
    }
  }

  lemma {:induction false} MergeForwardFacts(h: Layout, i: nat)
    requires Consistent(h) && i < |h.blocks| && h.blocks[i] !in h.holes
    ensures var m := MergeForward(h, i);
            && Consistent(m.h) && m.h.blocks[m.i] !in m.h.holes
            && Live(m.h) - {m.h.blocks[m.i]} == Live(h) - {h.blocks[i]}
            && (NoAdjacentHoles(h) ==> NoAdjacentHoles(m.h))
            && m.h.blocks[m.i].size >= h.blocks[i].size
    decreases |h.blocks|
  {
    if i + 1 < |h.blocks| && h.blocks[i + 1] in h.holes {
      JoinFacts(h, i, i + 1, i);
      MergeForwardFacts(h.(blocks := Join(h.blocks, i), holes := Remove(h.blocks[i + 1], h.holes)), i);
    }
  }

  lemma {:induction false} MergeForwardShape(h: Layout, i: nat)
    requires Distinct(h.holes) && i < |h.blocks|
    ensures var m := MergeForward(h, i);
            && m.i == i && m.h.blocks[..i] == h.blocks[..i]
            && (forall b :: b in m.h.holes ==> b in h.holes)
            && (i + 1 < |m.h.blocks| ==> m.h.blocks[i + 1] !in m.h.holes)
            && m.h.start == h.start && m.h.end == h.end && m.h.max == h.max
    decreases |h.blocks|
  {
    if i + 1 < |h.blocks| && h.blocks[i + 1] in h.holes {
      RemoveFacts(h.blocks[i + 1], h.holes);
      MergeForwardShape(h.(blocks := Join(h.blocks, i), holes := Remove(h.blocks[i + 1], h.holes)), i);
    }
  }

  ghost predicate LiveAround(h: Layout, i: nat)
    requires i < |h.blocks|
  {
    && (i > 0 ==> h.blocks[i - 1] !in h.holes)
    && (i + 1 < |h.blocks| ==> h.blocks[i + 1] !in h.holes)
  }

  /** Adding a block to the hole list. */
  lemma AddHoleFacts(h: Layout, i: nat)
    requires Consistent(h) && i < |h.blocks| && h.blocks[i] !in h.holes
    ensures var h' := h.(holes := Insert(h.blocks[i], h.holes));
            && Consistent(h')
            && Live(h') == Live(h) - {h.blocks[i]}
            && (NoAdjacentHoles(h) && LiveAround(h, i) ==> NoAdjacentHoles(h'))
  {
    InsertFacts(h.blocks[i], h.holes);
    TilesUnique(h.blocks, h.start, h.end);
  }

  /** Freeing a live block keeps the heap's invariant and removes exactly that block from the live
      blocks; nothing else is disturbed, whatever merges happen. */
  lemma FreeKeepsInv(h: Layout, i: nat)
    requires Inv(h) && i < |h.blocks| && h.blocks[i] !in h.holes
    ensures var h' := FreeAt(h, i);
            && Inv(h') && Live(h') == Live(h) - {h.blocks[i]}
            && h'.start == h.start && h'.end == h.end && h'.max == h.max
  {
    FreeFacts(h, i);
  }

  lemma FreeFacts(h: Layout, i: nat)
    requires Consistent(h) && NoAdjacentHoles(h) && i < |h.blocks| && h.blocks[i] !in h.holes
    ensures var h' := FreeAt(h, i);
            && Consistent(h') && NoAdjacentHoles(h') && Live(h') == Live(h) - {h.blocks[i]}
            && (exists b :: b in h'.holes && b.size >= h.blocks[i].size)
            && h'.start == h.start && h'.end == h.end && h'.max == h.max
  {
    MergeBackFacts(h, i);
    var m := MergeBack(h, i);
    MergeForwardFacts(m.h, m.i);
    MergeForwardShape(m.h, m.i);
    var n := MergeForward(m.h, m.i);
    assert n.i > 0 ==> n.h.blocks[n.i - 1] == n.h.blocks[..n.i][n.i - 1];
    AddHoleFacts(n.h, n.i);
    InsertFacts(n.h.blocks[n.i], n.h.holes);
  }

  /** Between two live neighbours heap_free_nolock merges nothing. */
  lemma FreeAlone(h: Layout, i: nat)
    requires i < |h.blocks| && LiveAround(h, i)
    ensures FreeAt(h, i) == h.(holes := Insert(h.blocks[i], h.holes))
  {
  }

  // ----- Live blocks determine the layout

  lemma {:induction false} CanonicalTilings(s: seq<Block>, t: seq<Block>, hs: seq<Block>, ht: seq<Block>, lo: int, hi: int)
    requires Tiles(s, lo, hi) && Tiles(t, lo, hi)
    requires NoTwoFree(s, hs) && NoTwoFree(t, ht)
    requires forall b :: b in s && b !in hs <==> b in t && b !in ht
    ensures s == t
  {
    if s == [] || t == [] {
      if s != [] { TilesSplit(s, lo, hi, 0); }
      if t != [] { TilesSplit(t, lo, hi, 0); }
    } else {
      CanonicalHead(s, t, hs, ht, lo, hi);
      CanonicalHead(t, s, ht, hs, lo, hi);
      TilesOnce(s, lo, hi, 0);
      TilesOnce(t, lo, hi, 0);
      assert s == [s[0]] + s[1..] && t == [t[0]] + t[1..];
      NoTwoFreeTail(s, hs);
      NoTwoFreeTail(t, ht);
      CanonicalTilings(s[1..], t[1..], hs, ht, lo + s[0].size, hi);
    }
  }

  ghost predicate NoTwoFree(s: seq<Block>, hs: seq<Block>)
  {
    forall i, j :: 0 <= i && j == i + 1 && j < |s| ==> s[i] !in hs || s[j] !in hs
  }

  lemma NoTwoFreeTail(s: seq<Block>, hs: seq<Block>)
    requires NoTwoFree(s, hs) && s != []
    ensures NoTwoFree(s[1..], hs)
  {
    forall i, j | 0 <= i && j == i + 1 && j < |s[1..]| ensures s[1..][i] !in hs || s[1..][j] !in hs {
      assert s[i + 1] !in hs || s[j + 1] !in hs;
    }
  }

  /** The first block of one tiling is no longer than the first block of the other. */
  lemma CanonicalHead(s: seq<Block>, t: seq<Block>, hs: seq<Block>, ht: seq<Block>, lo: int, hi: int)
    requires Tiles(s, lo, hi) && Tiles(t, lo, hi) && s != [] && t != []
    requires NoTwoFree(s, hs) && NoTwoFree(t, ht)
    requires forall b :: b in s && b !in hs <==> b in t && b !in ht
    ensures s[0].size <= t[0].size
  {
    TilesOnce(s, lo, hi, 0);
    TilesOnce(t, lo, hi, 0);
    if t[0] !in ht {
      var j :| 0 <= j < |s| && s[j] == t[0];
    } else if |t| > 1 {
      assert t[0] !in ht || t[1] !in ht;
      var j :| 0 <= j < |s| && s[j] == t[1];
      TilesSplit(t, lo, hi, 0);
      if j > 0 { TilesOrder(s, lo, hi, 0, j); }
    } else {
      TilesSplit(s, lo, hi, 0);
    }
  }

  /** Two heaps with the same extent and the same live blocks are the same heap up to the order of
      equal-sized holes: block for block, and hole for hole. */
  lemma LiveDeterminesLayout(g: Layout, h: Layout)
    requires Inv(g) && Inv(h) && g.start == h.start && g.end == h.end
    requires Live(g) == Live(h)
    ensures g.blocks == h.blocks
    ensures forall b :: b in g.holes <==> b in h.holes
  {
    assert forall b :: b in g.blocks && b !in g.holes <==> b in Live(g);
    assert forall b :: b in h.blocks && b !in h.holes <==> b in Live(h);
    CanonicalTilings(g.blocks, h.blocks, g.holes, h.holes, g.start, g.end);
  }
}
