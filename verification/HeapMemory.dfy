/** Heap memory as the C code sees it: header and footer structures at addresses, and the hole list
    threaded through the headers.  The functions are the primitives of kheap.h and linkedlist.h; the
    lemmas say how each keeps memory in step with a layout. */
module HeapMemory {
  import opened HeapLayout
  import opened HeapAlloc

  const KHEAP_MAGIC: int := 0x2BADB002

  /** Stands for the address of heap->holes, the list's sentinel; no header lies there. */
  const SENTINEL: int := -1

  datatype Footer = Footer(magic: int, header: int)

  /** The header fields by header address, with list links as the address of the linked header, and
      the footers by footer address. */
  datatype Memory = Memory(magic: map<int, int>, size: map<int, int>, prev: map<int, int>, next: map<int, int>,
                           foot: map<int, Footer>)

  // ----- The primitives

  function HeadInit(m: Memory, head: int, size: int): Memory
  {
    m.(size := m.size[head := size], magic := m.magic[head := KHEAP_MAGIC],
       prev := m.prev[head := head], next := m.next[head := head],
       foot := m.foot[head + size - FOOTER := Footer(KHEAP_MAGIC, head)])
  }

  function ListRem(m: Memory, what: int): Memory
    requires what in m.prev && what in m.next
  {
    var p, n := m.prev[what], m.next[what];
    m.(next := m.next[p := n][what := what], prev := m.prev[n := p][what := what])
  }

  function ListAdd(m: Memory, what: int, p: int, n: int): Memory
  {
    m.(next := m.next[p := what][what := n], prev := m.prev[n := what][what := p])
  }

  predicate Inserted(m: Memory, what: int)
    requires what in m.prev && what in m.next
  {
    !(m.next[what] == what && m.prev[what] == what)
  }

  // ----- The circular list

  function Addrs(s: seq<Block>): (r: seq<int>)
    ensures |r| == |s| && forall k :: 0 <= k < |s| ==> r[k] == s[k].addr
  {
    seq(|s|, k requires 0 <= k < |s| => s[k].addr)
  }

  /** The walk around the hole list, from the sentinel back to it. */
  function Ring(holes: seq<Block>): seq<int> { [SENTINEL] + Addrs(holes) + [SENTINEL] }

  ghost predicate PointAtEachOther(m: Memory, a: int, b: int)
  {
    && a in m.next && m.next[a] == b
    && b in m.prev && m.prev[b] == a
  }

  /** Consecutive entries of the walk point at each other. */
  ghost predicate Chain(r: seq<int>, m: Memory)
  {
    forall k, l :: 0 <= k && l == k + 1 && l < |r| ==> PointAtEachOther(m, r[k], r[l])
  }

  lemma ChainAt(r: seq<int>, m: Memory, k: nat)
    requires Chain(r, m) && k + 1 < |r|
    ensures PointAtEachOther(m, r[k], r[k + 1])
  {
  }

  /** Entries of the walk differ, except that it ends where it began. */
  ghost predicate Simple(r: seq<int>)
  {
    && |r| >= 2 && r[0] == r[|r| - 1]
    && forall i, j :: 0 <= i < j < |r| - 1 ==> r[i] != r[j]
  }

  lemma UnlinkChain(r: seq<int>, p: nat, m: Memory)
    requires Simple(r) && Chain(r, m) && 1 <= p < |r| - 1
    ensures PointAtEachOther(m, r[p - 1], r[p]) && PointAtEachOther(m, r[p], r[p + 1])
    ensures Chain(r[..p] + r[p + 1..], ListRem(m, r[p]))
  {
    ChainAt(r, m, p - 1);
    ChainAt(r, m, p);
    var m' := ListRem(m, r[p]);
    var t := r[..p] + r[p + 1..];
    assert r[p] != r[0];
    forall k, l | 0 <= k && l == k + 1 && l < |t| ensures PointAtEachOther(m', t[k], t[l]) {
      if l < p {
        ChainAt(r, m, k);
      } else if l > p {
        ChainAt(r, m, k + 1);
      }
    }
  }

  lemma LinkChain(r: seq<int>, p: nat, what: int, m: Memory)
    requires Simple(r) && Chain(r, m) && 1 <= p < |r| && what !in r
    ensures Chain(r[..p] + [what] + r[p..], ListAdd(m, what, r[p - 1], r[p]))
  {
    var m' := ListAdd(m, what, r[p - 1], r[p]);
    var t := r[..p] + [what] + r[p..];
    forall k, l | 0 <= k && l == k + 1 && l < |t| ensures PointAtEachOther(m', t[k], t[l]) {
      if l < p {
        ChainAt(r, m, k);
        assert r[k] != r[p - 1] && (p == |r| - 1 ==> r[l] != r[p]);
      } else if l > p + 1 {
        ChainAt(r, m, k - 1);
      }
    }
  }

  // ----- Memory in step with a layout

  ghost predicate Tagged(m: Memory, b: Block)
  {
    && b.addr in m.magic && m.magic[b.addr] == KHEAP_MAGIC
    && b.addr in m.size && m.size[b.addr] == b.size
    && b.addr + b.size - FOOTER in m.foot && m.foot[b.addr + b.size - FOOTER] == Footer(KHEAP_MAGIC, b.addr)
  }

  ghost predicate Loose(m: Memory, b: Block)
  {
    && b.addr in m.prev && m.prev[b.addr] == b.addr
    && b.addr in m.next && m.next[b.addr] == b.addr
  }

  /** Every block carries its header and its footer, the list links run through the holes in order,
      and every other block is linked to itself. */
  ghost predicate Represents(m: Memory, h: Layout)
  {
    && h.start >= 0
    && Consistent(h)
    && (forall b :: b in h.blocks ==> Tagged(m, b))
    && (forall b :: b in h.blocks && b !in h.holes ==> Loose(m, b))
    && Chain(Ring(h.holes), m)
  }

  /** The structures of different blocks never overlap, nor do a block's own header and footer, so
      keeping them as records at addresses loses nothing. */
  lemma StructuresApart(h: Layout, i: nat, j: nat)
    requires Consistent(h) && i < |h.blocks| && j < |h.blocks|
    ensures h.blocks[i].addr + HEADER <= h.blocks[i].addr + h.blocks[i].size - FOOTER
    ensures i < j ==> h.blocks[i].addr + h.blocks[i].size <= h.blocks[j].addr
  {
    TilesOnce(h.blocks, h.start, h.end, i);
    if i < j { TilesOrder(h.blocks, h.start, h.end, i, j); }
  }

  lemma RingSimple(h: Layout)
    requires h.start >= 0 && Consistent(h)
    ensures Simple(Ring(h.holes))
    ensures forall b :: b in h.blocks && b !in h.holes ==> b.addr !in Ring(h.holes)
    ensures forall k :: 0 <= k < |h.holes| ==> h.holes[k].addr >= 0
  {
    var r := Ring(h.holes);
    TilesUnique(h.blocks, h.start, h.end);
    forall b, k | b in h.blocks && 0 <= k < |h.holes| && h.holes[k] != b ensures b.addr != h.holes[k].addr && b.addr >= 0 {
      assert h.holes[k] in h.holes;
    }
    forall i, j | 0 <= i < j < |r| - 1 ensures r[i] != r[j] {
      assert h.holes[j - 1] in h.holes;
      if i > 0 { assert h.holes[i - 1] in h.holes; }
    }
  }

  /** A block is on the list exactly when its links do not point at itself. */
  lemma InsertedMeansHole(m: Memory, h: Layout, b: Block)
    requires Represents(m, h) && b in h.blocks
    ensures b.addr in m.prev && b.addr in m.next
    ensures Inserted(m, b.addr) <==> b in h.holes
  {
    if b in h.holes {
      RingSimple(h);
      var k :| 0 <= k < |h.holes| && h.holes[k] == b;
      var r := Ring(h.holes);
      ChainAt(r, m, k);
      ChainAt(r, m, k + 1);
      assert r[k + 1] == b.addr;
      assert r[k] != r[k + 1];
    } else {
      assert Loose(m, b);
    }
  }

  /** Writing the links of an address off the walk leaves the walk alone. */
  lemma ChainFrame(r: seq<int>, m: Memory, head: int, size: int)
    requires Chain(r, m) && head !in r
    ensures Chain(r, HeadInit(m, head, size))
  {
    forall k, l | 0 <= k && l == k + 1 && l < |r| ensures PointAtEachOther(HeadInit(m, head, size), r[k], r[l]) {
      ChainAt(r, m, k);
    }
  }

  lemma {:induction false} RemoveAt(s: seq<Block>, k: nat)
    requires Distinct(s) && k < |s|
    ensures Remove(s[k], s) == s[..k] + s[k + 1..]
  {
    if k > 0 {
      assert s[1..][..k - 1] == s[1..k] && s[..k] == [s[0]] + s[1..k];
      RemoveAt(s[1..], k - 1);
    }
  }

  lemma {:induction false} InsertAt(b: Block, s: seq<Block>, k: nat)
    requires k <= |s| && (forall j :: 0 <= j < k ==> s[j].size < b.size) && (k < |s| ==> b.size <= s[k].size)
    ensures Insert(b, s) == s[..k] + [b] + s[k..]
  {
    if k > 0 {
      assert s[1..][..k - 1] == s[1..k] && s[..k] == [s[0]] + s[1..k];
      InsertAt(b, s[1..], k - 1);
    }
  }

  lemma RingOfDrop(s: seq<Block>, k: nat)
    requires k < |s|
    ensures Ring(s[..k] + s[k + 1..]) == Ring(s)[..k + 1] + Ring(s)[k + 2..]
  {
    assert Addrs(s[..k] + s[k + 1..]) == Addrs(s)[..k] + Addrs(s)[k + 1..];
  }

  lemma RingOfRemove(s: seq<Block>, k: nat)
    requires Distinct(s) && k < |s|
    ensures Ring(Remove(s[k], s)) == Ring(s)[..k + 1] + Ring(s)[k + 2..]
  {
    RemoveAt(s, k);
    RingOfDrop(s, k);
  }

  lemma RingOfInsert(b: Block, s: seq<Block>, k: nat)
    requires k <= |s| && (forall j :: 0 <= j < k ==> s[j].size < b.size) && (k < |s| ==> b.size <= s[k].size)
    ensures Ring(Insert(b, s)) == Ring(s)[..k + 1] + [b.addr] + Ring(s)[k + 1..]
  {
    InsertAt(b, s, k);
    RingOfPut(b, s, k);
  }

  lemma RingOfPut(b: Block, s: seq<Block>, k: nat)
    requires k <= |s|
    ensures Ring(s[..k] + [b] + s[k..]) == Ring(s)[..k + 1] + [b.addr] + Ring(s)[k + 1..]
  {
    assert Addrs(s[..k] + [b] + s[k..]) == Addrs(s)[..k] + [b.addr] + Addrs(s)[k..];
  }

  lemma RemoveChain(m: Memory, h: Layout, k: nat)
    requires h.start >= 0 && Consistent(h) && Chain(Ring(h.holes), m) && k < |h.holes|
    ensures var r := Ring(h.holes); var a := h.holes[k].addr;
            && a in m.prev && m.prev[a] == r[k] && a in m.next && m.next[a] == r[k + 2]
            && Chain(Ring(Remove(h.holes[k], h.holes)), ListRem(m, a))
  {
    hide Tiles;
    hide Distinct;
    hide BySize;
    var r := Ring(h.holes);
    assert Simple(r) by { RingSimple(h); }
    assert r[k + 1] == h.holes[k].addr;
    UnlinkChain(r, k + 1, m);
    RingOfRemove(h.holes, k);
  }

  lemma LooseOffRing(m: Memory, h: Layout, c: Block, k: nat)
    requires Represents(m, h) && c in h.blocks && c !in h.holes && k < |Ring(h.holes)|
    ensures Loose(m, c) && c.addr != Ring(h.holes)[k]
  {
    RingSimple(h);
    assert Ring(h.holes)[k] in Ring(h.holes);
  }

  /** list_rem of a hole. */
  lemma RemoveRepresents(m: Memory, h: Layout, b: Block)
    requires Represents(m, h) && b in h.holes
    ensures b.addr in m.prev && b.addr in m.next
    ensures Represents(ListRem(m, b.addr), h.(holes := Remove(b, h.holes)))
  {
    hide Tiles;
    hide Distinct;
    hide BySize;
    RemoveFacts(b, h.holes);
    var k :| 0 <= k < |h.holes| && h.holes[k] == b;
    RemoveChain(m, h, k);
    var m' := ListRem(m, b.addr);
    forall c | c in h.blocks && c !in Remove(b, h.holes) ensures Loose(m', c) { LooseAfterRemove(m, h, b, k, c); }
    forall c | c in h.blocks ensures Tagged(m', c) { assert Tagged(m, c); }
  }

  lemma LooseAfterRemove(m: Memory, h: Layout, b: Block, k: nat, c: Block)
    requires Represents(m, h) && k < |h.holes| && h.holes[k] == b && c in h.blocks && (c == b || c !in h.holes)
    requires b in h.blocks && b.addr in m.prev && b.addr in m.next
    requires m.prev[b.addr] == Ring(h.holes)[k] && m.next[b.addr] == Ring(h.holes)[k + 2]
    ensures Loose(ListRem(m, b.addr), c)
  {
    if c != b {
      LooseOffRing(m, h, c, k);
      LooseOffRing(m, h, c, k + 2);
      SameAddress(h, b, c);
    }
    hide Represents;
  }

  lemma AddChain(m: Memory, h: Layout, b: Block, k: nat)
    requires h.start >= 0 && Consistent(h) && Chain(Ring(h.holes), m) && b in h.blocks && b !in h.holes
    requires k <= |h.holes| && (forall j :: 0 <= j < k ==> h.holes[j].size < b.size)
    requires k < |h.holes| ==> b.size <= h.holes[k].size
    ensures var r := Ring(h.holes);
            Chain(Ring(Insert(b, h.holes)), ListAdd(m, b.addr, r[k], r[k + 1]))
  {
    hide Tiles;
    hide Distinct;
    hide BySize;
    var r := Ring(h.holes);
    assert Simple(r) && b.addr !in r by { RingSimple(h); }
    LinkChain(r, k + 1, b.addr, m);
    RingOfInsert(b, h.holes, k);
  }

  /** list_add of a loose block before entry `k` of the hole list, the place list_add_ordered finds. */
  lemma AddRepresents(m: Memory, h: Layout, b: Block, k: nat)
    requires Represents(m, h) && b in h.blocks && b !in h.holes
    requires k <= |h.holes| && (forall j :: 0 <= j < k ==> h.holes[j].size < b.size)
    requires k < |h.holes| ==> b.size <= h.holes[k].size
    ensures var r := Ring(h.holes);
            Represents(ListAdd(m, b.addr, r[k], r[k + 1]), h.(holes := Insert(b, h.holes)))
  {
    hide Tiles;
    hide Distinct;
    hide BySize;
    InsertFacts(b, h.holes);
    AddChain(m, h, b, k);
    var r := Ring(h.holes);
    var m' := ListAdd(m, b.addr, r[k], r[k + 1]);
    forall c | c in h.blocks && c !in Insert(b, h.holes) ensures Loose(m', c) { LooseAfterAdd(m, h, b, k, c); }
    forall c | c in h.blocks ensures Tagged(m', c) { assert Tagged(m, c); }
  }

  lemma LooseAfterAdd(m: Memory, h: Layout, b: Block, k: nat, c: Block)
    requires Represents(m, h) && b in h.blocks && k <= |h.holes| && c in h.blocks && c != b && c !in h.holes
    ensures var r := Ring(h.holes); Loose(ListAdd(m, b.addr, r[k], r[k + 1]), c)
  {
    LooseOffRing(m, h, c, k);
    LooseOffRing(m, h, c, k + 1);
    SameAddress(h, b, c);
    hide Represents;
  }

  lemma SameAddress(h: Layout, b: Block, c: Block)
    requires Consistent(h) && b in h.blocks && c in h.blocks
    ensures b.addr == c.addr <==> b == c
    ensures b.addr + b.size == c.addr + c.size <==> b == c
    ensures b.size >= OVERHEAD && h.start <= b.addr && b.addr + b.size <= h.end
  {
    var i :| 0 <= i < |h.blocks| && h.blocks[i] == b;
    var j :| 0 <= j < |h.blocks| && h.blocks[j] == c;
    TilesOnce(h.blocks, h.start, h.end, i);
    TilesOnce(h.blocks, h.start, h.end, j);
    if i < j { TilesOrder(h.blocks, h.start, h.end, i, j); }
    if j < i { TilesOrder(h.blocks, h.start, h.end, j, i); }
  }

  /** head_init on a block that already stands as it would be written changes nothing. */
  lemma ReinitNothing(m: Memory, h: Layout, b: Block)
    requires Represents(m, h) && b in h.blocks && b !in h.holes
    ensures HeadInit(m, b.addr, b.size) == m
  {
    assert Tagged(m, b) && Loose(m, b);
    assert m.size[b.addr := b.size] == m.size;
    assert m.magic[b.addr := KHEAP_MAGIC] == m.magic;
    assert m.prev[b.addr := b.addr] == m.prev && m.next[b.addr := b.addr] == m.next;
    assert m.foot[b.addr + b.size - FOOTER := Footer(KHEAP_MAGIC, b.addr)] == m.foot;
  }

  lemma HeadInitElsewhere(m: Memory, head: int, size: int, c: Block)
    requires c.addr != head && c.addr + c.size != head + size
    ensures Tagged(m, c) ==> Tagged(HeadInit(m, head, size), c)
    ensures Loose(m, c) ==> Loose(HeadInit(m, head, size), c)
  {
  }

  /** Merging two loose neighbours: head_init with the summed size. */
  lemma JoinRepresents(m: Memory, h: Layout, k: nat)
    requires Represents(m, h) && k + 1 < |h.blocks|
    requires h.blocks[k] !in h.holes && h.blocks[k + 1] !in h.holes
    ensures Represents(HeadInit(m, h.blocks[k].addr, h.blocks[k].size + h.blocks[k + 1].size),
                       h.(blocks := Join(h.blocks, k)))
  {
    hide Tiles;
    hide Distinct;
    hide BySize;
    hide Chain;
    hide Ring;
    hide HeadInit;
    var x, y := h.blocks[k], h.blocks[k + 1];
    var h' := h.(blocks := Join(h.blocks, k));
    var z := h'.blocks[k];
    JoinTiles(h, k);
    assert z == Block(x.addr, x.size + y.size) && x.addr + x.size == y.addr by { TilesOnce(h.blocks, h.start, h.end, k); }
    RingSimple(h);
    ChainFrame(Ring(h.holes), m, x.addr, z.size);
    var m' := HeadInit(m, z.addr, z.size);
    forall c | c in h'.blocks ensures Tagged(m', c) && (c !in h.holes ==> Loose(m', c)) {
      if c == z { FreshlyTagged(m, z); } else { JoinFrame(m, h, x, y, c); }
    }
  }

  lemma FreshlyTagged(m: Memory, z: Block)
    ensures Tagged(HeadInit(m, z.addr, z.size), z) && Loose(HeadInit(m, z.addr, z.size), z)
  {
  }

  lemma JoinFrame(m: Memory, h: Layout, x: Block, y: Block, c: Block)
    requires Consistent(h) && x in h.blocks && y in h.blocks && c in h.blocks && c != x && c != y && x.addr + x.size == y.addr
    ensures var m' := HeadInit(m, x.addr, x.size + y.size);
            (Tagged(m, c) ==> Tagged(m', c)) && (Loose(m, c) ==> Loose(m', c))
  {
    hide Consistent;
    SameAddress(h, c, x);
    SameAddress(h, c, y);
    HeadInitElsewhere(m, x.addr, x.size + y.size, c);
  }

  lemma CutConsistent(h: Layout, i: nat, d: int)
    requires Consistent(h) && i < |h.blocks| && h.blocks[i] !in h.holes
    requires OVERHEAD <= d && OVERHEAD <= h.blocks[i].size - d
    ensures var h' := h.(blocks := Cut(h.blocks, i, d));
            var x, y := h'.blocks[i], h'.blocks[i + 1];
            && Consistent(h') && x !in h'.holes && y !in h'.holes
            && (forall c :: c in h'.blocks && c != x && c != y ==> c in h.blocks)
  {
    CutBlocks(h, i, d);
  }

  /** Splitting a loose block: the header of the back piece is written first, then the front one. */
  lemma CutRepresents(m: Memory, h: Layout, i: nat, d: int)
    requires Represents(m, h) && i < |h.blocks| && h.blocks[i] !in h.holes
    requires OVERHEAD <= d && OVERHEAD <= h.blocks[i].size - d
    ensures var b := h.blocks[i];
            Represents(HeadInit(HeadInit(m, b.addr + d, b.size - d), b.addr, d), h.(blocks := Cut(h.blocks, i, d)))
  {
    hide Tiles;
    hide Distinct;
    hide BySize;
    hide Chain;
    hide Ring;
    hide HeadInit;
    var h' := h.(blocks := Cut(h.blocks, i, d));
    var x, y := h'.blocks[i], h'.blocks[i + 1];
    CutConsistent(h, i, d);
    CutChain(m, h', x, y);
    CutPieces(m, h', x, y);
    var m' := HeadInit(HeadInit(m, y.addr, y.size), x.addr, x.size);
    forall c | c in h'.blocks && c != x && c != y ensures Tagged(m', c) && (c !in h.holes ==> Loose(m', c)) {
      CutFrame(m, h', x, y, c);
    }
  }

  lemma CutChain(m: Memory, h': Layout, x: Block, y: Block)
    requires h'.start >= 0 && Consistent(h') && Chain(Ring(h'.holes), m)
    requires x in h'.blocks && y in h'.blocks && x !in h'.holes && y !in h'.holes
    ensures Chain(Ring(h'.holes), HeadInit(HeadInit(m, y.addr, y.size), x.addr, x.size))
  {
    hide Consistent;
    hide Chain;
    hide Ring;
    hide HeadInit;
    RingSimple(h');
    ChainFrame(Ring(h'.holes), m, y.addr, y.size);
    ChainFrame(Ring(h'.holes), HeadInit(m, y.addr, y.size), x.addr, x.size);
  }

  lemma CutPieces(m: Memory, h': Layout, x: Block, y: Block)
    requires Consistent(h') && x in h'.blocks && y in h'.blocks && x != y
    ensures var m' := HeadInit(HeadInit(m, y.addr, y.size), x.addr, x.size);
            Tagged(m', x) && Loose(m', x) && Tagged(m', y) && Loose(m', y)
  {
    hide Consistent;
    SameAddress(h', x, y);
    HeadInitElsewhere(HeadInit(m, y.addr, y.size), x.addr, x.size, y);
  }

  lemma CutFrame(m: Memory, h': Layout, x: Block, y: Block, c: Block)
    requires Consistent(h') && x in h'.blocks && y in h'.blocks && c in h'.blocks && c != x && c != y
    ensures var m' := HeadInit(HeadInit(m, y.addr, y.size), x.addr, x.size);
            (Tagged(m, c) ==> Tagged(m', c)) && (Loose(m, c) ==> Loose(m', c))
  {
    hide Tiles;
    hide Distinct;
    hide BySize;
    SameAddress(h', c, x);
    SameAddress(h', c, y);
    HeadInitElsewhere(m, y.addr, y.size, c);
    HeadInitElsewhere(HeadInit(m, y.addr, y.size), x.addr, x.size, c);
  }

  /** New memory at the end: a loose block. */
  lemma GrowRepresents(m: Memory, h: Layout, g: int)
    requires Represents(m, h) && NoAdjacentHoles(h) && g >= OVERHEAD
    ensures Represents(HeadInit(m, h.end, g), h.(end := h.end + g, blocks := h.blocks + [Block(h.end, g)]))
  {
    hide Tiles;
    hide Distinct;
    hide BySize;
    var z := Block(h.end, g);
    var h' := h.(end := h.end + g, blocks := h.blocks + [z]);
    GrownConsistent(h, g);
    var m' := HeadInit(m, z.addr, z.size);
    assert h'.blocks[|h.blocks|] == z;
    RingSimple(h');
    ChainFrame(Ring(h.holes), m, z.addr, z.size);
    forall c | c in h'.blocks ensures Tagged(m', c) && (c !in h.holes ==> Loose(m', c)) {
      if c != z {
        assert Tagged(m, c) && (c !in h.holes ==> Loose(m, c));
        SameAddress(h', c, z);
      }
    }
  }

  /** The footer below the header of block `i` names its left neighbour, whose links show whether it
      is a hole. */
  ghost predicate LeftKnown(m: Memory, h: Layout, i: nat)
    requires i < |h.blocks|
  {
    var b := h.blocks[i];
    && (b.addr == h.start <==> i == 0)
    && (i > 0 ==>
          var c := h.blocks[i - 1];
          && b.addr - FOOTER in m.foot && m.foot[b.addr - FOOTER].header == c.addr
          && c.addr in m.prev && c.addr in m.next && (Inserted(m, c.addr) <==> c in h.holes))
  }

  /** The size in the header of block `i` leads to its right neighbour, whose links show whether it is
      a hole. */
  ghost predicate RightKnown(m: Memory, h: Layout, i: nat)
    requires i < |h.blocks|
  {
    var b := h.blocks[i];
    && b.addr in m.size && m.size[b.addr] == b.size
    && (b.addr + b.size == h.end <==> i == |h.blocks| - 1)
    && (i + 1 < |h.blocks| ==>
          var c := h.blocks[i + 1];
          && b.addr + b.size == c.addr
          && c.addr in m.prev && c.addr in m.next && (Inserted(m, c.addr) <==> c in h.holes))
  }

  lemma Neighbours(m: Memory, h: Layout, i: nat)
    requires Represents(m, h) && i < |h.blocks|
    ensures Tagged(m, h.blocks[i]) && LeftKnown(m, h, i) && RightKnown(m, h, i)
  {
    TilesOnce(h.blocks, h.start, h.end, i);
    TilesSplit(h.blocks, h.start, h.end, 0);
    if i > 0 {
      TilesOrder(h.blocks, h.start, h.end, 0, i);
      TilesOnce(h.blocks, h.start, h.end, i - 1);
      assert Tagged(m, h.blocks[i - 1]);
      InsertedMeansHole(m, h, h.blocks[i - 1]);
    }
    if i + 1 < |h.blocks| {
      TilesOnce(h.blocks, h.start, h.end, i + 1);
      InsertedMeansHole(m, h, h.blocks[i + 1]);
    }
  }

  lemma RemovedHole(m: Memory, h: Layout, b: Block)
    requires Represents(m, h)
    ensures forall c :: c in Remove(b, h.holes) <==> c in h.holes && c != b
  {
    RemoveFacts(b, h.holes);
  }

  /** One round of "combine": neighbour `gone` leaves the list and head_init joins blocks k and k+1. */
  lemma CombineRepresents(m: Memory, h: Layout, k: nat, gone: nat)
    requires Represents(m, h) && k + 1 < |h.blocks| && k <= gone <= k + 1
    requires h.blocks[gone] in h.holes && h.blocks[k + k + 1 - gone] !in h.holes
    ensures h.blocks[gone].addr in m.prev && h.blocks[gone].addr in m.next
    ensures Represents(HeadInit(ListRem(m, h.blocks[gone].addr), h.blocks[k].addr, h.blocks[k].size + h.blocks[k + 1].size),
                       h.(blocks := Join(h.blocks, k), holes := Remove(h.blocks[gone], h.holes)))
  {
    hide Represents;
    var b := h.blocks[gone];
    RemoveRepresents(m, h, b);
    var g := h.(holes := Remove(b, h.holes));
    RemovedHole(m, h, b);
    JoinRepresents(ListRem(m, b.addr), g, k);
  }

  lemma CombineShape(m: Memory, h: Layout, k: nat, gone: nat)
    requires Represents(m, h) && k + 1 < |h.blocks| && k <= gone <= k + 1
    requires h.blocks[gone] in h.holes && h.blocks[k + k + 1 - gone] !in h.holes
    ensures var x, y := h.blocks[k], h.blocks[k + 1];
            && x.addr in m.size && m.size[x.addr] == x.size && y.addr in m.size && m.size[y.addr] == y.size
            && x.addr < y.addr && y.size > 0
            && Join(h.blocks, k)[k] !in Remove(h.blocks[gone], h.holes)
  {
    assert Tagged(m, h.blocks[k]) && Tagged(m, h.blocks[k + 1]);
    TilesOrder(h.blocks, h.start, h.end, k, k + 1);
    TilesOnce(h.blocks, h.start, h.end, k + 1);
    JoinFacts(h, k, gone, k + k + 1 - gone);
  }

  /** heap_trim writes the back piece's header while the hole is still on the list; taking the hole
      off first comes to the same. */
  lemma WriteThenRemove(m: Memory, h: Layout, i: nat, d: int)
    requires Represents(m, h) && i < |h.blocks| && h.blocks[i] in h.holes
    requires OVERHEAD <= d && OVERHEAD <= h.blocks[i].size - d
    ensures var b := h.blocks[i]; var t := b.addr + d; var z := b.size - d;
            && b.addr in m.prev && b.addr in m.next
            && b.addr in HeadInit(m, t, z).prev && b.addr in HeadInit(m, t, z).next
            && ListRem(HeadInit(m, t, z), b.addr) == HeadInit(ListRem(m, b.addr), t, z)
  {
    assert h.start >= 0 && Consistent(h);
    hide Represents;
    hide Consistent;
    hide Ring;
    hide ListRem;
    var b := h.blocks[i];
    var k :| 0 <= k < |h.holes| && h.holes[k] == b;
    HoleLinks(m, h, k);
    InsideNotOnRing(h, i, b.addr + d, k);
    InsideNotOnRing(h, i, b.addr + d, k + 2);
    Commute(m, b.addr, b.addr + d, b.size - d);
  }

  lemma HoleLinks(m: Memory, h: Layout, k: nat)
    requires Represents(m, h) && k < |h.holes|
    ensures var a, r := h.holes[k].addr, Ring(h.holes);
            |r| == |h.holes| + 2 && a in m.prev && m.prev[a] == r[k] && a in m.next && m.next[a] == r[k + 2]
  {
    RemoveChain(m, h, k);
  }

  lemma InsideNotOnRing(h: Layout, i: nat, t: int, k: nat)
    requires h.start >= 0 && Consistent(h) && i < |h.blocks| && k < |Ring(h.holes)|
    requires h.blocks[i].addr < t < h.blocks[i].addr + h.blocks[i].size
    ensures Ring(h.holes)[k] != t
  {
    SameAddress(h, h.blocks[i], h.blocks[i]);
    if 1 <= k <= |h.holes| {
      assert h.holes[k - 1] in h.holes;
      InsideBlock(h, i, h.holes[k - 1], t);
    }
  }

  lemma Commute(m: Memory, a: int, t: int, z: int)
    requires a in m.prev && a in m.next && t != a && t != m.prev[a] && t != m.next[a]
    ensures ListRem(HeadInit(m, t, z), a) == HeadInit(ListRem(m, a), t, z)
  {
    var p, n := m.prev[a], m.next[a];
    assert m.next[t := t][p := n][a := a] == m.next[p := n][a := a][t := t];
    assert m.prev[t := t][n := p][a := a] == m.prev[n := p][a := a][t := t];
  }

  lemma InsideBlock(h: Layout, i: nat, c: Block, t: int)
    requires Consistent(h) && i < |h.blocks| && c in h.blocks
    requires h.blocks[i].addr < t < h.blocks[i].addr + h.blocks[i].size
    ensures c.addr != t
  {
    var j :| 0 <= j < |h.blocks| && h.blocks[j] == c;
    if i < j { TilesOrder(h.blocks, h.start, h.end, i, j); }
    if j < i { TilesOrder(h.blocks, h.start, h.end, j, i); TilesOnce(h.blocks, h.start, h.end, j); }
  }

  /** The writes of heap_trim that turn a hole into two loose blocks. */
  lemma SplitRepresents(m: Memory, h: Layout, i: nat, d: int)
    requires Represents(m, h) && i < |h.blocks| && h.blocks[i] in h.holes
    requires OVERHEAD <= d && OVERHEAD <= h.blocks[i].size - d
    ensures var b := h.blocks[i]; var m1 := HeadInit(m, b.addr + d, b.size - d);
            && b.addr in m1.prev && b.addr in m1.next
            && Represents(HeadInit(ListRem(m1, b.addr), b.addr, d),
                          h.(blocks := Cut(h.blocks, i, d), holes := Remove(b, h.holes)))
  {
    hide *;
    var b := h.blocks[i];
    WriteThenRemove(m, h, i, d);
    RemoveRepresents(m, h, b);
    RemovedHole(m, h, b);
    CutRepresents(ListRem(m, b.addr), h.(holes := Remove(b, h.holes)), i, d);
  }
}
