/** Whole runs of heap_alloc and heap_free from heap_init, seen by the heap's clients. */
module HeapRuns {
  import opened Options
  import opened HeapLayout
  import opened HeapAlloc
  import Lists

  datatype Request =
    | Alloc(reqd: Size, align: bool)
    | Release(addr: int)

  /** The heap and what its clients hold: payload address to requested size. */
  datatype System = System(h: Layout, held: map<int, nat>)

  function BlockAt(s: seq<Block>, addr: int): (i: nat)
    requires exists b :: b in s && b.addr == addr
    ensures i < |s| && s[i].addr == addr
  {
    if s[0].addr == addr then 0
    else
      assert s == [s[0]] + s[1..];
      1 + BlockAt(s[1..], addr)
  }

  ghost predicate BlockHeld(s: System, b: Block)
  {
    b.addr + HEADER in s.held && s.held[b.addr + HEADER] + OVERHEAD <= b.size
  }

  ghost predicate HasBlock(h: Layout, a: int) { exists b :: b in Live(h) && b.addr == a - HEADER }

  /** The heap is in order, and its live blocks are exactly the blocks the clients hold, each at
      least as large as was asked. */
  ghost predicate Good(s: System)
  {
    && Inv(s.h)
    && (forall b {:trigger BlockHeld(s, b)} :: b in Live(s.h) ==> BlockHeld(s, b))
    && (forall a {:trigger HasBlock(s.h, a)} :: a in s.held ==> HasBlock(s.h, a))
  }

  /** heap_init: an empty heap, expanded by the smallest amount. */
  function Boot(start: int, max: int): System
    requires 0 <= start && start + PAGE <= max < WORD
  {
    System(Expand(Layout(start, start, max, [], []), 1).value, map[])
  }

  /** One call.  There is no next state when the call goes wrong, which LocatePlain and ScanOutcome say when,
      or releases an inside address that is not held.  An address outside the heap is ignored, as
      heap_free_nolock does. */
  ghost function Step(s: System, r: Request): Option<System>
    requires Good(s)
  {
    match r
    case Alloc(reqd, align) =>
      (match Locate(s.h, reqd, align)
       case Found(h, i) => Some(System(Take(h, i), s.held[h.blocks[i].addr + HEADER := reqd]))
       case NoMemory(h) => Some(System(h, s.held))
       case Wrong(_) => None)
    case Release(addr) =>
      if addr < s.h.start || addr >= s.h.end then Some(s)
      else if addr !in s.held then None
      else
        assert HasBlock(s.h, addr);
        Some(System(FreeAt(s.h, BlockAt(s.h.blocks, addr - HEADER)), s.held - {addr}))
  }

  lemma AllocGood(s: System, reqd: Size, align: bool)
    requires Good(s)
    ensures var n := Step(s, Alloc(reqd, align)); n.Some? ==> Good(n.value)
  {
    LocateAllocates(s.h, reqd, align);
    hide Locate;
    hide Inv;
    hide Live;
    var r := Locate(s.h, reqd, align);
    if r.Found? {
      NewBlockGood(s, Take(r.h, r.i), r.h.blocks[r.i], reqd);
    } else if r.NoMemory? {
      var t := System(r.h, s.held);
      forall c | c in Live(t.h) ensures BlockHeld(t, c) { assert BlockHeld(s, c); }
      forall a | a in t.held ensures HasBlock(t.h, a) { assert HasBlock(s.h, a); }
    }
  }

  lemma NewBlockGood(s: System, h: Layout, b: Block, reqd: nat)
    requires Good(s) && Inv(h) && b !in Live(s.h) && Live(h) == Live(s.h) + {b} && reqd + OVERHEAD <= b.size
    ensures Good(System(h, s.held[b.addr + HEADER := reqd]))
  {
    hide Live;
    hide Inv;
    var t := System(h, s.held[b.addr + HEADER := reqd]);
    forall c | c in Live(h) ensures BlockHeld(t, c) {
      if c != b {
        LiveAddressesDiffer(h, b, c);
        assert BlockHeld(s, c);
      }
    }
    forall a | a in t.held ensures HasBlock(h, a) {
      if a != b.addr + HEADER {
        assert HasBlock(s.h, a);
        var c :| c in Live(s.h) && c.addr == a - HEADER;
        assert c in Live(h);
      } else {
        assert b in Live(h);
      }
    }
  }

  lemma LiveAddressesDiffer(h: Layout, b: Block, c: Block)
    requires Inv(h) && b in Live(h) && c in Live(h) && b != c
    ensures b.addr + b.size <= c.addr || c.addr + c.size <= b.addr
    ensures b.size >= OVERHEAD && c.size >= OVERHEAD
    ensures h.start <= b.addr && b.addr + b.size <= h.end
  {
    var i :| 0 <= i < |h.blocks| && h.blocks[i] == b;
    var j :| 0 <= j < |h.blocks| && h.blocks[j] == c;
    TilesOnce(h.blocks, h.start, h.end, i);
    TilesOnce(h.blocks, h.start, h.end, j);
    if i < j { TilesOrder(h.blocks, h.start, h.end, i, j); } else { TilesOrder(h.blocks, h.start, h.end, j, i); }
  }

  /** The block whose payload address a client holds. */
  lemma HeldBlock(s: System, addr: int) returns (b: Block)
    requires Good(s) && addr in s.held
    ensures b in Live(s.h) && b.addr == addr - HEADER && BlockHeld(s, b)
    ensures s.h.blocks[BlockAt(s.h.blocks, addr - HEADER)] == b
  {
    assert HasBlock(s.h, addr);
    b :| b in Live(s.h) && b.addr == addr - HEADER;
    assert BlockHeld(s, b);
    var i :| 0 <= i < |s.h.blocks| && s.h.blocks[i] == b;
    TilesOnce(s.h.blocks, s.h.start, s.h.end, i);
    var j := BlockAt(s.h.blocks, addr - HEADER);
  }

  lemma ReleaseGood(s: System, addr: int)
    requires Good(s)
    ensures var n := Step(s, Release(addr)); n.Some? ==> Good(n.value)
  {
    if s.h.start <= addr < s.h.end && addr in s.held {
      var b := HeldBlock(s, addr);
      var i := BlockAt(s.h.blocks, addr - HEADER);
      FreeKeepsInv(s.h, i);
      ReleasedGood(s, System(FreeAt(s.h, i), s.held - {addr}), b);
    }
  }

  /** What clients hold after the release of one block. */
  lemma ReleasedGood(s: System, t: System, b: Block)
    requires Good(s) && Inv(t.h) && b in Live(s.h) && Live(t.h) == Live(s.h) - {b}
    requires t.held == s.held - {b.addr + HEADER}
    ensures Good(t)
  {
    hide Live;
    forall c | c in Live(t.h) ensures BlockHeld(t, c) {
      LiveAddressesDiffer(s.h, b, c);
      assert BlockHeld(s, c);
    }
    hide Inv;
    forall a | a in t.held ensures HasBlock(t.h, a) {
      assert HasBlock(s.h, a);
      var c :| c in Live(s.h) && c.addr == a - HEADER;
      assert c in Live(t.h);
    }
  }

  /** A run of calls. */
  ghost function Run(s: System, rs: seq<Request>): Option<System>
    requires Good(s)
    decreases |rs|
  {
    if rs == [] then Some(s)
    else
      var n := Step(s, rs[0]);
      if n.None? then None
      else
        StepGood(s, rs[0]);
        Run(n.value, rs[1..])
  }

  lemma StepGood(s: System, r: Request)
    requires Good(s) && Step(s, r).Some?
    ensures Good(Step(s, r).value)
  {
    match r
    case Alloc(reqd, align) => AllocGood(s, reqd, align);
    case Release(addr) => ReleaseGood(s, addr);
  }

  lemma BootGood(start: int, max: int)
    requires 0 <= start && start + PAGE <= max < WORD
    ensures Good(Boot(start, max)) && Live(Boot(start, max).h) == {}
  {
    var h := Layout(start, start, max, [], []);
    assert Fresh(h);
    ExpandKeepsInv(h, 1);
  }

  /** Every state reached from heap_init by any run of calls: blocks tile the heap, the hole list is
      the non-live blocks once each in order of size, no two holes touch, and any two payloads the
      clients hold are disjoint and inside the heap. */
  lemma {:induction false} ReachableGood(start: int, max: int, rs: seq<Request>)
    requires 0 <= start && start + PAGE <= max < WORD
    ensures Good(Boot(start, max))
    ensures Run(Boot(start, max), rs).Some? ==>
              var s := Run(Boot(start, max), rs).value;
              && Good(s)
              && (forall a, b :: a in s.held && b in s.held && a != b ==>
                    a + s.held[a] <= b || b + s.held[b] <= a)
              && (forall a :: a in s.held ==> start < a && a + s.held[a] < s.h.end <= max)
  {
    BootGood(start, max);
    if Run(Boot(start, max), rs).Some? { ReachedGood(start, max, rs); }
  }

  lemma ReachedGood(start: int, max: int, rs: seq<Request>)
    requires 0 <= start && start + PAGE <= max < WORD
    requires Good(Boot(start, max)) && Run(Boot(start, max), rs).Some?
    ensures var s := Run(Boot(start, max), rs).value;
            && Good(s)
            && (forall a, b :: a in s.held && b in s.held && a != b ==>
                  a + s.held[a] <= b || b + s.held[b] <= a)
            && (forall a :: a in s.held ==> start < a && a + s.held[a] < s.h.end <= max)
  {
    RunGood(Boot(start, max), rs);
    var s := Run(Boot(start, max), rs).value;
    ExtentKept(Boot(start, max), rs);
    forall a | a in s.held ensures s.h.start < a && a + s.held[a] < s.h.end {
      HeldInside(s, a);
    }
    forall a, b | a in s.held && b in s.held && a != b ensures a + s.held[a] <= b || b + s.held[b] <= a {
      HeldDisjoint(s, a, b);
    }
  }

  lemma HeldInside(s: System, a: int)
    requires Good(s) && a in s.held
    ensures s.h.start < a && a + s.held[a] < s.h.end
  {
    var b := HeldBlock(s, a);
    var i :| 0 <= i < |s.h.blocks| && s.h.blocks[i] == b;
    TilesOnce(s.h.blocks, s.h.start, s.h.end, i);
  }

  lemma HeldDisjoint(s: System, a: int, b: int)
    requires Good(s) && a in s.held && b in s.held && a != b
    ensures a + s.held[a] <= b || b + s.held[b] <= a
  {
    var x := HeldBlock(s, a);
    var y := HeldBlock(s, b);
    LiveAddressesDiffer(s.h, x, y);
  }

  lemma {:induction false} RunGood(s: System, rs: seq<Request>)
    requires Good(s) && Run(s, rs).Some?
    ensures Good(Run(s, rs).value)
    decreases |rs|
  {
    if rs != [] {
      StepGood(s, rs[0]);
      RunGood(Step(s, rs[0]).value, rs[1..]);
    }
  }

  lemma {:induction false} ExtentKept(s: System, rs: seq<Request>)
    requires Good(s) && Run(s, rs).Some?
    ensures Run(s, rs).value.h.start == s.h.start && Run(s, rs).value.h.max == s.h.max
    decreases |rs|
  {
    if rs != [] {
      StepGood(s, rs[0]);
      StepExtent(s, rs[0]);
      ExtentKept(Step(s, rs[0]).value, rs[1..]);
    }
  }

  lemma StepExtent(s: System, r: Request)
    requires Good(s) && Step(s, r).Some?
    ensures Step(s, r).value.h.start == s.h.start && Step(s, r).value.h.max == s.h.max
  {
    match r
    case Alloc(reqd, align) => LocateAllocates(s.h, reqd, align);
    case Release(addr) =>
      if s.h.start <= addr < s.h.end {
        var b := HeldBlock(s, addr);
        FreeKeepsInv(s.h, BlockAt(s.h.blocks, addr - HEADER));
      }
  }

  // ----- Where the code leaves its contract

  /** The heap heap_init leaves: one page, one hole. */
  lemma BootLayout(start: int, max: int) returns (h: Layout)
    requires 0 <= start && start + PAGE <= max < WORD
    ensures Inv(h) && h == Boot(start, max).h
    ensures h == Layout(start, start + PAGE, max, [Block(start, PAGE)], [Block(start, PAGE)])
  {
    h := Layout(start, start + PAGE, max, [Block(start, PAGE)], [Block(start, PAGE)]);
    BootExpansion(start, max, h);
    BootGood(start, max);
  }

  /** A first request of 2^32 - 24 bytes or more, on every heap: the sum wraps below 24, the hole passes the
      test, and the hole is cut in the middle of its own header. */
  lemma WrappedRequest(start: int, max: int, reqd: Size)
    requires 0 <= start && start + PAGE <= max < WORD && reqd >= WORD - OVERHEAD
    ensures Good(Boot(start, max)) && Step(Boot(start, max), Alloc(reqd, false)).None?
    ensures Locate(Boot(start, max).h, reqd, false) == Wrong(Torn)
  {
    BootGood(start, max);
    var h := BootLayout(start, max);
    assert h.holes[0] in h.holes;
    Sums(reqd);
    HoleFacts(h, 0);
    hide Need;
    hide SplitSize;
    hide Inv;
    TrimOutcome(h, Lists.IndexOf(h.blocks, h.holes[0]), reqd, false);
  }

  /** A first request whose sum lies in the last page below 2^32 rounds up to nothing: heap_expand writes a
      header for no memory. */
  lemma HollowRequest(start: int, max: int, reqd: Size)
    requires 0 <= start && start + PAGE < max < WORD && WORD - PAGE < reqd + OVERHEAD < WORD
    ensures Good(Boot(start, max)) && Step(Boot(start, max), Alloc(reqd, false)).None?
    ensures Locate(Boot(start, max).h, reqd, false) == Wrong(Hollow)
  {
    BootGood(start, max);
    var h := BootLayout(start, max);
    LocatePlain(h, reqd);
  }

  /** On a heap of two pages, a first request of a page or more that rounds up to anything runs past memmax:
      the clamp measures from memstart. */
  lemma RequestPastMax(start: int, reqd: Size)
    requires 0 <= start && start + 2 * PAGE < WORD && PAGE <= reqd <= WORD - 2 * PAGE
    ensures Locate(BootedHeap(start, start + 2 * PAGE), reqd, false) == Wrong(PastMax)
    ensures !StaysInside(BootedHeap(start, start + 2 * PAGE), Need(reqd))
  {
    var h := BootLayout(start, start + 2 * PAGE);
    LocatePlain(h, reqd);
    ExpansionInside(h, Need(reqd));
  }

  /** On a heap of one page, a first request of a page or more is refused, unless it wraps.  This is the case
      in which heap_alloc leaves its lock taken. */
  lemma RequestRefused(start: int, reqd: Size)
    requires 0 <= start && start + PAGE < WORD && PAGE <= reqd < WORD - OVERHEAD
    ensures var h := BootedHeap(start, start + PAGE); Locate(h, reqd, false) == NoMemory(h)
  {
    hide Inv;
    hide Scan;
    hide Expand;
    var h := BootLayout(start, start + PAGE);
    LocatePlain(h, reqd);
  }

  ghost function BootedHeap(start: int, max: int): (h: Layout)
    requires 0 <= start && start + PAGE <= max < WORD
    ensures Inv(h)
  {
    BootGood(start, max);
    Boot(start, max).h
  }

  /** On every page-aligned heap of three pages or more, two calls from heap_init reach a hole
      without its header slot: an 8153-byte block leaves a hole whose header starts 15 bytes before a
      page boundary, and the next aligned request would put its header one byte before that hole,
      inside the block just handed out. */
  lemma AlignedHeaderInLiveBlock(start: int, max: int) returns (s: System)
    requires 0 <= start && start % PAGE == 0 && start + 3 * PAGE <= max < WORD
    ensures Good(Boot(start, max)) && Step(Boot(start, max), Alloc(8153, false)) == Some(s)
    ensures Good(s) && Step(s, Alloc(0, true)).None?
    ensures s.h.blocks == [Block(start, 8177), Block(start + 8177, 4111)]
    ensures s.h.holes == [Block(start + 8177, 4111)]
    ensures start < AlignedHeader(start + 8177) < start + 8177
  {
    var s0 := Boot(start, max);
    BootGood(start, max);
    var b1 := Block(start, 4096);
    var h1 := Layout(start, start + 4096, max, [b1], [b1]);
    BootExpansion(start, max, h1);
    var h4 := FirstBlock(start, max, h1);
    s := System(h4, s0.held[start + HEADER := 8153]);
    AllocGood(s0, 8153, false);
    SecondRequest(start, max, h4);
  }

  lemma SecondRequest(start: int, max: int, h4: Layout)
    requires 0 <= start && start % PAGE == 0 && start + 3 * PAGE <= max < WORD
    requires Inv(h4)
    requires h4.blocks == [Block(start, 8177), Block(start + 8177, 4111)]
    requires h4.holes == [Block(start + 8177, 4111)] && Lists.IndexOf(h4.blocks, h4.holes[0]) == 1
    ensures Locate(h4, 0, true) == Wrong(Outside)
  {
    assert h4.holes[0] == Block(start + 8177, 4111) && (start + 8177 + HEADER) % PAGE == 1;
    assert AlignedHeader(start + 8177) == start + 8176;
    hide Inv;
    hide Trim;
    TrimOutcome(h4, 1, 0, true);
    hide AlignedHeader;
    hide Cramped;
  }

  lemma BootExpansion(start: int, max: int, h1: Layout)
    requires 0 <= start && start + PAGE <= max < WORD
    requires h1 == Layout(start, start + 4096, max, [Block(start, 4096)], [Block(start, 4096)])
    ensures Expand(Layout(start, start, max, [], []), 1) == Some(h1)
  {
    var h0 := Layout(start, start, max, [], []);
    var b1 := Block(start, 4096);
    var g := h0.(end := start + 4096, blocks := [b1]);
    assert h0.blocks + [b1] == g.blocks;
    assert MergeBack(g, 0) == Merge(g, 0) && MergeForward(g, 0) == Merge(g, 0);
    assert FreeAt(g, 0) == h1;
  }

  /** The first request of the run: one expansion, then a cut 15 bytes before a page boundary. */
  lemma FirstBlock(start: int, max: int, h1: Layout) returns (h4: Layout)
    requires 0 <= start && start % PAGE == 0 && start + 3 * PAGE <= max < WORD
    requires Inv(h1)
    requires h1 == Layout(start, start + 4096, max, [Block(start, 4096)], [Block(start, 4096)])
    ensures var r := Locate(h1, 8153, false);
            && r.Found? && r.i == 0 && r.h.blocks[0] == Block(start, 8177) && h4 == Take(r.h, 0)
    ensures h4.blocks == [Block(start, 8177), Block(start + 8177, 4111)]
    ensures h4.holes == [Block(start + 8177, 4111)]
    ensures Lists.IndexOf(h4.blocks, h4.holes[0]) == 1
  {
    assert h1.holes[0] == Block(start, 4096);
    assert Scan(h1, 1, 8153, false) == NoFit;
    assert Scan(h1, 0, 8153, false) == NoFit;
    var b2 := Block(start, 12288);
    var h2 := Layout(start, start + 12288, max, [b2], [b2]);
    FirstExpansion(start, max, h1, h2);
    ExpandKeepsInv(h1, 8177);
    var x, y := Block(start, 8177), Block(start + 8177, 4111);
    var h3 := h2.(blocks := [x, y], holes := [y, x]);
    FirstCut(start, max, h2, h3);
    assert h2.holes[0] == b2 && Lists.IndexOf(h2.blocks, b2) == 0;
    assert Scan(h2, 0, 8153, false) == Fit(h3, 0);
    assert Locate(h2, 8153, false) == Found(h3, 0);
    h4 := Take(h3, 0);
    assert Remove(x, [y, x]) == [y] + Remove(x, [x]);
  }

  lemma FirstCut(start: int, max: int, h2: Layout, h3: Layout)
    requires 0 <= start && start % PAGE == 0 && start + 3 * PAGE <= max < WORD
    requires h2 == Layout(start, start + 12288, max, [Block(start, 12288)], [Block(start, 12288)])
    requires var x, y := Block(start, 8177), Block(start + 8177, 4111);
             h3 == h2.(blocks := [x, y], holes := [y, x])
    ensures CutHole(h2, 0, 8177, true) == h3
  {
    var x, y := Block(start, 8177), Block(start + 8177, 4111);
    assert Cut(h2.blocks, 0, 8177) == [x, y];
    assert Remove(h2.blocks[0], h2.holes) == [];
    assert Insert(y, []) == [y];
    assert [y][1..] == [];
    assert Insert(x, [y]) == [y] + Insert(x, []);
  }

  lemma FirstExpansion(start: int, max: int, h1: Layout, h2: Layout)
    requires 0 <= start && start % PAGE == 0 && start + 3 * PAGE <= max < WORD
    requires h1 == Layout(start, start + 4096, max, [Block(start, 4096)], [Block(start, 4096)])
    requires h2 == Layout(start, start + 12288, max, [Block(start, 12288)], [Block(start, 12288)])
    ensures Expand(h1, 8177) == Some(h2)
  {
    var b1 := Block(start, 4096);
    var g := h1.(end := start + 12288, blocks := [b1, Block(start + 4096, 8192)]);
    assert Growth(h1, 8177) == 8192;
    assert h1.blocks + [Block(start + 4096, 8192)] == g.blocks;
    var m := h2.(holes := []);
    assert Join(g.blocks, 0) == [Block(start, 12288)];
    assert Remove(b1, g.holes) == [];
    assert MergeBack(g, 1) == Merge(m, 0);
    assert MergeForward(m, 0) == Merge(m, 0);
    assert FreeAt(g, 1) == h2;
  }
}
