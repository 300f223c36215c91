/** Allocation: heap_trim, heap_locate, heap_expand and heap_alloc of kernel/src/kheap.c on layouts. */
module HeapAlloc {
  import opened Options
  import opened HeapLayout
  import Lists

  // ----- Cutting a hole in two

  function Cut(s: seq<Block>, i: nat, d: int): seq<Block>
    requires i < |s|
  {
    s[..i] + [Block(s[i].addr, d), Block(s[i].addr + d, s[i].size - d)] + s[i + 1..]
  }

  /** Hole `i` becomes two holes; the first piece has `d` bytes.  The two insertions come in the
      order the caller makes them, which decides ties between equal sizes. */
  function CutHole(h: Layout, i: nat, d: int, backFirst: bool): Layout
    requires i < |h.blocks|
  {
    var s := Cut(h.blocks, i, d);
    var rest := Remove(h.blocks[i], h.holes);
    h.(blocks := s,
       holes := if backFirst then Insert(s[i], Insert(s[i + 1], rest)) else Insert(s[i + 1], Insert(s[i], rest)))
  }

  lemma CutBlocks(h: Layout, i: nat, d: int)
    requires Consistent(h) && i < |h.blocks|
    requires OVERHEAD <= d && OVERHEAD <= h.blocks[i].size - d
    ensures var s := Cut(h.blocks, i, d);
            && Tiles(s, h.start, h.end)
            && s[i] !in h.blocks && s[i + 1] !in h.blocks && s[i] != s[i + 1]
            && (forall b :: b in s <==> b == s[i] || b == s[i + 1] || (b in h.blocks && b != h.blocks[i]))
  {
    var s, t := h.blocks, Cut(h.blocks, i, d);
    TilesOnce(s, h.start, h.end, i);
    TilesSplice(s, h.start, h.end, i, i + 1, [t[i], t[i + 1]]);
    TilesOnce(t, h.start, h.end, i);
    TilesOnce(t, h.start, h.end, i + 1);
    assert s == s[..i] + [s[i]] + s[i + 1..];
    assert t[..i] == s[..i] && t[i + 2..] == s[i + 1..];
    assert t[i + 1..] == [t[i + 1]] + t[i + 2..];
  }

  lemma CutHoleConsistent(h: Layout, i: nat, d: int, backFirst: bool)
    requires Consistent(h) && i < |h.blocks| && h.blocks[i] in h.holes
    requires OVERHEAD <= d && OVERHEAD <= h.blocks[i].size - d
    ensures var h' := CutHole(h, i, d, backFirst);
            && Consistent(h') && Live(h') == Live(h)
            && (forall b :: b in h'.holes <==>
                  b == h'.blocks[i] || b == h'.blocks[i + 1] || (b in h.holes && b != h.blocks[i]))
  {
    CutBlocks(h, i, d);
    var s := Cut(h.blocks, i, d);
    var rest := Remove(h.blocks[i], h.holes);
    RemoveFacts(h.blocks[i], h.holes);
    if backFirst {
      InsertFacts(s[i + 1], rest);
      InsertFacts(s[i], Insert(s[i + 1], rest));
    } else {
      InsertFacts(s[i], rest);
      InsertFacts(s[i + 1], Insert(s[i], rest));
    }
  }

  /** No two neighbouring holes, except that block `j` is a hole about to be handed out. */
  ghost predicate Chosen(h: Layout, j: nat)
  {
    && Consistent(h) && j < |h.blocks| && h.blocks[j] in h.holes
    && forall a, b :: 0 <= a && b == a + 1 && b < |h.blocks| && a != j && b != j ==>
         h.blocks[a] !in h.holes || h.blocks[b] !in h.holes
  }

  ghost predicate LiveAfter(h: Layout, j: nat)
    requires j < |h.blocks|
  {
    j + 1 < |h.blocks| ==> h.blocks[j + 1] !in h.holes
  }

  ghost predicate LiveBefore(h: Layout, j: nat)
    requires j < |h.blocks|
  {
    j > 0 ==> h.blocks[j - 1] !in h.holes
  }

  /** Where block `a` of a layout ends up when block `i` is cut. */
  function Shifted(a: nat, i: nat): nat { if a < i then a else a + 1 }

  /** A cut moves the later blocks up one place, and only the pieces change their standing. */
  lemma CutHolePlace(h: Layout, i: nat, d: int, backFirst: bool, a: nat)
    requires Consistent(h) && i < |h.blocks| && h.blocks[i] in h.holes
    requires OVERHEAD <= d && OVERHEAD <= h.blocks[i].size - d
    requires a < |h.blocks| && a != i
    ensures var h' := CutHole(h, i, d, backFirst);
            && |h'.blocks| == |h.blocks| + 1 && h'.blocks[i] in h'.holes && h'.blocks[i + 1] in h'.holes
            && (h'.blocks[Shifted(a, i)] in h'.holes <==> h.blocks[a] in h.holes)
  {
    CutHoleConsistent(h, i, d, backFirst);
    CutBlocks(h, i, d);
    var h' := CutHole(h, i, d, backFirst);
    assert h'.blocks == Cut(h.blocks, i, d);
    assert h'.blocks[Shifted(a, i)] == h.blocks[a];
    assert h.blocks[a] in h.blocks;
    assert h.blocks[a] != h.blocks[i] by { TilesUnique(h.blocks, h.start, h.end); }
    hide CutHole;
    hide Consistent;
    hide Live;
  }

  /** Cutting a chosen hole: its front piece stays chosen if the hole's right neighbour is live,
      its back piece if the left neighbour is live. */
  lemma CutHoleChosen(h: Layout, i: nat, d: int, backFirst: bool)
    requires Chosen(h, i)
    requires OVERHEAD <= d && OVERHEAD <= h.blocks[i].size - d
    ensures LiveAfter(h, i) ==> Chosen(CutHole(h, i, d, backFirst), i)
    ensures LiveBefore(h, i) ==> Chosen(CutHole(h, i, d, backFirst), i + 1)
    ensures LiveAfter(h, i) ==> LiveAfter(CutHole(h, i, d, backFirst), i + 1)
  {
    CutHoleConsistent(h, i, d, backFirst);
    var h' := CutHole(h, i, d, backFirst);
    assert |h'.blocks| == |h.blocks| + 1;
    hide CutHole;
    hide Consistent;
    hide Live;
    if i + 1 < |h.blocks| { CutHolePlace(h, i, d, backFirst, i + 1); }
    if LiveAfter(h, i) {
      forall a, b | 0 <= a && b == a + 1 && b < |h'.blocks| && a != i && b != i
        ensures h'.blocks[a] !in h'.holes || h'.blocks[b] !in h'.holes
      {
        CutFrontApart(h, i, d, backFirst, a);
      }
    }
    if LiveBefore(h, i) {
      forall a, b | 0 <= a && b == a + 1 && b < |h'.blocks| && a != i + 1 && b != i + 1
        ensures h'.blocks[a] !in h'.holes || h'.blocks[b] !in h'.holes
      {
        CutBackApart(h, i, d, backFirst, a);
      }
    }
  }

  lemma CutFrontApart(h: Layout, i: nat, d: int, backFirst: bool, a: nat)
    requires Chosen(h, i) && LiveAfter(h, i) && OVERHEAD <= d && OVERHEAD <= h.blocks[i].size - d
    requires a < |h.blocks| && a != i && a + 1 != i
    ensures var h' := CutHole(h, i, d, backFirst);
            && a + 1 < |h'.blocks| && (h'.blocks[a] !in h'.holes || h'.blocks[a + 1] !in h'.holes)
  {
    hide CutHole;
    hide Consistent;
    if a == i + 1 {
      CutHolePlace(h, i, d, backFirst, i + 1);
    } else {
      CutApart(h, i, d, backFirst, a);
    }
  }

  lemma CutBackApart(h: Layout, i: nat, d: int, backFirst: bool, a: nat)
    requires Chosen(h, i) && LiveBefore(h, i) && OVERHEAD <= d && OVERHEAD <= h.blocks[i].size - d
    requires a < |h.blocks| && a != i + 1 && a != i
    ensures var h' := CutHole(h, i, d, backFirst);
            && a + 1 < |h'.blocks| && (h'.blocks[a] !in h'.holes || h'.blocks[a + 1] !in h'.holes)
  {
    hide CutHole;
    hide Consistent;
    if a + 1 == i {
      CutHolePlace(h, i, d, backFirst, i - 1);
    } else {
      CutApart(h, i, d, backFirst, a);
    }
  }

  lemma CutApart(h: Layout, i: nat, d: int, backFirst: bool, a: nat)
    requires Chosen(h, i) && OVERHEAD <= d && OVERHEAD <= h.blocks[i].size - d
    requires a < |h.blocks| && (a + 1 < i || a > i + 1)
    ensures var h' := CutHole(h, i, d, backFirst);
            && a + 1 < |h'.blocks| && (h'.blocks[a] !in h'.holes || h'.blocks[a + 1] !in h'.holes)
  {
    var c, c' := if a < i then a else a - 1, if a < i then a + 1 else a;
    CutHolePlace(h, i, d, backFirst, c);
    CutHolePlace(h, i, d, backFirst, c');
    hide CutHole;
    hide Consistent;
    assert h.blocks[c] !in h.holes || h.blocks[c'] !in h.holes;
  }

  // ----- Sums of a size_t

  /** A size_t. */
  type Size = n: int | 0 <= n < WORD

  /** A sum as a 32-bit word. */
  function Wrap(x: int): (r: nat)
    ensures r < WORD
  {
    x % WORD
  }

  /** The size of block a request needs, as the code computes it. */
  function Need(reqd: nat): nat { Wrap(reqd + OVERHEAD) }

  /** The size from which a block is cut in two, as the code computes it. */
  function SplitSize(reqd: nat): nat { Wrap(reqd + 2 * OVERHEAD) }

  /** One of these sums does not fit a size_t. */
  predicate Wraps(reqd: nat) { reqd + 2 * OVERHEAD >= WORD }

  lemma Sums(reqd: nat)
    requires reqd < WORD
    ensures !Wraps(reqd) ==> Need(reqd) == reqd + OVERHEAD && SplitSize(reqd) == reqd + 2 * OVERHEAD
    ensures Wraps(reqd) && reqd + OVERHEAD >= WORD ==>
              Need(reqd) == reqd + OVERHEAD - WORD < OVERHEAD && SplitSize(reqd) == Need(reqd) + OVERHEAD
    ensures Wraps(reqd) && reqd + OVERHEAD < WORD ==>
              Need(reqd) == reqd + OVERHEAD >= WORD - OVERHEAD && SplitSize(reqd) < OVERHEAD
  {
  }

  // ----- heap_trim

  /** The header that makes the payload start on the next page boundary. */
  function AlignedHeader(addr: int): int { addr - addr % PAGE + PAGE - HEADER }

  /** How the code goes wrong. */
  datatype Fault =
    | Outside  // heap_trim writes the aligned header outside the hole
    | Torn     // heap_trim cuts a hole into pieces too small for their headers, which overlap
    | Short    // a block smaller than the request is handed out
    | PastMax  // heap_expand runs past memmax
    | Hollow   // heap_expand writes a header for no memory at the end, its footer into the last block

  datatype TrimResult =
    | Fit(h: Layout, i: nat)  // block i of h is a hole that serves the request
    | NoFit                   // cannot be aligned; the heap is untouched
    | Spoilt(how: Fault)

  /** The hole is used as it is. */
  function Whole(h: Layout, i: nat, reqd: nat): (r: TrimResult)
    requires i < |h.blocks|
    ensures r.Fit? ==> r.i < |r.h.blocks|
  {
    if h.blocks[i].size < reqd + OVERHEAD then Spoilt(Short) else Fit(h, i)
  }

  function TrimTail(h: Layout, i: nat, reqd: nat): (r: TrimResult)
    requires i < |h.blocks|
    ensures r.Fit? ==> r.i < |r.h.blocks|
  {
    if h.blocks[i].size < SplitSize(reqd) then Whole(h, i, reqd)
    else if Need(reqd) < OVERHEAD || h.blocks[i].size < Need(reqd) + OVERHEAD then Spoilt(Torn)
    else Fit(CutHole(h, i, Need(reqd), true), i)
  }

  /** The aligning half of heap_trim, with its unsigned subtractions. */
  function TrimToPage(h: Layout, i: nat, reqd: nat): (r: TrimResult)
    requires i < |h.blocks|
    ensures r.Fit? ==> r.i < |r.h.blocks|
  {
    var b := h.blocks[i];
    var temp := AlignedHeader(b.addr);
    var delta := (temp - b.addr) % WORD;
    if delta <= OVERHEAD then NoFit
    else if (b.size - delta) % WORD < Need(reqd) then NoFit
    else if temp < b.addr || b.size < delta then Spoilt(Outside)
    else if b.size - delta < OVERHEAD then Spoilt(Torn)
    else TrimTail(CutHole(h, i, delta, false), i + 1, reqd)
  }

  function Trim(h: Layout, i: nat, reqd: nat, align: bool): (r: TrimResult)
    requires i < |h.blocks|
    ensures r.Fit? ==> r.i < |r.h.blocks|
  {
    var b := h.blocks[i];
    if b.size <= SplitSize(reqd) && !align then Whole(h, i, reqd)
    else if align && (b.addr + HEADER) % PAGE != 0 then TrimToPage(h, i, reqd)
    else TrimTail(h, i, reqd)
  }

  /** What a successful trim hands back: a hole large enough, at most one header and footer larger
      than asked, on a page boundary if asked, and inside the hole it was cut from. */
  ghost predicate Serves(h: Layout, b: Block, h': Layout, j: nat, reqd: nat, align: bool)
  {
    && Chosen(h', j) && Live(h') == Live(h)
    && h'.start == h.start && h'.end == h.end && h'.max == h.max
    && reqd + OVERHEAD <= h'.blocks[j].size <= reqd + 2 * OVERHEAD
    && (align ==> (h'.blocks[j].addr + HEADER) % PAGE == 0)
    && (!align ==> h'.blocks[j].addr == b.addr)
    && b.addr <= h'.blocks[j].addr && h'.blocks[j].addr + h'.blocks[j].size <= b.addr + b.size
  }

  /** What cutting the tail off hole `i` keeps. */
  ghost predicate KeepsFront(h: Layout, g: Layout, i: nat)
  {
    && i < |h.blocks| && i < |g.blocks| && Chosen(g, i) && Live(g) == Live(h)
    && g.start == h.start && g.end == h.end && g.max == h.max
    && g.blocks[i].addr == h.blocks[i].addr
  }

  lemma TrimTailServes(h: Layout, i: nat, reqd: nat)
    requires reqd < WORD && !Wraps(reqd) && Chosen(h, i) && LiveAfter(h, i) && h.blocks[i].size >= reqd + OVERHEAD
    ensures var r := TrimTail(h, i, reqd);
            && r.Fit? && r.i == i && KeepsFront(h, r.h, i)
            && reqd + OVERHEAD <= r.h.blocks[i].size <= reqd + 2 * OVERHEAD
            && r.h.blocks[i].size <= h.blocks[i].size
  {
    assert KeepsFront(h, h, i);
    TailCases(h, i, reqd);
    if h.blocks[i].size >= reqd + 2 * OVERHEAD { CutServes(h, i, reqd + OVERHEAD); }
    hide TrimTail;
    hide CutHole;
    hide KeepsFront;
  }

  lemma TailCases(h: Layout, i: nat, reqd: nat)
    requires reqd < WORD && !Wraps(reqd) && i < |h.blocks| && h.blocks[i].size >= reqd + OVERHEAD
    ensures TrimTail(h, i, reqd) ==
            if h.blocks[i].size < reqd + 2 * OVERHEAD then Fit(h, i)
            else Fit(CutHole(h, i, reqd + OVERHEAD, true), i)
  {
    hide CutHole;
    Sums(reqd);
  }

  lemma CutServes(h: Layout, i: nat, d: int)
    requires Chosen(h, i) && LiveAfter(h, i) && OVERHEAD <= d && OVERHEAD <= h.blocks[i].size - d
    ensures var g := CutHole(h, i, d, true); KeepsFront(h, g, i) && g.blocks[i].size == d
  {
    CutHoleConsistent(h, i, d, true);
    CutHoleChosen(h, i, d, true);
    hide Chosen;
    hide Live;
    hide LiveAfter;
  }

  lemma InvChosen(h: Layout, i: nat)
    requires Inv(h) && i < |h.blocks| && h.blocks[i] in h.holes
    ensures Chosen(h, i) && LiveAfter(h, i) && LiveBefore(h, i)
    ensures h.start <= h.blocks[i].addr && h.blocks[i].addr + h.blocks[i].size <= h.end
    ensures OVERHEAD <= h.blocks[i].size
  {
    TilesOnce(h.blocks, h.start, h.end, i);
    TilesSplit(h.blocks, h.start, h.end, i);
  }

  /** The header slot in front of the next page boundary is not in the hole: either the hole's own
      header already starts in the last HEADER - 1 bytes of its page, or the hole ends first. */
  ghost predicate SlotOutside(b: Block)
  {
    (b.addr + HEADER) % PAGE != 0 && !(b.addr <= AlignedHeader(b.addr) <= b.addr + b.size)
  }

  lemma AlignArithmetic(addr: int)
    requires 0 <= addr < WORD
    ensures (AlignedHeader(addr) + HEADER) % PAGE == 0
    ensures AlignedHeader(addr) < addr <==> addr % PAGE > PAGE - HEADER
    ensures -HEADER < AlignedHeader(addr) - addr < PAGE
    ensures 0 < AlignedHeader(addr) <= WORD
  {
  }

  /** The two unsigned comparisons of heap_trim (kheap.c:173, 177) let a header outside the hole
      through exactly when the slot is outside; a header inside is compared as intended. */
  lemma TrimComparisons(b: Block, need: nat)
    requires 0 <= b.addr && OVERHEAD <= b.size && need <= b.size && b.addr + b.size < WORD
    requires (b.addr + HEADER) % PAGE != 0
    ensures var temp := AlignedHeader(b.addr);
            var delta := (temp - b.addr) % WORD;
            && (SlotOutside(b) ==> delta > OVERHEAD && (b.size - delta) % WORD >= need
                                   && (temp < b.addr || b.size < delta))
            && (!SlotOutside(b) ==> delta == temp - b.addr && (b.size - delta) % WORD == b.size - delta)
  {
    AlignArithmetic(b.addr);
    var temp := AlignedHeader(b.addr);
    var delta := (temp - b.addr) % WORD;
    if temp < b.addr {
      assert delta == WORD + temp - b.addr;
      assert (b.size - delta) % WORD == b.size + b.addr - temp;
    } else {
      assert delta == temp - b.addr;
      if b.size < delta { assert (b.size - delta) % WORD == WORD + b.size - delta; }
    }
  }

  /** An aligned request meets a hole whose header slot is inside but leaves too little room before
      or after it. */
  ghost predicate Cramped(b: Block, reqd: nat)
  {
    && (b.addr + HEADER) % PAGE != 0 && !SlotOutside(b)
    && (AlignedHeader(b.addr) - b.addr <= OVERHEAD || b.addr + b.size - AlignedHeader(b.addr) < Need(reqd))
  }

  /** A hole passes the test of heap_locate. */
  ghost predicate Roomy(b: Block, reqd: nat) { b.size >= Need(reqd) }

  ghost predicate InWord(b: Block) { 0 <= b.addr && OVERHEAD <= b.size && b.addr + b.size < WORD }

  /** Aligning a hole. */
  lemma ToPageOutcome(h: Layout, i: nat, reqd: nat)
    requires i < |h.blocks| && reqd < WORD && InWord(h.blocks[i]) && Roomy(h.blocks[i], reqd)
    requires (h.blocks[i].addr + HEADER) % PAGE != 0
    ensures var r, b := TrimToPage(h, i, reqd), h.blocks[i];
            && (r == Spoilt(Outside) <==> SlotOutside(b))
            && (r == NoFit <==> Cramped(b, reqd))
            && (r == Spoilt(Torn) || r == Spoilt(Short) <==> Wraps(reqd) && !SlotOutside(b) && !Cramped(b, reqd))
            && (r.Spoilt? ==> r.how in {Outside, Torn, Short})
  {
    TrimComparisons(h.blocks[i], Need(reqd));
    var b := h.blocks[i];
    var delta := AlignedHeader(b.addr) - b.addr;
    hide AlignedHeader;
    Sums(reqd);
    hide Need;
    hide SplitSize;
    if !SlotOutside(b) && !Cramped(b, reqd) && b.size - delta >= OVERHEAD {
      var g := CutHole(h, i, delta, false);
      assert g.blocks[i + 1] == Block(b.addr + delta, b.size - delta);
      hide CutHole;
      TailOutcome(g, i + 1, reqd);
    }
  }

  /** Cutting the tail off a hole: right exactly when no sum wraps. */
  lemma TailOutcome(h: Layout, i: nat, reqd: nat)
    requires i < |h.blocks| && reqd < WORD && InWord(h.blocks[i]) && Roomy(h.blocks[i], reqd)
    ensures var r := TrimTail(h, i, reqd);
            && !r.NoFit? && (r.Spoilt? ==> r.how in {Torn, Short}) && (r.Spoilt? <==> Wraps(reqd))
            && (r == Spoilt(Short) <==> reqd + OVERHEAD >= WORD && h.blocks[i].size < SplitSize(reqd))
  {
    Sums(reqd);
    hide Need;
    hide SplitSize;
    hide CutHole;
  }

  /** Exactly what heap_trim does with a hole that passed the test of heap_locate.  It writes a header
      outside exactly when an aligned request meets a hole without its header slot; it gives up exactly on
      cramped holes; and otherwise it fails exactly when the size asked for wraps. */
  lemma TrimOutcome(h: Layout, i: nat, reqd: nat, align: bool)
    requires i < |h.blocks| && reqd < WORD && InWord(h.blocks[i]) && Roomy(h.blocks[i], reqd)
    ensures var r, b := Trim(h, i, reqd, align), h.blocks[i];
            && (r == Spoilt(Outside) <==> align && SlotOutside(b))
            && (r == NoFit <==> align && Cramped(b, reqd))
            && (r == Spoilt(Torn) || r == Spoilt(Short) <==>
                  Wraps(reqd) && !(align && (SlotOutside(b) || Cramped(b, reqd))))
            && (r.Spoilt? ==> r.how in {Outside, Torn, Short})
            && (!align ==> (r == Spoilt(Short) <==> reqd + OVERHEAD >= WORD && b.size <= SplitSize(reqd)))
  {
    var b := h.blocks[i];
    if align && (b.addr + HEADER) % PAGE != 0 {
      ToPageOutcome(h, i, reqd);
      hide TrimToPage;
    } else {
      TailOutcome(h, i, reqd);
      Sums(reqd);
      hide TrimTail;
      hide TrimToPage;
    }
    hide Need;
    hide SplitSize;
  }

  lemma TrimToPageServes(h: Layout, i: nat, reqd: nat)
    requires reqd < WORD && i < |h.blocks| && Chosen(h, i) && LiveAfter(h, i) && LiveBefore(h, i)
    requires InWord(h.blocks[i]) && Roomy(h.blocks[i], reqd)
    requires (h.blocks[i].addr + HEADER) % PAGE != 0 && TrimToPage(h, i, reqd).Fit?
    ensures var r := TrimToPage(h, i, reqd);
            Serves(h, h.blocks[i], r.h, r.i, reqd, true)
  {
    hide *;
    ToPageCut(h, i, reqd);
    TrimAligned(h, i, AlignedHeader(h.blocks[i].addr) - h.blocks[i].addr, reqd);
  }

  /** Where an aligned hole that fits is cut. */
  lemma ToPageCut(h: Layout, i: nat, reqd: nat)
    requires i < |h.blocks| && reqd < WORD && InWord(h.blocks[i]) && Roomy(h.blocks[i], reqd)
    requires (h.blocks[i].addr + HEADER) % PAGE != 0 && TrimToPage(h, i, reqd).Fit?
    ensures var b := h.blocks[i];
            var delta := AlignedHeader(b.addr) - b.addr;
            && !Wraps(reqd) && delta > OVERHEAD && b.size - delta >= reqd + OVERHEAD
            && delta == delta % WORD && (b.addr + delta + HEADER) % PAGE == 0
            && (b.size - delta) % WORD == b.size - delta
            && TrimToPage(h, i, reqd) == TrimTail(CutHole(h, i, delta, false), i + 1, reqd)
  {
    var b := h.blocks[i];
    AlignArithmetic(b.addr);
    TrimComparisons(b, Need(reqd));
    ToPageOutcome(h, i, reqd);
    Sums(reqd);
    hide AlignedHeader;
    hide SlotOutside;
    hide Need;
    hide SplitSize;
    hide CutHole;
    hide TrimTail;
  }

  /** heap_trim on a hole of an undisturbed heap that is large enough: a success serves the request. */
  lemma TrimServes(h: Layout, i: nat, reqd: nat, align: bool)
    requires reqd < WORD && i < |h.blocks| && Chosen(h, i) && LiveAfter(h, i) && LiveBefore(h, i)
    requires InWord(h.blocks[i]) && Roomy(h.blocks[i], reqd) && Trim(h, i, reqd, align).Fit?
    ensures var r := Trim(h, i, reqd, align);
            !Wraps(reqd) && Serves(h, h.blocks[i], r.h, r.i, reqd, align)
  {
    hide Serves;
    hide Chosen;
    hide LiveAfter;
    hide LiveBefore;
    hide Roomy;
    if align && (h.blocks[i].addr + HEADER) % PAGE != 0 {
      hide TrimToPage;
      ToPageCut(h, i, reqd);
      TrimToPageServes(h, i, reqd);
    } else {
      hide Trim;
      TrimFrontServes(h, i, reqd, align);
    }
  }

  /** Without cutting at the front, heap_trim uses a hole of the right size as it is and cuts the tail off a
      larger one. */
  lemma TrimFront(h: Layout, i: nat, reqd: nat, align: bool)
    requires reqd < WORD && i < |h.blocks| && InWord(h.blocks[i]) && Roomy(h.blocks[i], reqd)
    requires Trim(h, i, reqd, align).Fit? && (align ==> (h.blocks[i].addr + HEADER) % PAGE == 0)
    ensures !Wraps(reqd) && h.blocks[i].size >= reqd + OVERHEAD
    ensures Trim(h, i, reqd, align) ==
            if h.blocks[i].size <= reqd + 2 * OVERHEAD && !align then Fit(h, i) else TrimTail(h, i, reqd)
  {
    TailOutcome(h, i, reqd);
    Sums(reqd);
    hide Need;
    hide SplitSize;
    hide TrimTail;
    hide TrimToPage;
  }

  lemma TrimFrontServes(h: Layout, i: nat, reqd: nat, align: bool)
    requires reqd < WORD && i < |h.blocks| && Chosen(h, i) && LiveAfter(h, i)
    requires InWord(h.blocks[i]) && Roomy(h.blocks[i], reqd) && Trim(h, i, reqd, align).Fit?
    requires align ==> (h.blocks[i].addr + HEADER) % PAGE == 0
    ensures var r := Trim(h, i, reqd, align);
            !Wraps(reqd) && Serves(h, h.blocks[i], r.h, r.i, reqd, align)
  {
    assert KeepsFront(h, h, i);
    hide *;
    TrimFront(h, i, reqd, align);
    if h.blocks[i].size > reqd + 2 * OVERHEAD || align {
      TrimTailServes(h, i, reqd);
      FrontServes(h, TrimTail(h, i, reqd).h, i, reqd, align);
    } else {
      FrontServes(h, h, i, reqd, align);
    }
  }

  lemma FrontServes(h: Layout, g: Layout, i: nat, reqd: nat, align: bool)
    requires KeepsFront(h, g, i) && reqd + OVERHEAD <= g.blocks[i].size <= reqd + 2 * OVERHEAD
    requires g.blocks[i].size <= h.blocks[i].size && (align ==> (h.blocks[i].addr + HEADER) % PAGE == 0)
    ensures Serves(h, h.blocks[i], g, i, reqd, align)
  {
    hide Chosen;
    hide Live;
  }

  lemma TrimAligned(h: Layout, i: nat, delta: int, reqd: nat)
    requires Chosen(h, i) && LiveAfter(h, i) && LiveBefore(h, i)
    requires reqd < WORD && !Wraps(reqd) && delta > OVERHEAD && h.blocks[i].size - delta >= reqd + OVERHEAD
    requires (h.blocks[i].addr + delta + HEADER) % PAGE == 0
    ensures var r := TrimTail(CutHole(h, i, delta, false), i + 1, reqd);
            r.Fit? && Serves(h, h.blocks[i], r.h, r.i, reqd, true)
  {
    var g := CutHole(h, i, delta, false);
    assert Chosen(g, i + 1) && LiveAfter(g, i + 1) && Live(g) == Live(h) by {
      CutHoleConsistent(h, i, delta, false);
      CutHoleChosen(h, i, delta, false);
    }
    assert g.blocks[i + 1] == Block(h.blocks[i].addr + delta, h.blocks[i].size - delta);
    TrimTailServes(g, i + 1, reqd);
  }

  // ----- heap_locate: the scan over the hole list

  /** The walk over the hole list from entry `k` on: the first entry large enough that can be
      trimmed. */
  function Scan(h: Layout, k: nat, reqd: nat, align: bool): (r: TrimResult)
    requires k <= |h.holes| && forall b :: b in h.holes ==> b in h.blocks
    ensures r.Fit? ==> r.i < |r.h.blocks|
    decreases |h.holes| - k
  {
    if k == |h.holes| then NoFit
    else if h.holes[k].size < Need(reqd) then Scan(h, k + 1, reqd, align)
    else
      var r := Trim(h, Lists.IndexOf(h.blocks, h.holes[k]), reqd, align);
      if r.NoFit? then Scan(h, k + 1, reqd, align) else r
  }

  lemma HoleFacts(h: Layout, k: nat)
    requires Inv(h) && k < |h.holes|
    ensures var b := h.holes[k]; var i := Lists.IndexOf(h.blocks, b);
            && InWord(b) && Chosen(h, i) && LiveAfter(h, i) && LiveBefore(h, i)
  {
    assert h.holes[k] in h.holes;
    InvChosen(h, Lists.IndexOf(h.blocks, h.holes[k]));
  }

  /** The scan returns a hole that serves the request.  For an unaligned request that hole is a
      smallest one that is large enough. */
  lemma {:induction false} ScanServes(h: Layout, k: nat, reqd: nat, align: bool) returns (b: Block)
    requires Inv(h) && reqd < WORD && k <= |h.holes| && Scan(h, k, reqd, align).Fit?
    ensures b in h.holes && Roomy(b, reqd) && !Wraps(reqd)
    ensures var r := Scan(h, k, reqd, align); Serves(h, b, r.h, r.i, reqd, align)
    ensures !align ==> forall j :: k <= j < |h.holes| && Roomy(h.holes[j], reqd) ==> b.size <= h.holes[j].size
    decreases |h.holes| - k
  {
    hide Trim;
    hide Need;
    if Roomy(h.holes[k], reqd) {
      var i := Lists.IndexOf(h.blocks, h.holes[k]);
      HoleFacts(h, k);
      TrimOutcome(h, i, reqd, align);
      if Trim(h, i, reqd, align).NoFit? {
        b := ScanServes(h, k + 1, reqd, align);
      } else {
        TrimServes(h, i, reqd, align);
        b := h.holes[k];
      }
    } else {
      b := ScanServes(h, k + 1, reqd, align);
    }
  }

  /** Entry `j` of the hole list is the first one from `k` on that is large enough and, for an aligned
      request, not cramped: the scan stops there. */
  ghost predicate StopsAt(h: Layout, k: nat, j: nat, reqd: nat, align: bool)
  {
    && k <= j < |h.holes| && Roomy(h.holes[j], reqd) && !(align && Cramped(h.holes[j], reqd))
    && forall l :: k <= l < j && Roomy(h.holes[l], reqd) ==> align && Cramped(h.holes[l], reqd)
  }

  /** Exactly how a scan ends.  It finds nothing when there is no place to stop.  Where it stops, it writes
      a header outside the hole when the hole lacks its header slot, corrupts the heap or hands out too
      little when the size asked for wraps, and serves the request otherwise. */
  lemma {:induction false} ScanOutcome(h: Layout, k: nat, reqd: nat, align: bool)
    requires Inv(h) && reqd < WORD && k <= |h.holes|
    ensures var r := Scan(h, k, reqd, align);
            && (r.NoFit? <==> forall j :: k <= j < |h.holes| && Roomy(h.holes[j], reqd) ==>
                                align && Cramped(h.holes[j], reqd))
            && (r == Spoilt(Outside) <==>
                  exists j: nat :: StopsAt(h, k, j, reqd, align) && align && SlotOutside(h.holes[j]))
            && (r == Spoilt(Torn) || r == Spoilt(Short) <==>
                  exists j: nat :: StopsAt(h, k, j, reqd, align) && Wraps(reqd) && !(align && SlotOutside(h.holes[j])))
            && (r.Spoilt? ==> r.how in {Outside, Torn, Short})
    decreases |h.holes| - k
  {
    hide Trim;
    hide Need;
    hide SlotOutside;
    hide Cramped;
    if k < |h.holes| {
      var i := Lists.IndexOf(h.blocks, h.holes[k]);
      HoleFacts(h, k);
      ScanOutcome(h, k + 1, reqd, align);
      if Roomy(h.holes[k], reqd) {
        TrimOutcome(h, i, reqd, align);
        if Trim(h, i, reqd, align).NoFit? {
          StopsLater(h, k, reqd, align);
        } else {
          StopsHere(h, k, reqd, align);
        }
      } else {
        StopsLater(h, k, reqd, align);
      }
    }
  }

  lemma StopsLater(h: Layout, k: nat, reqd: nat, align: bool)
    requires k < |h.holes| && (Roomy(h.holes[k], reqd) ==> align && Cramped(h.holes[k], reqd))
    ensures forall j: nat :: StopsAt(h, k, j, reqd, align) <==> StopsAt(h, k + 1, j, reqd, align)
  {
    hide Roomy;
    hide Cramped;
    forall j: nat ensures StopsAt(h, k, j, reqd, align) <==> StopsAt(h, k + 1, j, reqd, align) {
      if StopsAt(h, k + 1, j, reqd, align) {
        forall l | k <= l < j && Roomy(h.holes[l], reqd) ensures align && Cramped(h.holes[l], reqd) {
        }
      }
    }
  }

  lemma StopsHere(h: Layout, k: nat, reqd: nat, align: bool)
    requires k < |h.holes| && Roomy(h.holes[k], reqd) && !(align && Cramped(h.holes[k], reqd))
    ensures forall j: nat :: StopsAt(h, k, j, reqd, align) <==> j == k
  {
    hide Roomy;
    hide Cramped;
    assert StopsAt(h, k, k, reqd, align);
  }

  /** A scan without alignment serves exactly the requests that do not wrap and for which there is a hole. */
  lemma ScanPlain(h: Layout, reqd: nat)
    requires Inv(h) && reqd < WORD
    ensures var r := Scan(h, 0, reqd, false);
            && (r.NoFit? <==> forall b :: b in h.holes ==> !Roomy(b, reqd))
            && (r.Spoilt? ==> r.how in {Torn, Short})
            && (r.Spoilt? <==> Wraps(reqd) && exists b :: b in h.holes && Roomy(b, reqd))
  {
    ScanOutcome(h, 0, reqd, false);
    hide Scan;
    hide Inv;
    hide Need;
    hide Wraps;
    hide Roomy;
    hide SlotOutside;
    hide Cramped;
    var r := Scan(h, 0, reqd, false);
    if !r.NoFit? {
      var j :| 0 <= j < |h.holes| && Roomy(h.holes[j], reqd);
      assert h.holes[j] in h.holes;
      FirstStop(h, j, reqd);
    }
  }

  lemma {:induction false} FirstStop(h: Layout, j: nat, reqd: nat)
    requires j < |h.holes| && Roomy(h.holes[j], reqd)
    ensures exists i: nat :: StopsAt(h, 0, i, reqd, false)
  {
    hide Roomy;
    hide Cramped;
    if l: nat :| l < j && Roomy(h.holes[l], reqd) {
      FirstStop(h, l, reqd);
    } else {
      assert StopsAt(h, 0, j, reqd, false);
    }
  }

  // ----- heap_expand

  /** An amount rounded up to whole pages: an amount in the last page of the address space gives 0. */
  function Rounded(amount: nat): (r: nat)
    ensures amount < WORD ==> (r == 0 <==> amount == 0 || amount > WORD - PAGE)
    ensures amount < WORD && r != 0 ==> r >= amount
  {
    if amount % PAGE != 0 then Wrap(amount - amount % PAGE + PAGE) else amount
  }

  /** The amount heap_expand settles on.  The clamp measures from the start of the heap. */
  function Growth(h: Layout, amount: nat): int
  {
    if Wrap(h.start + Rounded(amount)) > h.max then h.max - h.start else Rounded(amount)
  }

  /** heap_expand: new memory at the end becomes a block that is freed at once. */
  function Expand(h: Layout, amount: nat): Option<Layout>
  {
    if h.max == h.end then None
    else
      var g := Growth(h, amount);
      Some(FreeAt(h.(end := h.end + g, blocks := h.blocks + [Block(h.end, g)]), |h.blocks|))
  }

  ghost predicate StaysInside(h: Layout, amount: nat) { h.end + Growth(h, amount) <= h.max }

  /** The clamp keeps the heap inside memmax exactly when nothing had to be clamped: once the heap
      holds anything, a clamped expansion runs past memmax. */
  lemma ExpansionInside(h: Layout, amount: nat)
    requires Bounds(h) && amount < WORD
    ensures StaysInside(h, amount) <==> h.end + Rounded(amount) <= h.max
    ensures StaysInside(h, amount) ==> Growth(h, amount) == Rounded(amount)
  {
  }

  /** The bytes of the heap before any expansion. */
  ghost predicate Fresh(h: Layout)
  {
    0 <= h.start == h.end < h.max < WORD && h.blocks == [] && h.holes == []
  }

  lemma GrownConsistent(h: Layout, g: int)
    requires Consistent(h) && NoAdjacentHoles(h) && g >= OVERHEAD
    ensures var h' := h.(end := h.end + g, blocks := h.blocks + [Block(h.end, g)]);
            && Consistent(h') && NoAdjacentHoles(h')
            && Block(h.end, g) !in h.blocks
            && Live(h') == Live(h) + {Block(h.end, g)}
  {
    var b := Block(h.end, g);
    TilesConcat(h.blocks, [b], h.start, h.end, h.end + g);
    TilesOnce(h.blocks + [b], h.start, h.end + g, |h.blocks|);
    assert (h.blocks + [b])[..|h.blocks|] == h.blocks;
  }

  /** An expansion that stays inside keeps the invariant, leaves the live blocks alone and leaves a
      hole at least as large as the new memory. */
  lemma ExpandKeepsInv(h: Layout, amount: nat)
    requires Inv(h) || Fresh(h)
    requires h.end < h.max && StaysInside(h, amount) && Growth(h, amount) >= OVERHEAD
    ensures var r := Expand(h, amount);
            && r.Some? && Inv(r.value) && Live(r.value) == Live(h)
            && r.value.start == h.start && r.value.max == h.max && r.value.end == h.end + Growth(h, amount)
            && (exists b :: b in r.value.holes && b.size >= Growth(h, amount))
  {
    assert Consistent(h) && NoAdjacentHoles(h);
    hide Consistent;
    hide NoAdjacentHoles;
    hide FreeAt;
    hide Growth;
    FreeGrown(h, Growth(h, amount));
  }

  lemma FreeGrown(h: Layout, g: int)
    requires Consistent(h) && NoAdjacentHoles(h) && g >= OVERHEAD
    ensures var h' := h.(end := h.end + g, blocks := h.blocks + [Block(h.end, g)]);
            var r := FreeAt(h', |h.blocks|);
            && Consistent(r) && NoAdjacentHoles(r) && Live(r) == Live(h)
            && r.start == h.start && r.max == h.max && r.end == h.end + g
            && (exists b :: b in r.holes && b.size >= g)
  {
    var b := Block(h.end, g);
    var h' := h.(end := h.end + g, blocks := h.blocks + [b]);
    GrownConsistent(h, g);
    assert b !in Live(h);
    assert h'.blocks[|h.blocks|] == b && b !in h'.holes;
    hide Consistent;
    hide NoAdjacentHoles;
    hide FreeAt;
    hide Live;
    FreeFacts(h', |h.blocks|);
  }

  // ----- heap_locate and heap_alloc

  datatype Outcome =
    | Found(h: Layout, i: nat)
    | NoMemory(h: Layout)
    | Wrong(why: Fault)

  function Locate(h: Layout, reqd: nat, align: bool): (r: Outcome)
    requires Inv(h) && reqd < WORD
    ensures r.Found? ==> r.i < |r.h.blocks|
    decreases h.max - h.end
  {
    var r := Scan(h, 0, reqd, align);
    match r
    case Fit(h', i) => Found(h', i)
    case Spoilt(how) => Wrong(how)
    case NoFit =>
      if h.end == h.max then NoMemory(h)
      else if Rounded(Need(reqd)) == 0 then Wrong(Hollow)
      else if h.end + Rounded(Need(reqd)) > h.max then Wrong(PastMax)
      else
        Grows(h, reqd);
        Locate(Expand(h, Need(reqd)).value, reqd, align)
  }

  /** There is room for heap_expand to make room for a request. */
  ghost predicate CanGrow(h: Layout, reqd: nat)
  {
    h.end < h.max && Rounded(Need(reqd)) > 0 && h.end + Rounded(Need(reqd)) <= h.max
  }

  lemma Grows(h: Layout, reqd: nat)
    requires Inv(h) && reqd < WORD && CanGrow(h, reqd)
    ensures var r := Expand(h, Need(reqd));
            && r.Some? && Inv(r.value) && Live(r.value) == Live(h)
            && r.value.start == h.start && r.value.max == h.max
            && r.value.end == h.end + Rounded(Need(reqd)) > h.end
            && (exists b :: b in r.value.holes && Roomy(b, reqd))
  {
    ExpansionInside(h, Need(reqd));
    RoundedPages(Need(reqd));
    hide Need;
    hide Rounded;
    hide Growth;
    hide StaysInside;
    ExpandKeepsInv(h, Need(reqd));
    hide Inv;
    hide Expand;
    var b :| b in Expand(h, Need(reqd)).value.holes && b.size >= Growth(h, Need(reqd));
    assert Roomy(b, reqd);
  }

  lemma RoundedPages(amount: nat)
    requires amount < WORD && Rounded(amount) > 0
    ensures Rounded(amount) >= PAGE
  {
  }

  /** heap_alloc on a located block: it leaves the hole list. */
  function Take(h: Layout, i: nat): Layout
    requires i < |h.blocks|
  {
    h.(holes := Remove(h.blocks[i], h.holes))
  }

  lemma TakeFacts(h: Layout, j: nat)
    requires Bounds(h) && Chosen(h, j)
    ensures Inv(Take(h, j)) && Live(Take(h, j)) == Live(h) + {h.blocks[j]}
  {
    RemoveFacts(h.blocks[j], h.holes);
    TilesOnce(h.blocks, h.start, h.end, j);
    var g := Take(h, j);
    forall a, b | 0 <= a && b == a + 1 && b < |g.blocks| ensures g.blocks[a] !in g.holes || g.blocks[b] !in g.holes {
    }
  }

  /** What heap_alloc promises when it finds a block. */
  ghost predicate Allocates(h: Layout, h': Layout, i: nat, reqd: nat, align: bool)
  {
    && i < |h'.blocks| && Inv(Take(h', i))
    && var b := h'.blocks[i];
       && b !in Live(h) && Live(Take(h', i)) == Live(h) + {b}
       && reqd + OVERHEAD <= b.size <= reqd + 2 * OVERHEAD
       && (align ==> (b.addr + HEADER) % PAGE == 0)
       && h'.start == h.start && h'.max == h.max && h'.end >= h.end
  }

  lemma ServesAllocates(h: Layout, b: Block, h': Layout, i: nat, reqd: nat, align: bool)
    requires Bounds(h) && Serves(h, b, h', i, reqd, align)
    ensures Allocates(h, h', i, reqd, align)
  {
    TakeFacts(h', i);
    assert h'.blocks[i] !in Live(h');
  }

  /** Every successful allocation, aligned or not, after any number of expansions: the size asked for
      does not wrap, the heap is in order again, the live blocks are the old ones and the new one, and the
      new one is large enough, at most one header and footer too large, and page-aligned on request. */
  lemma {:induction false} LocateAllocates(h: Layout, reqd: nat, align: bool)
    requires Inv(h) && reqd < WORD
    ensures var r := Locate(h, reqd, align);
            && (r.Found? ==> !Wraps(reqd) && Allocates(h, r.h, r.i, reqd, align))
            && (r.NoMemory? ==> Inv(r.h) && Live(r.h) == Live(h) && r.h.end == r.h.max == h.max && r.h.start == h.start)
    decreases h.max - h.end
  {
    hide Need;
    hide Rounded;
    hide Expand;
    hide Scan;
    var r := Scan(h, 0, reqd, align);
    if r.Fit? {
      var b := ScanServes(h, 0, reqd, align);
      ServesAllocates(h, b, r.h, r.i, reqd, align);
    } else if r.NoFit? && CanGrow(h, reqd) {
      Grows(h, reqd);
      LocateAllocates(Expand(h, Need(reqd)).value, reqd, align);
    }
  }

  /** heap_locate without alignment, for every size_t: exactly when each outcome happens, after at most
      one expansion.  A wrapping request for which there is or can be made a hole that passes the test
      corrupts the heap or is handed too little; one for which there is none writes a header with no memory
      or runs past memmax, as others do. */
  lemma LocatePlain(h: Layout, reqd: nat)
    requires Inv(h) && reqd < WORD
    ensures var r := Locate(h, reqd, false);
            var fits := exists b :: b in h.holes && Roomy(b, reqd);
            && (r.Found? <==> !Wraps(reqd) && (fits || CanGrow(h, reqd)))
            && (r == Wrong(Torn) || r == Wrong(Short) <==> Wraps(reqd) && (fits || CanGrow(h, reqd)))
            && (r.NoMemory? <==> !fits && h.end == h.max)
            && (r == Wrong(Hollow) <==> !fits && h.end < h.max && Rounded(Need(reqd)) == 0)
            && (r == Wrong(PastMax) <==>
                  !fits && h.end < h.max && Rounded(Need(reqd)) > 0 && h.end + Rounded(Need(reqd)) > h.max)
            && (r.Found? ==> r.h.end == if fits then h.end else h.end + Rounded(Need(reqd)))
  {
    ScanPlain(h, reqd);
    hide Need;
    hide Rounded;
    hide Expand;
    hide Scan;
    hide Wraps;
    hide Roomy;
    hide Inv;
    var r := Scan(h, 0, reqd, false);
    if r.Fit? {
      var b := ScanServes(h, 0, reqd, false);
    } else if r.NoFit? && CanGrow(h, reqd) {
      Grows(h, reqd);
      var g := Expand(h, Need(reqd)).value;
      ScanPlain(g, reqd);
      if Scan(g, 0, reqd, false).Fit? {
        var b := ScanServes(g, 0, reqd, false);
      }
    }
  }

  /** First fit over a list sorted by size is best fit: when no expansion is needed, the block is
      cut from the front of a smallest hole that is large enough. */
  lemma BestFit(h: Layout, reqd: nat) returns (hole: Block)
    requires Inv(h) && reqd < WORD && !Wraps(reqd) && exists b :: b in h.holes && Roomy(b, reqd)
    ensures var r := Locate(h, reqd, false);
            && r.Found? && r.h.blocks[r.i].addr == hole.addr
            && hole in h.holes && Roomy(hole, reqd)
            && forall c :: c in h.holes && Roomy(c, reqd) ==> hole.size <= c.size
  {
    ScanPlain(h, reqd);
    hole := ScanServes(h, 0, reqd, false);
  }

  /** Freeing a block right after allocating it gives back the same blocks and the same holes,
      when the allocation did not have to expand the heap. */
  lemma FreeUndoesAlloc(h: Layout, reqd: nat, align: bool)
    requires Inv(h) && reqd < WORD && Locate(h, reqd, align).Found? && Locate(h, reqd, align).h.end == h.end
    ensures var r := Locate(h, reqd, align);
            var h' := FreeAt(Take(r.h, r.i), r.i);
            && h'.blocks == h.blocks
            && (forall b :: b in h'.holes <==> b in h.holes)
            && |h'.holes| == |h.holes|
  {
    LocateAllocates(h, reqd, align);
    var r := Locate(h, reqd, align);
    var g := Take(r.h, r.i);
    assert g.blocks[r.i] in Live(g);
    FreeKeepsInv(g, r.i);
    LiveDeterminesLayout(FreeAt(g, r.i), h);
    SameSize(FreeAt(g, r.i).holes, h.holes);
  }

  lemma {:induction false} SameSize(s: seq<Block>, t: seq<Block>)
    requires Distinct(s) && Distinct(t) && forall b :: b in s <==> b in t
    ensures |s| == |t|
  {
    if s == [] {
      assert forall k :: 0 <= k < |t| ==> t[k] in s;
    } else {
      RemoveFacts(s[0], t);
      assert s == [s[0]] + s[1..];
      SameSize(s[1..], Remove(s[0], t));
    }
  }
}
