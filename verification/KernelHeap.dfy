/** The allocator of kernel/src/kheap.c over memory: loops that follow footers and list links and
    write headers in place.  Each method is proved to compute the layout function of the same name
    in modules HeapLayout and HeapAlloc. */
module KernelHeap {
  import opened Options
  import opened HeapLayout
  import opened HeapMemory
  import A = HeapAlloc
  import Lists

  /** heap_compare_headers */
  function CompareSizes(a: int, b: int): int { if a < b then -1 else if a == b then 0 else 1 }

  /** What a search for a block returns.  `Stopped` is where the code would go on and write over another
      block or hand out too little: the methods stop before that write. */
  datatype Answer =
    | Got(head: int)
    | Nothing
    | Stopped(how: A.Fault)

  class Heap {
    var memstart: int
    var memend: int
    var memmax: int
    var locked: bool
    var mem: Memory
    ghost var h: Layout

    /** Memory shows the layout `h`. */
    ghost predicate Agrees()
      reads this
    {
      memstart == h.start && memend == h.end && memmax == h.max && Represents(mem, h)
    }

    /** heap_add_hole: head_init, then list_add_ordered's search for the first entry no smaller. */
    method AddHole(head: int, ghost i: nat)
      requires Agrees() && i < |h.blocks| && h.blocks[i].addr == head && h.blocks[i] !in h.holes
      modifies this`mem, this`h
      ensures Agrees() && h == old(h).(holes := Insert(old(h).blocks[i], old(h).holes))
      ensures mem.size == old(mem).size
    {
      ghost var b, r, m0 := h.blocks[i], Ring(h.holes), mem;
      assert Tagged(mem, b);
      ReinitNothing(mem, h, b);
      mem := HeadInit(mem, head, mem.size[head]);
      ChainAt(r, mem, 0);
      var item := mem.next[SENTINEL];
      ghost var k := 0;
      while item != SENTINEL
        invariant mem == m0 && h == old(h)
        invariant k <= |h.holes| && item == r[k + 1]
        invariant forall j :: 0 <= j < k ==> h.holes[j].size < b.size
        decreases |h.holes| - k
      {
        HoleEntry(mem, h, k);
        if CompareSizes(mem.size[head], mem.size[item]) <= 0 {
          AddRepresents(mem, h, b, k);
          mem := ListAdd(mem, head, mem.prev[item], item);
          h := h.(holes := Insert(b, h.holes));
          return;
        }
        item := mem.next[item];
        k := k + 1;
      }
      LastEntry(mem, h, k);
      AddRepresents(mem, h, b, k);
      mem := ListAdd(mem, head, mem.prev[SENTINEL], SENTINEL);
      h := h.(holes := Insert(b, h.holes));
    }

    /** One round of either loop of heap_free_nolock: hole `gone` leaves the list, and the lower of the
        two blocks gets one header for both. */
    method Combine(low: int, high: int, gone: int, ghost k: nat, ghost g: nat)
      requires Agrees() && k + 1 < |h.blocks| && k <= g <= k + 1
      requires h.blocks[g] in h.holes && h.blocks[k + k + 1 - g] !in h.holes
      requires h.blocks[k].addr == low && h.blocks[k + 1].addr == high && h.blocks[g].addr == gone
      modifies this`mem, this`h
      ensures Agrees() && h == old(h).(blocks := Join(old(h).blocks, k), holes := Remove(old(h).blocks[g], old(h).holes))
      ensures h.blocks[k].addr == low && h.blocks[k] !in h.holes
      ensures low < high && low in old(mem).size && high in old(mem).size
      ensures mem.size == old(mem).size[low := old(mem).size[low] + old(mem).size[high]]
      ensures old(mem).size[high] > 0
    {
      hide Represents;
      CombineShape(mem, h, k, g);
      CombineRepresents(mem, h, k, g);
      mem := ListRem(mem, gone);
      mem := HeadInit(mem, low, mem.size[low] + mem.size[high]);
      h := h.(blocks := Join(h.blocks, k), holes := Remove(h.blocks[g], h.holes));
    }

    /** The first loop of heap_free_nolock: follow the footer below, while it belongs to a hole. */
    method CombineBackwards(start: int, ghost i: nat) returns (head: int, ghost k: nat)
      requires Agrees() && i < |h.blocks| && h.blocks[i].addr == start && h.blocks[i] !in h.holes
      modifies this`mem, this`h
      ensures Agrees() && MergeBack(old(h), i) == Merge(h, k)
      ensures k < |h.blocks| && h.blocks[k].addr == head && h.blocks[k] !in h.holes
      ensures start in old(mem).size && start in mem.size && mem.size[start] == old(mem).size[start]
    {
      hide Represents;
      hide MergeBack;
      hide Remove;
      head, k := start, i;
      Neighbours(mem, h, k);
      while head != memstart && Inserted(mem, mem.foot[head - FOOTER].header)
        invariant Agrees() && k < |h.blocks| && h.blocks[k].addr == head && h.blocks[k] !in h.holes
        invariant LeftKnown(mem, h, k)
        invariant MergeBack(h, k) == MergeBack(old(h), i)
        invariant head <= start && start in mem.size && mem.size[start] == old(mem).size[start]
        decreases k
      {
        var prev := mem.foot[head - FOOTER].header;
        BackStep(h, k);
        Combine(prev, head, prev, k - 1, k - 1);
        head, k := prev, k - 1;
        Neighbours(mem, h, k);
      }
      BackStep(h, k);
    }

    /** The second loop: follow the size in the header, while the next block is a hole. */
    method CombineForwards(head: int, ghost k: nat)
      requires Agrees() && k < |h.blocks| && h.blocks[k].addr == head && h.blocks[k] !in h.holes
      modifies this`mem, this`h
      ensures Agrees() && MergeForward(old(h), k) == Merge(h, k)
      ensures k < |h.blocks| && h.blocks[k].addr == head && h.blocks[k] !in h.holes
      ensures forall a :: a in old(mem).size ==> a in mem.size && mem.size[a] >= old(mem).size[a]
    {
      hide Represents;
      hide MergeForward;
      hide Remove;
      Neighbours(mem, h, k);
      while memend != head + mem.size[head] && Inserted(mem, head + mem.size[head])
        invariant Agrees() && k < |h.blocks| && h.blocks[k].addr == head && h.blocks[k] !in h.holes
        invariant RightKnown(mem, h, k)
        invariant MergeForward(h, k) == MergeForward(old(h), k)
        invariant forall a :: a in old(mem).size ==> a in mem.size && mem.size[a] >= old(mem).size[a]
        decreases |h.blocks|
      {
        var next := head + mem.size[head];
        ForwardStep(h, k);
        Combine(head, next, next, k, k + 1);
        Neighbours(mem, h, k);
      }
      ForwardStep(h, k);
    }

    /** heap_free_nolock.  Block `i` is the one whose payload starts at `addr`, if that is inside the
        heap; an address outside is ignored. */
    method FreeNoLock(addr: int, ghost i: nat)
      requires Agrees()
      requires memstart <= addr < memend ==>
                 i < |h.blocks| && h.blocks[i].addr == addr - HEADER && h.blocks[i] !in h.holes
      modifies this`mem, this`h
      ensures Agrees()
      ensures memstart <= addr < memend ==> h == FreeAt(old(h), i)
      ensures !(memstart <= addr < memend) ==> h == old(h) && mem == old(mem)
      ensures memstart <= addr < memend ==>
                && addr - HEADER in old(mem).size && addr - HEADER in mem.size
                && mem.size[addr - HEADER] >= old(mem).size[addr - HEADER]
    {
      hide MergeBack;
      hide MergeForward;
      hide Insert;
      hide Represents;
      if addr < memstart || addr >= memend {
        return;
      }
      var head, k := CombineBackwards(addr - HEADER, i);
      CombineForwards(head, k);
      AddHole(head, k);
    }

    /** heap_expand: map pages at the end, give them one header and free it.  The returned header may
        by then be merged away; its size field still reads the amount. */
    method Expand(amount: A.Size) returns (o: Answer)
      requires Agrees() && (Inv(h) || (A.Fresh(h) && memstart + PAGE <= memmax))
      modifies this`mem, this`h, this`memend
      ensures Agrees()
      ensures o == Nothing <==> old(memend) == memmax
      ensures o == Stopped(A.Hollow) <==> old(memend) < memmax && A.Growth(old(h), amount) == 0
      ensures o == Stopped(A.PastMax) <==>
                old(memend) < memmax && A.Growth(old(h), amount) > 0 && !A.StaysInside(old(h), amount)
      ensures o.Stopped? ==> o.how in {A.Hollow, A.PastMax}
      ensures !o.Got? ==> h == old(h) && mem == old(mem)
      ensures o.Got? ==>
                && A.Expand(old(h), amount) == Some(h)
                && o.head == old(memend) && o.head in mem.size
                && mem.size[o.head] >= A.Growth(old(h), amount)
    {
      hide Represents;
      hide A.Growth;
      if memmax == memend {
        return Nothing;
      }
      var rounded := Amount(amount);
      if rounded == 0 {
        return Stopped(A.Hollow);
      }
      if memend + rounded > memmax {
        return Stopped(A.PastMax);
      }
      GrowthEnough(h, amount);
      var end := memend;
      ghost var n := |h.blocks|;
      Grow(rounded);
      FreeNoLock(end + HEADER, n);
      o := Got(end);
    }

    /** The amount heap_expand settles on. */
    method Amount(amount: A.Size) returns (rounded: int)
      requires Agrees() && memstart < memmax
      ensures rounded == A.Growth(h, amount) >= 0
    {
      rounded := if amount % PAGE != 0 then (amount - amount % PAGE + PAGE) % WORD else amount;
      if (memstart + rounded) % WORD > memmax {
        rounded := memmax - memstart;
      }
    }

    /** A header over new memory at the end of the heap. */
    method Grow(amount: int)
      requires Agrees() && (Inv(h) || A.Fresh(h)) && amount >= OVERHEAD
      modifies this`mem, this`h, this`memend
      ensures Agrees()
      ensures h == old(h).(end := old(h).end + amount, blocks := old(h).blocks + [Block(old(h).end, amount)])
      ensures h.blocks[|h.blocks| - 1] !in h.holes
      ensures old(memend) in mem.size && mem.size[old(memend)] == amount
    {
      hide Represents;
      GrowRepresents(mem, h, amount);
      A.GrownConsistent(h, amount);
      mem := HeadInit(mem, memend, amount);
      h := h.(end := h.end + amount, blocks := h.blocks + [Block(h.end, amount)]);
      memend := memend + amount;
    }

    /** The writes of heap_trim that cut a hole into two blocks, neither on the list. */
    method Split(head: int, front: int, ghost i: nat)
      requires Agrees() && i < |h.blocks| && h.blocks[i].addr == head && h.blocks[i] in h.holes
      requires OVERHEAD <= front && OVERHEAD <= h.blocks[i].size - front
      modifies this`mem, this`h
      ensures Agrees()
      ensures h == old(h).(blocks := A.Cut(old(h).blocks, i, front), holes := Remove(old(h).blocks[i], old(h).holes))
      ensures h.blocks[i] !in h.holes && h.blocks[i + 1] !in h.holes
    {
      hide Represents;
      SplitRepresents(mem, h, i, front);
      SplitShape(mem, h, i, front);
      mem := HeadInit(mem, head + front, mem.size[head] - front);
      mem := ListRem(mem, head);
      mem := HeadInit(mem, head, front);
      h := h.(blocks := A.Cut(h.blocks, i, front), holes := Remove(h.blocks[i], h.holes));
    }

    /** heap_trim, aligning: the front piece is freed, the back piece added as a hole.  The front
        piece's left neighbour is live and the back piece is not on the list, so heap_free_nolock
        merges nothing. */
    method CutFront(head: int, front: int, ghost i: nat)
      requires Agrees() && i < |h.blocks| && h.blocks[i].addr == head && h.blocks[i] in h.holes
      requires OVERHEAD <= front && OVERHEAD <= h.blocks[i].size - front && A.LiveBefore(h, i)
      modifies this`mem, this`h
      ensures Agrees() && h == A.CutHole(old(h), i, front, false)
    {
      hide Represents;
      CutNeighbours(mem, h, i, front);
      Split(head, front, i);
      FreeAlone(h, i);
      FreeNoLock(head + HEADER, i);
      AddHole(head + front, i + 1);
    }

    /** heap_trim, trimming: the back piece is freed, the front piece added as a hole. */
    method CutBack(head: int, front: int, ghost i: nat)
      requires Agrees() && i < |h.blocks| && h.blocks[i].addr == head && h.blocks[i] in h.holes
      requires OVERHEAD <= front && OVERHEAD <= h.blocks[i].size - front && A.LiveAfter(h, i)
      modifies this`mem, this`h
      ensures Agrees() && h == A.CutHole(old(h), i, front, true)
      ensures i < |h.blocks| && h.blocks[i].addr == head
    {
      hide Represents;
      CutNeighbours(mem, h, i, front);
      Split(head, front, i);
      FreeAlone(h, i + 1);
      FreeNoLock(head + front + HEADER, i + 1);
      AddHole(head, i);
    }

    /** heap_trim */
    method Trim(start: int, reqd: A.Size, align: bool, ghost i: nat) returns (o: Answer)
      requires Agrees() && Inv(h) && i < |h.blocks| && h.blocks[i].addr == start && h.blocks[i] in h.holes
      requires A.Roomy(h.blocks[i], reqd)
      modifies this`mem, this`h
      ensures Agrees()
      ensures match A.Trim(old(h), i, reqd, align)
              case Fit(g, k) => h == g && o == Got(g.blocks[k].addr)
              case NoFit => h == old(h) && mem == old(mem) && o == Nothing
              case Spoilt(how) => o == Stopped(how)
    {
      hide Represents;
      hide Inv;
      hide A.TrimTail;
      hide A.TrimToPage;
      A.InvChosen(h, i);
      SizeField(mem, h, i);
      if mem.size[start] <= (reqd + 2 * OVERHEAD) % WORD && !align {
        if mem.size[start] < reqd + OVERHEAD {
          return Stopped(A.Short);
        }
        return Got(start);
      }
      if align && (start + HEADER) % PAGE != 0 {
        o := TrimFront(start, reqd, i);
      } else {
        o := TrimBack(start, reqd, i);
      }
    }

    /** The aligning half of heap_trim, and what follows it. */
    method TrimFront(head: int, reqd: A.Size, ghost i: nat) returns (o: Answer)
      requires Agrees() && Inv(h) && i < |h.blocks| && h.blocks[i].addr == head && h.blocks[i] in h.holes
      requires A.Roomy(h.blocks[i], reqd) && (head + HEADER) % PAGE != 0
      modifies this`mem, this`h
      ensures Agrees()
      ensures match A.TrimToPage(old(h), i, reqd)
              case Fit(g, k) => h == g && o == Got(g.blocks[k].addr)
              case NoFit => h == old(h) && mem == old(mem) && o == Nothing
              case Spoilt(how) => o == Stopped(how)
    {
      hide Represents;
      hide Inv;
      hide A.CutHole;
      hide A.TrimTail;
      SizeField(mem, h, i);
      var temp := head - head % PAGE + PAGE - HEADER;
      var delta := (temp - head) % WORD;
      if delta <= OVERHEAD {
        return Nothing;
      }
      if (mem.size[head] - delta) % WORD < (reqd + OVERHEAD) % WORD {
        return Nothing;
      }
      if temp < head || mem.size[head] < delta {
        return Stopped(A.Outside);
      }
      if mem.size[head] - delta < OVERHEAD {
        return Stopped(A.Torn);
      }
      AlignedCut(h, i, delta);
      CutFront(head, delta, i);
      o := TrimBack(temp, reqd, i + 1);
    }

    /** The trimming half of heap_trim. */
    method TrimBack(head: int, reqd: A.Size, ghost i: nat) returns (o: Answer)
      requires Agrees() && i < |h.blocks| && h.blocks[i].addr == head && h.blocks[i] in h.holes && A.LiveAfter(h, i)
      modifies this`mem, this`h
      ensures Agrees()
      ensures match A.TrimTail(old(h), i, reqd)
              case Fit(g, k) => h == g && o == Got(g.blocks[k].addr)
              case NoFit => false
              case Spoilt(how) => o == Stopped(how)
    {
      hide Represents;
      hide A.CutHole;
      SizeField(mem, h, i);
      if mem.size[head] < (reqd + 2 * OVERHEAD) % WORD {
        if mem.size[head] < reqd + OVERHEAD {
          return Stopped(A.Short);
        }
        return Got(head);
      }
      var front := (reqd + OVERHEAD) % WORD;
      if front < OVERHEAD || mem.size[head] < front + OVERHEAD {
        return Stopped(A.Torn);
      }
      CutBack(head, front, i);
      o := Got(head);
    }

    /** One turn of the loop of heap_locate: the hole is trimmed if it is large enough. */
    method TryHole(item: int, reqd: A.Size, align: bool, ghost k: nat) returns (o: Answer, ghost i: nat)
      requires Agrees() && Inv(h) && k < |h.holes| && h.holes[k].addr == item
      modifies this`mem, this`h
      ensures Agrees() && forall b :: b in old(h).holes ==> b in old(h).blocks
      ensures o.Nothing? ==>
                h == old(h) && mem == old(mem) && A.Scan(old(h), k, reqd, align) == A.Scan(old(h), k + 1, reqd, align)
      ensures !o.Nothing? ==>
                match A.Scan(old(h), k, reqd, align)
                case Fit(g, j) => h == g && i == j && o == Got(g.blocks[j].addr)
                case NoFit => false
                case Spoilt(how) => o == Stopped(how)
    {
      HolesAreBlocks(h);
      HoleTags(mem, h, k);
      hide Represents;
      hide Inv;
      hide A.Trim;
      hide A.Scan;
      hide A.Need;
      hide Lists.IndexOf;
      if mem.magic[item] != KHEAP_MAGIC || mem.foot[item + mem.size[item] - FOOTER].magic != KHEAP_MAGIC {
        assert false;  // the memory-corruption branch: no reachable state takes it
      }
      ScanStep(h, k, reqd, align);
      if mem.size[item] < Sum(reqd) {
        return Nothing, 0;
      }
      i := Lists.IndexOf(h.blocks, h.holes[k]);
      o := Trim(item, reqd, align, i);
      if o.Got? { i := A.Trim(old(h), i, reqd, align).i; }
    }

    /** The loop of heap_locate over the hole list. */
    method Search(reqd: A.Size, align: bool) returns (o: Answer, ghost i: nat)
      requires Agrees() && Inv(h)
      modifies this`mem, this`h
      ensures Agrees()
      ensures match A.Scan(old(h), 0, reqd, align)
              case Fit(g, k) => h == g && i == k && o == Got(g.blocks[k].addr)
              case NoFit => h == old(h) && mem == old(mem) && o == Nothing
              case Spoilt(how) => o == Stopped(how)
    {
      HolesAreBlocks(h);
      hide Represents;
      hide Inv;
      hide A.Scan;
      hide Ring;
      hide Tagged;
      i := 0;
      ghost var r, k := Ring(h.holes), 0;
      FirstEntry(mem, h);
      var item := mem.next[SENTINEL];
      while item != SENTINEL
        invariant h == old(h) && mem == old(mem)
        invariant k <= |h.holes| && item == r[k + 1]
        invariant A.Scan(h, 0, reqd, align) == A.Scan(h, k, reqd, align)
        decreases |h.holes| - k
      {
        EntryBlock(mem, h, k);
        o, i := TryHole(item, reqd, align, k);
        if !o.Nothing? {
          return;
        }
        item := mem.next[item];
        k := k + 1;
      }
      LastEntry(mem, h, k);
      ScanEnd(h, reqd, align);
      o := Nothing;
    }

    /** heap_locate: search the hole list; if nothing on it can be used, expand and start over. */
    method Locate(reqd: A.Size, align: bool) returns (o: Answer, ghost i: nat)
      requires Agrees() && Inv(h)
      modifies this`mem, this`h, this`memend
      ensures Agrees()
      ensures match A.Locate(old(h), reqd, align)
              case Found(g, k) => h == g && i == k && o == Got(g.blocks[k].addr)
              case NoMemory(g) => h == g && o == Nothing
              case Wrong(how) => o == Stopped(how)
      decreases memmax - memend
    {
      hide Represents;
      hide Inv;
      hide A.Scan;
      hide A.Locate;
      hide A.Expand;
      hide A.Growth;
      hide A.StaysInside;
      HolesAreBlocks(h);
      LocateByScan(h, reqd, align);
      o, i := Search(reqd, align);
      if !o.Nothing? {
        return;
      }
      LocateExpands(h, reqd, align);
      o := Expand((reqd + OVERHEAD) % WORD);
      if !o.Got? || mem.size[o.head] < (reqd + OVERHEAD) % WORD {
        return o, 0;
      }
      o, i := Locate(reqd, align);
    }

    /** heap_alloc: locate a block and take it off the hole list.  When there is none the function
        returns without unlocking the heap. */
    method Alloc(reqd: A.Size, align: bool) returns (o: Answer, ghost i: nat)
      requires Agrees() && Inv(h) && !locked
      modifies this
      ensures Agrees() && (!o.Stopped? ==> Inv(h))
      ensures match A.Locate(old(h), reqd, align)
              case Found(g, k) => h == A.Take(g, k) && i == k && o == Got(g.blocks[k].addr + HEADER)
              case NoMemory(g) => h == g && o == Nothing
              case Wrong(how) => o == Stopped(how)
      ensures locked <==> !o.Got?
    {
      hide Represents;
      hide Inv;
      A.LocateAllocates(h, reqd, align);
      locked := true;
      var head;
      head, i := Locate(reqd, align);
      if !head.Got? {
        return head, i;
      }
      LocatedHole(old(h), reqd, align);
      UnlinkHole(mem, h, i);
      mem := ListRem(mem, head.head);
      h := A.Take(h, i);
      locked := false;
      o := Got(head.head + HEADER);
    }

    /** heap_free */
    method Free(addr: int, ghost i: nat)
      requires Agrees() && Inv(h) && !locked
      requires memstart <= addr < memend ==>
                 i < |h.blocks| && h.blocks[i].addr == addr - HEADER && h.blocks[i] !in h.holes
      modifies this
      ensures Agrees() && Inv(h) && !locked
      ensures h == if old(memstart) <= addr < old(memend) then FreeAt(old(h), i) else old(h)
    {
      if memstart <= addr < memend { FreeKeepsInv(h, i); }
      hide Represents;
      hide Inv;
      locked := true;
      FreeNoLock(addr, i);
      locked := false;
    }

    /** heap_init */
    constructor (start: int, max: int)
      requires 0 <= start && start + PAGE <= max < WORD
      ensures Agrees() && Inv(h) && !locked
      ensures A.Expand(Layout(start, start, max, [], []), 1) == Some(h)
    {
      memstart, memend, memmax := start, start, max;
      locked := false;
      mem := Memory(map[], map[], map[SENTINEL := SENTINEL], map[SENTINEL := SENTINEL], map[]);
      h := Layout(start, start, max, [], []);
      new;
      A.ExpandKeepsInv(h, 1);
      var head := Expand(1);
    }
  }

  /** One round of each merging loop. */
  lemma ForwardStep(h: Layout, k: nat)
    requires k < |h.blocks|
    ensures MergeForward(h, k) ==
            if k + 1 < |h.blocks| && h.blocks[k + 1] in h.holes
            then MergeForward(h.(blocks := Join(h.blocks, k), holes := Remove(h.blocks[k + 1], h.holes)), k)
            else Merge(h, k)
  {
  }

  lemma BackStep(h: Layout, k: nat)
    requires k < |h.blocks|
    ensures MergeBack(h, k) ==
            if k > 0 && h.blocks[k - 1] in h.holes
            then MergeBack(h.(blocks := Join(h.blocks, k - 1), holes := Remove(h.blocks[k - 1], h.holes)), k - 1)
            else Merge(h, k)
  {
  }

  /** One round of the loop over the hole list, and its end. */
  /** The size heap_locate compares holes with. */
  function Sum(reqd: A.Size): (n: nat)
    ensures n == A.Need(reqd)
  {
    (reqd + OVERHEAD) % WORD
  }

  lemma ScanStep(h: Layout, k: nat, reqd: A.Size, align: bool)
    requires k < |h.holes| && forall b :: b in h.holes ==> b in h.blocks
    ensures A.Scan(h, k, reqd, align) ==
            if !A.Roomy(h.holes[k], reqd) then A.Scan(h, k + 1, reqd, align)
            else
              var r := A.Trim(h, Lists.IndexOf(h.blocks, h.holes[k]), reqd, align);
              if r.NoFit? then A.Scan(h, k + 1, reqd, align) else r
  {
  }

  lemma ScanEnd(h: Layout, reqd: A.Size, align: bool)
    requires forall b :: b in h.holes ==> b in h.blocks
    ensures A.Scan(h, |h.holes|, reqd, align) == A.NoFit
  {
  }

  lemma HolesAreBlocks(h: Layout)
    requires Inv(h)
    ensures forall b :: b in h.holes ==> b in h.blocks
  {
  }

  lemma FirstEntry(m: Memory, h: Layout)
    requires Represents(m, h)
    ensures |Ring(h.holes)| == |h.holes| + 2 && SENTINEL in m.next && m.next[SENTINEL] == Ring(h.holes)[1]
  {
    ChainAt(Ring(h.holes), m, 0);
  }

  /** Entry `k` of the walk, ready for heap_trim: its tags are in place and it is a block. */
  lemma EntryBlock(m: Memory, h: Layout, k: nat)
    requires Represents(m, h) && k <= |h.holes| && Ring(h.holes)[k + 1] != SENTINEL
    ensures k < |h.holes| && h.holes[k] in h.blocks && h.holes[k] in h.holes
    ensures var b := h.holes[k];
            && Ring(h.holes)[k + 1] == b.addr && Tagged(m, b)
            && b.addr in m.next && m.next[b.addr] == Ring(h.holes)[k + 2]
  {
    HoleEntry(m, h, k);
  }

  lemma HoleTags(m: Memory, h: Layout, k: nat)
    requires Represents(m, h) && k < |h.holes| && h.holes[k] in h.blocks
    ensures Tagged(m, h.holes[k])
  {
  }

  lemma LocateByScan(h: Layout, reqd: A.Size, align: bool)
    requires Inv(h)
    ensures match A.Scan(h, 0, reqd, align)
            case Fit(g, k) => A.Locate(h, reqd, align) == A.Found(g, k)
            case Spoilt(how) => A.Locate(h, reqd, align) == A.Wrong(how)
            case NoFit => true
  {
  }

  lemma GrowthEnough(h: Layout, amount: nat)
    requires Inv(h) || (A.Fresh(h) && h.start + PAGE <= h.max)
    requires amount < WORD && h.end < h.max && A.StaysInside(h, amount) && A.Growth(h, amount) > 0
    ensures A.Growth(h, amount) >= PAGE
  {
  }

  /** When the scan finds nothing, an expansion is impossible, goes wrong, or stays inside and gives the
      rest of the search. */
  lemma LocateExpands(h: Layout, reqd: A.Size, align: bool)
    requires Inv(h) && A.Scan(h, 0, reqd, align).NoFit?
    ensures var amount := A.Need(reqd); var r := A.Locate(h, reqd, align);
            if h.end == h.max then r == A.NoMemory(h)
            else if A.Growth(h, amount) == 0 then r == A.Wrong(A.Hollow)
            else if !A.StaysInside(h, amount) then r == A.Wrong(A.PastMax)
            else
              var g := A.Expand(h, amount);
              && A.Growth(h, amount) >= amount
              && g.Some? && Inv(g.value) && g.value.end > h.end && g.value.max == h.max
              && r == A.Locate(g.value, reqd, align)
    ensures A.Growth(h, A.Need(reqd)) >= 0 && h.end <= h.max
  {
    A.ExpansionInside(h, A.Need(reqd));
    if A.CanGrow(h, reqd) { A.Grows(h, reqd); }
  }

  lemma {:induction false} LocatedHole(h: Layout, reqd: A.Size, align: bool)
    requires Inv(h) && A.Locate(h, reqd, align).Found?
    ensures var r := A.Locate(h, reqd, align); r.h.blocks[r.i] in r.h.holes
    decreases h.max - h.end
  {
    hide A.Expand;
    hide A.Need;
    hide A.Rounded;
    if A.Scan(h, 0, reqd, align).Fit? {
      var b := A.ScanServes(h, 0, reqd, align);
    } else {
      A.Grows(h, reqd);
      LocatedHole(A.Expand(h, A.Need(reqd)).value, reqd, align);
    }
  }

  lemma UnlinkHole(m: Memory, h: Layout, i: nat)
    requires Represents(m, h) && i < |h.blocks| && h.blocks[i] in h.holes
    ensures h.blocks[i].addr in m.prev && h.blocks[i].addr in m.next
    ensures Represents(ListRem(m, h.blocks[i].addr), A.Take(h, i))
  {
    RemoveRepresents(m, h, h.blocks[i]);
  }

  /** The pieces of a cut hole are off the list, and so stay each other's live neighbours. */
  lemma CutNeighbours(m: Memory, h: Layout, i: nat, d: int)
    requires Represents(m, h) && i < |h.blocks| && h.blocks[i] in h.holes
    requires OVERHEAD <= d && OVERHEAD <= h.blocks[i].size - d
    ensures var g := h.(blocks := A.Cut(h.blocks, i, d), holes := Remove(h.blocks[i], h.holes));
            && (A.LiveBefore(h, i) ==> LiveAround(g, i))
            && (A.LiveAfter(h, i) ==> LiveAround(g, i + 1))
            && g.blocks[i + 1] !in Insert(g.blocks[i], g.holes)
            && g.blocks[i] !in Insert(g.blocks[i + 1], g.holes)
    ensures h.start <= h.blocks[i].addr && h.blocks[i].addr + h.blocks[i].size <= h.end
  {
    var s, rest := A.Cut(h.blocks, i, d), Remove(h.blocks[i], h.holes);
    RemoveFacts(h.blocks[i], h.holes);
    TilesOnce(h.blocks, h.start, h.end, i);
    A.CutBlocks(h, i, d);
    InsertFacts(s[i], rest);
    InsertFacts(s[i + 1], rest);
  }

  lemma SizeField(m: Memory, h: Layout, i: nat)
    requires Represents(m, h) && i < |h.blocks|
    ensures h.blocks[i].addr in m.size && m.size[h.blocks[i].addr] == h.blocks[i].size
  {
    assert Tagged(m, h.blocks[i]);
  }

  /** The back piece of a hole cut at the front. */
  lemma AlignedCut(h: Layout, i: nat, d: int)
    requires Inv(h) && i < |h.blocks| && h.blocks[i] in h.holes && OVERHEAD <= d && OVERHEAD <= h.blocks[i].size - d
    ensures A.LiveBefore(h, i)
    ensures var b := h.blocks[i]; var g := A.CutHole(h, i, d, false);
            && i + 1 < |g.blocks| && g.blocks[i + 1] == Block(b.addr + d, b.size - d)
            && g.blocks[i + 1] in g.holes && A.LiveAfter(g, i + 1)
  {
    hide Inv;
    hide Consistent;
    A.InvChosen(h, i);
    A.CutHoleChosen(h, i, d, false);
  }

  lemma SplitShape(m: Memory, h: Layout, i: nat, d: int)
    requires Represents(m, h) && i < |h.blocks| && h.blocks[i] in h.holes
    requires OVERHEAD <= d && OVERHEAD <= h.blocks[i].size - d
    ensures var b := h.blocks[i]; b.addr in m.size && m.size[b.addr] == b.size
    ensures var s := A.Cut(h.blocks, i, d);
            s[i] !in Remove(h.blocks[i], h.holes) && s[i + 1] !in Remove(h.blocks[i], h.holes)
  {
    assert Tagged(m, h.blocks[i]);
    A.CutBlocks(h, i, d);
    RemoveFacts(h.blocks[i], h.holes);
  }

  /** Entry `k` of the walk is the header of hole `k`, with its size and links. */
  lemma HoleEntry(m: Memory, h: Layout, k: nat)
    requires Represents(m, h) && k <= |h.holes| && Ring(h.holes)[k + 1] != SENTINEL
    ensures k < |h.holes|
    ensures var a := Ring(h.holes)[k + 1];
            && a == h.holes[k].addr && Tagged(m, h.holes[k])
            && a in m.prev && m.prev[a] == Ring(h.holes)[k]
            && a in m.next && m.next[a] == Ring(h.holes)[k + 2]
  {
    ChainAt(Ring(h.holes), m, k);
    ChainAt(Ring(h.holes), m, k + 1);
    assert h.holes[k] in h.holes;
  }

  /** The walk ends at the sentinel, after the last hole. */
  lemma LastEntry(m: Memory, h: Layout, k: nat)
    requires Represents(m, h) && k <= |h.holes| && Ring(h.holes)[k + 1] == SENTINEL
    ensures k == |h.holes| && SENTINEL in m.prev && m.prev[SENTINEL] == Ring(h.holes)[k]
  {
    RingSimple(h);
    ChainAt(Ring(h.holes), m, k);
  }
}
