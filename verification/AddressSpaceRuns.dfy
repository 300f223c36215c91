/** What every operation on address spaces keeps, and that one address space is unaffected by what is done
    in another (kernel/src/paging.c). */
module AddressSpaceRuns {
  import opened Options
  import opened AddressSpaces

  // ----- Pages and frames

  /** Ownership of frames looks only at the present pages and at which tables are the kernel's. */
  lemma SamePages(s: State, s': State, boot: set<nat>)
    requires Shape(s) && Shape(s') && Reserved(s) && OneOwner(s) && NoLeak(s, boot) && s'.used == s.used
    requires forall a, p :: Present(s', a, p) == Present(s, a, p)
    requires forall a, p :: Present(s, a, p) ==> FrameAt(s', a, p) == FrameAt(s, a, p)
    requires forall a :: a in s.tables ==> KernelTable(s', a) == KernelTable(s, a)
    ensures Reserved(s') && OneOwner(s') && NoLeak(s', boot)
  {
    assert forall a, p :: Present(s, a, p) ==> a in s.tables;
    hide Shape;
    hide KernelTable;
    hide Present;
    hide FrameAt;
  }

  /** One more page, in a frame that was free. */
  lemma OneMorePage(s: State, s': State, boot: set<nat>, a: nat, p: nat)
    requires Shape(s) && Shape(s') && Reserved(s) && OneOwner(s) && NoLeak(s, boot)
    requires forall b, q :: Present(s', b, q) <==> Present(s, b, q) || (b == a && q == p)
    requires forall b, q :: Present(s, b, q) ==> FrameAt(s', b, q) == FrameAt(s, b, q)
    requires forall b :: KernelTable(s', b) == KernelTable(s, b)
    requires !Present(s, a, p) && FrameAt(s', a, p) !in s.used && FrameAt(s', a, p) > 0
    requires s'.used == s.used + {FrameAt(s', a, p)}
    ensures Reserved(s') && OneOwner(s') && NoLeak(s', boot)
  {
    hide Shape;
    hide KernelTable;
    hide Present;
    hide FrameAt;
    assert Reserved(s');
    assert OneOwner(s') by { hide NoLeak; }
    assert NoLeak(s', boot) by { hide OneOwner; }
  }

  // ----- Writing

  lemma WriteKeepsInv(s: State, boot: set<nat>, d: nat, t: nat, p: nat, c: Contents)
    requires Inv(s, boot) && Mapped(s, d, t, p)
    ensures Inv(Written(s, d, t, p, c), boot)
  {
    var s' := Written(s, d, t, p, c);
    assert forall a :: KernelTable(s', a) == KernelTable(s, a) by {
      assert forall t :: KernelIndex(s', t) == KernelIndex(s, t);
    }
    assert forall a, p :: Present(s', a, p) == Present(s, a, p);
  }

  /** A table of a directory at an index the kernel does not have is not a kernel table. */
  lemma OwnTable(s: State, d: nat, t: nat)
    requires Shape(s) && Private(s) && d in s.dirs && t < N && !KernelIndex(s, t) && s.dirs[d][t] != 0
    ensures !KernelTable(s, s.dirs[d][t])
  {
  }

  /** Two different pages, not both of the kernel, are in different frames. */
  lemma FramesApart(s: State, boot: set<nat>, d: nat, t: nat, p: nat, e: nat, u: nat, q: nat)
    requires Inv(s, boot) && Mapped(s, d, t, p) && Mapped(s, e, u, q)
    requires !KernelIndex(s, t) || !KernelIndex(s, u)
    requires d != e || t != u || p != q
    ensures FrameAt(s, s.dirs[d][t], p) != FrameAt(s, s.dirs[e][u], q)
  {
    if !KernelIndex(s, t) { OwnTable(s, d, t); } else { OwnTable(s, e, u); }
  }

  /** A write through one directory is read back there and changes no other page outside the kernel's. */
  lemma WriteIsolated(s: State, boot: set<nat>, d: nat, t: nat, p: nat, c: Contents, e: nat, u: nat, q: nat)
    requires Inv(s, boot) && Mapped(s, d, t, p) && e in s.dirs && u < N && q < N
    ensures Inv(Written(s, d, t, p, c), boot)
    ensures View(Written(s, d, t, p, c), d, t, p) == Some(View(s, d, t, p).value.(contents := c))
    ensures (!KernelIndex(s, t) || !KernelIndex(s, u)) && (d != e || t != u || p != q) ==>
              View(Written(s, d, t, p, c), e, u, q) == View(s, e, u, q)
  {
    hide OneOwner;
    hide Private;
    hide NoLeak;
    hide Reached;
    hide KernelShared;
    hide KernelTable;
    hide KernelIndex;
    WriteKeepsInv(s, boot, d, t, p, c);
    if (!KernelIndex(s, t) || !KernelIndex(s, u)) && (d != e || t != u || p != q) && Mapped(s, e, u, q) {
      FramesApart(s, boot, d, t, p, e, u, q);
    }
  }

  // ----- Allocating a page

  lemma TableKeeps(s: State, boot: set<nat>, d: nat, t: nat, a: nat)
    requires Inv(s, boot) && d in s.dirs && t < N && d != s.kern
    requires s.dirs[d][t] == 0 && a != 0 && a !in s.tables
    ensures Inv(WithTable(s, d, t, a), boot)
    ensures forall b :: KernelTable(WithTable(s, d, t, a), b) == KernelTable(s, b)
    ensures forall u :: KernelIndex(WithTable(s, d, t, a), u) == KernelIndex(s, u)
  {
    var s' := WithTable(s, d, t, a);
    TableShape(s, d, t, a);
    assert forall b, p :: Present(s', b, p) == Present(s, b, p);
    assert forall b, p :: Present(s, b, p) ==> FrameAt(s', b, p) == FrameAt(s, b, p);
    hide WithTable;
    hide OneOwner;
    hide Reserved;
    hide NoLeak;
    hide Private;
    hide Reached;
    hide Shape;
    SamePages(s, s', boot);
  }

  lemma TableShape(s: State, d: nat, t: nat, a: nat)
    requires Shape(s) && KernelShared(s) && Private(s) && Reached(s) && d in s.dirs && t < N && d != s.kern
    requires s.dirs[d][t] == 0 && a != 0 && a !in s.tables
    ensures var s' := WithTable(s, d, t, a);
            && Shape(s') && KernelShared(s') && Private(s') && Reached(s')
            && (forall b :: KernelTable(s', b) == KernelTable(s, b))
            && (forall u :: KernelIndex(s', u) == KernelIndex(s, u))
  {
    var s' := WithTable(s, d, t, a);
    assert Shape(s');
    assert forall u :: KernelIndex(s', u) == KernelIndex(s, u);
    assert forall b :: KernelTable(s', b) == KernelTable(s, b);
    assert KernelShared(s');
    AddedReached(s, d, t, a);
    AddedPrivate(s, d, t, a);
    hide Reached;
    hide Private;
  }

  lemma AddedPrivate(s: State, d: nat, t: nat, a: nat)
    requires Shape(s) && Private(s) && d in s.dirs && t < N && s.dirs[d][t] == 0 && a != 0 && a !in s.tables
    requires Shape(WithTable(s, d, t, a)) && forall u :: KernelIndex(WithTable(s, d, t, a), u) == KernelIndex(s, u)
    ensures Private(WithTable(s, d, t, a))
  {
    var s' := WithTable(s, d, t, a);
    assert forall e, u :: e in s.dirs && 0 <= u < N ==> s.dirs[e][u] != a;
    forall e, u, x, y | e in s'.dirs && x in s'.dirs && 0 <= u < N && 0 <= y < N && !KernelIndex(s', u)
                        && s'.dirs[e][u] != 0 && s'.dirs[e][u] == s'.dirs[x][y]
      ensures e == x && u == y
    {
      hide KernelIndex;
      hide Shape;
      assert s'.dirs[e][u] == if e == d && u == t then a else s.dirs[e][u];
      assert s'.dirs[x][y] == if x == d && y == t then a else s.dirs[x][y];
    }
  }

  lemma PageKeeps(s: State, boot: set<nat>, a: nat, p: nat, f: nat, user: bool, rw: bool)
    requires Inv(s, boot) && a in s.tables && p < N
    requires !Present(s, a, p) ==> 0 < f < |s.phys| && f !in s.used
    ensures Inv(WithPage(s, a, p, f, user, rw), boot)
  {
    var s' := WithPage(s, a, p, f, user, rw);
    PageShape(s, a, p, f, user, rw);
    PageFrames(s, a, p, f, user, rw);
    hide WithPage;
    hide Shape;
    hide Private;
    hide Reached;
    hide KernelShared;
    hide KernelTable;
    hide KernelIndex;
    hide Present;
    hide FrameAt;
    hide Reserved;
    hide OneOwner;
    hide NoLeak;
    if Present(s, a, p) { SamePages(s, s', boot); } else { OneMorePage(s, s', boot, a, p); }
  }

  lemma PageShape(s: State, a: nat, p: nat, f: nat, user: bool, rw: bool)
    requires Shape(s) && Private(s) && Reached(s) && KernelShared(s) && a in s.tables && p < N
    requires !Present(s, a, p) ==> 0 < f < |s.phys| && f !in s.used
    ensures var s' := WithPage(s, a, p, f, user, rw);
            && Shape(s') && Private(s') && Reached(s') && KernelShared(s')
            && (forall t :: KernelIndex(s', t) == KernelIndex(s, t))
            && (forall a :: KernelTable(s', a) == KernelTable(s, a))
  {
    var s' := WithPage(s, a, p, f, user, rw);
    assert Shape(s');
    assert forall t :: KernelIndex(s', t) == KernelIndex(s, t);
    assert forall a :: KernelTable(s', a) == KernelTable(s, a);
  }

  /** The pages present and their frames after a page is made. */
  lemma PageFrames(s: State, a: nat, p: nat, f: nat, user: bool, rw: bool)
    requires a in s.tables && p < |s.tables[a]|
    ensures var s' := WithPage(s, a, p, f, user, rw);
            && (forall b, q :: Present(s', b, q) <==> Present(s, b, q) || (b == a && q == p))
            && (forall b, q :: Present(s, b, q) ==> FrameAt(s', b, q) == FrameAt(s, b, q))
            && (if Present(s, a, p) then s'.used == s.used else s'.used == s.used + {f} && FrameAt(s', a, p) == f)
  {
  }

  /** alloc_page would give the kernel a table that some other directory lacks. */
  ghost predicate KernelOutgrows(s: State, d: nat, t: nat)
    requires Shape(s) && d in s.dirs && t < N
  {
    d == s.kern && s.dirs[d][t] == 0 && exists e :: e in s.dirs && e != s.kern
  }

  /** alloc_page keeps the invariant exactly when that is not so. */
  lemma AllocKeepsInv(s: State, s': State, boot: set<nat>, d: nat, t: nat, p: nat, a: nat, f: nat, user: bool, rw: bool)
    requires Inv(s, boot) && Allocated(s, s', d, t, p, a, f, user, rw)
    ensures Inv(s', boot) <==> !KernelOutgrows(s, d, t)
  {
    if s.dirs[d][t] != 0 {
      PageKeeps(s, boot, a, p, f, user, rw);
    } else if d != s.kern {
      TableKeeps(s, boot, d, t, a);
      PageKeeps(WithTable(s, d, t, a), boot, a, p, f, user, rw);
    } else if e :| e in s.dirs && e != s.kern {
      KernelGrows(s, s', d, t, p, a, f, user, rw, e);
    } else {
      AloneTableKeeps(s, boot, t, a);
      PageKeeps(WithTable(s, d, t, a), boot, a, p, f, user, rw);
    }
  }

  /** What a page mapped through a directory holds. */
  ghost function Read(s: State, d: nat, t: nat, p: nat): Contents
    requires Mapped(s, d, t, p)
  {
    s.phys[FrameAt(s, s.dirs[d][t], p)]
  }

  /** After the kernel has got a table where another directory has a private one, copying that directory shares the
      private table, and a write through the copy is seen through the original. */
  lemma OutgrownShared(s: State, s1: State, s2: State, boot: set<nat>, t: nat, p: nat, a: nat, f: nat, user: bool, rw: bool,
                       src: nat, dst: nat, q: nat, c: Contents)
    requires Inv(s, boot) && Allocated(s, s1, s.kern, t, p, a, f, user, rw) && KernelOutgrows(s, s.kern, t)
    requires Shape(s1) && src in s.dirs && src != s.kern && s.dirs[src][t] != 0 && Mapped(s1, src, t, q)
    requires Copied(s1, s2, src, dst)
    ensures s2.dirs[dst][t] == s2.dirs[src][t] == s.dirs[src][t]
    ensures Mapped(s2, src, t, q) && Mapped(s2, dst, t, q)
    ensures Mapped(Written(s2, dst, t, q, c), src, t, q) && Read(Written(s2, dst, t, q, c), src, t, q) == c
  {
    assert s1.dirs[s.kern][t] == a && s1.dirs[src] == s.dirs[src] && KernelIndex(s1, t);
    assert s1.dirs[src][t] in s1.tables;
  }

  /** A kernel directory without tables, and another directory with one page. */
  ghost function TwoDirs(): State
  {
    var none: seq<nat> := seq(N, i => 0);
    State({1}, [[], [], []], map[5 := OnePage(1)], map[1 := none, 2 := none[0 := 5]], 1, 1)
  }

  ghost function OnePage(f: nat): seq<Page> { seq(N, i => if i == 0 then Page(true, true, true, f) else NoPage) }

  lemma TwoDirsInv()
    ensures Inv(TwoDirs(), {})
  {
    var s := TwoDirs();
    assert Shape(s);
    assert forall t :: !KernelIndex(s, t);
    assert forall a, p :: Present(s, a, p) <==> a == 5 && p == 0;
    assert Present(s, 5, 0) && FrameAt(s, 5, 0) == 1;
    assert s.dirs[2][0] == 5;
  }

  /** The same after the kernel has got its first table. */
  ghost function Outgrown(): State
  {
    var s := TwoDirs();
    TwoDirsInv();
    WithPage(WithTable(s, 1, 0, 6), 6, 0, 2, false, true)
  }

  lemma OutgrownShape()
    ensures var s, s1 := TwoDirs(), Outgrown();
            && Inv(s, {}) && KernelOutgrows(s, 1, 0) && Allocated(s, s1, 1, 0, 0, 6, 2, false, true)
            && Shape(s1) && KernelIndex(s1, 0) && s1.dirs[2] == s.dirs[2] && 3 !in s1.dirs && Present(s1, 5, 0)
            && FrameAt(s1, 5, 0) < |s1.phys|
  {
    hide TwoDirs;
    hide WithPage;
    hide WithTable;
    TwoDirsFacts();
    var s, s1 := TwoDirs(), Outgrown();
    AllocShape(s, s1, 1, 0, 0, 6, 2, false, true);
  }

  lemma TwoDirsFacts()
    ensures var s := TwoDirs();
            && Inv(s, {}) && s.kern == 1 && s.dirs[1][0] == 0 && 2 in s.dirs && 3 !in s.dirs && 6 !in s.tables
            && 2 !in s.used && |s.phys| == 3 && Present(s, 5, 0) && FrameAt(s, 5, 0) == 1
  {
    TwoDirsInv();
  }

  lemma AllocShape(s: State, s': State, d: nat, t: nat, p: nat, a: nat, f: nat, user: bool, rw: bool)
    requires Shape(s) && Allocated(s, s', d, t, p, a, f, user, rw)
    ensures Shape(s') && s'.kern == s.kern && s'.dirs.Keys == s.dirs.Keys && |s'.phys| == |s.phys|
    ensures s'.dirs[d][t] == a && forall e :: e in s.dirs && e != d ==> s'.dirs[e] == s.dirs[e]
    ensures forall b :: b in s.tables && b != a ==> b in s'.tables && s'.tables[b] == s.tables[b]
  {
  }

  /** A copy of a directory all of whose tables are where the kernel has one shares them all. */
  lemma AllShared(s: State, src: nat, dst: nat)
    requires Shape(s) && src in s.dirs && dst !in s.dirs && dst != 0
    requires forall t :: 0 <= t < N && s.dirs[src][t] != 0 ==> KernelIndex(s, t)
    ensures Copied(s, s.(dirs := s.dirs[dst := s.dirs[src]]), src, dst)
  {
    var s2 := s.(dirs := s.dirs[dst := s.dirs[src]]);
    assert forall b :: !NewTable(s, s2, b);
  }

  /** So it happens: the kernel gets its first table, the other directory is copied, and the two share a page. */
  lemma PrivatePageShared() returns (s1: State, s2: State)
    ensures Inv(TwoDirs(), {}) && KernelOutgrows(TwoDirs(), 1, 0) && Allocated(TwoDirs(), s1, 1, 0, 0, 6, 2, false, true)
    ensures Shape(s1) && Copied(s1, s2, 2, 3)
    ensures Mapped(s2, 2, 0, 0) && Mapped(s2, 3, 0, 0)
    ensures forall c :: Mapped(Written(s2, 3, 0, 0, c), 2, 0, 0) && Read(Written(s2, 3, 0, 0, c), 2, 0, 0) == c
  {
    var s := TwoDirs();
    var zeros := s.dirs[2][0] == 5 && forall t :: 0 < t < N ==> s.dirs[2][t] == 0;
    assert zeros && s.kern == 1;
    hide TwoDirs;
    hide Outgrown;
    hide Inv;
    hide Copied;
    hide Allocated;
    hide Written;
    OutgrownShape();
    s1 := Outgrown();
    s2 := s1.(dirs := s1.dirs[3 := s1.dirs[2]]);
    AllShared(s1, 2, 3);
    assert s1.dirs[2][0] == 5 && Mapped(s1, 2, 0, 0);
    forall c: Contents
      ensures Mapped(s2, 2, 0, 0) && Mapped(s2, 3, 0, 0)
      ensures Mapped(Written(s2, 3, 0, 0, c), 2, 0, 0) && Read(Written(s2, 3, 0, 0, c), 2, 0, 0) == c
    {
      OutgrownShared(s, s1, s2, {}, 0, 0, 6, 2, false, true, 2, 3, 0, c);
    }
    OutgrownShared(s, s1, s2, {}, 0, 0, 6, 2, false, true, 2, 3, 0, []);
  }

  lemma KernelGrows(s: State, s': State, d: nat, t: nat, p: nat, a: nat, f: nat, user: bool, rw: bool, e: nat)
    requires Shape(s) && Allocated(s, s', d, t, p, a, f, user, rw)
    requires d == s.kern && s.dirs[d][t] == 0 && e in s.dirs && e != s.kern
    ensures Shape(s') ==> !KernelShared(s')
  {
    if Shape(s') {
      assert s'.dirs[d][t] == a && s'.dirs[e] == s.dirs[e];
      assert KernelIndex(s', t);
      assert s.dirs[e][t] != a;
    }
  }

  /** The kernel's directory alone may get a table. */
  lemma AloneTableKeeps(s: State, boot: set<nat>, t: nat, a: nat)
    requires Inv(s, boot) && t < N && forall e :: e in s.dirs ==> e == s.kern
    requires s.dirs[s.kern][t] == 0 && a != 0 && a !in s.tables
    ensures Inv(WithTable(s, s.kern, t, a), boot)
  {
    var s' := WithTable(s, s.kern, t, a);
    assert Shape(s');
    assert forall u: nat :: u < N && u != t ==> s'.dirs[s.kern][u] == s.dirs[s.kern][u];
    assert forall u: nat :: u != t ==> KernelIndex(s', u) == KernelIndex(s, u);
    assert KernelIndex(s', t) && s'.dirs[s.kern][t] == a;
    assert forall b, p :: Present(s', b, p) == Present(s, b, p);
    assert forall b, p :: Present(s, b, p) ==> FrameAt(s', b, p) == FrameAt(s, b, p);
    forall b | b in s.tables ensures KernelTable(s', b) && KernelTable(s, b) {
      var e, u :| e in s.dirs && 0 <= u < N && s.dirs[e][u] == b;
      assert KernelIndex(s, u) && s'.dirs[s.kern][u] == b && KernelIndex(s', u);
    }
    SamePages(s, s', boot);
    hide OneOwner;
    hide Reserved;
    hide NoLeak;
    AddedReached(s, s.kern, t, a);
    hide Reached;
    assert forall e :: e in s'.dirs ==> e == s.kern;
    assert Private(s');
  }

  lemma AddedReached(s: State, d: nat, t: nat, a: nat)
    requires Shape(s) && Reached(s) && d in s.dirs && t < N && s.dirs[d][t] == 0 && a != 0 && a !in s.tables
    requires Shape(WithTable(s, d, t, a))
    ensures Reached(WithTable(s, d, t, a))
  {
    var s' := WithTable(s, d, t, a);
    forall b | b in s'.tables ensures exists d, t :: d in s'.dirs && 0 <= t < N && s'.dirs[d][t] == b {
      if b == a {
        assert s'.dirs[d][t] == b;
      } else {
        var e, u :| e in s.dirs && 0 <= u < N && s.dirs[e][u] == b;
        assert s'.dirs[e][u] == b;
      }
    }
  }

  /** alloc_page maps the page with the permissions asked for and keeps the contents of a page there. */
  lemma AllocMaps(s: State, s': State, boot: set<nat>, d: nat, t: nat, p: nat, a: nat, f: nat, user: bool, rw: bool)
    requires Inv(s, boot) && Allocated(s, s', d, t, p, a, f, user, rw) && Inv(s', boot)
    ensures View(s', d, t, p).Some? && View(s', d, t, p).value.rw == rw && View(s', d, t, p).value.user == user
    ensures View(s, d, t, p).Some? ==> View(s', d, t, p).value.contents == View(s, d, t, p).value.contents
  {
    assert s'.dirs[d][t] == a && Present(s', a, p);
    hide OneOwner;
    hide NoLeak;
    hide Reached;
    hide KernelShared;
    hide Private;
  }

  /** No other directory sees alloc_page outside the kernel's tables. */
  lemma AllocView(s: State, s': State, boot: set<nat>, d: nat, t: nat, p: nat, a: nat, f: nat, user: bool, rw: bool,
                  e: nat, u: nat, q: nat)
    requires Inv(s, boot) && Allocated(s, s', d, t, p, a, f, user, rw) && Inv(s', boot) && e in s.dirs && u < N && q < N
    requires e != d && !KernelIndex(s, u)
    ensures View(s', e, u, q) == View(s, e, u, q)
  {
    assert s'.dirs[e] == s.dirs[e];
    assert s.dirs[e][u] != 0 ==> s.dirs[e][u] != a;
    hide Inv;
    hide OneOwner;
    hide NoLeak;
    hide Reached;
    hide KernelShared;
    hide Private;
    hide KernelTable;
  }

  // ----- Copying a directory

  lemma CopyShape(s: State, s': State, src: nat, dst: nat)
    requires Shape(s) && KernelShared(s) && Copied(s, s', src, dst)
    ensures Shape(s') && KernelShared(s')
    ensures forall t :: KernelIndex(s', t) == KernelIndex(s, t)
    ensures forall a :: KernelTable(s', a) == KernelTable(s, a)
    ensures forall a :: KernelTable(s, a) ==> a in s.tables
  {
    CopyShaped(s, s', src, dst);
    hide TablesCopied;
    hide FramesCopied;
    assert forall t :: KernelIndex(s', t) == KernelIndex(s, t);
    assert forall a :: KernelTable(s', a) == KernelTable(s, a);
  }

  lemma CopyShaped(s: State, s': State, src: nat, dst: nat)
    requires Shape(s) && KernelShared(s) && Copied(s, s', src, dst)
    ensures Shape(s') && forall t :: 0 <= t < N && KernelIndex(s, t) ==> s'.dirs[dst][t] == s.dirs[s.kern][t]
  {
    assert forall t :: 0 <= t < N && s'.dirs[dst][t] != 0 ==> s'.dirs[dst][t] in s'.tables by { hide FramesCopied; }
    forall a | a in s'.tables ensures |s'.tables[a]| == N {
      if a !in s.tables { assert NewTable(s, s', a); }
    }
  }

  lemma CopyPrivate(s: State, s': State, src: nat, dst: nat)
    requires Shape(s) && Private(s) && Shape(s') && Copied(s, s', src, dst)
    requires forall t :: KernelIndex(s', t) == KernelIndex(s, t)
    ensures Private(s')
  {
    hide Likewise;
    hide FramesCopied;
    forall d, t, e, u | d in s'.dirs && e in s'.dirs && 0 <= t < N && 0 <= u < N && !KernelIndex(s', t)
                        && s'.dirs[d][t] != 0 && s'.dirs[d][t] == s'.dirs[e][u]
      ensures d == e && t == u
    {
      hide KernelIndex;
    }
  }

  lemma CopyReached(s: State, s': State, src: nat, dst: nat)
    requires Shape(s) && Reached(s) && Shape(s') && Copied(s, s', src, dst)
    ensures Reached(s')
  {
    hide FramesCopied;
    hide Likewise;
    forall b | b in s'.tables ensures exists d, t :: d in s'.dirs && 0 <= t < N && s'.dirs[d][t] == b {
      if b in s.tables {
        var d, t :| d in s.dirs && 0 <= t < N && s.dirs[d][t] == b;
        assert s'.dirs[d][t] == b;
      } else {
        assert NewTable(s, s', b);
      }
    }
  }

  /** The pages of old tables are as they were; those of new tables are in frames that were free. */
  lemma CopyPages(s: State, s': State, src: nat, dst: nat)
    requires Shape(s) && Shape(s') && Copied(s, s', src, dst)
    ensures forall a, p :: Present(s', a, p) && a in s.tables ==> Present(s, a, p) && FrameAt(s', a, p) == FrameAt(s, a, p)
    ensures forall a, p :: Present(s, a, p) ==> Present(s', a, p) && FrameAt(s', a, p) == FrameAt(s, a, p)
    ensures forall a, p :: Present(s', a, p) && a !in s.tables ==>
              FrameAt(s', a, p) !in s.used && FrameAt(s', a, p) in s'.used && FrameAt(s', a, p) > 0
  {
    hide FramesCopied;
    forall a: nat, p: nat | Present(s', a, p) && a !in s.tables
      ensures FrameAt(s', a, p) !in s.used && FrameAt(s', a, p) in s'.used && FrameAt(s', a, p) > 0
    {
      assert NewTable(s, s', a);
      var t :| 0 <= t < N && s.dirs[src][t] != 0 && !KernelIndex(s, t) && s'.dirs[dst][t] == a;
      assert Likewise(s, s', s.dirs[src][t], a);
      assert LikePage(s, s', s.tables[s.dirs[src][t]][p], s'.tables[a][p]);
    }
  }

  lemma CopyOwners(s: State, s': State, boot: set<nat>, src: nat, dst: nat)
    requires Shape(s) && Shape(s') && Copied(s, s', src, dst) && Reserved(s) && OneOwner(s) && NoLeak(s, boot)
    requires forall a :: KernelTable(s', a) == KernelTable(s, a)
    requires forall a :: KernelTable(s, a) ==> a in s.tables
    ensures Reserved(s') && OneOwner(s') && NoLeak(s', boot)
  {
    CopyPages(s, s', src, dst);
    var x := s.tables;
    assert forall a, p :: Present(s', a, p) ==> (a in x || NewTable(s, s', a));
    assert s.used <= s'.used && FramesCopied(s, s');
    hide TablesCopied;
    hide Shape;
    hide KernelTable;
    hide Present;
    hide FrameAt;
    assert Reserved(s') by { hide OneOwner; hide FramesCopied; }
    assert OneOwner(s') by { CopyOneOwner(s, s'); }
    assert NoLeak(s', boot) by { hide OneOwner; hide Reserved; CopyNoLeak(s, s', boot); }
  }

  lemma CopyOneOwner(s: State, s': State)
    requires Shape(s) && Shape(s') && Reserved(s) && OneOwner(s) && FramesCopied(s, s')
    requires forall a :: KernelTable(s', a) == KernelTable(s, a)
    requires forall a, p :: Present(s', a, p) && a in s.tables ==> Present(s, a, p) && FrameAt(s', a, p) == FrameAt(s, a, p)
    requires forall a, p :: Present(s', a, p) && a !in s.tables ==> NewTable(s, s', a) && FrameAt(s', a, p) !in s.used
    ensures OneOwner(s')
  {
    forall a, p, b, q | Present(s', a, p) && Present(s', b, q) && !KernelTable(s', a)
                        && FrameAt(s', a, p) == FrameAt(s', b, q)
      ensures a == b && p == q
    {
      hide Shape;
      hide KernelTable;
      hide Present;
      hide FrameAt;
    }
  }

  lemma CopyNoLeak(s: State, s': State, boot: set<nat>)
    requires NoLeak(s, boot) && FramesCopied(s, s')
    requires forall a, p :: Present(s, a, p) ==> Present(s', a, p) && FrameAt(s', a, p) == FrameAt(s, a, p)
    ensures NoLeak(s', boot)
  {
    forall f | f in s'.used && f !in boot ensures exists a, p :: Present(s', a, p) && FrameAt(s', a, p) == f {
      hide Present;
      hide FrameAt;
      if f in s.used {
        var a, p :| Present(s, a, p) && FrameAt(s, a, p) == f;
        assert Present(s', a, p);
      } else {
        assert f in s'.used - s.used;
      }
    }
  }

  /** copy_page_dir keeps the invariant. */
  lemma CopyKeepsInv(s: State, s': State, boot: set<nat>, src: nat, dst: nat)
    requires Inv(s, boot) && Copied(s, s', src, dst)
    ensures Inv(s', boot)
  {
    CopyShape(s, s', src, dst);
    hide *;
    CopyPrivate(s, s', src, dst);
    CopyReached(s, s', src, dst);
    CopyOwners(s, s', boot, src, dst);
  }

  /** The copy maps what the source mapped, and every directory still maps what it did. */
  lemma CopyView(s: State, s': State, boot: set<nat>, src: nat, dst: nat, e: nat, t: nat, p: nat)
    requires Inv(s, boot) && Copied(s, s', src, dst) && e in s.dirs && t < N && p < N
    ensures Inv(s', boot)
    ensures View(s', dst, t, p) == View(s, src, t, p)
    ensures View(s', e, t, p) == View(s, e, t, p)
  {
    CopyKeepsInv(s, s', boot, src, dst);
    OldView(s, s', src, dst, e, t, p);
    OldView(s, s', src, dst, src, t, p);
    var a, b := s.dirs[src][t], s'.dirs[dst][t];
    if a != 0 && !KernelIndex(s, t) {
      assert Likewise(s, s', a, b) && 0 !in s'.tables by { hide FramesCopied; }
      hide TablesCopied;
      hide FramesCopied;
      assert LikePage(s, s', s.tables[a][p], s'.tables[b][p]);
    }
  }

  lemma OldView(s: State, s': State, src: nat, dst: nat, e: nat, t: nat, p: nat)
    requires Shape(s) && Reserved(s) && Shape(s') && Reserved(s') && Copied(s, s', src, dst)
    requires e in s.dirs && t < N && p < N
    ensures View(s', e, t, p) == View(s, e, t, p)
  {
    var a := s.dirs[e][t];
    assert s'.dirs[e] == s.dirs[e];
    assert a != 0 ==> s'.tables[a] == s.tables[a];
    assert Present(s, a, p) ==> FrameAt(s, a, p) in s.used;
  }

  // ----- Freeing a directory

  lemma FreeShape(s: State, boot: set<nat>, d: nat)
    requires Inv(s, boot) && d in s.dirs && d != s.kern && d != s.cur
    ensures var s' := FreeDir(s, d);
            && Shape(s') && KernelShared(s') && Private(s') && Reached(s')
            && (forall t :: KernelIndex(s', t) == KernelIndex(s, t))
            && (forall a :: KernelTable(s', a) == KernelTable(s, a))
            && (forall a :: KernelTable(s, a) ==> a !in Own(s, d))
  {
    var s' := FreeDir(s, d);
    assert Shape(s') by {
      forall e, t | e in s'.dirs && 0 <= t < N && s'.dirs[e][t] != 0 ensures s'.dirs[e][t] in s'.tables {
        NotOwned(s, d, e, t);
      }
    }
    assert forall t :: KernelIndex(s', t) == KernelIndex(s, t);
    assert forall a :: KernelTable(s', a) == KernelTable(s, a);
    assert Private(s') && KernelShared(s') by { hide Reached; hide OneOwner; hide Reserved; hide NoLeak; }
    FreeReached(s, d);
    forall a | KernelTable(s, a) ensures a !in Own(s, d) {
      var t :| 0 <= t < N && KernelIndex(s, t) && s.dirs[s.kern][t] == a;
      NotOwned(s, d, s.kern, t);
    }
  }

  /** What another directory refers to is not among the tables freed. */
  lemma NotOwned(s: State, d: nat, e: nat, t: nat)
    requires Shape(s) && Private(s) && d in s.dirs && e in s.dirs && e != d && 0 <= t < N
    ensures s.dirs[e][t] !in Own(s, d)
  {
  }

  lemma FreeReached(s: State, d: nat)
    requires Shape(s) && KernelShared(s) && Reached(s) && d in s.dirs && d != s.kern && d != s.cur && Shape(FreeDir(s, d))
    ensures Reached(FreeDir(s, d))
  {
    var s' := FreeDir(s, d);
    forall a | a in s'.tables ensures exists e, t :: e in s'.dirs && 0 <= t < N && s'.dirs[e][t] == a {
      var e, t :| e in s.dirs && 0 <= t < N && s.dirs[e][t] == a;
      if e == d {
        assert a !in Own(s, d) && a != 0;
        assert KernelIndex(s, t) && s'.dirs[s.kern][t] == a;
      } else {
        assert s'.dirs[e][t] == a;
      }
    }
  }

  /** free_page_dir keeps the invariant exactly when it is not the kernel's own directory that is freed. */
  lemma FreeInvIff(s: State, boot: set<nat>, d: nat)
    requires Inv(s, boot) && d in s.dirs
    ensures Inv(FreeDir(s, d), boot) <==> d != s.kern || d == s.cur
    ensures d == s.kern != s.cur ==> s.kern !in FreeDir(s, d).dirs
  {
    if d != s.kern { FreeKeepsInv(s, boot, d); }
  }

  /** free_page_dir of a directory that is not the kernel's keeps the invariant. */
  lemma FreeKeepsInv(s: State, boot: set<nat>, d: nat)
    requires Inv(s, boot) && d in s.dirs && d != s.kern
    ensures Inv(FreeDir(s, d), boot)
  {
    if d != s.cur {
      FreeShape(s, boot, d);
      var s' := FreeDir(s, d);
      var own := Own(s, d);
      assert own <= s.tables.Keys;
      assert s'.used == s.used - FramesOf(s, own);
      assert forall a, p :: Present(s', a, p) <==> Present(s, a, p) && a !in own;
      assert forall a, p :: Present(s', a, p) ==> FrameAt(s', a, p) == FrameAt(s, a, p);
      FreeOwners(s, s', boot, own);
    }
  }

  lemma FreeOwners(s: State, s': State, boot: set<nat>, own: set<nat>)
    requires Shape(s) && Shape(s') && Reserved(s) && OneOwner(s) && NoLeak(s, boot)
    requires s'.used == s.used - FramesOf(s, own)
    requires forall a, p :: Present(s', a, p) <==> Present(s, a, p) && a !in own
    requires forall a, p :: Present(s', a, p) ==> FrameAt(s', a, p) == FrameAt(s, a, p)
    requires forall a :: KernelTable(s', a) == KernelTable(s, a)
    requires forall a :: KernelTable(s, a) ==> a !in own
    ensures Reserved(s') && OneOwner(s') && NoLeak(s', boot)
  {
    forall a, p | Present(s', a, p) ensures FrameAt(s', a, p) in s'.used {
      hide NoLeak;
      assert FrameAt(s, a, p) in s.used;
      assert FrameAt(s, a, p) !in FramesOf(s, own);
    }
    forall f | f in s'.used && f !in boot ensures exists a, p :: Present(s', a, p) && FrameAt(s', a, p) == f {
      hide OneOwner;
      var a, p :| Present(s, a, p) && FrameAt(s, a, p) == f;
      assert Present(s', a, p);
    }
    assert OneOwner(s') by { hide Reserved; hide NoLeak; hide KernelTable; hide Present; hide FrameAt; }
  }

  /** No other directory sees free_page_dir. */
  lemma FreeView(s: State, boot: set<nat>, d: nat, e: nat, t: nat, p: nat)
    requires Inv(s, boot) && d in s.dirs && d != s.kern && e in s.dirs && e != d && t < N && p < N
    ensures Inv(FreeDir(s, d), boot)
    ensures View(FreeDir(s, d), e, t, p) == View(s, e, t, p)
  {
    FreeKeepsInv(s, boot, d);
    hide OneOwner;
    hide NoLeak;
    hide Reached;
    hide KernelShared;
    hide KernelTable;
    if d != s.cur { NotOwned(s, d, e, t); }
    hide Private;
    hide Own;
    hide FramesOf;
  }

  /** Freeing a fresh copy gives back exactly the frames it took: bitmap, tables and directories are as
      they were, and so are the contents of every frame in use. */
  lemma FreeUndoesCopy(s: State, s': State, boot: set<nat>, src: nat, dst: nat)
    requires Inv(s, boot) && Copied(s, s', src, dst)
    ensures Shape(s') && FreeDir(s', dst) == s.(phys := s'.phys)
    ensures forall f :: f in s.used ==> f < |s.phys| == |s'.phys| && s'.phys[f] == s.phys[f]
  {
    CopyShape(s, s', src, dst);
    OwnIsNew(s, s', src, dst);
    var own := Own(s', dst);
    assert s'.tables - own == s.tables by { hide FramesCopied; }
    assert s'.dirs - {dst} == s.dirs by { hide FramesCopied; hide TablesCopied; }
    assert s'.used - FramesOf(s', own) == s.used by {
      CopyPages(s, s', src, dst);
      hide TablesCopied;
      NewFrames(s, s', own);
    }
  }

  /** The tables the copy has to itself are the new ones. */
  lemma OwnIsNew(s: State, s': State, src: nat, dst: nat)
    requires Shape(s) && Shape(s') && Copied(s, s', src, dst) && forall t :: KernelIndex(s', t) == KernelIndex(s, t)
    ensures forall b :: b in Own(s', dst) <==> NewTable(s, s', b)
  {
    hide FramesCopied;
    hide Likewise;
    var from, to := s.dirs[src], s'.dirs[dst];
    forall b | b in Own(s', dst) ensures NewTable(s, s', b) {
      var t :| 0 <= t < N && !KernelIndex(s', t) && to[t] != 0 && to[t] == b;
      assert !KernelIndex(s, t) && from[t] != 0;
    }
  }

  lemma NewFrames(s: State, s': State, own: set<nat>)
    requires FramesCopied(s, s') && Shape(s') && forall b :: b in own <==> NewTable(s, s', b)
    requires forall a, p :: Present(s', a, p) && a !in s.tables ==>
               FrameAt(s', a, p) !in s.used && FrameAt(s', a, p) in s'.used && FrameAt(s', a, p) > 0
    ensures s'.used - FramesOf(s', own) == s.used
  {
    forall f | f in s'.used - s.used ensures f in FramesOf(s', own) {
      var b: nat, p: nat :| NewTable(s, s', b) && Present(s', b, p) && FrameAt(s', b, p) == f;
      assert b in own && p < N;
    }
    forall f | f in FramesOf(s', own) ensures f !in s.used {
      var b, p :| b in own && 0 <= p < N && Present(s', b, p) && FrameAt(s', b, p) == f;
      assert NewTable(s, s', b);
    }
  }

  // ----- Switching

  /** switch_page_dir changes what is current and nothing else. */
  lemma SwitchKeepsInv(s: State, boot: set<nat>, d: nat)
    requires Inv(s, boot) && d in s.dirs
    ensures Inv(s.(cur := d), boot)
  {
    var s' := s.(cur := d);
    assert Shape(s');
    assert forall t :: KernelIndex(s', t) == KernelIndex(s, t);
    assert forall a :: KernelTable(s', a) == KernelTable(s, a);
    assert KernelShared(s') && Private(s') && Reached(s') by { hide OneOwner; hide Reserved; hide NoLeak; }
    SamePages(s, s', boot);
  }

  lemma SwitchView(s: State, boot: set<nat>, d: nat, e: nat, t: nat, p: nat)
    requires Inv(s, boot) && d in s.dirs && e in s.dirs && t < N && p < N
    ensures Inv(s.(cur := d), boot) && View(s.(cur := d), e, t, p) == View(s, e, t, p)
  {
    SwitchKeepsInv(s, boot, d);
  }

  // ----- Runs

  datatype Op =
    | AllocPage(dir: nat, t: nat, p: nat, a: nat, f: nat, user: bool, rw: bool)
    | CopyDir(src: nat, dst: nat)
    | FreeDirectory(dir: nat)
    | Switch(dir: nat)
    | Write(dir: nat, t: nat, p: nat, c: Contents)

  /** One operation; the kernel's directory is not freed, and gets no table once others exist. */
  ghost predicate Next(s: State, op: Op, s': State)
    requires Shape(s)
  {
    match op
    case AllocPage(d, t, p, a, f, user, rw) =>
      Allocated(s, s', d, t, p, a, f, user, rw) && !KernelOutgrows(s, d, t)
    case CopyDir(src, dst) => Copied(s, s', src, dst)
    case FreeDirectory(d) => d in s.dirs && d != s.kern && s' == FreeDir(s, d)
    case Switch(d) => d in s.dirs && s' == s.(cur := d)
    case Write(d, t, p, c) => Mapped(s, d, t, p) && s' == Written(s, d, t, p, c)
  }

  lemma NextKeepsInv(s: State, op: Op, s': State, boot: set<nat>)
    requires Inv(s, boot) && Next(s, op, s')
    ensures Inv(s', boot)
  {
    match op
    case AllocPage(d, t, p, a, f, user, rw) => AllocKeepsInv(s, s', boot, d, t, p, a, f, user, rw);
    case CopyDir(src, dst) => CopyKeepsInv(s, s', boot, src, dst);
    case FreeDirectory(d) => FreeKeepsInv(s, boot, d);
    case Switch(d) => SwitchKeepsInv(s, boot, d);
    case Write(d, t, p, c) => WriteKeepsInv(s, boot, d, t, p, c);
  }

  /** The operation is done in directory `e`, or frees it. */
  predicate Concerns(op: Op, e: nat)
  {
    match op
    case AllocPage(d, _, _, _, _, _, _) => d == e
    case CopyDir(_, _) => false
    case FreeDirectory(d) => d == e
    case Switch(_) => false
    case Write(d, _, _, _) => d == e
  }

  lemma NextView(s: State, op: Op, s': State, boot: set<nat>, e: nat, t: nat, p: nat)
    requires Inv(s, boot) && Next(s, op, s') && e in s.dirs && t < N && p < N && !Concerns(op, e) && !KernelIndex(s, t)
    ensures Inv(s', boot) && e in s'.dirs && !KernelIndex(s', t)
    ensures View(s', e, t, p) == View(s, e, t, p)
  {
    hide View;
    hide OneOwner;
    hide NoLeak;
    hide Private;
    hide Reached;
    NextKeepsInv(s, op, s', boot);
    match op
    case AllocPage(d, t', p', a, f, user, rw) =>
      AllocView(s, s', boot, d, t', p', a, f, user, rw, e, t, p);
    case CopyDir(src, dst) =>
      CopyView(s, s', boot, src, dst, e, t, p);
    case FreeDirectory(d) =>
      FreeView(s, boot, d, e, t, p);
    case Switch(d) =>
      SwitchView(s, boot, d, e, t, p);
    case Write(d, t', p', c) =>
      WriteIsolated(s, boot, d, t', p', c, e, t, p);
  }

  ghost predicate Trace(ss: seq<State>, ops: seq<Op>)
  {
    && |ss| == |ops| + 1
    && forall i, j :: 0 <= i && j == i + 1 && j < |ss| ==> Shape(ss[i]) && Next(ss[i], ops[i], ss[j])
  }

  /** Every state of every run keeps each page outside the kernel's tables in a nonzero reserved frame of
      its own, and no frame is lost. */
  lemma {:induction false} RunKeepsInv(ss: seq<State>, ops: seq<Op>, boot: set<nat>, k: nat)
    requires Trace(ss, ops) && Inv(ss[0], boot) && k < |ss|
    ensures Inv(ss[k], boot)
  {
    if k > 0 {
      RunKeepsInv(ss, ops, boot, k - 1);
      NextKeepsInv(ss[k - 1], ops[k - 1], ss[k], boot);
    }
  }

  /** Isolation: whatever is done in other directories, a directory maps outside the kernel's tables what it
      mapped before. */
  lemma {:induction false} RunIsolated(ss: seq<State>, ops: seq<Op>, boot: set<nat>, k: nat, e: nat, t: nat, p: nat)
    requires Trace(ss, ops) && Inv(ss[0], boot) && k < |ss| && e in ss[0].dirs && t < N && p < N
    requires !KernelIndex(ss[0], t) && forall i :: 0 <= i < k ==> !Concerns(ops[i], e)
    ensures Inv(ss[k], boot) && e in ss[k].dirs && !KernelIndex(ss[k], t)
    ensures View(ss[k], e, t, p) == View(ss[0], e, t, p)
  {
    hide Inv;
    hide Next;
    hide Concerns;
    hide View;
    hide KernelIndex;
    if k > 0 {
      assert Next(ss[k - 1], ops[k - 1], ss[k]);
      RunIsolated(ss, ops, boot, k - 1, e, t, p);
      NextView(ss[k - 1], ops[k - 1], ss[k], boot, e, t, p);
    }
  }
}
