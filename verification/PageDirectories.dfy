/** Page tables and directories, filled and cleared by the loops of kernel/src/paging.c. */
module PageDirectories {
  import opened Options
  import opened FrameMap
  import opened AddressSpaces
  import opened AddressSpaceRuns

  // ----- Copying page by page

  /** The pages of `a` below `n` are copied to the table `b`; the rest of `b` is empty. */
  ghost predicate PagesCopied(s: State, s': State, a: nat, b: nat, n: nat)
  {
    && a in s.tables && |s.tables[a]| == N && n <= N
    && b in s'.tables && |s'.tables[b]| == N && b !in s.tables && b != 0
    && (forall q :: 0 <= q < n ==> LikePage(s, s', s.tables[a][q], s'.tables[b][q]))
    && (forall q :: n <= q < N ==> s'.tables[b][q] == NoPage)
  }

  ghost predicate OnlyTable(s: State, s': State, b: nat)
  {
    && s'.kern == s.kern && s'.cur == s.cur && s'.dirs == s.dirs
    && b !in s.tables && b != 0 && b in s'.tables && s'.tables == s.tables[b := s'.tables[b]]
  }

  /** A page copied stays copied while more frames are taken. */
  lemma LikeLater(s: State, s1: State, s2: State, g: Page, h: Page)
    requires LikePage(s, s1, g, h) && s1.used <= s2.used && |s2.phys| == |s1.phys|
    requires forall f :: 0 <= f < |s1.phys| && f in s1.used ==> s2.phys[f] == s1.phys[f]
    ensures LikePage(s, s2, g, h)
  {
  }

  /** alloc_frame into page `n` of `b`, then copy_physical_frame. */
  ghost function CopyPage(s: State, b: nat, n: nat, f: nat, g: Page): State
    requires b in s.tables && n < |s.tables[b]| && f < |s.phys| && g.frame < |s.phys|
  {
    var s' := WithPage(s, b, n, f, g.user, g.rw);
    s'.(phys := s'.phys[f := s'.phys[g.frame]])
  }

  lemma PageStep(s: State, s1: State, a: nat, b: nat, n: nat, f: nat)
    requires PagesCopied(s, s1, a, b, n) && OnlyTable(s, s1, b) && FramesCopied(s, s1) && n < N
    requires 0 < f < |s1.phys| && f !in s1.used
    requires s.tables[a][n].present && s.tables[a][n].frame < |s.phys| && s.tables[a][n].frame in s.used
    ensures var s2 := CopyPage(s1, b, n, f, s.tables[a][n]);
            PagesCopied(s, s2, a, b, n + 1) && OnlyTable(s, s2, b) && FramesCopied(s, s2)
  {
    var g := s.tables[a][n];
    var s2 := CopyPage(s1, b, n, f, g);
    assert s2.tables[b] == s1.tables[b][n := Page(true, g.rw, g.user, f)];
    forall q | 0 <= q < n ensures LikePage(s, s2, s.tables[a][q], s2.tables[b][q]) {
      LikeLater(s, s1, s2, s.tables[a][q], s1.tables[b][q]);
    }
    StepFrames(s, s1, s2, b, n, f);
  }

  lemma StepFrames(s: State, s1: State, s2: State, b: nat, n: nat, f: nat)
    requires OnlyTable(s, s1, b) && FramesCopied(s, s1) && |s1.tables[b]| == N && n < N && !s1.tables[b][n].present
    requires forall q :: 0 <= q < N && s1.tables[b][q].present ==> s1.tables[b][q].frame in s1.used
    requires 0 < f < |s1.phys| && f !in s1.used && s2.used == s1.used + {f} && |s2.phys| == |s1.phys|
    requires OnlyTable(s, s2, b) && |s2.tables[b]| == N && s2.tables[b][n].present && s2.tables[b][n].frame == f
    requires forall q :: 0 <= q < N && q != n ==> s2.tables[b][q] == s1.tables[b][q]
    requires forall x :: 0 <= x < |s1.phys| && x != f ==> s2.phys[x] == s1.phys[x]
    ensures FramesCopied(s, s2)
  {
    assert forall x :: NewTable(s, s1, x) <==> x == b;
    assert forall x :: NewTable(s, s2, x) <==> x == b;
    forall x | x in s2.used - s.used
      ensures exists c, p :: NewTable(s, s2, c) && Present(s2, c, p) && FrameAt(s2, c, p) == x
    {
      if x == f {
        assert NewTable(s, s2, b) && Present(s2, b, n) && FrameAt(s2, b, n) == f;
      } else {
        assert x in s1.used - s.used;
        var c: nat, p: nat :| NewTable(s, s1, c) && Present(s1, c, p) && FrameAt(s1, c, p) == x;
        assert NewTable(s, s2, b) && Present(s2, b, p) && FrameAt(s2, b, p) == x;
      }
    }
    assert forall p: nat :: p != n && Present(s2, b, p) ==> Present(s1, b, p) && FrameAt(s2, b, p) == FrameAt(s1, b, p);
  }

  // ----- Copying table by table

  /** One table copied: `b` in `s2` is new and like `a`. */
  ghost predicate TableCopied(s1: State, s2: State, a: nat, b: nat)
  {
    OnlyTable(s1, s2, b) && Likewise(s1, s2, a, b) && FramesCopied(s1, s2)
  }

  lemma TableStep(s: State, s1: State, s2: State, from: seq<nat>, to: seq<nat>, n: nat, b: nat)
    requires Shape(s) && |from| == N && |to| == N && n < N && from[n] != 0 && !KernelIndex(s, n)
    requires forall u :: 0 <= u < N && from[u] != 0 ==> from[u] in s.tables
    requires Reserved(s) && TablesCopied(s, s1, from, to, n) && FramesCopied(s, s1) && TableCopied(s1, s2, from[n], b)
    ensures TablesCopied(s, s2, from, to[n := b], n + 1) && FramesCopied(s, s2)
  {
    TableLike(s, s1, s2, from[n], b);
    MoreTables(s, s1, s2, from, to, n, b);
    MoreFrames(s, s1, s2, b);
  }

  /** The new table is like the table of the first state too. */
  lemma TableLike(s: State, s1: State, s2: State, a: nat, b: nat)
    requires Shape(s) && Reserved(s) && a in s.tables && a in s1.tables && s1.tables[a] == s.tables[a]
    requires FramesCopied(s, s1) && TableCopied(s1, s2, a, b)
    ensures Likewise(s, s2, a, b)
  {
    forall p | 0 <= p < N ensures LikePage(s, s2, s.tables[a][p], s2.tables[b][p]) {
      assert LikePage(s1, s2, s1.tables[a][p], s2.tables[b][p]);
      if s.tables[a][p].present { assert Present(s, a, p) && FrameAt(s, a, p) in s.used; }
      hide Shape;
      hide Reserved;
    }
  }

  lemma MoreTables(s: State, s1: State, s2: State, from: seq<nat>, to: seq<nat>, n: nat, b: nat)
    requires Shape(s) && |from| == N && |to| == N && n < N && from[n] != 0 && !KernelIndex(s, n)
    requires forall u :: 0 <= u < N && from[u] != 0 ==> from[u] in s.tables
    requires TablesCopied(s, s1, from, to, n) && TableCopied(s1, s2, from[n], b) && Likewise(s, s2, from[n], b)
    ensures TablesCopied(s, s2, from, to[n := b], n + 1)
  {
    var to': seq<nat> := to[n := b];
    assert b !in s.tables;
    forall t | 0 <= t < n && from[t] != 0 && !KernelIndex(s, t)
      ensures NewTable(s, s2, to'[t]) && Likewise(s, s2, from[t], to'[t]) && to'[t] != b
    {
      assert NewTable(s, s1, to[t]) && Likewise(s, s1, from[t], to[t]);
      KeptLike(s, s1, s2, from[t], to[t], b);
    }
    hide Likewise;
    hide FramesCopied;
    forall x | NewTable(s, s2, x)
      ensures exists t :: 0 <= t < n + 1 && from[t] != 0 && !KernelIndex(s, t) && to'[t] == x
    {
      if x == b {
        assert to'[n] == x;
      } else {
        assert NewTable(s, s1, x);
        var t :| 0 <= t < n && from[t] != 0 && !KernelIndex(s, t) && to[t] == x;
        assert to'[t] == x;
      }
    }
    forall u | 0 <= u < n ensures to[u] != b { SharedOld(s, s1, from, to, n, u); }
  }

  lemma SharedOld(s: State, s1: State, from: seq<nat>, to: seq<nat>, n: nat, u: nat)
    requires Shape(s) && |from| == N && |to| == N && n <= N && TablesCopied(s, s1, from, to, n) && u < n
    ensures from[u] == 0 || KernelIndex(s, u) ==> to[u] == from[u]
  {
  }

  lemma KeptLike(s: State, s1: State, s2: State, a: nat, c: nat, b: nat)
    requires Likewise(s, s1, a, c) && OnlyTable(s1, s2, b) && FramesCopied(s1, s2) && NewTable(s, s1, c)
    ensures NewTable(s, s2, c) && Likewise(s, s2, a, c)
  {
    forall p | 0 <= p < N ensures LikePage(s, s2, s.tables[a][p], s2.tables[c][p]) {
      LikeLater(s, s1, s2, s.tables[a][p], s1.tables[c][p]);
    }
  }

  lemma MoreFrames(s: State, s1: State, s2: State, b: nat)
    requires FramesCopied(s, s1) && FramesCopied(s1, s2) && OnlyTable(s1, s2, b) && |s2.tables[b]| == N
    requires forall a :: a in s.tables ==> a in s1.tables && s1.tables[a] == s.tables[a]
    requires forall p :: 0 <= p < N && s2.tables[b][p].present ==> s2.tables[b][p].frame !in s1.used
    requires forall a, p :: NewTable(s, s1, a) && Present(s1, a, p) ==> FrameAt(s1, a, p) in s1.used
    ensures FramesCopied(s, s2)
  {
    assert forall a :: NewTable(s, s2, a) <==> a == b || NewTable(s, s1, a);
    assert forall a :: NewTable(s1, s2, a) <==> a == b;
    assert forall a, p :: NewTable(s, s1, a) ==> Present(s2, a, p) == Present(s1, a, p);
    assert forall a, p :: NewTable(s, s1, a) && Present(s1, a, p) ==> FrameAt(s2, a, p) == FrameAt(s1, a, p);
    forall f | f in s2.used - s.used
      ensures exists c, p :: NewTable(s, s2, c) && Present(s2, c, p) && FrameAt(s2, c, p) == f
    {
      if f in s1.used {
        assert f in s1.used - s.used;
        var c: nat, p: nat :| NewTable(s, s1, c) && Present(s1, c, p) && FrameAt(s1, c, p) == f;
        assert NewTable(s, s2, c) && Present(s2, c, p);
      } else {
        assert f in s2.used - s1.used;
      }
    }
  }

  /** Neither relation looks at the directories. */
  lemma DirsIrrelevant(s: State, s1: State, s2: State, from: seq<nat>, to: seq<nat>, n: nat)
    requires Shape(s) && |from| == N && |to| == N && n <= N
    requires s2.tables == s1.tables && s2.used == s1.used && s2.phys == s1.phys
    requires TablesCopied(s, s1, from, to, n) && FramesCopied(s, s1)
    ensures TablesCopied(s, s2, from, to, n) && FramesCopied(s, s2)
  {
    assert forall b :: NewTable(s, s1, b) == NewTable(s, s2, b);
    assert forall b, p :: Present(s1, b, p) == Present(s2, b, p);
    assert forall b, p :: Present(s1, b, p) ==> FrameAt(s1, b, p) == FrameAt(s2, b, p);
    assert FramesCopied(s, s2) by { hide TablesCopied; hide NewTable; hide Present; hide FrameAt; }
    assert forall a, b :: Likewise(s, s1, a, b) == Likewise(s, s2, a, b) by {
      assert forall g, h :: LikePage(s, s1, g, h) == LikePage(s, s2, g, h);
    }
    hide FramesCopied;
    hide Likewise;
    hide NewTable;
  }

  // ----- Counting frames

  ghost function FreeFrames(s: State): set<nat>
  {
    set f: nat | f < |s.phys| && f > 0 && f !in s.used
  }

  function Count(tb: seq<Page>, n: nat): nat
    requires n <= |tb|
  {
    if n == 0 then 0 else Count(tb, n - 1) + (if tb[n - 1].present then 1 else 0)
  }

  /** The frames a copy of the tables below index `n` takes. */
  ghost function Need(s: State, from: seq<nat>, n: nat): nat
    requires Shape(s) && n <= N && |from| == N
  {
    if n == 0 then 0
    else Need(s, from, n - 1) +
         (if from[n - 1] == 0 || KernelIndex(s, n - 1) || from[n - 1] !in s.tables then 0 else Count(s.tables[from[n - 1]], N))
  }

  lemma {:induction false} CountGrows(tb: seq<Page>, m: nat, n: nat)
    requires m <= n <= |tb|
    ensures Count(tb, m) <= Count(tb, n)
    decreases n
  {
    if m < n { CountGrows(tb, m, n - 1); }
  }

  lemma {:induction false} NeedGrows(s: State, from: seq<nat>, m: nat, n: nat)
    requires Shape(s) && m <= n <= N && |from| == N
    ensures Need(s, from, m) <= Need(s, from, n)
    decreases n
  {
    if m < n { NeedGrows(s, from, m, n - 1); }
  }

  lemma TakeFrame(s: State, s': State, f: nat)
    requires f in FreeFrames(s) && |s'.phys| == |s.phys| && s'.used == s.used + {f}
    ensures |FreeFrames(s)| == |FreeFrames(s')| + 1
  {
    assert FreeFrames(s') == FreeFrames(s) - {f};
  }

  // ----- Freeing

  ghost function FramesBelow(tb: seq<Page>, n: nat): set<nat>
    requires n <= |tb|
  {
    set q | 0 <= q < n && tb[q].present && tb[q].frame > 0 :: tb[q].frame
  }

  lemma FramesBelowStep(tb: seq<Page>, n: nat)
    requires n < |tb|
    ensures FramesBelow(tb, n + 1) ==
            FramesBelow(tb, n) + (if tb[n].present && tb[n].frame > 0 then {tb[n].frame} else {})
  {
  }

  lemma OneTableFrames(s: State, a: nat)
    requires a in s.tables && |s.tables[a]| == N
    ensures FramesOf(s, {a}) == FramesBelow(s.tables[a], N)
  {
    var tb := s.tables[a];
    forall f | f in FramesBelow(tb, N) ensures f in FramesOf(s, {a}) {
      var q :| 0 <= q < N && tb[q].present && tb[q].frame > 0 && tb[q].frame == f;
      assert Present(s, a, q) && FrameAt(s, a, q) == f;
    }
    forall f | f in FramesOf(s, {a}) ensures f in FramesBelow(tb, N) {
      var p :| 0 <= p < N && Present(s, a, p) && FrameAt(s, a, p) == f;
      assert tb[p].present && tb[p].frame == f;
    }
  }

  lemma FramesUnion(s: State, x: set<nat>, y: set<nat>)
    ensures FramesOf(s, x + y) == FramesOf(s, x) + FramesOf(s, y)
  {
    forall f | f in FramesOf(s, x + y) ensures f in FramesOf(s, x) + FramesOf(s, y) {
      var a, p :| a in x + y && 0 <= p < N && Present(s, a, p) && FrameAt(s, a, p) > 0 && FrameAt(s, a, p) == f;
      if a in x { assert f in FramesOf(s, x); } else { assert f in FramesOf(s, y); }
    }
  }

  /** The tables of a directory below index `n` that it does not share with the kernel. */
  ghost function OwnBelow(s: State, d: nat, n: nat): set<nat>
    requires Shape(s) && d in s.dirs && n <= N
  {
    set t | 0 <= t < n && !KernelIndex(s, t) && s.dirs[d][t] != 0 :: s.dirs[d][t]
  }

  lemma OwnStep(s: State, d: nat, n: nat)
    requires Shape(s) && Private(s) && d in s.dirs && n < N
    ensures KernelIndex(s, n) || s.dirs[d][n] == 0 ==> OwnBelow(s, d, n + 1) == OwnBelow(s, d, n)
    ensures !KernelIndex(s, n) && s.dirs[d][n] != 0 ==>
              OwnBelow(s, d, n + 1) == OwnBelow(s, d, n) + {s.dirs[d][n]} && s.dirs[d][n] !in OwnBelow(s, d, n)
  {
  }

  // ----- The operations

  function EmptyTable(): (r: seq<Page>)
    ensures |r| == N
  {
    seq(N, i => NoPage)
  }

  function EmptyDir(): (r: seq<nat>)
    ensures |r| == N
  {
    seq(N, i => 0)
  }

  class Paging {
    const pmm: Frames
    const kern: nat
    var cur: nat
    var phys: seq<Contents>
    var tables: map<nat, seq<Page>>
    var dirs: map<nat, seq<nat>>
    /** Addresses from here on are unused: kmalloc returns the next one. */
    var next: nat

    /** init_paging, up to the empty directory of the kernel. */
    constructor (pmm: Frames, phys: seq<Contents>)
      requires pmm.Valid() && |phys| == 8 * |pmm.bits|
      ensures Ok() && this.pmm == pmm && Inv(S(), Used(pmm.bits))
    {
      this.pmm := pmm;
      this.phys := phys;
      kern, cur, next := 1, 1, 2;
      tables := map[];
      dirs := map[1 := EmptyDir()];
    }

    ghost function S(): State
      reads this, pmm
    {
      State(Used(pmm.bits), phys, tables, dirs, kern, cur)
    }

    ghost predicate Ok()
      reads this, pmm
    {
      && pmm.Valid() && |phys| == 8 * |pmm.bits| && 0 < next
      && (forall a :: a in tables ==> 0 < a < next) && (forall d :: d in dirs ==> 0 < d < next)
    }

    /** alloc_frame into an entry that is not present; no result where the kernel halts out of memory. */
    method AllocFrame(a: nat, p: nat, user: bool, rw: bool) returns (f: Option<nat>)
      requires Ok() && a in tables && p < |tables[a]| && !tables[a][p].present
      modifies this`tables, pmm
      ensures Ok()
      ensures f.None? ==> S() == old(S()) && FreeFrames(S()) == {}
      ensures f.Some? ==> f.value in old(FreeFrames(S())) && S() == WithPage(old(S()), a, p, f.value, user, rw)
    {
      f := pmm.Find();
      if f.Some? {
        pmm.Reserve(f.value);
        tables := tables[a := tables[a][p := Page(true, rw, user, f.value)]];
      }
    }

    /** get_page with `make` set: the table for an index, created if need be. */
    method GetTable(d: nat, t: nat) returns (a: nat)
      requires Ok() && Shape(S()) && d in dirs && t < N
      modifies this`tables, this`dirs, this`next
      ensures Ok() && a in tables && |tables[a]| == N && S() == WithTable(old(S()), d, t, a)
      ensures if old(dirs[d][t]) != 0 then a == old(dirs[d][t]) else a != 0 && a !in old(tables)
    {
      if dirs[d][t] != 0 {
        return dirs[d][t];
      }
      a := next;
      next := next + 1;
      tables := tables[a := EmptyTable()];
      var row: seq<nat> := dirs[d][t := a];
      dirs := dirs[d := row];
    }

    /** alloc_page; false where the kernel halts, which is when the page is new and no frame is free. */
    method AllocPage(d: nat, addr: nat, user: bool, rw: bool, ghost boot: set<nat>)
      returns (ok: bool, ghost a: nat, ghost f: nat)
      requires Ok() && Inv(S(), boot) && d in dirs && addr < 0x1_0000_0000
      modifies this`tables, this`dirs, this`next, pmm
      ensures Ok()
      ensures ok ==> Allocated(old(S()), S(), d, addr / 0x40_0000, addr / 0x1000 % N, a, f, user, rw)
      ensures !ok ==> FreeFrames(old(S())) == {} && !old(Mapped(S(), d, addr / 0x40_0000, addr / 0x1000 % N))
    {
      var t, p := addr / 0x40_0000, addr / 0x1000 % N;
      f := 0;
      var b := GetTable(d, t);
      a := b;
      var g := tables[b][p];
      if g.present {
        tables := tables[b := tables[b][p := g.(rw := rw, user := user)]];
        return true, a, f;
      }
      var x := AllocFrame(b, p, user, rw);
      if x.None? {
        return false, a, f;
      }
      return true, a, x.value;
    }

    /** The body of the loop of copy_page_table. */
    method CopyEntry(a: nat, b: nat, p: nat, ghost s: State) returns (ok: bool)
      requires Ok() && p < N && a in tables && a in s.tables && tables[a] == s.tables[a]
      requires PagesCopied(s, S(), a, b, p) && OnlyTable(s, S(), b) && FramesCopied(s, S())
      requires tables[a][p].present ==> tables[a][p].frame in s.used
      modifies this`tables, this`phys, pmm
      ensures Ok()
      ensures !ok ==> FreeFrames(S()) == {} && S() == old(S()) && s.tables[a][p].present
      ensures ok ==>
                && PagesCopied(s, S(), a, b, p + 1) && OnlyTable(s, S(), b) && FramesCopied(s, S())
                && |FreeFrames(old(S()))| == |FreeFrames(S())| + (if s.tables[a][p].present then 1 else 0)
    {
      hide FreeFrames;
      var src := tables[a][p];
      if !src.present {
        PageSkip(s, S(), a, b, p);
        return true;
      }
      ghost var s1 := S();
      EntryFacts(s, s1, a, b, p);
      hide PagesCopied;
      hide FramesCopied;
      hide OnlyTable;
      var f := AllocFrame(b, p, src.user, src.rw);
      if f.None? {
        return false;
      }
      IsFree(s1, f.value);
      phys := phys[f.value := phys[src.frame]];
      assert S() == CopyPage(s1, b, p, f.value, src);
      PageStep(s, s1, a, b, p, f.value);
      TakeFrame(s1, S(), f.value);
      ok := true;
    }

    /** copy_page_table into a new table; false where the kernel halts out of memory. */
    method CopyTable(a: nat) returns (b: nat, ok: bool)
      requires Ok() && a in tables && |tables[a]| == N
      requires forall q :: 0 <= q < N && tables[a][q].present ==> tables[a][q].frame in Used(pmm.bits)
      modifies this`tables, this`next, this`phys, pmm
      ensures Ok()
      ensures ok ==> TableCopied(old(S()), S(), a, b)
      ensures ok ==> |FreeFrames(S())| + Count(old(tables[a]), N) == |FreeFrames(old(S()))|
      ensures !ok ==> |FreeFrames(old(S()))| < Count(old(tables[a]), N)
    {
      hide FreeFrames;
      hide FramesCopied;
      hide LikePage;
      ghost var s := S();
      b := next;
      next := next + 1;
      tables := tables[b := EmptyTable()];
      NoPagesYet(s, S(), a, b);
      var p := 0;
      while p < N
        invariant 0 <= p <= N && Ok()
        invariant PagesCopied(s, S(), a, b, p) && OnlyTable(s, S(), b) && FramesCopied(s, S())
        invariant |FreeFrames(S())| + Count(s.tables[a], p) == |FreeFrames(s)|
      {
        ok := CopyEntry(a, b, p, s);
        if !ok {
          CountGrows(s.tables[a], p + 1, N);
          return;
        }
        p := p + 1;
      }
      ok := true;
    }

    /** What holds after copy_page_dir has copied or shared the tables below index `t`. */
    ghost predicate DirProgress(s: State, from: seq<nat>, dst: nat, t: nat)
      requires Shape(s) && |from| == N && t <= N
      reads this, pmm
    {
      && cur == s.cur && kern == s.kern && dst in dirs && |dirs[dst]| == N && dirs == s.dirs[dst := dirs[dst]]
      && TablesCopied(s, S(), from, dirs[dst], t) && FramesCopied(s, S())
      && |FreeFrames(S())| + Need(s, from, t) == |FreeFrames(s)|
    }

    /** The body of the loop of copy_page_dir. */
    method CopyIndex(from: seq<nat>, dst: nat, t: nat, ghost s: State) returns (ok: bool)
      requires Ok() && Shape(s) && Reserved(s) && |from| == N && t < N && dst !in s.dirs
      requires forall u :: 0 <= u < N && from[u] != 0 ==> from[u] in s.tables
      requires DirProgress(s, from, dst, t)
      modifies this`tables, this`dirs, this`next, this`phys, pmm
      ensures Ok()
      ensures ok ==> DirProgress(s, from, dst, t + 1)
      ensures !ok ==> |FreeFrames(s)| < Need(s, from, t + 1)
    {
      hide FreeFrames;
      hide FramesCopied;
      hide TablesCopied;
      hide KernelTable;
      hide Reserved;
      ghost var s1 := S();
      if from[t] == 0 || dirs[kern][t] != 0 {
        assert from[t] == 0 || KernelIndex(s, t);
        hide Shape;
        var row: seq<nat> := dirs[dst][t := from[t]];
        dirs := dirs[dst := row];
        TableShared(s, s1, from, s1.dirs[dst], t);
        DirsIrrelevant(s, s1, S(), from, row, t + 1);
        SameFree(s1, S());
        return true;
      }
      assert !KernelIndex(s, t);
      hide Shape;
      SourceTable(s, s1, from, s1.dirs[dst], t);
      var b;
      b, ok := CopyTable(from[t]);
      if !ok {
        return false;
      }
      ghost var s2 := S();
      TableStep(s, s1, s2, from, s1.dirs[dst], t, b);
      assert s2.dirs == s1.dirs && s2.cur == s1.cur;
      var row: seq<nat> := dirs[dst][t := b];
      dirs := dirs[dst := row];
      DirsIrrelevant(s, s2, S(), from, row, t + 1);
      SameFree(s2, S());
    }

    /** copy_page_dir; no result where the kernel halts, which is exactly when there are fewer free frames than
        pages to copy. */
    method CopyDir(src: nat, ghost boot: set<nat>) returns (r: Option<nat>)
      requires Ok() && Inv(S(), boot) && src in dirs
      modifies this`tables, this`dirs, this`next, this`phys, pmm
      ensures Ok()
      ensures r.Some? <==> Need(old(S()), old(dirs[src]), N) <= |FreeFrames(old(S()))|
      ensures r.Some? ==> Copied(old(S()), S(), src, r.value) && Inv(S(), boot)
    {
      hide FreeFrames;
      hide FramesCopied;
      hide TablesCopied;
      hide NoLeak;
      hide OneOwner;
      hide Private;
      hide Reached;
      hide KernelTable;
      ghost var s := S();
      var dst := next;
      var from := dirs[src];
      next := next + 1;
      dirs := dirs[dst := EmptyDir()];
      NoTablesYet(s, S(), from, dirs[dst]);
      var t := 0;
      while t < N
        invariant 0 <= t <= N && Ok() && DirProgress(s, from, dst, t)
      {
        var ok := CopyIndex(from, dst, t, s);
        if !ok {
          NeedGrows(s, from, t + 1, N);
          return None;
        }
        t := t + 1;
      }
      SameSize(s, S());
      assert Copied(s, S(), src, dst);
      hide *;
      CopyKeepsInv(s, S(), boot, src, dst);
      r := Some(dst);
    }

    /** free_frame */
    method FreeFrame(a: nat, p: nat)
      requires Ok() && a in tables && p < |tables[a]|
      requires tables[a][p].present ==> tables[a][p].frame < |phys|
      modifies this`tables, pmm
      ensures Ok() && a in tables && |tables[a]| == old(|tables[a]|)
      ensures tables == old(tables)[a := tables[a]] && forall q :: 0 <= q < |tables[a]| && q != p ==> tables[a][q] == old(tables[a][q])
      ensures var g := old(tables[a][p]);
              if g.present && g.frame > 0 then S().used == old(S()).used - {g.frame} && !tables[a][p].present
              else S() == old(S())
    {
      var g := tables[a][p];
      if !g.present || g.frame == 0 {
        return;
      }
      pmm.Release(g.frame);
      tables := tables[a := tables[a][p := g.(frame := 0, present := false)]];
    }

    /** Giving back the frames of a table and the table. */
    method FreeTable(a: nat)
      requires Ok() && a in tables && |tables[a]| == N
      requires forall q :: 0 <= q < N && tables[a][q].present ==> tables[a][q].frame < |phys|
      modifies this`tables, pmm
      ensures Ok() && tables == old(tables) - {a} && S().used == old(S()).used - FramesOf(old(S()), {a})
    {
      ghost var tb := tables[a];
      var p := 0;
      while p < N
        invariant 0 <= p <= N && Ok() && a in tables && |tables[a]| == N && tables == old(tables)[a := tables[a]]
        invariant forall q :: p <= q < N ==> tables[a][q] == tb[q]
        invariant S().used == old(S()).used - FramesBelow(tb, p)
      {
        FramesBelowStep(tb, p);
        if tables[a][p].present {
          FreeFrame(a, p);
        }
        p := p + 1;
      }
      OneTableFrames(old(S()), a);
      tables := tables - {a};
    }

    /** What holds after free_page_dir has freed the tables below index `t`. */
    ghost predicate FreeProgress(s: State, d: nat, t: nat)
      requires Shape(s) && d in s.dirs && t <= N
      reads this, pmm
    {
      && cur == s.cur && kern == s.kern && phys == s.phys
      && d in dirs && |dirs[d]| == N && dirs == s.dirs[d := dirs[d]]
      && (forall u :: t <= u < N ==> dirs[d][u] == s.dirs[d][u])
      && tables == s.tables - OwnBelow(s, d, t)
      && S().used == s.used - FramesOf(s, OwnBelow(s, d, t))
    }

    /** The body of the loop of free_page_dir. */
    method FreeIndex(d: nat, t: nat, ghost s: State)
      requires Ok() && Shape(s) && Reserved(s) && Private(s) && d in s.dirs && t < N && FreeProgress(s, d, t)
      modifies this`tables, this`dirs, pmm
      ensures Ok() && FreeProgress(s, d, t + 1)
    {
      hide FramesOf;
      hide KernelTable;
      OwnStep(s, d, t);
      var a := dirs[d][t];
      if a != 0 && dirs[kern][t] == 0 {
        assert !KernelIndex(s, t) && a in s.tables && a in tables && |tables[a]| == N;
        FramesUnion(s, OwnBelow(s, d, t), {a});
        TableFrames(s, S(), a);
        hide Private;
        hide Shape;
        hide Reserved;
        hide OwnBelow;
        FreeTable(a);
        var row: seq<nat> := dirs[d][t := 0];
        dirs := dirs[d := row];
      } else {
        assert KernelIndex(s, t) || s.dirs[d][t] == 0;
      }
    }

    /** switch_page_dir */
    method SwitchTo(d: nat, ghost boot: set<nat>)
      requires Ok() && Inv(S(), boot) && d in dirs
      modifies this`cur
      ensures Ok() && S() == old(S()).(cur := d) && Inv(S(), boot)
    {
      SwitchKeepsInv(S(), boot, d);
      cur := d;
    }

    /** free_page_dir; the invariant is lost exactly when the kernel's own directory is freed. */
    method FreeDirectory(d: nat, ghost boot: set<nat>)
      requires Ok() && Inv(S(), boot) && d in dirs
      modifies this`tables, this`dirs, pmm
      ensures Ok() && S() == FreeDir(old(S()), d)
      ensures Inv(S(), boot) <==> d != kern || d == cur
    {
      if d == cur {
        return;
      }
      ghost var s := S();
      FramesOfNothing(s);
      assert OwnBelow(s, d, 0) == {};
      assert OwnBelow(s, d, N) == Own(s, d);
      hide NoLeak;
      hide OneOwner;
      hide Reached;
      hide FramesOf;
      hide Reserved;
      hide Private;
      hide KernelTable;
      hide OwnBelow;
      hide Shape;
      var t := 0;
      while t < N
        invariant 0 <= t <= N && Ok() && FreeProgress(s, d, t)
      {
        FreeIndex(d, t, s);
        t := t + 1;
      }
      dirs := dirs - {d};
      assert S() == FreeDir(s, d);
      hide *;
      FreeInvIff(s, boot, d);
    }
  }

  lemma FramesOfNothing(s: State)
    ensures FramesOf(s, {}) == {}
  {
  }

  /** A table not yet freed has frames inside memory, and the same ones. */
  lemma TableFrames(s: State, s1: State, a: nat)
    requires Shape(s) && Reserved(s) && a in s.tables && a in s1.tables && s1.tables[a] == s.tables[a]
    ensures forall q :: 0 <= q < N && s.tables[a][q].present ==> s.tables[a][q].frame < |s.phys|
    ensures FramesOf(s1, {a}) == FramesOf(s, {a})
  {
    forall q | 0 <= q < N && s.tables[a][q].present ensures s.tables[a][q].frame < |s.phys| {
      assert Present(s, a, q) && FrameAt(s, a, q) in s.used;
    }
    OneTableFrames(s, a);
    OneTableFrames(s1, a);
  }

  lemma SameSize(s: State, s': State)
    requires FramesCopied(s, s')
    ensures |s'.phys| == |s.phys|
  {
  }

  lemma EntryFacts(s: State, s1: State, a: nat, b: nat, p: nat)
    requires PagesCopied(s, s1, a, b, p) && OnlyTable(s, s1, b) && FramesCopied(s, s1) && p < N
    requires s.tables[a][p].present ==> s.tables[a][p].frame in s.used
    ensures b in s1.tables && p < |s1.tables[b]| && !s1.tables[b][p].present && b != a
    ensures s.tables[a][p].present ==> s.tables[a][p].frame < |s1.phys| == |s.phys|
  {
  }

  lemma NoTablesYet(s: State, s': State, from: seq<nat>, to: seq<nat>)
    requires Shape(s) && |from| == N && |to| == N && s' == s.(dirs := s'.dirs)
    ensures TablesCopied(s, s', from, to, 0) && FramesCopied(s, s') && FreeFrames(s') == FreeFrames(s)
  {
    assert forall x :: !NewTable(s, s', x);
  }

  lemma SameFree(s: State, s': State)
    requires s' == s.(dirs := s'.dirs)
    ensures FreeFrames(s') == FreeFrames(s)
  {
  }

  lemma TableShared(s: State, s1: State, from: seq<nat>, to: seq<nat>, n: nat)
    requires Shape(s) && |from| == N && |to| == N && n < N && (from[n] == 0 || KernelIndex(s, n))
    requires forall u :: 0 <= u < N && from[u] != 0 ==> from[u] in s.tables
    requires TablesCopied(s, s1, from, to, n)
    ensures TablesCopied(s, s1, from, to[n := from[n]], n + 1)
  {
    var to': seq<nat> := to[n := from[n]];
    forall b | NewTable(s, s1, b)
      ensures exists t :: 0 <= t < n + 1 && from[t] != 0 && !KernelIndex(s, t) && to'[t] == b
    {
      var t :| 0 <= t < n && from[t] != 0 && !KernelIndex(s, t) && to[t] == b;
      assert to'[t] == b;
    }
    hide Likewise;
  }

  lemma SourceTable(s: State, s1: State, from: seq<nat>, to: seq<nat>, n: nat)
    requires Shape(s) && Reserved(s) && |from| == N && |to| == N && n < N && from[n] != 0 && from[n] in s.tables
    requires TablesCopied(s, s1, from, to, n) && FramesCopied(s, s1)
    ensures from[n] in s1.tables && s1.tables[from[n]] == s.tables[from[n]] && |s.tables[from[n]]| == N
    ensures forall q :: 0 <= q < N && s.tables[from[n]][q].present ==> s.tables[from[n]][q].frame in s1.used
  {
    forall q | 0 <= q < N && s.tables[from[n]][q].present ensures s.tables[from[n]][q].frame in s1.used {
      assert Present(s, from[n], q) && FrameAt(s, from[n], q) in s.used;
    }
  }

  lemma IsFree(s: State, f: nat)
    requires f in FreeFrames(s)
    ensures 0 < f < |s.phys| && f !in s.used
  {
  }

  lemma NoPagesYet(s: State, s': State, a: nat, b: nat)
    requires a in s.tables && |s.tables[a]| == N && b !in s.tables && b != 0
    requires s' == s.(tables := s.tables[b := EmptyTable()]) && forall f :: f in s.used ==> f < |s.phys|
    ensures PagesCopied(s, s', a, b, 0) && OnlyTable(s, s', b) && FramesCopied(s, s') && FreeFrames(s') == FreeFrames(s)
  {
    assert forall x, p :: NewTable(s, s', x) ==> !Present(s', x, p);
  }

  lemma PageSkip(s: State, s': State, a: nat, b: nat, n: nat)
    requires PagesCopied(s, s', a, b, n) && n < N && !s.tables[a][n].present
    ensures PagesCopied(s, s', a, b, n + 1)
  {
    assert LikePage(s, s', s.tables[a][n], s'.tables[b][n]);
  }
}
