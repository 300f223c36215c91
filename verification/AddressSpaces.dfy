/** Address spaces as values: page directories, the page tables they refer to, the frames in use and the
    contents of memory, with what allocating a page, copying, freeing and writing through a directory do
    (kernel/src/paging.c).  Tables are named by their address, so two directories can share one. */
module AddressSpaces {
  import opened Options

  const N: nat := 1024

  type Contents = seq<int>

  datatype Page = Page(present: bool, rw: bool, user: bool, frame: nat)

  const NoPage := Page(false, false, false, 0)

  datatype State = State(
    used: set<nat>,
    phys: seq<Contents>,
    tables: map<nat, seq<Page>>,
    dirs: map<nat, seq<nat>>,
    kern: nat,
    cur: nat)

  // ----- Invariant

  ghost predicate Shape(s: State)
  {
    && s.kern in s.dirs && s.cur in s.dirs && 0 !in s.tables && 0 !in s.dirs
    && (forall d :: d in s.dirs ==> |s.dirs[d]| == N)
    && (forall a :: a in s.tables ==> |s.tables[a]| == N)
    && (forall d, t :: d in s.dirs && 0 <= t < N && s.dirs[d][t] != 0 ==> s.dirs[d][t] in s.tables)
    && (forall f :: f in s.used ==> f < |s.phys|)
  }

  /** The kernel has a table at index `t`. */
  ghost predicate KernelIndex(s: State, t: nat)
    requires Shape(s)
  {
    t < N && s.dirs[s.kern][t] != 0
  }

  ghost predicate KernelTable(s: State, a: nat)
    requires Shape(s)
  {
    exists t :: 0 <= t < N && KernelIndex(s, t) && s.dirs[s.kern][t] == a
  }

  ghost predicate Present(s: State, a: nat, p: nat)
  {
    a in s.tables && p < |s.tables[a]| && s.tables[a][p].present
  }

  ghost function FrameAt(s: State, a: nat, p: nat): nat
    requires Present(s, a, p)
  {
    s.tables[a][p].frame
  }

  /** Every directory has the kernel's tables where the kernel has one. */
  ghost predicate KernelShared(s: State)
    requires Shape(s)
  {
    forall d, t: nat :: d in s.dirs && KernelIndex(s, t) ==> s.dirs[d][t] == s.dirs[s.kern][t]
  }

  /** A table at another index belongs to one entry of one directory. */
  ghost predicate Private(s: State)
    requires Shape(s)
  {
    forall d, t, e, u ::
      (d in s.dirs && e in s.dirs && 0 <= t < N && 0 <= u < N && !KernelIndex(s, t)
       && s.dirs[d][t] != 0 && s.dirs[d][t] == s.dirs[e][u]) ==> d == e && t == u
  }

  ghost predicate Reached(s: State)
    requires Shape(s)
  {
    forall a :: a in s.tables ==> exists d, t :: d in s.dirs && 0 <= t < N && s.dirs[d][t] == a
  }

  /** Present pages have their frame reserved, those outside kernel tables a nonzero one. */
  ghost predicate Reserved(s: State)
    requires Shape(s)
  {
    forall a, p :: Present(s, a, p) ==>
      FrameAt(s, a, p) in s.used && (KernelTable(s, a) || FrameAt(s, a, p) > 0)
  }

  /** The frame of a page outside kernel tables belongs to that page alone. */
  ghost predicate OneOwner(s: State)
    requires Shape(s)
  {
    forall a, p, b, q ::
      (Present(s, a, p) && Present(s, b, q) && !KernelTable(s, a)
       && FrameAt(s, a, p) == FrameAt(s, b, q)) ==> a == b && p == q
  }

  /** A frame in use was in use at boot or belongs to a page. */
  ghost predicate NoLeak(s: State, boot: set<nat>)
  {
    forall f :: f in s.used ==> f in boot || exists a, p :: Present(s, a, p) && FrameAt(s, a, p) == f
  }

  ghost predicate Inv(s: State, boot: set<nat>)
  {
    && Shape(s) && KernelShared(s) && Private(s) && Reached(s)
    && Reserved(s) && OneOwner(s) && NoLeak(s, boot)
  }

  // ----- Reading and writing memory through a directory

  datatype Mapping = Mapping(rw: bool, user: bool, contents: Contents)

  /** What a directory maps at an index. */
  ghost function View(s: State, d: nat, t: nat, p: nat): Option<Mapping>
    requires Shape(s) && Reserved(s) && d in s.dirs && t < N && p < N
  {
    var a := s.dirs[d][t];
    if a == 0 || !Present(s, a, p) then None
    else
      assert FrameAt(s, a, p) in s.used;
      Some(Mapping(s.tables[a][p].rw, s.tables[a][p].user, s.phys[FrameAt(s, a, p)]))
  }

  ghost predicate Mapped(s: State, d: nat, t: nat, p: nat)
  {
    && d in s.dirs && t < N && p < N && t < |s.dirs[d]| && Present(s, s.dirs[d][t], p)
    && FrameAt(s, s.dirs[d][t], p) < |s.phys|
  }

  ghost function Written(s: State, d: nat, t: nat, p: nat, c: Contents): State
    requires Mapped(s, d, t, p)
  {
    s.(phys := s.phys[FrameAt(s, s.dirs[d][t], p) := c])
  }

  // ----- alloc_page

  /** The table at index `t`, created empty at address `a` if there is none. */
  ghost function WithTable(s: State, d: nat, t: nat, a: nat): State
    requires Shape(s) && d in s.dirs && t < N
  {
    if s.dirs[d][t] != 0 then s
    else
      var row: seq<nat> := s.dirs[d][t := a];
      s.(tables := s.tables[a := seq(N, i => NoPage)], dirs := s.dirs[d := row])
  }

  ghost function WithPage(s: State, a: nat, p: nat, f: nat, user: bool, rw: bool): State
    requires a in s.tables && p < |s.tables[a]|
  {
    var g := s.tables[a][p];
    if g.present then s.(tables := s.tables[a := s.tables[a][p := g.(rw := rw, user := user)]])
    else s.(tables := s.tables[a := s.tables[a][p := Page(true, rw, user, f)]], used := s.used + {f})
  }

  /** `s'` is `s` after alloc_page of page `p` of table `t`: a new table goes to an unused address `a`, a new
      page gets a free frame `f`. */
  ghost predicate Allocated(s: State, s': State, d: nat, t: nat, p: nat, a: nat, f: nat, user: bool, rw: bool)
    requires Shape(s)
  {
    && d in s.dirs && t < N && p < N
    && (s.dirs[d][t] != 0 ==> a == s.dirs[d][t])
    && (s.dirs[d][t] == 0 ==> a != 0 && a !in s.tables)
    && (!Present(s, a, p) ==> 0 < f < |s.phys| && f !in s.used)
    && s' == WithPage(WithTable(s, d, t, a), a, p, f, user, rw)
  }

  // ----- copy_page_dir

  /** `b` is a copy of table `a` of `s`: the same pages with the same permissions, in frames that were free. */
  ghost predicate Likewise(s: State, s': State, a: nat, b: nat)
  {
    && a in s.tables && b in s'.tables && |s.tables[a]| == N && |s'.tables[b]| == N
    && forall p :: 0 <= p < N ==> LikePage(s, s', s.tables[a][p], s'.tables[b][p])
  }

  ghost predicate LikePage(s: State, s': State, g: Page, h: Page)
  {
    && h.present == g.present
    && (g.present ==>
          && h.rw == g.rw && h.user == g.user && h.frame > 0
          && h.frame !in s.used && h.frame in s'.used
          && g.frame < |s.phys| && h.frame < |s'.phys| && s'.phys[h.frame] == s.phys[g.frame])
  }

  ghost predicate NewTable(s: State, s': State, b: nat)
  {
    b in s'.tables && b !in s.tables
  }

  /** `s'` is `s` with the directory `src` copied to the new directory `dst`. */
  ghost predicate Copied(s: State, s': State, src: nat, dst: nat)
    requires Shape(s)
  {
    && src in s.dirs && dst !in s.dirs && dst != 0
    && s'.kern == s.kern && s'.cur == s.cur && |s'.phys| == |s.phys|
    && dst in s'.dirs && |s'.dirs[dst]| == N && s'.dirs == s.dirs[dst := s'.dirs[dst]]
    && TablesCopied(s, s', s.dirs[src], s'.dirs[dst], N)
    && FramesCopied(s, s')
  }

  /** Of the tables at indices below `n`, those outside the kernel's are copied and the others shared. */
  ghost predicate TablesCopied(s: State, s': State, from: seq<nat>, to: seq<nat>, n: nat)
    requires Shape(s) && |from| == N && |to| == N && n <= N
  {
    && 0 !in s'.tables
    && (forall a :: a in s.tables ==> a in s'.tables && s'.tables[a] == s.tables[a])
    && (forall t :: 0 <= t < n ==>
          if from[t] == 0 || KernelIndex(s, t) then to[t] == from[t]
          else NewTable(s, s', to[t]) && Likewise(s, s', from[t], to[t]))
    && (forall b :: NewTable(s, s', b) ==> exists t :: 0 <= t < n && from[t] != 0 && !KernelIndex(s, t) && to[t] == b)
    && (forall t, u :: 0 <= t < n && 0 <= u < n && from[t] != 0 && !KernelIndex(s, t) && to[t] == to[u] ==> t == u)
  }

  /** The frames taken are those of the new pages, each taken once; the others keep their contents. */
  ghost predicate FramesCopied(s: State, s': State)
  {
    && |s'.phys| == |s.phys| && s.used <= s'.used
    && (forall f :: f in s'.used ==> f < |s'.phys|)
    && (forall f :: f in s'.used - s.used ==> exists b, p :: NewTable(s, s', b) && Present(s', b, p) && FrameAt(s', b, p) == f)
    && (forall a, p, b, q ::
          (NewTable(s, s', a) && NewTable(s, s', b) && Present(s', a, p) && Present(s', b, q)
           && FrameAt(s', a, p) == FrameAt(s', b, q)) ==> a == b && p == q)
    && (forall f :: 0 <= f < |s.phys| && (f in s.used || f !in s'.used) ==> s'.phys[f] == s.phys[f])
  }

  // ----- free_page_dir

  /** The tables a directory does not share with the kernel. */
  ghost function Own(s: State, d: nat): set<nat>
    requires Shape(s) && d in s.dirs
  {
    set t | 0 <= t < N && !KernelIndex(s, t) && s.dirs[d][t] != 0 :: s.dirs[d][t]
  }

  /** The nonzero frames of the present pages of some tables. */
  ghost function FramesOf(s: State, own: set<nat>): set<nat>
  {
    set a, p | a in own && 0 <= p < N && Present(s, a, p) && FrameAt(s, a, p) > 0 :: FrameAt(s, a, p)
  }

  /** free_page_dir; the current directory is left alone. */
  ghost function FreeDir(s: State, d: nat): State
    requires Shape(s) && d in s.dirs
  {
    if d == s.cur then s
    else s.(used := s.used - FramesOf(s, Own(s, d)), tables := s.tables - Own(s, d), dirs := s.dirs - {d})
  }
}
