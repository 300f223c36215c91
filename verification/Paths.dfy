/** Path lookup (kernel/src/fs.c): walking names through directories and mounts, one reference held at a
    time. */
module Paths {
  import opened Options
  import D = Dentries

  const ENAMETOOLONG: int := -91
  const EACCES: int := -13

  /** A directory entry and the mount it was reached through. */
  datatype Path = Path(dentry: nat, mount: Option<nat>)

  /** What d_mountpoint says: where the mounts are, and the topmost of them. */
  datatype Point = Point(at: Path, mount: nat)

  /** What a lookup does not change.  `fs` is what a file system answers for a name in a directory that is not
      in memory, `access` whether a directory may be searched. */
  datatype Env = Env(
    points: map<nat, Point>,
    roots: map<nat, nat>,
    vfsRoot: nat,
    cwd: Path,
    fs: (nat, string) -> D.Reply,
    access: nat -> bool)

  datatype World = World(s: D.State, mounts: map<nat, nat>)

  function One(m: Option<nat>): multiset<nat> { if m.Some? then multiset{m.value} else multiset{} }

  // ----- References to paths

  function MountGet(w: World, m: Option<nat>): World
  {
    if m.None? || m.value !in w.mounts then w else w.(mounts := w.mounts[m.value := w.mounts[m.value] + 1])
  }

  function MountPut(w: World, m: Option<nat>): World
  {
    if m.None? || m.value !in w.mounts then w else w.(mounts := w.mounts[m.value := D.Less(w.mounts[m.value])])
  }

  /** path_copy: the new references. */
  function Copy(w: World, p: Path): World
    requires p.dentry in w.s.nodes
  {
    MountGet(w.(s := D.Get(w.s, p.dentry)), p.mount)
  }

  /** path_put */
  function Put(w: World, p: Path): Option<World>
  {
    match D.Put(w.s, p.dentry)
    case None => None
    case Some(s') => Some(MountPut(w.(s := s'), p.mount))
  }

  // ----- Steps of the walk

  datatype Answer = Fault | Error(code: int, w: World) | At(p: Path, w: World)

  /** A mount point, or a mount below another, is left for the root of the topmost mount. */
  function Cross(w: World, env: Env, p: Path): Answer
  {
    if p.dentry !in env.points || env.points[p.dentry].mount !in env.roots then At(p, w)
    else
      var m := env.points[p.dentry].mount;
      if env.roots[m] == p.dentry then At(p, w)
      else
        match Put(w, p)
        case None => Fault
        case Some(w1) =>
          var q := Path(env.roots[m], Some(m));
          if q.dentry in w1.s.nodes then At(q, Copy(w1, q)) else Fault
  }

  /** path_get_parent */
  function Parent(w: World, env: Env, p: Path): Answer
  {
    if p.dentry !in w.s.nodes then Fault
    else if w.s.nodes[p.dentry].parent.Some? then
      var up := w.s.nodes[p.dentry].parent.value;
      if up !in w.s.nodes then Fault
      else
        match D.Put(D.Get(w.s, up), p.dentry)
        case None => Fault
        case Some(s') => At(Path(up, p.mount), w.(s := s'))
    else if p.dentry !in env.points then Fault
    else
      var at := env.points[p.dentry].at;
      if at.dentry !in w.s.nodes then Fault
      else
        match Put(Copy(w, at), p)
        case None => Fault
        case Some(w1) =>
          if at.dentry !in w1.s.nodes then Fault
          else
            match Put(Copy(w1, at), at)
            case None => Fault
            case Some(w2) => At(at, w2)
  }

  /** Descending to a child: d_lookup, then d_put of the directory. */
  function Child(w: World, env: Env, p: Path, name: string): Answer
  {
    if p.dentry !in w.s.nodes then Fault
    else
      match D.Lookup(w.s, p.dentry, name, env.fs(p.dentry, name))
      case Fault => Fault
      case Error(code, s1) =>
        (match Put(w.(s := s1), p)
         case None => Fault
         case Some(w2) => Error(code, w2))
      case Found(c, s1) =>
        match D.Put(s1, p.dentry)
        case None => Fault
        case Some(s2) => At(Path(c, p.mount), w.(s := s2))
  }

  // ----- Invariant

  /** The root, the working directory, mount points and the roots of mounts stay. */
  ghost predicate EnvOk(env: Env, pins: multiset<nat>, mounts: set<nat>)
  {
    && env.vfsRoot in pins && env.cwd.dentry in pins
    && (forall d :: d in env.points ==> env.points[d].at.dentry in pins && env.points[d].mount in env.roots)
    && (forall d :: d in env.points && env.points[d].at.mount.Some? ==> env.points[d].at.mount.value in mounts)
    && (forall m :: m in env.roots ==> env.roots[m] in pins && m in mounts)
    && (env.cwd.mount.Some? ==> env.cwd.mount.value in mounts)
  }

  ghost predicate MountsCounted(w: World, hm: multiset<nat>)
  {
    (forall m :: m in w.mounts ==> w.mounts[m] == hm[m]) && forall m :: m in hm ==> m in w.mounts
  }

  ghost predicate TreeOk(s: D.State, pins: multiset<nat>, h: multiset<nat>)
  {
    D.Inv(s, h + pins) && D.Anchored(s, pins)
  }

  /** `h` and `hm` are the references to entries and mounts held for a while, `pins` those to entries that
      stay. */
  ghost predicate Good(w: World, env: Env, pins: multiset<nat>, h: multiset<nat>, hm: multiset<nat>)
  {
    TreeOk(w.s, pins, h) && EnvOk(env, pins, w.mounts.Keys) && MountsCounted(w, hm)
  }

  // ----- What the operations on trees keep

  lemma Here(s: D.State, pins: multiset<nat>, h: multiset<nat>, d: nat)
    requires TreeOk(s, pins, h) && (d in pins || d in h)
    ensures d in s.nodes
  {
    assert d in h + pins;
  }

  lemma GetTree(s: D.State, pins: multiset<nat>, h: multiset<nat>, d: nat)
    requires TreeOk(s, pins, h) && d in s.nodes
    ensures TreeOk(D.Get(s, d), pins, h + multiset{d})
  {
    D.GetKeeps(s, h + pins, d);
    assert h + pins + multiset{d} == h + multiset{d} + pins;
    hide D.Inv;
  }

  lemma PutTree(s: D.State, pins: multiset<nat>, h: multiset<nat>, d: nat)
    requires TreeOk(s, pins, h) && d in h
    ensures D.Put(s, d).Some? && TreeOk(D.Put(s, d).value, pins, h - multiset{d})
  {
    hide D.Inv;
    hide D.Anchored;
    hide D.Put;
    D.PutAnchored(s, h, pins, d);
  }

  lemma MountGetCounted(w: World, hm: multiset<nat>, m: Option<nat>)
    requires MountsCounted(w, hm) && (m.Some? ==> m.value in w.mounts)
    ensures MountsCounted(MountGet(w, m), hm + One(m)) && MountGet(w, m).mounts.Keys == w.mounts.Keys
  {
  }

  lemma MountPutCounted(w: World, hm: multiset<nat>, m: Option<nat>)
    requires MountsCounted(w, hm) && One(m) <= hm
    ensures MountsCounted(MountPut(w, m), hm - One(m)) && MountPut(w, m).mounts.Keys == w.mounts.Keys
  {
    if m.Some? { assert hm[m.value] >= One(m)[m.value] == 1; }
  }

  // ----- What the operations on paths keep

  lemma CopyGood(w: World, env: Env, pins: multiset<nat>, h: multiset<nat>, hm: multiset<nat>, p: Path)
    requires Good(w, env, pins, h, hm) && p.dentry in w.s.nodes && (p.mount.Some? ==> p.mount.value in w.mounts)
    ensures Good(Copy(w, p), env, pins, h + multiset{p.dentry}, hm + One(p.mount))
  {
    hide TreeOk;
    hide EnvOk;
    hide MountsCounted;
    hide D.Get;
    GetTree(w.s, pins, h, p.dentry);
    var w1 := w.(s := D.Get(w.s, p.dentry));
    SameMounts(w, w1, hm);
    MountGetCounted(w1, hm, p.mount);
  }

  lemma SameMounts(w: World, w': World, hm: multiset<nat>)
    requires MountsCounted(w, hm) && w'.mounts == w.mounts
    ensures MountsCounted(w', hm)
  {
  }

  lemma PutGood(w: World, env: Env, pins: multiset<nat>, h: multiset<nat>, hm: multiset<nat>, p: Path)
    requires Good(w, env, pins, h, hm) && p.dentry in h && One(p.mount) <= hm
    ensures Put(w, p).Some? && Good(Put(w, p).value, env, pins, h - multiset{p.dentry}, hm - One(p.mount))
  {
    hide TreeOk;
    hide EnvOk;
    hide MountsCounted;
    hide D.Put;
    PutTree(w.s, pins, h, p.dentry);
    var w1 := w.(s := D.Put(w.s, p.dentry).value);
    SameMounts(w, w1, hm);
    MountPutCounted(w1, hm, p.mount);
  }

  // ----- What each step of the walk keeps

  /** Besides `h` and `hm`, exactly the path reached is held; after an error nothing is. */
  ghost predicate Balanced(a: Answer, w: World, env: Env, pins: multiset<nat>, h: multiset<nat>, hm: multiset<nat>, short: bool)
  {
    match a
    case Fault => true
    case Error(_, w') => Good(w', env, pins, h, hm) && D.Evolves(w.s, w'.s, short)
    case At(p, w') => Good(w', env, pins, h + multiset{p.dentry}, hm + One(p.mount)) && D.Evolves(w.s, w'.s, short)
  }

  lemma PutBack(w: World, env: Env, pins: multiset<nat>, h: multiset<nat>, hm: multiset<nat>, p: Path, short: bool)
    requires Good(w, env, pins, h + multiset{p.dentry}, hm + One(p.mount))
    ensures Put(w, p).Some? && Good(Put(w, p).value, env, pins, h, hm) && D.Evolves(w.s, Put(w, p).value.s, short)
  {
    hide TreeOk;
    hide EnvOk;
    hide MountsCounted;
    hide One;
    hide D.Put;
    PutGood(w, env, pins, h + multiset{p.dentry}, hm + One(p.mount), p);
    assert h + multiset{p.dentry} - multiset{p.dentry} == h;
    assert hm + One(p.mount) - One(p.mount) == hm;
    PutRoots(w.s, pins, h + multiset{p.dentry}, p.dentry, short);
  }

  lemma PutRoots(s: D.State, pins: multiset<nat>, h: multiset<nat>, d: nat, short: bool)
    requires TreeOk(s, pins, h) && d in h
    ensures D.Put(s, d).Some? && D.Evolves(s, D.Put(s, d).value, short)
  {
    D.PutAnchored(s, h, pins, d);
    if D.DistinctNames(s) { D.PutNames(s, D.Put(s, d).value); }
  }

  lemma CrossBalanced(w: World, env: Env, pins: multiset<nat>, h: multiset<nat>, hm: multiset<nat>, p: Path, short: bool)
    requires Good(w, env, pins, h + multiset{p.dentry}, hm + One(p.mount))
    ensures Cross(w, env, p).At? && Balanced(Cross(w, env, p), w, env, pins, h, hm, short)
  {
    hide TreeOk;
    hide MountsCounted;
    hide Put;
    hide Copy;
    if p.dentry in env.points && env.roots[env.points[p.dentry].mount] != p.dentry {
      var m := env.points[p.dentry].mount;
      var q := Path(env.roots[m], Some(m));
      PutBack(w, env, pins, h, hm, p, short);
      var w1 := Put(w, p).value;
      Here(w1.s, pins, h, q.dentry);
      CopyGood(w1, env, pins, h, hm, q);
      CopyRoots(w1, q, short);
    }
  }

  lemma CopyRoots(w: World, p: Path, short: bool)
    requires p.dentry in w.s.nodes
    ensures D.Evolves(w.s, Copy(w, p).s, short)
  {
  }

  /** path_get_parent follows a null pointer exactly at a root that is mounted nowhere. */
  lemma ParentBalanced(w: World, env: Env, pins: multiset<nat>, h: multiset<nat>, hm: multiset<nat>, p: Path, short: bool)
    requires Good(w, env, pins, h + multiset{p.dentry}, hm + One(p.mount))
    ensures p.dentry in w.s.nodes
    ensures Parent(w, env, p).Fault? <==> w.s.nodes[p.dentry].parent.None? && p.dentry !in env.points
    ensures Balanced(Parent(w, env, p), w, env, pins, h, hm, short)
  {
    Here(w.s, pins, h + multiset{p.dentry}, p.dentry);
    if w.s.nodes[p.dentry].parent.Some? {
      UpBalanced(w, env, pins, h, hm, p, short);
    } else if p.dentry in env.points {
      OutBalanced(w, env, pins, h, hm, p, short);
    }
  }

  lemma UpBalanced(w: World, env: Env, pins: multiset<nat>, h: multiset<nat>, hm: multiset<nat>, p: Path, short: bool)
    requires Good(w, env, pins, h + multiset{p.dentry}, hm + One(p.mount))
    requires p.dentry in w.s.nodes && w.s.nodes[p.dentry].parent.Some?
    ensures Parent(w, env, p).At? && Balanced(Parent(w, env, p), w, env, pins, h, hm, short)
  {
    var up, d := w.s.nodes[p.dentry].parent.value, p.dentry;
    hide TreeOk;
    hide EnvOk;
    hide MountsCounted;
    hide D.Put;
    hide D.Get;
    hide D.Evolves;
    ParentHere(w.s, pins, h + multiset{d}, d);
    GetTree(w.s, pins, h + multiset{d}, up);
    var s1 := D.Get(w.s, up);
    GetRoots(w.s, up, short);
    SwapHeld(s1, pins, h, d, up, short);
    RootsTrans(w.s, s1, D.Put(s1, d).value, short);
    SameMounts(w, w.(s := D.Put(s1, d).value), hm + One(p.mount));
  }

  lemma ParentHere(s: D.State, pins: multiset<nat>, h: multiset<nat>, d: nat)
    requires TreeOk(s, pins, h) && d in s.nodes && s.nodes[d].parent.Some?
    ensures s.nodes[d].parent.value in s.nodes
  {
    assert D.NodeOk(s, d);
  }

  lemma GetRoots(s: D.State, d: nat, short: bool)
    requires d in s.nodes
    ensures D.Evolves(s, D.Get(s, d), short)
  {
  }

  lemma OutBalanced(w: World, env: Env, pins: multiset<nat>, h: multiset<nat>, hm: multiset<nat>, p: Path, short: bool)
    requires Good(w, env, pins, h + multiset{p.dentry}, hm + One(p.mount))
    requires p.dentry in w.s.nodes && w.s.nodes[p.dentry].parent.None? && p.dentry in env.points
    ensures Parent(w, env, p).At? && Balanced(Parent(w, env, p), w, env, pins, h, hm, short)
  {
    hide Good;
    hide Copy;
    hide Put;
    hide One;
    hide D.Evolves;
    var at, d := env.points[p.dentry].at, p.dentry;
    PointHere(w, env, pins, h + multiset{d}, hm + One(p.mount), d);
    CopyGood(w, env, pins, h + multiset{d}, hm + One(p.mount), at);
    CopyRoots(w, at, short);
    var w0 := Copy(w, at);
    assert h + multiset{d} + multiset{at.dentry} == h + multiset{at.dentry} + multiset{d};
    assert hm + One(p.mount) + One(at.mount) == hm + One(at.mount) + One(p.mount);
    PutBack(w0, env, pins, h + multiset{at.dentry}, hm + One(at.mount), p, short);
    var w1 := Put(w0, p).value;
    PointHere(w1, env, pins, h + multiset{at.dentry}, hm + One(at.mount), d);
    CopyGood(w1, env, pins, h + multiset{at.dentry}, hm + One(at.mount), at);
    CopyRoots(w1, at, short);
    var w2 := Copy(w1, at);
    PutBack(w2, env, pins, h + multiset{at.dentry}, hm + One(at.mount), at, short);
    RootsTrans(w.s, w0.s, w1.s, short);
    RootsTrans(w.s, w1.s, w2.s, short);
    RootsTrans(w.s, w2.s, Put(w2, at).value.s, short);
  }

  lemma PointHere(w: World, env: Env, pins: multiset<nat>, h: multiset<nat>, hm: multiset<nat>, d: nat)
    requires Good(w, env, pins, h, hm) && d in env.points
    ensures var at := env.points[d].at; at.dentry in w.s.nodes && (at.mount.Some? ==> at.mount.value in w.mounts)
  {
    Here(w.s, pins, h, env.points[d].at.dentry);
  }

  lemma RootsTrans(s: D.State, s1: D.State, s2: D.State, short: bool)
    requires D.Evolves(s, s1, short) && D.Evolves(s1, s2, short)
    ensures D.Evolves(s, s2, short)
  {
  }

  lemma ChildBalanced(w: World, env: Env, pins: multiset<nat>, h: multiset<nat>, hm: multiset<nat>, p: Path, name: string, short: bool)
    requires Good(w, env, pins, h + multiset{p.dentry}, hm + One(p.mount)) && (short ==> |name| < D.MAXNAMELEN)
    ensures !Child(w, env, p, name).Fault? && Balanced(Child(w, env, p, name), w, env, pins, h, hm, short)
  {
    var d := p.dentry;
    Here(w.s, pins, h + multiset{d}, d);
    hide TreeOk;
    hide EnvOk;
    hide MountsCounted;
    hide D.Put;
    hide Put;
    hide D.Evolves;
    hide D.Lookup;
    LookupTree(w.s, pins, h + multiset{d}, d, name, env.fs(d, name), short);
    match D.Lookup(w.s, d, name, env.fs(d, name))
    case Error(code, s1) =>
      SameMounts(w, w.(s := s1), hm + One(p.mount));
      PutBack(w.(s := s1), env, pins, h, hm, p, short);
      RootsTrans(w.s, s1, Put(w.(s := s1), p).value.s, short);
    case Found(c, s1) =>
      SwapHeld(s1, pins, h, d, c, short);
      SameMounts(w, w.(s := D.Put(s1, d).value), hm + One(p.mount));
      RootsTrans(w.s, s1, D.Put(s1, d).value, short);
  }

  /** The directory is put back, the child stays held. */
  lemma SwapHeld(s: D.State, pins: multiset<nat>, h: multiset<nat>, d: nat, c: nat, short: bool)
    requires TreeOk(s, pins, h + multiset{d} + multiset{c})
    ensures D.Put(s, d).Some? && TreeOk(D.Put(s, d).value, pins, h + multiset{c}) && D.Evolves(s, D.Put(s, d).value, short)
  {
    hide TreeOk;
    assert h + multiset{d} + multiset{c} - multiset{d} == h + multiset{c};
    PutTree(s, pins, h + multiset{d} + multiset{c}, d);
    PutRoots(s, pins, h + multiset{d} + multiset{c}, d, short);
  }

  lemma LookupTree(s: D.State, pins: multiset<nat>, h: multiset<nat>, dir: nat, name: string, reply: D.Reply, short: bool)
    requires TreeOk(s, pins, h) && dir in s.nodes && (short ==> |name| < D.MAXNAMELEN)
    ensures match D.Lookup(s, dir, name, reply)
            case Fault => false
            case Error(code, s') => TreeOk(s', pins, h) && D.Evolves(s, s', short)
            case Found(c, s') => TreeOk(s', pins, h + multiset{c}) && D.Evolves(s, s', short)
  {
    D.LookupKeeps(s, h + pins, dir, name, reply);
    D.LookupEvolves(s, h + pins, dir, name, reply, short);
    match D.Lookup(s, dir, name, reply)
    case Error(code, s') => NextOnly(s, s', h + pins);
    case Found(c, s') => assert h + pins + multiset{c} == h + multiset{c} + pins;
  }

  lemma NextOnly(s: D.State, s': D.State, h: multiset<nat>)
    requires D.Inv(s, h) && s' == s.(next := s.next + 1)
    ensures D.Inv(s', h)
  {
    forall d | d in s'.nodes ensures D.NodeOk(s', d) && D.Counted(s', h, d) {
      assert D.NodeOk(s, d) && D.Counted(s, h, d);
    }
  }
}
