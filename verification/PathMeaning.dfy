/** What path_lookup should find for a path (kernel/src/fs.c), and for exactly which paths it does. */
module PathMeaning {
  import opened Options
  import opened Paths
  import opened PathLookup
  import D = Dentries

  /** The names between slashes from an index on. */
  function Names(q: string, i: nat): (r: seq<string>)
    requires i <= |q|
    ensures r != []
    decreases |q| - i
  {
    match Slash(q, i)
    case None => [q[i..]]
    case Some(j) => [q[i..j]] + Names(q, j + 1)
  }

  // ----- The meaning of a path

  /** Something else is seen at the entry: the root of what is mounted there last. */
  predicate Covered(env: Env, d: nat)
  {
    d in env.points && env.points[d].mount in env.roots && env.roots[env.points[d].mount] != d
  }

  /** The directory above: that of the mount point for the root of a mount, and a root that is mounted nowhere, or on
      one that is not, has none and stays. */
  function Up(w: World, env: Env, p: Path): Answer
  {
    if p.dentry !in w.s.nodes then Fault
    else if w.s.nodes[p.dentry].parent.Some? then Parent(w, env, p)
    else if p.dentry !in env.points then At(p, w)
    else
      match Parent(w, env, p)
      case At(at, w1) =>
        if at.dentry in w1.s.nodes && w1.s.nodes[at.dentry].parent.Some? then Parent(w1, env, at) else At(at, w1)
      case other => other
  }

  /** Names from a directory on: what is seen there is where the first name is followed. */
  function Resolve(w: World, env: Env, p: Path, names: seq<string>): Answer
    requires names != []
    decreases |names|, 2
  {
    match Cross(w, env, p)
    case At(p1, w1) => Follow(w1, env, p1, names)
    case other => other
  }

  /** An empty name and "." stay, the latter with search permission if more follows, ".." goes up, and any other name
      is a child.  At the end stands what is seen there. */
  function Follow(w: World, env: Env, p: Path, names: seq<string>): Answer
    requires names != []
    decreases |names|, 1
  {
    if names == [""] || names == ["."] then At(p, w)
    else if names[0] == "" then Follow(w, env, p, names[1..])
    else if names[0] == "." then if env.access(p.dentry) then Follow(w, env, p, names[1..]) else Denied(w, p)
    else if names[0] == ".." then Onward(Up(w, env, p), env, names)
    else if env.access(p.dentry) then Onward(Child(w, env, p, names[0]), env, names)
    else Denied(w, p)
  }

  /** The rest of the names from where the first has led. */
  function Onward(a: Answer, env: Env, names: seq<string>): Answer
    requires names != []
    decreases |names|, 0
  {
    match a
    case At(p, w) => if |names| == 1 then Cross(w, env, p) else Resolve(w, env, p, names[1..])
    case other => other
  }

  function Denied(w: World, p: Path): Answer
  {
    match Put(w, p)
    case None => Fault
    case Some(w1) => Error(EACCES, w1)
  }

  // ----- The paths the code resolves

  predicate IsDots(name: string) { name == "." || name == ".." }

  /** A name that is no child's. */
  predicate Odd(name: string) { name == "" || IsDots(name) }

  predicate Dotted(name: string) { |name| >= 2 && name[0] == '.' && name[1] == '.' }

  /** Right after a "." no name is "." or ".."; elsewhere a name starts with two dots only if it is ".." and the
      last; and only the last name is empty. */
  predicate Clear(names: seq<string>, afterDot: bool)
    requires names != []
    decreases |names|
  {
    && (if afterDot then !IsDots(names[0]) else Dotted(names[0]) ==> names == [".."])
    && (|names| > 1 ==> names[0] != "" && Clear(names[1..], !afterDot && names[0] == "."))
  }

  /** What is left of a walk after a turn. */
  function Finish(t: Turn, env: Env, q: string): Answer
    requires t.Go? ==> t.i <= |q|
  {
    match t
    case Stop(a) => a
    case Break(p, w) => At(p, w)
    case Go(j, p, w) => Walk(w, env, q, j, p, false)
  }

  /** The names without the last: where they lead, the last is followed. */
  function Init(names: seq<string>): (r: seq<string>)
    requires names != []
    ensures |r| == |names|
  {
    names[..|names| - 1] + [""]
  }

  lemma InitMore(names: seq<string>)
    requires |names| > 1
    ensures Init(names)[0] == names[0] && Init(names)[1..] == Init(names[1..]) && names[1..][|names| - 2] == names[|names| - 1]
  {
  }

  /** The code does with a last name what it should: an empty one and "." always, ".." where there is a parent and
      nothing is mounted on it, another name where nothing is mounted on its entry. */
  ghost predicate LastOk(w: World, env: Env, p: Path, name: string)
  {
    if name == "" || name == "." then true
    else if name == ".." then
      && p.dentry in w.s.nodes && w.s.nodes[p.dentry].parent.Some?
      && !Covered(env, w.s.nodes[p.dentry].parent.value)
    else
      var c := Child(w, env, p, name);
      env.access(p.dentry) && c.At? ==> !Covered(env, c.p.dentry)
  }

  ghost predicate LastRight(a: Answer, env: Env, names: seq<string>)
    requires names != []
  {
    a.At? ==> LastOk(a.w, env, a.p, names[|names| - 1])
  }

  /** What sys_mount sees to: the directory and the roots at a mount point know it, and the directory is no root of a
      mount itself. */
  ghost predicate MountsOk(env: Env)
  {
    && (forall d :: d in env.points ==>
          env.points[d].at.dentry in env.points && env.points[env.points[d].at.dentry] == env.points[d])
    && (forall d :: d in env.points && env.points[d].mount in env.roots ==>
          env.roots[env.points[d].mount] in env.points && env.points[env.roots[env.points[d].mount]] == env.points[d])
    && (forall d, m :: d in env.points && m in env.roots ==> env.points[d].at.dentry != env.roots[m])
  }

  /** A path held in a tree in order. */
  ghost predicate Held(w: World, env: Env, pins: multiset<nat>, h: multiset<nat>, hm: multiset<nat>, p: Path)
  {
    Good(w, env, pins, h + multiset{p.dentry}, hm + One(p.mount)) && MountsOk(env)
  }

  lemma CrossHeld(w: World, env: Env, pins: multiset<nat>, h: multiset<nat>, hm: multiset<nat>, p: Path)
    requires Held(w, env, pins, h, hm, p)
    ensures var a := Cross(w, env, p); a.At? && Held(a.w, env, pins, h, hm, a.p)
  {
    hide Good;
    CrossBalanced(w, env, pins, h, hm, p, false);
  }

  lemma ChildHeld(w: World, env: Env, pins: multiset<nat>, h: multiset<nat>, hm: multiset<nat>, p: Path, name: string)
    requires Held(w, env, pins, h, hm, p)
    ensures var a := Child(w, env, p, name); !a.Fault? && (a.At? ==> Held(a.w, env, pins, h, hm, a.p))
  {
    hide Good;
    hide Child;
    ChildBalanced(w, env, pins, h, hm, p, name, false);
  }

  /** A child is an entry below the directory, in the same mount, with the name if that fits; an error is the file
      system's. */
  lemma ChildIs(w: World, env: Env, pins: multiset<nat>, h: multiset<nat>, hm: multiset<nat>, p: Path, name: string)
    requires Held(w, env, pins, h, hm, p)
    ensures match Child(w, env, p, name)
            case Fault => false
            case Error(code, _) => code == env.fs(p.dentry, name).error != 0
            case At(c, w') =>
              && c.mount == p.mount && c.dentry in w'.s.nodes && w'.s.nodes[c.dentry].parent == Some(p.dentry)
              && (|name| < D.MAXNAMELEN ==> w'.s.nodes[c.dentry].name == name)
  {
    hide D.Put;
    hide D.Lookup;
    hide Put;
    hide D.Inv;
    ChildHeld(w, env, pins, h, hm, p, name);
    HeldInv(w, env, pins, h, hm, p);
    hide Held;
    var all, reply := h + multiset{p.dentry} + pins, env.fs(p.dentry, name);
    assert p.dentry in all;
    InvHere(w.s, all, p.dentry);
    D.LookupKeeps(w.s, all, p.dentry, name, reply);
    match D.Lookup(w.s, p.dentry, name, reply)
    case Fault =>
    case Error(_, _) =>
    case Found(d, s1) =>
      D.PutKeeps(s1, all + multiset{d}, p.dentry);
      if D.Put(s1, p.dentry).Some? {
        var s2 := D.Put(s1, p.dentry).value;
        assert d in all + multiset{d} - multiset{p.dentry};
        InvHere(s2, all + multiset{d} - multiset{p.dentry}, d);
      }
  }

  lemma InvHere(s: D.State, h: multiset<nat>, d: nat)
    requires D.Inv(s, h) && d in h
    ensures d in s.nodes
  {
  }

  lemma ParentHeld(w: World, env: Env, pins: multiset<nat>, h: multiset<nat>, hm: multiset<nat>, p: Path)
    requires Held(w, env, pins, h, hm, p)
    ensures p.dentry in w.s.nodes
    ensures var a := Parent(w, env, p);
            && (a.Fault? <==> w.s.nodes[p.dentry].parent.None? && p.dentry !in env.points)
            && !a.Error? && (a.At? ==> Held(a.w, env, pins, h, hm, a.p))
            && (a.At? && w.s.nodes[p.dentry].parent.Some? ==>
                  a.p == Path(w.s.nodes[p.dentry].parent.value, p.mount) && a.p.dentry != p.dentry)
            && (a.At? && w.s.nodes[p.dentry].parent.None? ==> a.p == env.points[p.dentry].at)
  {
    hide Good;
    hide D.Put;
    hide Put;
    ParentBalanced(w, env, pins, h, hm, p, false);
    if w.s.nodes[p.dentry].parent.Some? { NotOwnParent(w, env, pins, h + multiset{p.dentry}, hm + One(p.mount), p.dentry); }
  }

  lemma NotOwnParent(w: World, env: Env, pins: multiset<nat>, h: multiset<nat>, hm: multiset<nat>, d: nat)
    requires Good(w, env, pins, h, hm) && d in w.s.nodes
    ensures w.s.nodes[d].parent != Some(d)
  {
    assert D.NodeOk(w.s, d);
  }

  /** Crossing leads elsewhere exactly from a covered entry, and to the root of a mount. */
  lemma CrossMoves(w: World, env: Env, p: Path)
    ensures Cross(w, env, p) == At(p, w) <==> !Covered(env, p.dentry)
    ensures Cross(w, env, p).At? && Covered(env, p.dentry) ==>
              var m := env.points[p.dentry].mount; Cross(w, env, p).p == Path(env.roots[m], Some(m))
  {
    hide Put;
    hide Copy;
  }

  /** A last ".." is right exactly where there is a parent with nothing mounted on it. */
  lemma UpRight(w: World, env: Env, pins: multiset<nat>, h: multiset<nat>, hm: multiset<nat>, p: Path)
    requires Held(w, env, pins, h, hm, p)
    ensures Parent(w, env, p) == Onward(Up(w, env, p), env, [".."]) <==> LastOk(w, env, p, "..")
  {
    hide Held;
    hide Parent;
    hide Cross;
    ParentHeld(w, env, pins, h, hm, p);
    CrossMoves(w, env, p);
    var a := Parent(w, env, p);
    if a.At? {
      CrossMoves(a.w, env, a.p);
      if w.s.nodes[p.dentry].parent.None? {
        OutAndUp(w, env, pins, h, hm, p);
      }
    }
  }

  /** From the root of a mount the code ends at the mount point, which is never where ".." leads. */
  lemma OutAndUp(w: World, env: Env, pins: multiset<nat>, h: multiset<nat>, hm: multiset<nat>, p: Path)
    requires Held(w, env, pins, h, hm, p) && p.dentry in w.s.nodes && w.s.nodes[p.dentry].parent.None?
    requires Parent(w, env, p).At?
    ensures Parent(w, env, p) != Onward(Up(w, env, p), env, [".."])
  {
    hide Held;
    hide Parent;
    hide Cross;
    ParentHeld(w, env, pins, h, hm, p);
    var a := Parent(w, env, p);
    PointNoRoot(w, env, pins, h, hm, p);
    CoveredPoint(w, env, pins, h, hm, p);
    CrossMoves(a.w, env, a.p);
    ParentHeld(a.w, env, pins, h, hm, a.p);
    hide Covered;
    var b := Parent(a.w, env, a.p);
    if b.At? {
      CrossMoves(b.w, env, b.p);
      assert Cross(b.w, env, b.p).At? ==> Cross(b.w, env, b.p).p.dentry != a.p.dentry;
    }
  }

  lemma PointNoRoot(w: World, env: Env, pins: multiset<nat>, h: multiset<nat>, hm: multiset<nat>, p: Path)
    requires Held(w, env, pins, h, hm, p) && p.dentry in env.points
    ensures forall m :: m in env.roots ==> env.roots[m] != env.points[p.dentry].at.dentry
  {
  }

  lemma CoveredPoint(w: World, env: Env, pins: multiset<nat>, h: multiset<nat>, hm: multiset<nat>, p: Path)
    requires Held(w, env, pins, h, hm, p) && p.dentry in env.points
    ensures Covered(env, env.points[p.dentry].at.dentry)
  {
  }

  /** The loop of path_lookup finds what a path without misplaced dots or repeated slashes means exactly when its last
      name is one of those it treats right where it is followed. */
  lemma {:induction false} WalkMeans(w: World, env: Env, pins: multiset<nat>, h: multiset<nat>, hm: multiset<nat>,
                                     q: string, i: nat, p: Path)
    requires i <= |q| && CString(q) && Clear(Names(q, i), false) && Held(w, env, pins, h, hm, p)
    ensures Walk(w, env, q, i, p, false) == Resolve(w, env, p, Names(q, i)) <==>
            LastRight(Resolve(w, env, p, Init(Names(q, i))), env, Names(q, i))
    decreases |q| - i, 2
  {
    hide Held;
    hide Cross;
    hide Descend;
    hide Parent;
    hide Follow;
    hide LastOk;
    CrossHeld(w, env, pins, h, hm, p);
    var c := Cross(w, env, p);
    DotsMeans(c.w, env, pins, h, hm, q, i, c.p);
    assert Walk(w, env, q, i, p, false) == Finish(Dots(c.w, env, q, i, c.p, false), env, q);
  }

  lemma {:induction false} DotsMeans(w: World, env: Env, pins: multiset<nat>, h: multiset<nat>, hm: multiset<nat>,
                                     q: string, i: nat, p: Path)
    requires i <= |q| && CString(q) && Clear(Names(q, i), false) && Held(w, env, pins, h, hm, p)
    ensures Finish(Dots(w, env, q, i, p, false), env, q) == Follow(w, env, p, Names(q, i)) <==>
            LastRight(Follow(w, env, p, Init(Names(q, i))), env, Names(q, i))
    decreases |q| - i, 1
  {
    hide Held;
    hide Walk;
    hide Descend;
    hide Parent;
    hide Follow;
    hide LastOk;
    hide Init;
    hide Denied;
    FirstName(q, i);
    DeniedEnds(w, p);
    var names := Names(q, i);
    if CharAt(q, i) == '.' && CharAt(q, i + 1) == '/' {
      assert names[1..] == Names(q, i + 2);
      hide Names;
      InitMore(names);
      FollowDot(w, env, p, names);
      FollowDot(w, env, p, Init(names));
      DescendMeans(w, env, pins, h, hm, q, i + 2, p);
    } else if CharAt(q, i) == '.' && CharAt(q, i + 1) == '.' {
      hide Names;
      FollowLast(w, env, p, names);
      UpRight(w, env, pins, h, hm, p);
      ParentHeld(w, env, pins, h, hm, p);
    } else if i < |q| && !(CharAt(q, i) == '.' && CharAt(q, i + 1) == NUL) {
      hide Names;
      FollowName(w, env, p, names);
      DescendMeans(w, env, pins, h, hm, q, i, p);
    } else {
      hide Names;
      FollowLast(w, env, p, names);
    }
  }

  lemma FollowDot(w: World, env: Env, p: Path, names: seq<string>)
    requires |names| > 1 && names[0] == "."
    ensures Follow(w, env, p, names) == if env.access(p.dentry) then Follow(w, env, p, names[1..]) else Denied(w, p)
  {
    hide Denied;
  }

  lemma FollowLast(w: World, env: Env, p: Path, names: seq<string>)
    requires names == [""] || names == ["."] || names == [".."]
    ensures Follow(w, env, p, Init(names)) == At(p, w)
    ensures Follow(w, env, p, names) == if names == [".."] then Onward(Up(w, env, p), env, [".."]) else At(p, w)
    ensures names != [".."] ==> LastOk(w, env, p, names[0])
  {
    hide Onward;
    hide Up;
    assert Init(names) == [""];
  }

  /** Without search permission a name is not followed. */
  lemma FollowName(w: World, env: Env, p: Path, names: seq<string>)
    requires names != [] && !IsDots(names[0]) && names != [""] && (names[0] == "" ==> |names| == 1)
    ensures !env.access(p.dentry) ==>
              Follow(w, env, p, names) == Denied(w, p) && (|names| > 1 ==> Follow(w, env, p, Init(names)) == Denied(w, p))
    ensures !env.access(p.dentry) && |names| == 1 ==>
              Follow(w, env, p, Init(names)) == At(p, w) && LastOk(w, env, p, names[0])
  {
    hide Denied;
    hide Onward;
    hide Child;
    if |names| == 1 { assert Init(names) == [""]; } else { InitMore(names); }
  }

  lemma DeniedEnds(w: World, p: Path)
    ensures !Denied(w, p).At?
  {
  }

  /** From the check of permissions on: the next name is looked up. */
  lemma {:induction false} DescendMeans(w: World, env: Env, pins: multiset<nat>, h: multiset<nat>, hm: multiset<nat>,
                                        q: string, i: nat, p: Path)
    requires i <= |q| && CString(q) && Held(w, env, pins, h, hm, p) && !IsDots(Names(q, i)[0])
    requires |Names(q, i)| > 1 ==> Names(q, i)[0] != "" && Clear(Names(q, i)[1..], false)
    ensures var f := Finish(Descend(w, env, q, i, p, false), env, q);
            if !env.access(p.dentry) then f == Denied(w, p)
            else f == Follow(w, env, p, Names(q, i)) <==> LastRight(Follow(w, env, p, Init(Names(q, i))), env, Names(q, i))
    decreases |q| - i, 0
  {
    hide Held;
    hide Follow;
    hide Descend;
    hide LastOk;
    hide Child;
    hide Walk;
    hide Resolve;
    hide Denied;
    hide Init;
    FirstOf(q, i);
    hide Names;
    match Slash(q, i)
    case None => LastMeans(w, env, q, i, p);
    case Some(j) =>
      MoreDescends(w, env, q, i, j, p);
      InitMore(Names(q, i));
      ChildHeld(w, env, pins, h, hm, p, q[i..j]);
      var a := Child(w, env, p, q[i..j]);
      if a.At? { WalkMeans(a.w, env, pins, h, hm, q, j + 1, a.p); }
  }

  lemma FirstOf(q: string, i: nat)
    requires i <= |q|
    ensures match Slash(q, i)
            case None => Names(q, i) == [q[i..]]
            case Some(j) => Names(q, i)[0] == q[i..j] && |Names(q, i)| > 1 && Names(q, i)[1..] == Names(q, j + 1)
  {
  }

  lemma LastMeans(w: World, env: Env, q: string, i: nat, p: Path)
    requires i <= |q| && Slash(q, i).None? && !IsDots(q[i..])
    ensures Names(q, i) == [q[i..]]
    ensures var f := Finish(Descend(w, env, q, i, p, false), env, q);
            if !env.access(p.dentry) then f == Denied(w, p)
            else f == Follow(w, env, p, Names(q, i)) <==> LastRight(Follow(w, env, p, Init(Names(q, i))), env, Names(q, i))
  {
    hide Child;
    hide Cross;
    hide Put;
    hide Covered;
    var names := [q[i..]];
    assert Names(q, i) == names && Init(names) == [""];
    var a := Child(w, env, p, q[i..]);
    if a.At? { CrossMoves(a.w, env, a.p); }
  }

  /** Descending to a name that is not the last, in the code and in the path. */
  lemma MoreDescends(w: World, env: Env, q: string, i: nat, j: nat, p: Path)
    requires i <= |q| && Slash(q, i) == Some(j) && !Odd(q[i..j])
    ensures var names, a := Names(q, i), Child(w, env, p, q[i..j]);
            && names[0] == q[i..j] && names[1..] == Names(q, j + 1) && |names| > 1
            && (var f := Finish(Descend(w, env, q, i, p, false), env, q);
                f == if !env.access(p.dentry) then Denied(w, p) else if a.At? then Walk(a.w, env, q, j + 1, a.p, false) else a)
            && (env.access(p.dentry) ==>
                  Follow(w, env, p, names) == if a.At? then Resolve(a.w, env, a.p, names[1..]) else a)
            && (env.access(p.dentry) ==>
                  Follow(w, env, p, Init(names)) == if a.At? then Resolve(a.w, env, a.p, Init(names[1..])) else a)
  {
    hide Child;
    hide Put;
    hide Resolve;
    hide Walk;
    hide Init;
    InitMore(Names(q, i));
    assert Names(q, i) == [q[i..j]] + Names(q, j + 1);
  }

  /** The first name of a path, told from its first characters. */
  lemma FirstName(q: string, i: nat)
    requires i <= |q| && CString(q)
    ensures var n, k := Names(q, i)[0], |Names(q, i)|;
            && (n == "" <==> CharAt(q, i) == '/' || i == |q|) && (n == "" && k == 1 <==> i == |q|)
            && (n == "." <==> CharAt(q, i) == '.' && CharAt(q, i + 1) in {'/', NUL})
            && (n == "." && k == 1 <==> CharAt(q, i) == '.' && CharAt(q, i + 1) == NUL)
            && (Dotted(n) <==> CharAt(q, i) == '.' && CharAt(q, i + 1) == '.')
            && (n == ".." && k == 1 <==> CharAt(q, i) == '.' && CharAt(q, i + 1) == '.' && CharAt(q, i + 2) == NUL)
  {
  }

  // ----- The directory of the last name

  /** What WP_PARENT gives from where all names but the last lead: that directory, if it may be searched, for a name
      that is to be found there, and otherwise the parent of what the path leads to. */
  function LastParent(a: Answer, env: Env, name: string): Answer
  {
    match a
    case At(p, w) =>
      if name == "" || name == "." then Parent(w, env, p)
      else if name == ".." then
        (match Parent(w, env, p)
         case At(p1, w1) => Parent(w1, env, p1)
         case other => other)
      else if env.access(p.dentry) then a
      else Denied(w, p)
    case other => other
  }

  /** What is left of a walk to the parent after a turn. */
  function FinishParent(t: Turn, env: Env, q: string): Answer
    requires t.Go? ==> t.i <= |q|
  {
    match t
    case Stop(a) => a
    case Break(p, w) => Parent(w, env, p)
    case Go(j, p, w) => Walk(w, env, q, j, p, true)
  }

  /** With WP_PARENT the loop of path_lookup leads to the directory of the last name, whether that exists or not. */
  lemma {:induction false} ParentMeans(w: World, env: Env, pins: multiset<nat>, h: multiset<nat>, hm: multiset<nat>,
                                       q: string, i: nat, p: Path)
    requires i <= |q| && CString(q) && Clear(Names(q, i), false) && Held(w, env, pins, h, hm, p)
    ensures var names := Names(q, i);
            Walk(w, env, q, i, p, true) == LastParent(Resolve(w, env, p, Init(names)), env, names[|names| - 1])
    decreases |q| - i, 2
  {
    hide Held;
    hide Cross;
    hide Descend;
    hide Parent;
    hide Follow;
    hide LastParent;
    CrossHeld(w, env, pins, h, hm, p);
    var c := Cross(w, env, p);
    DotsParent(c.w, env, pins, h, hm, q, i, c.p);
    assert Walk(w, env, q, i, p, true) == FinishParent(Dots(c.w, env, q, i, c.p, true), env, q);
  }

  lemma {:induction false} DotsParent(w: World, env: Env, pins: multiset<nat>, h: multiset<nat>, hm: multiset<nat>,
                                      q: string, i: nat, p: Path)
    requires i <= |q| && CString(q) && Clear(Names(q, i), false) && Held(w, env, pins, h, hm, p)
    ensures var names := Names(q, i);
            FinishParent(Dots(w, env, q, i, p, true), env, q) ==
            LastParent(Follow(w, env, p, Init(names)), env, names[|names| - 1])
    decreases |q| - i, 1
  {
    hide Held;
    hide Walk;
    hide Descend;
    hide Parent;
    hide Follow;
    hide Init;
    hide Denied;
    FirstName(q, i);
    DeniedEnds(w, p);
    var names := Names(q, i);
    if CharAt(q, i) == '.' && CharAt(q, i + 1) == '/' {
      assert names[1..] == Names(q, i + 2);
      hide Names;
      InitMore(names);
      FollowDot(w, env, p, Init(names));
      DescendParent(w, env, pins, h, hm, q, i + 2, p);
    } else if CharAt(q, i) == '.' && CharAt(q, i + 1) == '.' {
      hide Names;
      FollowLast(w, env, p, names);
    } else if i < |q| && !(CharAt(q, i) == '.' && CharAt(q, i + 1) == NUL) {
      hide Names;
      FollowName(w, env, p, names);
      DescendParent(w, env, pins, h, hm, q, i, p);
    } else {
      hide Names;
      FollowLast(w, env, p, names);
    }
  }

  lemma {:induction false} DescendParent(w: World, env: Env, pins: multiset<nat>, h: multiset<nat>, hm: multiset<nat>,
                                         q: string, i: nat, p: Path)
    requires i <= |q| && CString(q) && Held(w, env, pins, h, hm, p) && !IsDots(Names(q, i)[0])
    requires |Names(q, i)| > 1 ==> Names(q, i)[0] != "" && Clear(Names(q, i)[1..], false)
    ensures var f, names := FinishParent(Descend(w, env, q, i, p, true), env, q), Names(q, i);
            f == if !env.access(p.dentry) then Denied(w, p)
                 else LastParent(Follow(w, env, p, Init(names)), env, names[|names| - 1])
    decreases |q| - i, 0
  {
    hide Held;
    hide Follow;
    hide Descend;
    hide Child;
    hide Walk;
    hide Resolve;
    hide Denied;
    hide Init;
    hide LastParent;
    FirstOf(q, i);
    hide Names;
    match Slash(q, i)
    case None => LastDescends(w, env, q, i, p);
    case Some(j) =>
      MoreDescends(w, env, q, i, j, p);
      ParentDescends(w, env, q, i, j, p);
      InitMore(Names(q, i));
      ChildHeld(w, env, pins, h, hm, p, q[i..j]);
      var a := Child(w, env, p, q[i..j]);
      if a.At? { ParentMeans(a.w, env, pins, h, hm, q, j + 1, a.p); } else { NotThere(a, env, q, i); }
  }

  lemma NotThere(a: Answer, env: Env, q: string, i: nat)
    requires i <= |q| && !a.At?
    ensures LastParent(a, env, Names(q, i)[|Names(q, i)| - 1]) == a
  {
  }

  lemma LastDescends(w: World, env: Env, q: string, i: nat, p: Path)
    requires i <= |q| && Slash(q, i).None? && !IsDots(q[i..])
    ensures Names(q, i) == [q[i..]]
    ensures var f := FinishParent(Descend(w, env, q, i, p, true), env, q);
            f == if !env.access(p.dentry) then Denied(w, p) else LastParent(Follow(w, env, p, Init([q[i..]])), env, q[i..])
  {
    hide Parent;
    hide Put;
    assert Init([q[i..]]) == [""];
  }

  lemma ParentDescends(w: World, env: Env, q: string, i: nat, j: nat, p: Path)
    requires i <= |q| && Slash(q, i) == Some(j)
    ensures var a, f := Child(w, env, p, q[i..j]), FinishParent(Descend(w, env, q, i, p, true), env, q);
            f == if !env.access(p.dentry) then Denied(w, p) else if a.At? then Walk(a.w, env, q, j + 1, a.p, true) else a
  {
    hide Child;
    hide Put;
    hide Walk;
    hide Parent;
  }

  // ----- No other paths

  const NOTHING: int := -77

  /** A file system that has every name but "", "." and "..", with nothing mounted and everything permitted. */
  function Plain(): Env
  {
    Env(map[], map[], 0, Path(0, None),
        (d: nat, n: string) =>
          if Odd(n) then D.Reply(NOTHING, "") else D.Reply(0, if |n| < D.MAXNAMELEN then "" else n[D.MAXNAMELEN..]),
        d => true)
  }

  /** How far below its root an entry is; parents come before their children. */
  ghost function Depth(s: D.State, d: nat): nat
    decreases d
  {
    if d in s.nodes && s.nodes[d].parent.Some? && s.nodes[d].parent.value < d then 1 + Depth(s, s.nodes[d].parent.value)
    else 0
  }

  ghost predicate Rising(s: D.State)
  {
    forall d :: d in s.nodes && s.nodes[d].parent.Some? ==> s.nodes[d].parent.value < d
  }

  ghost predicate NoOdd(s: D.State)
  {
    forall d :: d in s.nodes && s.nodes[d].parent.Some? ==> !Odd(D.Text(s.nodes[d]))
  }

  ghost predicate Tree(s: D.State, h: multiset<nat>) { D.Inv(s, h) && Rising(s) && NoOdd(s) }

  /** Entries that stay keep their parents, so their depths. */
  lemma {:induction false} SameDepth(s: D.State, t: D.State, h: multiset<nat>, d: nat)
    requires D.Inv(t, h) && d in t.nodes && forall e :: e in t.nodes ==> e in s.nodes && s.nodes[e].parent == t.nodes[e].parent
    ensures Depth(s, d) == Depth(t, d)
    decreases d
  {
    assert D.NodeOk(t, d);
    if t.nodes[d].parent.Some? && t.nodes[d].parent.value < d { SameDepth(s, t, h, t.nodes[d].parent.value); }
  }

  lemma TreeGet(s: D.State, h: multiset<nat>, d: nat, e: nat)
    requires Tree(s, h) && d in s.nodes && e in s.nodes
    ensures Tree(D.Get(s, d), h + multiset{d}) && Depth(D.Get(s, d), e) == Depth(s, e)
  {
    D.GetKeeps(s, h, d);
    SameDepth(D.Get(s, d), s, h, e);
    hide D.Inv;
  }

  lemma TreeAlloc(s: D.State, h: multiset<nat>, name: string, dir: nat)
    requires Tree(s, h) && dir in s.nodes && !Odd(name)
    ensures var t := D.Alloc(s, name, Plain().fs(dir, name).after, dir);
            && Tree(t, h + multiset{s.next}) && s.next in t.nodes && t.nodes[s.next].parent == Some(dir)
            && Depth(t, s.next) == Depth(s, dir) + 1
  {
    var after := Plain().fs(dir, name).after;
    D.NewKeeps(s, h, dir, name, after);
    assert dir < s.next by { assert D.NodeOk(s, dir); }
    AllocRising(s, name, after, dir);
    AllocNoOdd(s, name, dir);
    SameDepth(D.Alloc(s, name, after, dir), s, h, dir);
  }

  lemma AllocRising(s: D.State, name: string, after: string, dir: nat)
    requires Rising(s) && dir in s.nodes && dir < s.next
    ensures Rising(D.Alloc(s, name, after, dir))
  {
  }

  lemma AllocNoOdd(s: D.State, name: string, dir: nat)
    requires NoOdd(s) && dir in s.nodes && !Odd(name)
    ensures NoOdd(D.Alloc(s, name, Plain().fs(dir, name).after, dir))
  {
    var after := Plain().fs(dir, name).after;
    D.TextOfNew(name, after);
    var t := D.Alloc(s, name, after, dir);
    forall d | d in t.nodes && t.nodes[d].parent.Some? ensures !Odd(D.Text(t.nodes[d])) {
      if d == s.next {
        assert D.Text(t.nodes[d]) == name;
      } else {
        assert D.Text(t.nodes[d]) == D.Text(s.nodes[d]);
      }
    }
  }

  /** Looking up a name the file system has: one step down. */
  lemma LookupDown(s: D.State, h: multiset<nat>, dir: nat, name: string)
    requires Tree(s, h) && dir in s.nodes && !Odd(name)
    ensures var a := D.Lookup(s, dir, name, Plain().fs(dir, name));
            && a.Found? && Tree(a.s, h + multiset{a.d})
            && a.d in a.s.nodes && a.s.nodes[a.d].parent == Some(dir) && Depth(a.s, a.d) == Depth(s, dir) + 1
  {
    var c := D.ChildNamed(s, s.nodes[dir].children, name);
    if c.Some? {
      assert D.NodeOk(s, dir) && s.nodes[c.value].parent == Some(dir);
      assert Depth(s, c.value) == 1 + Depth(s, dir);
      hide Tree;
      hide Depth;
      TreeGet(s, h, c.value, c.value);
    } else {
      hide Tree;
      hide Depth;
      TreeAlloc(s, h, name, dir);
    }
  }

  lemma NotInMemory(s: D.State, h: multiset<nat>, dir: nat, name: string)
    requires Tree(s, h) && dir in s.nodes && Odd(name)
    ensures var a := D.Lookup(s, dir, name, Plain().fs(dir, name)); a.Error? && a.code == NOTHING
  {
    assert D.NodeOk(s, dir);
    D.LookupKeeps(s, h, dir, name, Plain().fs(dir, name));
  }

  /** What d_put leaves. */
  lemma TreePut(s: D.State, h: multiset<nat>, d: nat, e: nat)
    requires Tree(s, h) && d in h && D.Put(s, d).Some?
    ensures var t := D.Put(s, d).value;
            Tree(t, h - multiset{d}) && (e in t.nodes ==> Depth(t, e) == Depth(s, e))
  {
    hide D.Put;
    D.PutKeeps(s, h, d);
    var t := D.Put(s, d).value;
    if e in t.nodes { SameDepth(s, t, h - multiset{d}, e); }
  }

  /** A tree in memory in which only the directory at some depth is held, besides the root. */
  ghost predicate Standing(w: World, p: Path, depth: nat)
  {
    && p.mount == None && p.dentry in w.s.nodes && Depth(w.s, p.dentry) == depth
    && Good(w, Plain(), multiset{0}, multiset{p.dentry}, multiset{}) && Rising(w.s) && NoOdd(w.s)
  }

  lemma StandingTree(w: World, p: Path, depth: nat)
    requires Standing(w, p, depth)
    ensures Tree(w.s, multiset{p.dentry} + multiset{0})
    ensures Good(w, Plain(), multiset{0}, multiset{} + multiset{p.dentry}, multiset{} + One(p.mount))
  {
    assert multiset{} + multiset{p.dentry} == multiset{p.dentry} && multiset{} + One(p.mount) == multiset{};
  }

  lemma StandsAt(w: World, p: Path, h: multiset<nat>, depth: nat)
    requires Good(w, Plain(), multiset{0}, multiset{} + multiset{p.dentry}, multiset{} + One(p.mount))
    requires Tree(w.s, h) && p.mount == None && Depth(w.s, p.dentry) == depth
    ensures Standing(w, p, depth)
  {
    assert multiset{} + multiset{p.dentry} == multiset{p.dentry} && multiset{} + One(p.mount) == multiset{};
    Here(w.s, multiset{0}, multiset{p.dentry}, p.dentry);
  }

  lemma ChildDown(w: World, p: Path, depth: nat, name: string)
    requires Standing(w, p, depth)
    ensures var a := Child(w, Plain(), p, name);
            if Odd(name) then a.Error? && a.code == NOTHING else a.At? && Standing(a.w, a.p, depth + 1)
  {
    assert p.mount == None && p.dentry in w.s.nodes && Depth(w.s, p.dentry) == depth;
    StandingTree(w, p, depth);
    hide Standing;
    hide Tree;
    hide Good;
    hide One;
    hide Depth;
    hide D.Lookup;
    hide D.Put;
    hide D.Evolves;
    var env, h := Plain(), multiset{p.dentry} + multiset{0};
    ChildBalanced(w, env, multiset{0}, multiset{}, multiset{}, p, name, false);
    if Odd(name) {
      NotInMemory(w.s, h, p.dentry, name);
    } else {
      LookupDown(w.s, h, p.dentry, name);
      var b := D.Lookup(w.s, p.dentry, name, env.fs(p.dentry, name));
      if D.Put(b.s, p.dentry).Some? {
        TreePut(b.s, h + multiset{b.d}, p.dentry, b.d);
        var a := Child(w, env, p, name);
        StaysIn(a.w, env, a.p);
        StandsAt(a.w, a.p, h + multiset{b.d} - multiset{p.dentry}, depth + 1);
      }
    }
  }

  lemma StaysIn(w: World, env: Env, p: Path)
    requires Good(w, env, multiset{0}, multiset{} + multiset{p.dentry}, multiset{} + One(p.mount))
    ensures p.dentry in w.s.nodes
  {
    Here(w.s, multiset{0}, multiset{} + multiset{p.dentry}, p.dentry);
  }

  lemma ParentUp(w: World, p: Path, depth: nat)
    requires Standing(w, p, depth) && depth > 0
    ensures var a := Parent(w, Plain(), p); a.At? && Standing(a.w, a.p, depth - 1)
  {
    assert p.mount == None && p.dentry in w.s.nodes && w.s.nodes[p.dentry].parent.Some?;
    var up := w.s.nodes[p.dentry].parent.value;
    assert Depth(w.s, up) == depth - 1;
    StandingTree(w, p, depth);
    assert up in w.s.nodes by { assert D.NodeOk(w.s, p.dentry); }
    hide Standing;
    hide Tree;
    hide Good;
    hide One;
    hide Depth;
    hide D.Get;
    hide D.Put;
    hide D.Evolves;
    var env, h := Plain(), multiset{p.dentry} + multiset{0};
    ParentBalanced(w, env, multiset{0}, multiset{}, multiset{}, p, false);
    TreeGet(w.s, h, up, up);
    var s1 := D.Get(w.s, up);
    TreePut(s1, h + multiset{up}, p.dentry, up);
    var a := Parent(w, env, p);
    StaysIn(a.w, env, a.p);
    StandsAt(a.w, a.p, h + multiset{up} - multiset{p.dentry}, depth - 1);
  }

  // ----- How far down each gets there

  /** The code looks "", "." or ".." up as a name. */
  ghost predicate Fails(names: seq<string>, afterDot: bool)
    requires names != []
    decreases |names|
  {
    || (if afterDot then IsDots(names[0]) else names[0] == ".." && |names| > 1)
    || (|names| > 1 && (names[0] == "" || Fails(names[1..], !afterDot && names[0] == ".")))
  }

  /** How much deeper a path leads. */
  ghost function Rise(names: seq<string>): int
    requires names != []
    decreases |names|
  {
    (if names[0] == "" || names[0] == "." then 0 else if names[0] == ".." then -1 else 1)
    + if |names| > 1 then Rise(names[1..]) else 0
  }

  /** How much deeper the code goes: from a name that starts with two dots it goes up and down again. */
  ghost function CodeRise(names: seq<string>, afterDot: bool): int
    requires names != []
    decreases |names|
  {
    (if names == [""] || (!afterDot && names[0] == ".") then 0
     else if !afterDot && names == [".."] then -1
     else if !afterDot && Dotted(names[0]) then 0
     else 1)
    + if |names| > 1 then CodeRise(names[1..], !afterDot && names[0] == ".") else 0
  }

  lemma {:induction false} RisesLess(names: seq<string>, afterDot: bool)
    requires names != [] && !Fails(names, afterDot)
    ensures CodeRise(names, afterDot) <= Rise(names)
    ensures CodeRise(names, afterDot) == Rise(names) <==> Clear(names, afterDot)
    decreases |names|
  {
    if |names| > 1 { RisesLess(names[1..], !afterDot && names[0] == "."); }
  }

  /** Where a walk or a path ends. */
  ghost predicate EndsAt(a: Answer, depth: int) { a.At? && Depth(a.w.s, a.p.dentry) == depth }

  ghost predicate EndsAs(a: Answer, names: seq<string>, afterDot: bool, depth: nat)
    requires names != []
  {
    if Fails(names, afterDot) then a.Error? && a.code == NOTHING else EndsAt(a, depth + CodeRise(names, afterDot))
  }

  lemma {:induction false} WalkEnds(w: World, q: string, i: nat, p: Path, depth: nat)
    requires i <= |q| && CString(q) && Standing(w, p, depth) && depth > 0
    ensures EndsAs(Walk(w, Plain(), q, i, p, false), Names(q, i), false, depth)
    decreases |q| - i, 2
  {
    hide EndsAs;
    hide Standing;
    hide Descend;
    hide Parent;
    DotsEnds(w, q, i, p, depth);
    assert Cross(w, Plain(), p) == At(p, w);
    assert Walk(w, Plain(), q, i, p, false) == Finish(Dots(w, Plain(), q, i, p, false), Plain(), q);
  }

  /** Where a walk ends that looks the next name up, whatever it is. */
  ghost predicate EndsBelow(a: Answer, names: seq<string>, depth: nat)
    requires names != []
  {
    if IsDots(names[0]) || (names[0] == "" && |names| > 1) then a.Error? && a.code == NOTHING
    else if |names| == 1 then EndsAt(a, if names == [""] then depth else depth + 1)
    else EndsAs(a, names[1..], false, depth + 1)
  }

  lemma AfterDotEnds(a: Answer, names: seq<string>, depth: nat)
    requires |names| > 1 && names[0] == "." && EndsBelow(a, names[1..], depth)
    ensures EndsAs(a, names, false, depth)
  {
    hide EndsAt;
    var rest := names[1..];
    assert Fails(names, false) == Fails(rest, true) && CodeRise(names, false) == CodeRise(rest, true);
    if |rest| > 1 {
      assert Fails(rest, true) == (IsDots(rest[0]) || rest[0] == "" || Fails(rest[1..], false));
      assert CodeRise(rest, true) == 1 + CodeRise(rest[1..], false);
    }
  }

  /** After ".." the name is not advanced: it is looked up in the parent. */
  lemma DottedEnds(a: Answer, names: seq<string>, depth: nat)
    requires names != [] && Dotted(names[0]) && names != [".."] && depth > 0 && EndsBelow(a, names, depth - 1)
    ensures EndsAs(a, names, false, depth)
  {
    hide EndsAt;
  }

  lemma PlainEnds(a: Answer, names: seq<string>, depth: nat)
    requires names != [] && !Dotted(names[0]) && names[0] != "." && EndsBelow(a, names, depth)
    ensures EndsAs(a, names, false, depth)
  {
    hide EndsAt;
  }

  lemma {:induction false} DotsEnds(w: World, q: string, i: nat, p: Path, depth: nat)
    requires i <= |q| && CString(q) && Standing(w, p, depth) && depth > 0
    ensures EndsAs(Finish(Dots(w, Plain(), q, i, p, false), Plain(), q), Names(q, i), false, depth)
    decreases |q| - i, 1
  {
    hide Walk;
    hide Descend;
    hide Parent;
    hide Standing;
    hide EndsBelow;
    hide EndsAs;
    hide Dotted;
    FirstName(q, i);
    var names := Names(q, i);
    if CharAt(q, i) == '.' && CharAt(q, i + 1) == '/' {
      assert names[1..] == Names(q, i + 2);
      DescendEnds(w, q, i + 2, p, depth);
      AfterDotEnds(Finish(Descend(w, Plain(), q, i + 2, p, false), Plain(), q), names, depth);
    } else if CharAt(q, i) == '.' && CharAt(q, i + 1) == '.' {
      ParentUp(w, p, depth);
      var a := Parent(w, Plain(), p);
      if CharAt(q, i + 2) == NUL {
        StandingEnds(a.w, a.p, names, depth - 1);
      } else {
        DescendEnds(a.w, q, i, a.p, depth - 1);
        DottedEnds(Finish(Descend(a.w, Plain(), q, i, a.p, false), Plain(), q), names, depth);
      }
    } else if CharAt(q, i) != NUL && !(CharAt(q, i) == '.' && CharAt(q, i + 1) == NUL) {
      DescendEnds(w, q, i, p, depth);
      PlainEnds(Finish(Descend(w, Plain(), q, i, p, false), Plain(), q), names, depth);
    } else {
      StandingEnds(w, p, names, depth);
    }
  }

  lemma StandingEnds(w: World, p: Path, names: seq<string>, depth: nat)
    requires Standing(w, p, depth) && (names == [""] || names == ["."] || names == [".."])
    ensures EndsAs(At(p, w), names, false, if names == [".."] then depth + 1 else depth)
  {
  }

  lemma StandsDepth(w: World, p: Path, depth: nat)
    requires Standing(w, p, depth)
    ensures Depth(w.s, p.dentry) == depth
  {
  }

  lemma {:induction false} DescendEnds(w: World, q: string, i: nat, p: Path, depth: nat)
    requires i <= |q| && CString(q) && Standing(w, p, depth)
    ensures EndsBelow(Finish(Descend(w, Plain(), q, i, p, false), Plain(), q), Names(q, i), depth)
    decreases |q| - i, 0
  {
    hide Walk;
    hide Child;
    hide EndsAs;
    hide Standing;
    hide Depth;
    StandsDepth(w, p, depth);
    var names := Names(q, i);
    match Slash(q, i)
    case None =>
      assert names == [q[i..]];
      ChildDown(w, p, depth, q[i..]);
      if !Odd(q[i..]) {
        var a := Child(w, Plain(), p, q[i..]);
        StandsDepth(a.w, a.p, depth + 1);
      }
    case Some(j) =>
      assert names[1..] == Names(q, j + 1);
      ChildDown(w, p, depth, q[i..j]);
      if !Odd(q[i..j]) {
        var a := Child(w, Plain(), p, q[i..j]);
        WalkEnds(a.w, q, j + 1, a.p, depth + 1);
      }
  }

  // ----- Where a path leads

  /** A path without ".." but at its end never leads up too far. */
  lemma {:induction false} ResolveEnds(w: World, p: Path, names: seq<string>, depth: nat, afterDot: bool)
    requires names != [] && Standing(w, p, depth) && depth > 0 && !Fails(names, afterDot)
    ensures EndsAt(Follow(w, Plain(), p, names), depth + Rise(names))
    ensures Resolve(w, Plain(), p, names) == Follow(w, Plain(), p, names)
    decreases |names|
  {
    hide Standing;
    hide Depth;
    hide Child;
    hide Parent;
    StandsDepth(w, p, depth);
    if names == [""] || names == ["."] {
    } else if names[0] == "." {
      ResolveEnds(w, p, names[1..], depth, true);
    } else if names[0] == ".." {
      ParentUp(w, p, depth);
      UpPlain(w, p, depth);
      var a := Parent(w, Plain(), p);
      StandsDepth(a.w, a.p, depth - 1);
    } else {
      ChildDown(w, p, depth, names[0]);
      var a := Child(w, Plain(), p, names[0]);
      StandsDepth(a.w, a.p, depth + 1);
      if |names| > 1 { ResolveEnds(a.w, a.p, names[1..], depth + 1, false); }
    }
  }

  lemma UpPlain(w: World, p: Path, depth: nat)
    requires Standing(w, p, depth) && depth > 0
    ensures Up(w, Plain(), p) == Parent(w, Plain(), p)
  {
    hide Good;
    hide Parent;
  }

  ghost predicate NotAsked(a: Answer) { a.Error? ==> a.code != NOTHING }

  lemma ChildNotAsked(w: World, p: Path, name: string)
    requires !Odd(name)
    ensures NotAsked(Child(w, Plain(), p, name))
  {
    hide D.Put;
    hide Put;
  }

  lemma UpNotAsked(w: World, p: Path)
    ensures !Up(w, Plain(), p).Error?
  {
    hide D.Put;
    hide Put;
  }

  /** Following a path never asks the file system for "", "." or "..". */
  lemma {:induction false} NeverAsked(w: World, p: Path, names: seq<string>)
    requires names != []
    ensures NotAsked(Follow(w, Plain(), p, names)) && NotAsked(Resolve(w, Plain(), p, names))
    decreases |names|
  {
    hide Child;
    hide Up;
    if |names| > 1 {
      var rest := names[1..];
      NeverAsked(w, p, rest);
      match Up(w, Plain(), p)
      case At(p1, w1) => NeverAsked(w1, p1, rest);
      case _ =>
    }
    UpNotAsked(w, p);
    if !Odd(names[0]) {
      ChildNotAsked(w, p, names[0]);
      var a := Child(w, Plain(), p, names[0]);
      if a.At? && |names| > 1 { NeverAsked(a.w, a.p, names[1..]); }
    }
  }

  /** A root with one directory below it, which is held. */
  function Small(): World
  {
    World(D.State(map[0 := D.Dentry("", "", 2, None, [1]), 1 := D.Dentry("a", "", 1, Some(0), [])], 2), map[])
  }

  lemma SmallStands()
    ensures Standing(Small(), Path(1, None), 1)
  {
    var s, h := Small().s, multiset{1} + multiset{0};
    assert D.NodeOk(s, 0) && D.NodeOk(s, 1) && D.Counted(s, h, 0) && D.Counted(s, h, 1);
    assert D.Inv(s, h);
    assert Depth(s, 0) == 0 && Depth(s, 1) == 1;
  }

  /** Any other path is resolved wrongly somewhere. */
  lemma Unclear(q: string, i: nat)
    requires i <= |q| && CString(q) && !Clear(Names(q, i), false)
    ensures Walk(Small(), Plain(), q, i, Path(1, None), false) != Resolve(Small(), Plain(), Path(1, None), Names(q, i))
  {
    hide Walk;
    hide Resolve;
    hide Follow;
    hide Small;
    hide Standing;
    hide Clear;
    var w, p, names := Small(), Path(1, None), Names(q, i);
    SmallStands();
    WalkEnds(w, q, i, p, 1);
    if Fails(names, false) {
      NeverAsked(w, p, names);
    } else {
      ResolveEnds(w, p, names, 1, false);
      RisesLess(names, false);
    }
  }

  // ----- Where nothing is mounted

  /** A path held in a tree in order, below a root, with nothing mounted. */
  ghost predicate Unmounted(w: World, env: Env, pins: multiset<nat>, h: multiset<nat>, hm: multiset<nat>, p: Path)
  {
    Held(w, env, pins, h, hm, p) && env.points == map[] && p.dentry in w.s.nodes && w.s.nodes[p.dentry].parent.Some?
  }

  lemma ChildBelow(w: World, env: Env, pins: multiset<nat>, h: multiset<nat>, hm: multiset<nat>, p: Path, name: string)
    requires Unmounted(w, env, pins, h, hm, p)
    ensures var a := Child(w, env, p, name); a.At? ==> Unmounted(a.w, env, pins, h, hm, a.p)
  {
    hide Held;
    hide Child;
    ChildHeld(w, env, pins, h, hm, p, name);
    ChildIs(w, env, pins, h, hm, p, name);
  }

  /** Where a last ".." is followed there is a parent. */
  lemma {:induction false} BelowRoot(w: World, env: Env, pins: multiset<nat>, h: multiset<nat>, hm: multiset<nat>,
                                     p: Path, names: seq<string>, afterDot: bool)
    requires names != [] && Clear(names, afterDot) && names[|names| - 1] == ".." && Unmounted(w, env, pins, h, hm, p)
    ensures LastRight(Follow(w, env, p, Init(names)), env, names)
    ensures Resolve(w, env, p, Init(names)) == Follow(w, env, p, Init(names))
    decreases |names|
  {
    hide Child;
    hide Held;
    if |names| > 1 {
      InitMore(names);
      if names[0] == "." {
        BelowRoot(w, env, pins, h, hm, p, names[1..], true);
      } else {
        ChildBelow(w, env, pins, h, hm, p, names[0]);
        var a := Child(w, env, p, names[0]);
        if a.At? { BelowRoot(a.w, env, pins, h, hm, a.p, names[1..], false); }
      }
      DeniedEnds(w, p);
    }
  }

  /** With nothing mounted, path_lookup finds what a path means, in every tree and with every file system, exactly for
      the paths in which no "." or ".." follows a ".", no other name starts with two dots but a last "..", and no slash
      is repeated. */
  lemma PathsMean(q: string, i: nat)
    requires i <= |q| && CString(q)
    ensures (forall w: World, env: Env, pins: multiset<nat>, h: multiset<nat>, hm: multiset<nat>, p: Path ::
               Unmounted(w, env, pins, h, hm, p) ==> Walk(w, env, q, i, p, false) == Resolve(w, env, p, Names(q, i)))
            <==> Clear(Names(q, i), false)
  {
    if Clear(Names(q, i), false) {
      forall w: World, env: Env, pins: multiset<nat>, h: multiset<nat>, hm: multiset<nat>, p: Path
        | Unmounted(w, env, pins, h, hm, p)
        ensures Walk(w, env, q, i, p, false) == Resolve(w, env, p, Names(q, i))
      {
        PathMeans(w, env, pins, h, hm, q, i, p);
      }
    } else {
      Unclear(q, i);
      SmallUnmounted();
    }
  }

  lemma SmallUnmounted()
    ensures Unmounted(Small(), Plain(), multiset{0}, multiset{}, multiset{}, Path(1, None))
  {
    SmallStands();
    StandingTree(Small(), Path(1, None), 1);
    hide Standing;
    hide Good;
  }

  lemma PathMeans(w: World, env: Env, pins: multiset<nat>, h: multiset<nat>, hm: multiset<nat>, q: string, i: nat, p: Path)
    requires i <= |q| && CString(q) && Clear(Names(q, i), false) && Unmounted(w, env, pins, h, hm, p)
    ensures Walk(w, env, q, i, p, false) == Resolve(w, env, p, Names(q, i))
  {
    hide Walk;
    hide Resolve;
    hide Follow;
    hide Clear;
    WalkMeans(w, env, pins, h, hm, q, i, p);
    var names := Names(q, i);
    if names[|names| - 1] == ".." { BelowRoot(w, env, pins, h, hm, p, names, false); }
  }

  // ----- Where a path starts

  lemma StartHeld(w: World, env: Env, pins: multiset<nat>, h: multiset<nat>, hm: multiset<nat>, p: Path)
    requires Good(w, env, pins, h, hm) && MountsOk(env) && (p == Path(env.vfsRoot, None) || p == env.cwd)
    ensures p.dentry in w.s.nodes && Held(Copy(w, p), env, pins, h, hm, p)
  {
    StartHere(w, env, pins, h, hm);
    CopyGood(w, env, pins, h, hm, p);
    hide Good;
    hide Copy;
  }

  /** A path that starts with a slash means what the names after it mean from the root: path_lookup finds that where
      the walk does, and with WP_PARENT the directory of the last name. */
  lemma LookupAbsolute(w: World, env: Env, pins: multiset<nat>, h: multiset<nat>, hm: multiset<nat>, q: string)
    requires Good(w, env, pins, h, hm) && MountsOk(env) && CString(q) && 0 < |q| <= 511 && q[0] == '/'
    requires Clear(Names(q, 1), false)
    ensures env.vfsRoot in w.s.nodes
    ensures var root, names := Path(env.vfsRoot, None), Names(q, 1);
            var w1 := Copy(w, root);
            var a := Resolve(w1, env, root, Init(names));
            && (Lookup(w, env, Some(q), false) == Resolve(w1, env, root, names) <==> LastRight(a, env, names))
            && Lookup(w, env, Some(q), true) == LastParent(a, env, names[|names| - 1])
  {
    hide Good;
    hide Walk;
    hide Resolve;
    hide Copy;
    hide Clear;
    var root := Path(env.vfsRoot, None);
    StartHeld(w, env, pins, h, hm, root);
    WalkMeans(Copy(w, root), env, pins, h, hm, q, 1, root);
    ParentMeans(Copy(w, root), env, pins, h, hm, q, 1, root);
  }

  /** Any other path means what its names mean from the working directory. */
  lemma LookupRelative(w: World, env: Env, pins: multiset<nat>, h: multiset<nat>, hm: multiset<nat>, q: string)
    requires Good(w, env, pins, h, hm) && MountsOk(env) && CString(q) && |q| <= 511 && (q == "" || q[0] != '/')
    requires Clear(Names(q, 0), false)
    ensures env.cwd.dentry in w.s.nodes
    ensures var names, w1 := Names(q, 0), Copy(w, env.cwd);
            var a := Resolve(w1, env, env.cwd, Init(names));
            && (Lookup(w, env, Some(q), false) == Resolve(w1, env, env.cwd, names) <==> LastRight(a, env, names))
            && Lookup(w, env, Some(q), true) == LastParent(a, env, names[|names| - 1])
  {
    hide Good;
    hide Walk;
    hide Resolve;
    hide Copy;
    hide Clear;
    StartHeld(w, env, pins, h, hm, env.cwd);
    WalkMeans(Copy(w, env.cwd), env, pins, h, hm, q, 0, env.cwd);
    ParentMeans(Copy(w, env.cwd), env, pins, h, hm, q, 0, env.cwd);
  }

  /** No name is an error, and so is one of more than 511 characters; nothing is held then. */
  lemma LookupRefused(w: World, env: Env, q: string, parentOnly: bool)
    ensures Lookup(w, env, None, parentOnly) == Error(D.ENOENT, w)
    ensures |q| > 511 ==> Lookup(w, env, Some(q), parentOnly) == Error(ENAMETOOLONG, w)
  {
  }

  /** The walk does not depend on root and working directory. */
  lemma {:induction false} WalkAnywhere(w: World, env: Env, root: nat, cwd: Path, q: string, i: nat, p: Path, parentOnly: bool)
    requires i <= |q|
    ensures Walk(w, env.(vfsRoot := root, cwd := cwd), q, i, p, parentOnly) == Walk(w, env, q, i, p, parentOnly)
    decreases |q| - i
  {
    var env' := env.(vfsRoot := root, cwd := cwd);
    StepAnywhere(w, env, root, cwd, q, i, p, parentOnly);
    hide Step;
    hide Parent;
    match Step(w, env, q, i, p, parentOnly)
    case Stop(_) =>
    case Break(p1, w1) => ParentAnywhere(w1, env, root, cwd, p1);
    case Go(j, p1, w1) => WalkAnywhere(w1, env, root, cwd, q, j, p1, parentOnly);
  }

  lemma StepAnywhere(w: World, env: Env, root: nat, cwd: Path, q: string, i: nat, p: Path, parentOnly: bool)
    requires i <= |q|
    ensures Step(w, env.(vfsRoot := root, cwd := cwd), q, i, p, parentOnly) == Step(w, env, q, i, p, parentOnly)
  {
    hide Parent;
    hide Child;
    hide Put;
    forall w1, p1, name ensures Child(w1, env.(vfsRoot := root, cwd := cwd), p1, name) == Child(w1, env, p1, name) {
      ChildAnywhere(w1, env, root, cwd, p1, name);
    }
    forall w1, p1 ensures Parent(w1, env.(vfsRoot := root, cwd := cwd), p1) == Parent(w1, env, p1) {
      ParentAnywhere(w1, env, root, cwd, p1);
    }
  }

  lemma ChildAnywhere(w: World, env: Env, root: nat, cwd: Path, p: Path, name: string)
    ensures Child(w, env.(vfsRoot := root, cwd := cwd), p, name) == Child(w, env, p, name)
  {
    hide Put;
    hide D.Put;
    hide D.Lookup;
  }

  lemma ParentAnywhere(w: World, env: Env, root: nat, cwd: Path, p: Path)
    ensures Parent(w, env.(vfsRoot := root, cwd := cwd), p) == Parent(w, env, p)
  {
    hide Put;
    hide Copy;
    hide D.Put;
  }

  /** So an absolute path leads to the same from every working directory, and a relative one under every root. */
  lemma StartOnly(w: World, env: Env, root: nat, cwd: Path, q: string, parentOnly: bool)
    ensures q != "" && q[0] == '/' ==>
              Lookup(w, env.(cwd := cwd), Some(q), parentOnly) == Lookup(w, env, Some(q), parentOnly)
    ensures q == "" || q[0] != '/' ==>
              Lookup(w, env.(vfsRoot := root), Some(q), parentOnly) == Lookup(w, env, Some(q), parentOnly)
  {
    hide Walk;
    hide Copy;
    if |q| <= 511 {
      if q != "" && q[0] == '/' {
        var p := Path(env.vfsRoot, None);
        if p.dentry in w.s.nodes { WalkAnywhere(Copy(w, p), env, env.vfsRoot, cwd, q, 1, p, parentOnly); }
      } else if env.cwd.dentry in w.s.nodes {
        WalkAnywhere(Copy(w, env.cwd), env, root, env.cwd, q, 0, env.cwd, parentOnly);
      }
    }
  }

  /** "/" is the root and "." the working directory, or what is mounted there. */
  lemma HereAndRoot(w: World, env: Env, pins: multiset<nat>, h: multiset<nat>, hm: multiset<nat>)
    requires Good(w, env, pins, h, hm) && MountsOk(env)
    ensures env.vfsRoot in w.s.nodes && env.cwd.dentry in w.s.nodes
    ensures Lookup(w, env, Some("/"), false) == Cross(Copy(w, Path(env.vfsRoot, None)), env, Path(env.vfsRoot, None))
    ensures Lookup(w, env, Some("."), false) == Cross(Copy(w, env.cwd), env, env.cwd)
  {
    hide Good;
    hide Copy;
    hide Cross;
    hide Lookup;
    hide LastRight;
    hide LastParent;
    hide Resolve;
    hide Names;
    hide Init;
    OneName();
    LookupAbsolute(w, env, pins, h, hm, "/");
    LookupRelative(w, env, pins, h, hm, ".");
    var root := Path(env.vfsRoot, None);
    EndsHere(Copy(w, root), env, root);
    EndsHere(Copy(w, env.cwd), env, env.cwd);
  }

  lemma OneName()
    ensures Names("/", 1) == [""] && Names(".", 0) == ["."] && Clear([""], false) && Clear(["."], false)
    ensures Init([""]) == [""] && Init(["."]) == [""]
  {
    assert Slash("/", 1) == None && "/"[1..] == "" && Slash(".", 0) == None && "."[0..] == ".";
  }

  lemma EndsHere(w: World, env: Env, p: Path)
    ensures Resolve(w, env, p, [""]) == Cross(w, env, p) && Resolve(w, env, p, ["."]) == Cross(w, env, p)
    ensures var a := Resolve(w, env, p, [""]); LastRight(a, env, [""]) && LastRight(a, env, ["."])
  {
    hide Cross;
  }

  // ----- Where something is mounted

  /** With a slash or "/." at its end such a path is found in every tree. */
  lemma LastSeen(w: World, env: Env, pins: multiset<nat>, h: multiset<nat>, hm: multiset<nat>, q: string, i: nat, p: Path)
    requires i <= |q| && CString(q) && Clear(Names(q, i), false) && Held(w, env, pins, h, hm, p)
    requires var names := Names(q, i); names[|names| - 1] == "" || names[|names| - 1] == "."
    ensures Walk(w, env, q, i, p, false) == Resolve(w, env, p, Names(q, i))
  {
    WalkMeans(w, env, pins, h, hm, q, i, p);
    hide Walk;
    hide Resolve;
  }

  /** A name and its entry, on which something is mounted, in a directory that may be searched. */
  ghost predicate MountBelow(w: World, env: Env, p: Path, name: string)
  {
    && CString(name) && '/' !in name && !Odd(name) && !Dotted(name) && name[0] != '.'
    && !Covered(env, p.dentry) && env.access(p.dentry)
    && var a := Child(w, env, p, name);
       && a.At? && Covered(env, a.p.dentry)
       && var b := Cross(a.w, env, a.p); b.At? ==> b.p.dentry in b.w.s.nodes && b.w.s.nodes[b.p.dentry].parent.None?
  }

  /** A mount point is found itself, not what is mounted there. */
  lemma MountMissed(w: World, env: Env, pins: multiset<nat>, h: multiset<nat>, hm: multiset<nat>, p: Path, name: string)
    requires Held(w, env, pins, h, hm, p) && MountBelow(w, env, p, name)
    ensures Walk(w, env, name, 0, p, false) == Child(w, env, p, name) != Resolve(w, env, p, [name])
  {
    hide Held;
    hide Child;
    hide Resolve;
    assert Slash(name, 0) == None && Names(name, 0) == [name] && name[0..] == name && Init([name]) == [""];
    CrossMoves(w, env, p);
    WalkMeans(w, env, pins, h, hm, name, 0, p);
    ResolveHere(w, env, p);
    assert Descend(w, env, name, 0, p, false) == Break(Child(w, env, p, name).p, Child(w, env, p, name).w);
  }

  /** And ".." from it leads to the mount point, not above it. */
  lemma MountNotLeft(w: World, env: Env, pins: multiset<nat>, h: multiset<nat>, hm: multiset<nat>, p: Path, name: string)
    requires Held(w, env, pins, h, hm, p) && MountBelow(w, env, p, name)
    ensures var a, q := Child(w, env, p, name), name + "/..";
            && Walk(w, env, q, 0, p, false).At? && Walk(w, env, q, 0, p, false).p == env.points[a.p.dentry].at
            && Walk(w, env, q, 0, p, false) != Resolve(w, env, p, [name, ".."])
  {
    hide Held;
    hide Child;
    hide Follow;
    hide Walk;
    hide Parent;
    var a, q := Child(w, env, p, name), name + "/..";
    assert q[..|name|] == name && q[|name| + 1..] == "..";
    TwoNames(q, |name|);
    TwoClear(q, |name|);
    ChildHeld(w, env, pins, h, hm, p, name);
    CrossHeld(a.w, env, pins, h, hm, a.p);
    var b := Cross(a.w, env, a.p);
    ParentHeld(b.w, env, pins, h, hm, b.p);
    RootKnows(w, env, pins, h, hm, p, a.p.dentry);
    TwoSteps(w, env, q, |name|, p);
    WalkMeans(w, env, pins, h, hm, q, 0, p);
    assert Init([name, ".."]) == [name, ""];
  }

  lemma RootKnows(w: World, env: Env, pins: multiset<nat>, h: multiset<nat>, hm: multiset<nat>, p: Path, d: nat)
    requires Held(w, env, pins, h, hm, p) && Covered(env, d)
    ensures env.roots[env.points[d].mount] in env.points && env.points[env.roots[env.points[d].mount]] == env.points[d]
  {
  }

  /** A walk over a name, where mounts are crossed, and "..". */
  lemma TwoSteps(w: World, env: Env, q: string, j: nat, p: Path)
    requires 0 < j && |q| == j + 3 && CString(q) && q[0] != '.' && q[j] == '/' && q[j + 1] == '.' && q[j + 2] == '.'
    requires (forall i :: 0 <= i < |q| && i != j ==> q[i] != '/') && !Covered(env, p.dentry) && env.access(p.dentry)
    requires Child(w, env, p, q[..j]).At?
    ensures var a := Child(w, env, p, q[..j]);
            && (Cross(a.w, env, a.p).At? ==>
                  var b := Cross(a.w, env, a.p);
                  && Walk(w, env, q, 0, p, false) == Parent(b.w, env, b.p)
                  && Resolve(w, env, p, [q[..j], ""]) == b)
  {
    hide Child;
    hide Parent;
    hide Put;
    hide Copy;
    CrossMoves(w, env, p);
    assert Slash(q, 0) == Some(j) && q[0..j] == q[..j];
    var a := Child(w, env, p, q[..j]);
    assert Descend(w, env, q, 0, p, false) == Go(j + 1, a.p, a.w);
    assert Walk(w, env, q, 0, p, false) == Walk(a.w, env, q, j + 1, a.p, false);
    assert q[..j][0] == q[0];
    NameThenHere(w, env, p, q[..j]);
    hide Walk;
    hide Resolve;
  }

  lemma NameThenHere(w: World, env: Env, p: Path, name: string)
    requires !Odd(name) && !Covered(env, p.dentry) && env.access(p.dentry) && Child(w, env, p, name).At?
    ensures var a := Child(w, env, p, name); Resolve(w, env, p, [name, ""]) == Cross(a.w, env, a.p)
  {
    hide Child;
    CrossMoves(w, env, p);
    hide Cross;
    var a, names := Child(w, env, p, name), [name, ""];
    assert names[1..] == [""] && |names| == 2 && names[0] == name;
    ResolveEnd(a.w, env, a.p);
    assert Follow(w, env, p, names) == Onward(a, env, names) == Resolve(a.w, env, a.p, names[1..]);
  }

  lemma ResolveEnd(w: World, env: Env, p: Path)
    ensures Resolve(w, env, p, [""]) == Cross(w, env, p)
  {
    hide Cross;
  }

  /** A directory "m" below the root, and the root of a file system mounted on it. */
  function MountedEnv(): Env
  {
    var point := Point(Path(1, None), 7);
    Env(map[1 := point, 2 := point], map[7 := 2], 0, Path(0, None), (d, n) => D.Reply(0, ""), d => true)
  }

  function MountedTree(): D.State
  {
    D.State(map[0 := D.Dentry("", "", 3, None, [1]), 1 := D.Dentry("m", "", 1, Some(0), []),
                2 := D.Dentry("", "", 1, None, [])], 3)
  }

  lemma MountedInv(h: multiset<nat>)
    requires h[0] == 2 && h[1] == 1 && h[2] == 1 && forall d :: d in h ==> d < 3
    ensures D.Inv(MountedTree(), h)
  {
    var s := MountedTree();
    assert D.NodeOk(s, 0) && D.NodeOk(s, 1) && D.NodeOk(s, 2);
    assert D.Counted(s, h, 0) && D.Counted(s, h, 1) && D.Counted(s, h, 2);
  }

  lemma MountedHeld(pins: multiset<nat>)
    requires pins[0] == 1 && pins[1] == 1 && pins[2] == 1 && forall d :: d in pins ==> d < 3
    ensures Held(World(MountedTree(), map[7 := 1]), MountedEnv(), pins, multiset{}, multiset{7}, Path(0, None))
  {
    hide MountedTree;
    hide MountedEnv;
    hide EnvOk;
    hide TreeOk;
    hide MountsOk;
    hide MountsCounted;
    MountedTreeOk(pins);
    MountedPoints();
    PointsOk(MountedEnv(), pins);
    MountedCounts();
    assert map[7 := 1].Keys == {7};
  }

  lemma MountedTreeOk(pins: multiset<nat>)
    requires pins[0] == 1 && pins[1] == 1 && pins[2] == 1 && forall d :: d in pins ==> d < 3
    ensures TreeOk(MountedTree(), pins, multiset{} + multiset{0})
  {
    MountedInv(multiset{} + multiset{0} + pins);
    assert D.Anchored(MountedTree(), pins);
    hide D.Inv;
    hide D.Anchored;
  }

  lemma MountedPoints()
    ensures var env, point := MountedEnv(), Point(Path(1, None), 7);
            && env.points.Keys == {1, 2} && env.points[1] == point && env.points[2] == point
            && env.roots.Keys == {7} && env.roots[7] == 2 && env.vfsRoot == 0 && env.cwd == Path(0, None)
  {
  }

  lemma PointsOk(env: Env, pins: multiset<nat>)
    requires env.points.Keys == {1, 2} && env.roots.Keys == {7} && env.roots[7] == 2
    requires env.points[1] == env.points[2] == Point(Path(1, None), 7) && env.vfsRoot == 0 && env.cwd == Path(0, None)
    requires 0 in pins && 1 in pins && 2 in pins
    ensures EnvOk(env, pins, {7}) && MountsOk(env)
  {
    assert (forall d :: d in env.points ==> d == 1 || d == 2) && forall m :: m in env.roots ==> m == 7 by {
      assert forall d :: d in env.points <==> d in env.points.Keys;
      assert forall m :: m in env.roots <==> m in env.roots.Keys;
    }
    EnvPoints(env, pins);
    hide EnvOk;
  }

  lemma EnvPoints(env: Env, pins: multiset<nat>)
    requires (forall d :: d in env.points ==> env.points[d] == Point(Path(1, None), 7)) && env.vfsRoot == 0
    requires (forall m :: m in env.roots ==> m == 7 && env.roots[m] == 2) && 7 in env.roots && env.cwd == Path(0, None)
    requires 0 in pins && 1 in pins && 2 in pins
    ensures EnvOk(env, pins, {7})
  {
  }

  lemma MountedCounts()
    ensures MountsCounted(World(MountedTree(), map[7 := 1]), multiset{7} + One(None))
  {
    assert multiset{7} + One(None) == multiset{7};
  }

  /** A tree with a mount in which this happens. */
  lemma MountExists() returns (w: World, env: Env, pins: multiset<nat>)
    ensures Held(w, env, pins, multiset{}, multiset{7}, Path(0, None)) && MountBelow(w, env, Path(0, None), "m")
  {
    w, env, pins := World(MountedTree(), map[7 := 1]), MountedEnv(), multiset{0, 1, 2};
    MountedHeld(pins);
    MountedSteps(w, env, pins);
  }

  lemma MountedSteps(w: World, env: Env, pins: multiset<nat>)
    requires w == World(MountedTree(), map[7 := 1]) && env == MountedEnv()
    requires Held(w, env, pins, multiset{}, multiset{7}, Path(0, None)) && 2 in pins
    ensures MountBelow(w, env, Path(0, None), "m")
  {
    hide Held;
    hide D.Put;
    var p, s := Path(0, None), w.s;
    assert s.nodes[0].children[0] == 1 && D.ChildNamed(s, s.nodes[0].children, "m") == Some(1);
    ChildHeld(w, env, pins, multiset{}, multiset{7}, p, "m");
    var a := Child(w, env, p, "m");
    assert a.p == Path(1, None);
    CrossHeld(a.w, env, pins, multiset{}, multiset{7}, a.p);
    var b := Cross(a.w, env, a.p);
    assert Covered(env, 1) && b.p == Path(2, Some(7)) by { hide Put; }
    SameParents(w, env, pins, multiset{}, multiset{7}, p, "m", 2);
    hide Child;
    hide Cross;
  }

  /** Going to a child and across a mount leaves the parents of entries that are held throughout. */
  lemma SameParents(w: World, env: Env, pins: multiset<nat>, h: multiset<nat>, hm: multiset<nat>, p: Path, name: string, d: nat)
    requires Held(w, env, pins, h, hm, p) && d in pins && Child(w, env, p, name).At?
    ensures d in w.s.nodes
    ensures var a := Child(w, env, p, name);
            && d in a.w.s.nodes && a.w.s.nodes[d].parent == w.s.nodes[d].parent
            && var b := Cross(a.w, env, a.p); b.At? && d in b.w.s.nodes && b.w.s.nodes[d].parent == w.s.nodes[d].parent
  {
    hide Held;
    hide Child;
    hide Cross;
    ChildHeld(w, env, pins, h, hm, p, name);
    var a := Child(w, env, p, name);
    CrossHeld(a.w, env, pins, h, hm, a.p);
    PinHere(w, env, pins, h, hm, p, d);
    PinHere(a.w, env, pins, h, hm, a.p, d);
    var b := Cross(a.w, env, a.p);
    PinHere(b.w, env, pins, h, hm, b.p, d);
    ChildParents(w, env, pins, h, hm, p, name);
    CrossParents(a.w, env, pins, h, hm, a.p);
  }

  lemma PinHere(w: World, env: Env, pins: multiset<nat>, h: multiset<nat>, hm: multiset<nat>, p: Path, d: nat)
    requires Held(w, env, pins, h, hm, p) && d in pins
    ensures d in w.s.nodes
  {
    Here(w.s, pins, h + multiset{p.dentry}, d);
  }

  lemma ChildParents(w: World, env: Env, pins: multiset<nat>, h: multiset<nat>, hm: multiset<nat>, p: Path, name: string)
    requires Held(w, env, pins, h, hm, p)
    ensures var a := Child(w, env, p, name);
            a.At? ==> forall e :: e in w.s.nodes && e in a.w.s.nodes ==> a.w.s.nodes[e].parent == w.s.nodes[e].parent
  {
    hide D.Put;
    HeldInv(w, env, pins, h, hm, p);
    hide Held;
    var all, reply := h + multiset{p.dentry} + pins, env.fs(p.dentry, name);
    if p.dentry in w.s.nodes && Child(w, env, p, name).At? {
      D.LookupKeeps(w.s, all, p.dentry, name, reply);
      var b := D.Lookup(w.s, p.dentry, name, reply);
      D.PutKeeps(b.s, all + multiset{b.d}, p.dentry);
      hide D.Lookup;
      hide D.Inv;
    }
  }

  lemma CrossParents(w: World, env: Env, pins: multiset<nat>, h: multiset<nat>, hm: multiset<nat>, p: Path)
    requires Held(w, env, pins, h, hm, p)
    ensures var a := Cross(w, env, p);
            a.At? ==> forall e :: e in w.s.nodes && e in a.w.s.nodes ==> a.w.s.nodes[e].parent == w.s.nodes[e].parent
  {
    hide Held;
    hide Put;
    hide Copy;
    hide D.Inv;
    HeldInv(w, env, pins, h, hm, p);
    PutParents(w, h + multiset{p.dentry} + pins, p);
    if Covered(env, p.dentry) && Put(w, p).Some? {
      var w1, m := Put(w, p).value, env.points[p.dentry].mount;
      var q := Path(env.roots[m], Some(m));
      if q.dentry in w1.s.nodes { CopyParents(w1, q); }
    }
  }

  lemma CopyParents(w: World, p: Path)
    requires p.dentry in w.s.nodes
    ensures var s := Copy(w, p).s;
            s.nodes.Keys == w.s.nodes.Keys && forall e :: e in s.nodes ==> s.nodes[e].parent == w.s.nodes[e].parent
  {
  }

  lemma PutParents(w: World, h: multiset<nat>, p: Path)
    requires D.Inv(w.s, h) && p.dentry in h
    ensures Put(w, p).Some? ==> forall e :: e in Put(w, p).value.s.nodes ==>
              e in w.s.nodes && Put(w, p).value.s.nodes[e].parent == w.s.nodes[e].parent
  {
    hide D.Inv;
    hide D.Put;
    D.PutKeeps(w.s, h, p.dentry);
  }

  lemma HeldInv(w: World, env: Env, pins: multiset<nat>, h: multiset<nat>, hm: multiset<nat>, p: Path)
    requires Held(w, env, pins, h, hm, p)
    ensures D.Inv(w.s, h + multiset{p.dentry} + pins)
  {
  }

  lemma ResolveHere(w: World, env: Env, p: Path)
    requires !Covered(env, p.dentry)
    ensures Resolve(w, env, p, [""]) == At(p, w)
  {
    CrossMoves(w, env, p);
  }

  // ----- Examples

  /** In a tree with nothing mounted the path is not resolved as it should be. */
  ghost predicate GoesWrong(q: string)
  {
    CString(q) && Walk(Small(), Plain(), q, 0, Path(1, None), false) != Resolve(Small(), Plain(), Path(1, None), Names(q, 0))
  }

  /** Paths it gets wrong: "../x" and "..foo" and all that start with two dots and go on, all that start with "./"
      twice, and all with two slashes in a row. */
  lemma WrongPaths(rest: string, before: string)
    requires CString(rest) && CString(before)
    ensures (rest != "" ==> GoesWrong(".." + rest)) && GoesWrong("././" + rest) && GoesWrong(before + "//" + rest)
  {
    hide Walk;
    hide Resolve;
    hide Small;
    hide Clear;
    if rest != "" { DotsUnclear(rest); Unclear(".." + rest, 0); }
    TwiceDot(rest);
    Unclear("././" + rest, 0);
    var q := before + "//" + rest;
    assert q[|before|] == '/' && q[|before| + 1] == '/';
    TwoSlashes(q, 0, |before|, false);
    Unclear(q, 0);
  }

  lemma DotsUnclear(rest: string)
    requires CString(rest) && rest != ""
    ensures !Clear(Names(".." + rest, 0), false)
  {
    var q := ".." + rest;
    assert q[2] == rest[0];
    FirstName(q, 0);
    hide Names;
  }

  lemma {:induction false} TwoSlashes(q: string, i: nat, j: nat, afterDot: bool)
    requires i <= j && j + 1 < |q| && q[j] == '/' && q[j + 1] == '/'
    ensures !Clear(Names(q, i), afterDot)
    decreases j - i
  {
    var k := Slash(q, i).value;
    var names := Names(q, i);
    assert names[1..] == Names(q, k + 1);
    if k < j {
      TwoSlashes(q, k + 1, j, !afterDot && names[0] == ".");
    } else {
      assert Slash(q, k + 1) == Some(k + 1) && Names(q, k + 1)[0] == "";
    }
  }

  lemma TwiceDot(rest: string)
    requires CString(rest)
    ensures !Clear(Names("././" + rest, 0), false)
  {
    var q := "././" + rest;
    assert q[0] == '.' && q[1] == '/' && q[2] == '.' && q[3] == '/';
    assert Slash(q, 0) == Some(1);
    assert q[0..1] == "." && Names(q, 0)[1..] == Names(q, 2);
    FirstName(q, 2);
  }

  /** Paths with dots that it gets right where nothing is mounted: any "./" and a name without dots, ".." or "." at the
      end, and a name that starts with one dot. */
  lemma RightPaths(name: string)
    requires name != "" && name[0] != '.' && '/' !in name
    ensures Clear(Names("./" + name, 0), false) && Clear(Names("." + name, 0), false)
    ensures Clear(Names(name + "/..", 0), false) && Clear(Names(name + "/.", 0), false)
  {
    TwoClear("./" + name, 1);
    assert Slash("." + name, 0) == None && Names("." + name, 0) == ["." + name];
    assert (name + "/..")[..|name|] == name && (name + "/.")[..|name|] == name;
    TwoClear(name + "/..", |name|);
    TwoClear(name + "/.", |name|);
  }

  lemma TwoClear(q: string, j: nat)
    requires j < |q| && q[j] == '/' && forall i :: 0 <= i < |q| && i != j ==> q[i] != '/'
    requires var a, b := q[..j], q[j + 1..];
             a != "" && !Dotted(a) && if a == "." then !IsDots(b) else Dotted(b) ==> b == ".."
    ensures Clear(Names(q, 0), false)
  {
    TwoNames(q, j);
  }

  lemma TwoNames(q: string, j: nat)
    requires j < |q| && q[j] == '/' && forall i :: 0 <= i < |q| && i != j ==> q[i] != '/'
    ensures Names(q, 0) == [q[..j], q[j + 1..]] && Names(q, 0)[1..] == [q[j + 1..]]
  {
    assert Slash(q, 0) == Some(j) && Slash(q, j + 1) == None;
  }
}
