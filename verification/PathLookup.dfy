/** The loop of path_lookup over the characters of a name (kernel/src/fs.c). */
module PathLookup {
  import opened Options
  import opened Paths
  import D = Dentries

  const NUL: char := '\0'

  /** The character of a C string at an index; its end reads as the terminator. */
  function CharAt(q: string, i: nat): char
  {
    if i < |q| then q[i] else NUL
  }

  predicate CString(q: string) { forall i :: 0 <= i < |q| ==> q[i] != NUL }

  /** strchr for a slash */
  function Slash(q: string, i: nat): (r: Option<nat>)
    requires i <= |q|
    ensures r.Some? ==> i <= r.value < |q| && q[r.value] == '/' && forall j :: i <= j < r.value ==> q[j] != '/'
    ensures r.None? ==> forall j :: i <= j < |q| ==> q[j] != '/'
    decreases |q| - i
  {
    if i == |q| then None else if q[i] == '/' then Some(i) else Slash(q, i + 1)
  }

  // ----- One turn of the loop

  /** The walk ends with an answer, ends where it is, or goes on at a later character. */
  datatype Turn = Stop(a: Answer) | Break(p: Path, w: World) | Go(i: nat, p: Path, w: World)

  /** From the check of permissions on. */
  function Descend(w: World, env: Env, q: string, i: nat, p: Path, parentOnly: bool): (r: Turn)
    requires i <= |q|
    ensures r.Go? ==> i < r.i <= |q|
  {
    if !env.access(p.dentry) then
      match Put(w, p)
      case None => Stop(Fault)
      case Some(w1) => Stop(Error(EACCES, w1))
    else
      match Slash(q, i)
      case None =>
        if i == |q| then Break(p, w)
        else if parentOnly then Stop(At(p, w))
        else
          (match Child(w, env, p, q[i..])
           case At(p1, w1) => Break(p1, w1)
           case other => Stop(other))
      case Some(j) =>
        match Child(w, env, p, q[i..j])
        case At(p1, w1) => Go(j + 1, p1, w1)
        case other => Stop(other)
  }

  /** From the test for a dot on. */
  function Dots(w: World, env: Env, q: string, i: nat, p: Path, parentOnly: bool): (r: Turn)
    requires i <= |q|
    ensures r.Go? ==> i < r.i <= |q|
  {
    if CharAt(q, i) == '.' && CharAt(q, i + 1) == '/' then Descend(w, env, q, i + 2, p, parentOnly)
    else if CharAt(q, i) == '.' && CharAt(q, i + 1) == '.' then
      match Parent(w, env, p)
      case At(p1, w1) => if CharAt(q, i + 2) == NUL then Break(p1, w1) else Descend(w1, env, q, i, p1, parentOnly)
      case other => Stop(other)
    else if (CharAt(q, i) == '.' && CharAt(q, i + 1) == NUL) || CharAt(q, i) == NUL then Break(p, w)
    else Descend(w, env, q, i, p, parentOnly)
  }

  function Step(w: World, env: Env, q: string, i: nat, p: Path, parentOnly: bool): (r: Turn)
    requires i <= |q|
    ensures r.Go? ==> i < r.i <= |q|
  {
    match Cross(w, env, p)
    case At(p1, w1) => Dots(w1, env, q, i, p1, parentOnly)
    case other => Stop(other)
  }

  function Walk(w: World, env: Env, q: string, i: nat, p: Path, parentOnly: bool): Answer
    requires i <= |q|
    decreases |q| - i
  {
    match Step(w, env, q, i, p, parentOnly)
    case Stop(a) => a
    case Break(p1, w1) => if parentOnly then Parent(w1, env, p1) else At(p1, w1)
    case Go(j, p1, w1) => Walk(w1, env, q, j, p1, parentOnly)
  }

  /** path_lookup; `None` is the null name. */
  function Lookup(w: World, env: Env, name: Option<string>, parentOnly: bool): Answer
  {
    if name.None? then Error(D.ENOENT, w)
    else if |name.value| > 511 then Error(ENAMETOOLONG, w)
    else
      var q := name.value;
      var start := if CharAt(q, 0) == '/' then Path(env.vfsRoot, None) else env.cwd;
      if start.dentry !in w.s.nodes then Fault
      else Walk(Copy(w, start), env, q, if CharAt(q, 0) == '/' then 1 else 0, start, parentOnly)
  }

  // ----- References are balanced

  ghost predicate TurnBalanced(r: Turn, w: World, env: Env, pins: multiset<nat>, h: multiset<nat>, hm: multiset<nat>, short: bool)
  {
    match r
    case Stop(a) => Balanced(a, w, env, pins, h, hm, short)
    case Break(p, w1) => Balanced(At(p, w1), w, env, pins, h, hm, short)
    case Go(_, p, w1) => Balanced(At(p, w1), w, env, pins, h, hm, short)
  }

  predicate NoSlash(q: string, i: nat, j: nat)
    requires i <= j <= |q|
  {
    forall k :: i <= k < j ==> q[k] != '/'
  }

  /** Every name in a path fits the name field of an entry with its terminator. */
  ghost predicate ShortNames(q: string)
  {
    forall i: nat, j: nat :: i <= j <= |q| && NoSlash(q, i, j) ==> j - i < D.MAXNAMELEN
  }

  /** Every root is mounted somewhere, so that it has a parent to go to. */
  ghost predicate RootsMounted(s: D.State, env: Env)
  {
    forall d :: d in s.nodes && s.nodes[d].parent.None? ==> d in env.points
  }

  lemma DescendBalanced(w: World, env: Env, pins: multiset<nat>, h: multiset<nat>, hm: multiset<nat>,
                        q: string, i: nat, p: Path, parentOnly: bool, short: bool)
    requires i <= |q| && (short ==> ShortNames(q)) && Good(w, env, pins, h + multiset{p.dentry}, hm + One(p.mount))
    ensures var r := Descend(w, env, q, i, p, parentOnly);
            TurnBalanced(r, w, env, pins, h, hm, short) && r != Stop(Fault)
  {
    hide Good;
    hide Child;
    hide Put;
    hide One;
    PutBack(w, env, pins, h, hm, p, short);
    match Slash(q, i)
    case None =>
      assert NoSlash(q, i, |q|);
      ChildBalanced(w, env, pins, h, hm, p, q[i..], short);
    case Some(j) =>
      assert NoSlash(q, i, j);
      ChildBalanced(w, env, pins, h, hm, p, q[i..j], short);
  }

  /** A null pointer is followed only where a root is mounted nowhere. */
  lemma StepBalanced(w: World, env: Env, pins: multiset<nat>, h: multiset<nat>, hm: multiset<nat>,
                     q: string, i: nat, p: Path, parentOnly: bool, short: bool)
    requires i <= |q| && (short ==> ShortNames(q)) && Good(w, env, pins, h + multiset{p.dentry}, hm + One(p.mount))
    ensures var r := Step(w, env, q, i, p, parentOnly);
            TurnBalanced(r, w, env, pins, h, hm, short) && (RootsMounted(w.s, env) ==> r != Stop(Fault))
  {
    hide Good;
    hide Cross;
    hide Parent;
    hide Descend;
    hide One;
    hide D.Evolves;
    CrossBalanced(w, env, pins, h, hm, p, short);
    var p1, w1 := Cross(w, env, p).p, Cross(w, env, p).w;
    DotsBalanced(w1, env, pins, h, hm, q, i, p1, parentOnly, short);
    var r := Dots(w1, env, q, i, p1, parentOnly);
    TurnLater(r, w, w1, env, pins, h, hm, short);
    if RootsMounted(w.s, env) { StillMounted(w.s, w1.s, env, short); }
  }

  lemma TurnLater(r: Turn, w: World, w1: World, env: Env, pins: multiset<nat>, h: multiset<nat>, hm: multiset<nat>, short: bool)
    requires D.Evolves(w.s, w1.s, short) && TurnBalanced(r, w1, env, pins, h, hm, short)
    ensures TurnBalanced(r, w, env, pins, h, hm, short)
  {
    hide Good;
  }

  lemma StillMounted(s: D.State, s': D.State, env: Env, short: bool)
    requires RootsMounted(s, env) && D.Evolves(s, s', short)
    ensures RootsMounted(s', env)
  {
  }

  lemma DotsBalanced(w: World, env: Env, pins: multiset<nat>, h: multiset<nat>, hm: multiset<nat>,
                     q: string, i: nat, p: Path, parentOnly: bool, short: bool)
    requires i <= |q| && (short ==> ShortNames(q)) && Good(w, env, pins, h + multiset{p.dentry}, hm + One(p.mount))
    ensures var r := Dots(w, env, q, i, p, parentOnly);
            TurnBalanced(r, w, env, pins, h, hm, short) && (RootsMounted(w.s, env) ==> r != Stop(Fault))
  {
    hide Good;
    hide Parent;
    hide Descend;
    hide One;
    if CharAt(q, i) == '.' && CharAt(q, i + 1) == '/' {
      DescendBalanced(w, env, pins, h, hm, q, i + 2, p, parentOnly, short);
    } else if CharAt(q, i) == '.' && CharAt(q, i + 1) == '.' {
      ParentBalanced(w, env, pins, h, hm, p, short);
      match Parent(w, env, p)
      case At(p1, w1) =>
        DescendBalanced(w1, env, pins, h, hm, q, i, p1, parentOnly, short);
        TurnLater(Descend(w1, env, q, i, p1, parentOnly), w, w1, env, pins, h, hm, short);
      case _ =>
    } else {
      DescendBalanced(w, env, pins, h, hm, q, i, p, parentOnly, short);
    }
  }

  lemma {:induction false} WalkBalanced(w: World, env: Env, pins: multiset<nat>, h: multiset<nat>, hm: multiset<nat>,
                                        q: string, i: nat, p: Path, parentOnly: bool, short: bool)
    requires i <= |q| && (short ==> ShortNames(q)) && Good(w, env, pins, h + multiset{p.dentry}, hm + One(p.mount))
    ensures var a := Walk(w, env, q, i, p, parentOnly);
            Balanced(a, w, env, pins, h, hm, short) && (RootsMounted(w.s, env) ==> !a.Fault?)
    decreases |q| - i
  {
    hide Good;
    hide Parent;
    hide Step;
    hide One;
    hide D.Evolves;
    hide RootsMounted;
    StepBalanced(w, env, pins, h, hm, q, i, p, parentOnly, short);
    match Step(w, env, q, i, p, parentOnly)
    case Stop(a) =>
    case Break(p1, w1) =>
      if RootsMounted(w.s, env) { StillMounted(w.s, w1.s, env, short); }
      LastParent(w, w1, env, pins, h, hm, p1, short);
    case Go(j, p1, w1) =>
      if RootsMounted(w.s, env) { StillMounted(w.s, w1.s, env, short); }
      WalkBalanced(w1, env, pins, h, hm, q, j, p1, parentOnly, short);
      TurnLater(Stop(Walk(w1, env, q, j, p1, parentOnly)), w, w1, env, pins, h, hm, short);
  }

  lemma LastParent(w: World, w1: World, env: Env, pins: multiset<nat>, h: multiset<nat>, hm: multiset<nat>, p: Path, short: bool)
    requires Good(w1, env, pins, h + multiset{p.dentry}, hm + One(p.mount)) && D.Evolves(w.s, w1.s, short)
    ensures Balanced(Parent(w1, env, p), w, env, pins, h, hm, short)
    ensures RootsMounted(w1.s, env) ==> !Parent(w1, env, p).Fault?
  {
    hide Good;
    hide Parent;
    hide One;
    ParentBalanced(w1, env, pins, h, hm, p, short);
    TurnLater(Stop(Parent(w1, env, p)), w, w1, env, pins, h, hm, short);
  }

  /** A successful path_lookup adds exactly one reference to the entry and one to the mount it returns, a
      failed one none; names of siblings stay apart if those in the path fit; and it does not fault where every
      root is mounted. */
  lemma LookupBalanced(w: World, env: Env, pins: multiset<nat>, h: multiset<nat>, hm: multiset<nat>,
                       name: Option<string>, parentOnly: bool)
    requires Good(w, env, pins, h, hm)
    ensures var a := Lookup(w, env, name, parentOnly);
            Balanced(a, w, env, pins, h, hm, name.Some? && ShortNames(name.value)) && (RootsMounted(w.s, env) ==> !a.Fault?)
  {
    var short := name.Some? && ShortNames(name.value);
    if name.Some? && |name.value| <= 511 {
      var q := name.value;
      var start := if CharAt(q, 0) == '/' then Path(env.vfsRoot, None) else env.cwd;
      StartHere(w, env, pins, h, hm);
      CopyGood(w, env, pins, h, hm, start);
      CopyRoots(w, start, short);
      hide Good;
      var w1 := Copy(w, start);
      var i := if CharAt(q, 0) == '/' then 1 else 0;
      WalkBalanced(w1, env, pins, h, hm, q, i, start, parentOnly, short);
      TurnLater(Stop(Walk(w1, env, q, i, start, parentOnly)), w, w1, env, pins, h, hm, short);
      if RootsMounted(w.s, env) { StillMounted(w.s, w1.s, env, short); }
    }
  }

  lemma StartHere(w: World, env: Env, pins: multiset<nat>, h: multiset<nat>, hm: multiset<nat>)
    requires Good(w, env, pins, h, hm)
    ensures env.vfsRoot in w.s.nodes && env.cwd.dentry in w.s.nodes
    ensures env.cwd.mount.Some? ==> env.cwd.mount.value in w.mounts
  {
    Here(w.s, pins, h, env.vfsRoot);
    Here(w.s, pins, h, env.cwd.dentry);
  }

  // ----- Runs

  /** The references a list of held paths stands for. */
  function Entries(held: seq<Path>): multiset<nat>
  {
    if held == [] then multiset{} else Entries(held[..|held| - 1]) + multiset{held[|held| - 1].dentry}
  }

  function Mounts(held: seq<Path>): multiset<nat>
  {
    if held == [] then multiset{} else Mounts(held[..|held| - 1]) + One(held[|held| - 1].mount)
  }

  /** The list without its entry `k`. */
  function Without(held: seq<Path>, k: nat): seq<Path>
    requires k < |held|
  {
    held[..k] + held[k + 1..]
  }

  lemma WithoutShape(held: seq<Path>, k: nat)
    requires k < |held|
    ensures var last, rest := |held| - 1, Without(held, k);
            && (k == last ==> rest == held[..last])
            && (k < last ==> rest != [] && rest[|rest| - 1] == held[last] && held[..last][k] == held[k]
                             && rest[..|rest| - 1] == Without(held[..last], k))
  {
    var last, rest := |held| - 1, Without(held, k);
    if k < last { assert rest[..|rest| - 1] == held[..last][..k] + held[..last][k + 1..]; }
  }

  lemma WithoutOne(held: seq<Path>, k: nat)
    requires k < |held|
    ensures Entries(held) == Entries(Without(held, k)) + multiset{held[k].dentry}
    ensures Mounts(held) == Mounts(Without(held, k)) + One(held[k].mount)
  {
    WithoutEntry(held, k);
    WithoutMount(held, k);
  }

  lemma {:induction false} WithoutEntry(held: seq<Path>, k: nat)
    requires k < |held|
    ensures Entries(held) == Entries(Without(held, k)) + multiset{held[k].dentry}
  {
    hide Without;
    var last := |held| - 1;
    WithoutShape(held, k);
    if k < last {
      WithoutEntry(held[..last], k);
      Swap(Entries(Without(held[..last], k)), multiset{held[k].dentry}, multiset{held[last].dentry});
    }
  }

  lemma {:induction false} WithoutMount(held: seq<Path>, k: nat)
    requires k < |held|
    ensures Mounts(held) == Mounts(Without(held, k)) + One(held[k].mount)
  {
    hide One;
    hide Without;
    var last := |held| - 1;
    WithoutShape(held, k);
    if k < last {
      WithoutMount(held[..last], k);
      Swap(Mounts(Without(held[..last], k)), One(held[k].mount), One(held[last].mount));
    }
  }

  lemma Swap(a: multiset<nat>, b: multiset<nat>, c: multiset<nat>)
    ensures a + b + c == a + c + b
  {
  }

  /** A lookup, whose path is held if it succeeds, or path_put of one of the held paths.  A lookup has the mounts and
      file systems of its own moment, and its working directory may be one of the held paths. */
  datatype Op = DoLookup(env: Env, from: Option<nat>, name: Option<string>, parentOnly: bool) | DoPut(k: nat)

  datatype System = System(w: World, held: seq<Path>)

  function From(held: seq<Path>, env: Env, from: Option<nat>): Env
  {
    if from.Some? && from.value < |held| then env.(cwd := held[from.value]) else env
  }

  function Act(y: System, op: Op): Option<System>
  {
    match op
    case DoLookup(env, from, name, parentOnly) =>
      (match Lookup(y.w, From(y.held, env, from), name, parentOnly)
       case Fault => None
       case Error(_, w) => Some(System(w, y.held))
       case At(p, w) => Some(System(w, y.held + [p])))
    case DoPut(k) =>
      if k >= |y.held| then Some(y)
      else
        match Put(y.w, y.held[k])
        case None => None
        case Some(w) => Some(System(w, Without(y.held, k)))
  }

  function Run(y: System, ops: seq<Op>): Option<System>
    decreases |ops|
  {
    if ops == [] then Some(y)
    else
      match Act(y, ops[0])
      case None => None
      case Some(z) => Run(z, ops[1..])
  }

  /** Every entry is counted by the held paths and `pins`, every mount by the held paths and `base`, which holds the
      reference each mount has from sys_mount on; entries without a parent are among `tops`. */
  ghost predicate Kept(y: System, pins: multiset<nat>, base: multiset<nat>, tops: set<nat>)
  {
    TreeOk(y.w.s, pins, Entries(y.held)) && MountsCounted(y.w, base + Mounts(y.held)) && Topped(y.w.s, tops)
  }

  ghost predicate Topped(s: D.State, tops: set<nat>)
  {
    forall d :: d in s.nodes && s.nodes[d].parent.None? ==> d in tops
  }

  /** The mounts of a lookup are there and pinned, and so are all roots mounted. */
  ghost predicate Suits(op: Op, pins: multiset<nat>, base: multiset<nat>, tops: set<nat>)
  {
    op.DoLookup? ==> EnvOk(op.env, pins, set m | m in base) && tops <= op.env.points.Keys
  }

  ghost predicate ShortOp(op: Op) { op.DoLookup? && op.name.Some? ==> ShortNames(op.name.value) }

  lemma ActKeeps(y: System, pins: multiset<nat>, base: multiset<nat>, tops: set<nat>, op: Op)
    requires Kept(y, pins, base, tops) && Suits(op, pins, base, tops)
    ensures Act(y, op).Some? && Kept(Act(y, op).value, pins, base, tops)
    ensures D.Evolves(y.w.s, Act(y, op).value.w.s, ShortOp(op))
  {
    hide Kept;
    hide Suits;
    hide D.Evolves;
    Steady(y.w.s, ShortOp(op));
    match op
    case DoLookup(_, _, _, _) => LookupKeeps(y, pins, base, tops, op);
    case DoPut(k) => if k < |y.held| { PutKeeps(y, pins, base, tops, k, ShortOp(op)); }
  }

  lemma LookupKeeps(y: System, pins: multiset<nat>, base: multiset<nat>, tops: set<nat>, op: Op)
    requires op.DoLookup? && Kept(y, pins, base, tops) && Suits(op, pins, base, tops)
    ensures Act(y, op).Some? && Kept(Act(y, op).value, pins, base, tops)
    ensures D.Evolves(y.w.s, Act(y, op).value.w.s, ShortOp(op))
  {
    hide Good;
    hide One;
    hide Lookup;
    hide From;
    hide TreeOk;
    hide MountsCounted;
    hide Topped;
    hide Suits;
    hide D.Evolves;
    var env := From(y.held, op.env, op.from);
    NullName(y.w, env, op.name, op.parentOnly);
    Steady(y.w.s, true);
    LookupFrom(y, pins, base, tops, op);
    match Lookup(y.w, env, op.name, op.parentOnly)
    case Error(_, w) =>
    case At(p, w) =>
      assert (y.held + [p])[..|y.held|] == y.held;
      assert base + Mounts(y.held) + One(p.mount) == base + (Mounts(y.held) + One(p.mount));
  }

  /** What a lookup does to the counts, wherever it starts. */
  lemma LookupFrom(y: System, pins: multiset<nat>, base: multiset<nat>, tops: set<nat>, op: Op)
    requires op.DoLookup? && Kept(y, pins, base, tops) && Suits(op, pins, base, tops)
    ensures var a, h, hm := Lookup(y.w, From(y.held, op.env, op.from), op.name, op.parentOnly), Entries(y.held), base + Mounts(y.held);
            var short := op.name.Some? && ShortNames(op.name.value);
            match a
            case Fault => false
            case Error(_, w) =>
              TreeOk(w.s, pins, h) && MountsCounted(w, hm) && Topped(w.s, tops) && D.Evolves(y.w.s, w.s, short)
            case At(p, w) =>
              && TreeOk(w.s, pins, h + multiset{p.dentry}) && MountsCounted(w, hm + One(p.mount))
              && Topped(w.s, tops) && D.Evolves(y.w.s, w.s, short)
  {
    hide Lookup;
    hide One;
    hide TreeOk;
    hide EnvOk;
    hide MountsCounted;
    hide RootsMounted;
    hide Topped;
    hide D.Evolves;
    var env, h, hm := From(y.held, op.env, op.from), Entries(y.held), base + Mounts(y.held);
    var pins', h' := FromGood(y, pins, base, tops, op);
    LookupBalanced(y.w, env, pins', h', hm, op.name, op.parentOnly);
    var short := op.name.Some? && ShortNames(op.name.value);
    match Lookup(y.w, env, op.name, op.parentOnly)
    case Fault =>
    case Error(_, w) =>
      assert h' + multiset{} == h' && h + multiset{} == h;
      BackTree(y.w.s, w.s, pins, h, pins', h', multiset{}, tops, short);
    case At(p, w) =>
      BackTree(y.w.s, w.s, pins, h, pins', h', multiset{p.dentry}, tops, short);
  }

  /** A held path a lookup starts from is pinned meanwhile. */
  lemma FromGood(y: System, pins: multiset<nat>, base: multiset<nat>, tops: set<nat>, op: Op)
    returns (pins': multiset<nat>, h': multiset<nat>)
    requires op.DoLookup? && Kept(y, pins, base, tops) && Suits(op, pins, base, tops)
    ensures h' + pins' == Entries(y.held) + pins && pins <= pins'
    ensures var env := From(y.held, op.env, op.from);
            Good(y.w, env, pins', h', base + Mounts(y.held)) && RootsMounted(y.w.s, env)
  {
    hide One;
    var mounts := set m | m in base;
    if op.from.Some? && op.from.value < |y.held| {
      var k := op.from.value;
      WithoutOne(y.held, k);
      pins', h' := pins + multiset{y.held[k].dentry}, Entries(Without(y.held, k));
      CwdOk(op.env, pins, mounts, y.w.mounts.Keys, y.held[k], base, Mounts(Without(y.held, k)));
    } else {
      pins', h' := pins, Entries(y.held);
      MoreMounts(op.env, pins, mounts, y.w.mounts.Keys);
    }
    hide EnvOk;
    MorePinned(y.w.s, pins, Entries(y.held), pins', h');
  }

  lemma MoreMounts(env: Env, pins: multiset<nat>, mounts: set<nat>, more: set<nat>)
    requires EnvOk(env, pins, mounts) && mounts <= more
    ensures EnvOk(env, pins, more)
  {
  }

  lemma CwdOk(env: Env, pins: multiset<nat>, mounts: set<nat>, more: set<nat>, p: Path, base: multiset<nat>, rest: multiset<nat>)
    requires EnvOk(env, pins, mounts) && mounts <= more && forall m :: m in base + (rest + One(p.mount)) ==> m in more
    ensures EnvOk(env.(cwd := p), pins + multiset{p.dentry}, more)
  {
    if p.mount.Some? { assert p.mount.value in base + (rest + One(p.mount)); }
  }

  lemma MorePinned(s: D.State, pins: multiset<nat>, h: multiset<nat>, pins': multiset<nat>, h': multiset<nat>)
    requires TreeOk(s, pins, h) && h' + pins' == h + pins && pins <= pins'
    ensures TreeOk(s, pins', h')
  {
    hide D.Inv;
  }

  lemma BackTree(s: D.State, s': D.State, pins: multiset<nat>, h: multiset<nat>, pins': multiset<nat>, h': multiset<nat>,
                 got: multiset<nat>, tops: set<nat>, short: bool)
    requires TreeOk(s, pins, h) && h' + pins' == h + pins && TreeOk(s', pins', h' + got)
    requires Topped(s, tops) && D.Evolves(s, s', short)
    ensures TreeOk(s', pins, h + got) && Topped(s', tops)
  {
    hide D.Inv;
    Swap(h', got, pins');
    Swap(h, got, pins);
  }

  lemma PutKeeps(y: System, pins: multiset<nat>, base: multiset<nat>, tops: set<nat>, k: nat, short: bool)
    requires Kept(y, pins, base, tops) && k < |y.held|
    ensures Act(y, DoPut(k)).Some? && Kept(Act(y, DoPut(k)).value, pins, base, tops)
    ensures D.Evolves(y.w.s, Act(y, DoPut(k)).value.w.s, short)
  {
    hide TreeOk;
    hide MountsCounted;
    hide MountPut;
    hide One;
    hide D.Put;
    WithoutOne(y.held, k);
    var rest, p := Without(y.held, k), y.held[k];
    var h, hm := Entries(rest), base + Mounts(rest);
    assert base + (Mounts(rest) + One(p.mount)) == hm + One(p.mount);
    PutTree(y.w.s, pins, h + multiset{p.dentry}, p.dentry);
    assert h + multiset{p.dentry} - multiset{p.dentry} == h;
    assert hm + One(p.mount) - One(p.mount) == hm;
    PutRoots(y.w.s, pins, h + multiset{p.dentry}, p.dentry, short);
    var w1 := y.w.(s := D.Put(y.w.s, p.dentry).value);
    SameMounts(y.w, w1, hm + One(p.mount));
    MountPutCounted(w1, hm + One(p.mount), p.mount);
    SameTree(w1, p.mount);
  }

  lemma SameTree(w: World, m: Option<nat>)
    ensures MountPut(w, m).s == w.s
  {
  }

  lemma Steady(s: D.State, short: bool)
    ensures D.Evolves(s, s, short)
  {
  }

  lemma NullName(w: World, env: Env, name: Option<string>, parentOnly: bool)
    ensures name.None? ==> Lookup(w, env, name, parentOnly) == Error(D.ENOENT, w)
  {
  }

  /** Over every run of lookups, each from its own working directory and with its own mounts, and path_puts of held
      paths, no step faults, every count is the number of references held, and siblings in memory keep distinct
      names if the names asked for fit. */
  lemma {:induction false} RunKeeps(y: System, pins: multiset<nat>, base: multiset<nat>, tops: set<nat>, ops: seq<Op>)
    requires Kept(y, pins, base, tops) && forall i :: 0 <= i < |ops| ==> Suits(ops[i], pins, base, tops)
    ensures Run(y, ops).Some? && Kept(Run(y, ops).value, pins, base, tops)
    ensures D.Evolves(y.w.s, Run(y, ops).value.w.s, forall i :: 0 <= i < |ops| ==> ShortOp(ops[i]))
    decreases |ops|
  {
    hide Kept;
    hide Suits;
    hide Act;
    hide ShortOp;
    if ops == [] {
      Steady(y.w.s, true);
    } else {
      ActKeeps(y, pins, base, tops, ops[0]);
      var z := Act(y, ops[0]).value;
      RunKeeps(z, pins, base, tops, ops[1..]);
      assert forall i :: 0 <= i < |ops| - 1 ==> ops[1..][i] == ops[i + 1];
    }
  }

  // ----- Where the code does not do what it promises

  /** ".." from a root that is mounted nowhere follows a null pointer. */
  lemma RootDotDot(w: World, env: Env, parentOnly: bool)
    requires env.vfsRoot in w.s.nodes && w.s.nodes[env.vfsRoot].parent.None? && env.vfsRoot !in env.points
    ensures Lookup(w, env, Some("/.."), parentOnly).Fault?
  {
    var p := Path(env.vfsRoot, None);
    var w1 := Copy(w, p);
    assert Parent(w1, env, p).Fault?;
    assert CharAt("/..", 1) == '.' && CharAt("/..", 2) == '.';
    assert Dots(w1, env, "/..", 1, p, parentOnly) == Stop(Fault);
  }
}
