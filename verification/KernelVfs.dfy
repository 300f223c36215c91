/** The loops and updates of kernel/src/dentry.c and path_lookup in kernel/src/fs.c on entries and mounts. */
module KernelVfs {
  import opened Options
  import opened Lists
  import opened Paths
  import opened PathLookup
  import D = Dentries

  class Vfs {
    var tree: D.State
    var mounts: map<nat, nat>

    ghost function W(): World
      reads this
    {
      World(tree, mounts)
    }

    method SetRef(d: nat, ref: nat)
      requires d in tree.nodes
      modifies this`tree
      ensures tree == old(tree).(nodes := old(tree).nodes[d := old(tree).nodes[d].(ref := ref)])
    {
      tree := tree.(nodes := tree.nodes[d := tree.nodes[d].(ref := ref)]);
    }

    /** d_put; false where a null parent would be followed. */
    method PutEntry(d: nat) returns (ok: bool)
      modifies this`tree
      ensures ok <==> D.Put(old(tree), d).Some?
      ensures ok ==> tree == D.Put(old(tree), d).value
      decreases |tree.nodes|, 1
    {
      if d !in tree.nodes {
        return false;
      }
      if tree.nodes[d].ref == 1 {
        ok := FreeEntry(d);
        return;
      }
      SetRef(d, D.Less(tree.nodes[d].ref));
      ok := true;
    }

    /** d_free: off the parent's list, then d_put of the parent. */
    method FreeEntry(d: nat) returns (ok: bool)
      requires d in tree.nodes && tree.nodes[d].ref == 1
      modifies this`tree
      ensures ok <==> D.Put(old(tree), d).Some?
      ensures ok ==> tree == D.Put(old(tree), d).value
      decreases |tree.nodes|, 0
    {
      var up := tree.nodes[d].parent;
      if up.None? || up.value !in tree.nodes {
        return false;
      }
      var p := up.value;
      D.FewerNodes(tree, d);
      ghost var t := tree;
      var kids := Remove(tree.nodes[p].children, d);
      tree := tree.(nodes := tree.nodes - {d});
      if p in tree.nodes {
        tree := tree.(nodes := tree.nodes[p := tree.nodes[p].(children := kids)]);
      }
      assert tree == D.Unlinked(t, d);
      ok := PutEntry(p);
    }

    /** The search among the children in d_lookup. */
    method FindChild(dir: nat, name: string) returns (r: Option<nat>)
      requires dir in tree.nodes
      ensures r == D.ChildNamed(tree, tree.nodes[dir].children, name)
    {
      var kids := tree.nodes[dir].children;
      var i := 0;
      assert kids[0..] == kids;
      while i < |kids|
        invariant 0 <= i <= |kids| && D.ChildNamed(tree, kids[i..], name) == D.ChildNamed(tree, kids, name)
      {
        if kids[i] in tree.nodes && D.Text(tree.nodes[kids[i]]) == name {
          return Some(kids[i]);
        }
        assert kids[i..][1..] == kids[i + 1..];
        i := i + 1;
      }
      r := None;
    }

    /** d_lookup; no entry together with `ok` is the error of the file system. */
    method LookupEntry(dir: nat, name: string, reply: D.Reply) returns (ok: bool, r: Option<nat>)
      requires dir in tree.nodes
      modifies this`tree
      ensures match D.Lookup(old(tree), dir, name, reply)
              case Fault => !ok
              case Error(_, s) => ok && r == None && tree == s
              case Found(d, s) => ok && r == Some(d) && tree == s
    {
      r := FindChild(dir, name);
      if r.Some? {
        SetRef(r.value, tree.nodes[r.value].ref + 1);
        return true, r;
      }
      var d := tree.next;
      tree := D.Alloc(tree, name, reply.after, dir);
      if reply.error != 0 {
        ok := PutEntry(d);
        return ok, None;
      }
      return true, Some(d);
    }

    /** path_put */
    method PutPath(p: Path) returns (ok: bool)
      modifies this
      ensures ok <==> Put(old(W()), p).Some?
      ensures ok ==> W() == Put(old(W()), p).value
    {
      ok := PutEntry(p.dentry);
      if ok && p.mount.Some? && p.mount.value in mounts {
        mounts := mounts[p.mount.value := D.Less(mounts[p.mount.value])];
      }
    }

    /** path_copy */
    method CopyPath(p: Path)
      requires p.dentry in tree.nodes
      modifies this
      ensures W() == Copy(old(W()), p)
    {
      SetRef(p.dentry, tree.nodes[p.dentry].ref + 1);
      if p.mount.Some? && p.mount.value in mounts {
        mounts := mounts[p.mount.value := mounts[p.mount.value] + 1];
      }
    }

    /** path_get_parent; no path where a null pointer would be followed. */
    method ParentOf(env: Env, p: Path) returns (r: Option<Path>)
      modifies this
      ensures match Parent(old(W()), env, p)
              case At(q, w) => r == Some(q) && W() == w
              case _ => r == None
    {
      hide D.Put;
      if p.dentry !in tree.nodes {
        return None;
      }
      var up := tree.nodes[p.dentry].parent;
      if up.Some? {
        if up.value !in tree.nodes {
          return None;
        }
        SetRef(up.value, tree.nodes[up.value].ref + 1);
        var ok := PutEntry(p.dentry);
        return if ok then Some(Path(up.value, p.mount)) else None;
      }
      if p.dentry !in env.points {
        return None;
      }
      r := OutOf(env.points[p.dentry].at, p);
    }

    /** The second branch of path_get_parent: to where the mount is. */
    method OutOf(at: Path, p: Path) returns (r: Option<Path>)
      modifies this
      ensures var w := old(W());
              r == (if at.dentry !in w.s.nodes then None else
                    match Put(Copy(w, at), p)
                    case None => None
                    case Some(w1) =>
                      if at.dentry !in w1.s.nodes then None else
                      match Put(Copy(w1, at), at)
                      case None => None
                      case Some(_) => Some(at))
      ensures r.Some? ==> Some(W()) == Put(Copy(Put(Copy(old(W()), at), p).value, at), at)
    {
      hide Put;
      hide Copy;
      if at.dentry !in tree.nodes {
        return None;
      }
      CopyPath(at);
      var ok := PutPath(p);
      if !ok || at.dentry !in tree.nodes {
        return None;
      }
      CopyPath(at);
      ok := PutPath(at);
      r := if ok then Some(at) else None;
    }

    /** The outcome and the new state are those of an answer. */
    ghost predicate Is(o: Outcome, a: Answer)
      reads this
    {
      match a
      case Fault => o == Faulted
      case Error(code, w) => o == Failed(code) && W() == w
      case At(p, w) => o == Reached(p) && W() == w
    }

    /** The start of the loop of path_lookup: to the topmost mount. */
    method CrossMount(env: Env, p: Path) returns (o: Outcome)
      modifies this
      ensures Is(o, Cross(old(W()), env, p))
    {
      hide Put;
      if p.dentry !in env.points || env.points[p.dentry].mount !in env.roots {
        return Reached(p);
      }
      var m := env.points[p.dentry].mount;
      if env.roots[m] == p.dentry {
        return Reached(p);
      }
      var ok := PutPath(p);
      var q := Path(env.roots[m], Some(m));
      if !ok || q.dentry !in tree.nodes {
        return Faulted;
      }
      CopyPath(q);
      o := Reached(q);
    }

    /** d_lookup of the next name and d_put of the directory. */
    method Enter(env: Env, p: Path, name: string) returns (o: Outcome)
      modifies this
      ensures Is(o, Child(old(W()), env, p, name))
    {
      hide D.Put;
      hide D.Lookup;
      if p.dentry !in tree.nodes {
        return Faulted;
      }
      var reply := env.fs(p.dentry, name);
      ErrorCode(tree, p.dentry, name, reply);
      var ok, r := LookupEntry(p.dentry, name, reply);
      if !ok {
        return Faulted;
      }
      if r.None? {
        ok := PutPath(p);
        return if ok then Failed(reply.error) else Faulted;
      }
      ok := PutEntry(p.dentry);
      o := if ok then Reached(Path(r.value, p.mount)) else Faulted;
    }

    ghost predicate Moved(m: Move, t: Turn)
      reads this
    {
      match t
      case Stop(a) => m.Ended? && Is(m.o, a)
      case Break(p, w) => m == Broke(p) && W() == w
      case Go(i, p, w) => m == Went(i, p) && W() == w
    }

    /** A turn of the loop after the mount is crossed. */
    method OneTurn(env: Env, q: string, i: nat, p: Path, parentOnly: bool) returns (m: Move)
      requires i <= |q| && CString(q)
      modifies this
      ensures Moved(m, Dots(old(W()), env, q, i, p, parentOnly))
    {
      hide Parent;
      hide Descend;
      if CharAt(q, i) == '.' && CharAt(q, i + 1) == '/' {
        m := Down(env, q, i + 2, p, parentOnly);
      } else if CharAt(q, i) == '.' && CharAt(q, i + 1) == '.' {
        NoErrors(W(), env, p);
        var r := ParentOf(env, p);
        if r.None? {
          return Ended(Faulted);
        }
        if CharAt(q, i + 2) == NUL {
          return Broke(r.value);
        }
        m := Down(env, q, i, r.value, parentOnly);
      } else if (CharAt(q, i) == '.' && CharAt(q, i + 1) == NUL) || CharAt(q, i) == NUL {
        m := Broke(p);
      } else {
        m := Down(env, q, i, p, parentOnly);
      }
    }

    /** From the check of permissions to the end of the turn. */
    method Down(env: Env, q: string, i: nat, p: Path, parentOnly: bool) returns (m: Move)
      requires i <= |q|
      modifies this
      ensures Moved(m, Descend(old(W()), env, q, i, p, parentOnly))
    {
      hide Child;
      hide Put;
      if !env.access(p.dentry) {
        var ok := PutPath(p);
        return Ended(if ok then Failed(EACCES) else Faulted);
      }
      var slash := Slash(q, i);
      if slash.None? {
        if i == |q| {
          return Broke(p);
        }
        if parentOnly {
          return Ended(Reached(p));
        }
        var o := Enter(env, p, q[i..]);
        return if o.Reached? then Broke(o.p) else Ended(o);
      }
      var o := Enter(env, p, q[i..slash.value]);
      m := if o.Reached? then Went(slash.value + 1, o.p) else Ended(o);
    }

    /** path_lookup from its loop on.  A turn of the loop either stops, breaks, or goes on after a slash. */
    method LookupFrom(env: Env, q: string, start: nat, from: Path, parentOnly: bool) returns (o: Outcome)
      requires start <= |q| && CString(q)
      modifies this
      ensures Is(o, Walk(old(W()), env, q, start, from, parentOnly))
    {
      hide Cross;
      hide Parent;
      hide Child;
      hide Put;
      hide Descend;
      hide Dots;
      ghost var a := Walk(W(), env, q, start, from, parentOnly);
      var i, p := start, from;
      while true
        invariant i <= |q| && Walk(W(), env, q, i, p, parentOnly) == a
        decreases |q| - i
      {
        o := CrossMount(env, p);
        if !o.Reached? {
          return;
        }
        p := o.p;
        var turn := OneTurn(env, q, i, p, parentOnly);
        match turn
        case Ended(o1) =>
          return o1;
        case Broke(p1) =>
          p := p1;
          break;
        case Went(j, p1) =>
          i, p := j, p1;
      }
      if parentOnly {
        NoErrors(W(), env, p);
        var r := ParentOf(env, p);
        o := if r.Some? then Reached(r.value) else Faulted;
      } else {
        o := Reached(p);
      }
    }

    /** path_lookup */
    method LookupPath(env: Env, name: Option<string>, parentOnly: bool) returns (o: Outcome)
      requires name.Some? ==> CString(name.value)
      modifies this
      ensures Is(o, Lookup(old(W()), env, name, parentOnly))
    {
      hide Walk;
      if name.None? {
        return Failed(D.ENOENT);
      }
      var q := name.value;
      if |q| > 511 {
        return Failed(ENAMETOOLONG);
      }
      var start := if CharAt(q, 0) == '/' then Path(env.vfsRoot, None) else env.cwd;
      if start.dentry !in tree.nodes {
        return Faulted;
      }
      CopyPath(start);
      o := LookupFrom(env, q, if CharAt(q, 0) == '/' then 1 else 0, start, parentOnly);
    }
  }

  datatype Outcome = Faulted | Failed(code: int) | Reached(p: Path)

  datatype Move = Ended(o: Outcome) | Broke(p: Path) | Went(i: nat, p: Path)

  /** path_get_parent reports no error. */
  lemma NoErrors(w: World, env: Env, p: Path)
    ensures !Parent(w, env, p).Error?
  {
  }

  lemma ErrorCode(s: D.State, dir: nat, name: string, reply: D.Reply)
    requires dir in s.nodes
    ensures D.Lookup(s, dir, name, reply).Error? ==> D.Lookup(s, dir, name, reply).code == reply.error
  {
  }
}
