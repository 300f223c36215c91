/** Directory entries in memory and their reference counts (kernel/src/dentry.c): one reference for every
    holder outside and one for every child in memory. */
module Dentries {
  import opened Options
  import opened Lists

  const MAXNAMELEN: nat := 256
  const ENOENT: int := -2

  /** `name` is what the name field holds, up to its first null byte if it has one; `after` is the text that
      follows the field, up to the first null byte of what the file system filled in there (d_inode and on). */
  datatype Dentry = Dentry(name: string, after: string, ref: nat, parent: Option<nat>, children: seq<nat>)

  /** What a file system's lookup of a name says: an error, or 0 and what it leaves after the name field. */
  datatype Reply = Reply(error: int, after: string)

  /** Entries by address; addresses from `next` on are unused. */
  datatype State = State(nodes: map<nat, Dentry>, next: nat)

  // ----- Operations

  function Get(s: State, d: nat): State
    requires d in s.nodes
  {
    s.(nodes := s.nodes[d := s.nodes[d].(ref := s.nodes[d].ref + 1)])
  }

  /** The entry is gone, and its parent has one child less. */
  function Unlinked(s: State, d: nat): State
    requires d in s.nodes && s.nodes[d].parent.Some? && s.nodes[d].parent.value in s.nodes
  {
    var p := s.nodes[d].parent.value;
    var rest := s.nodes - {d};
    s.(nodes := if p in rest then rest[p := s.nodes[p].(children := Remove(s.nodes[p].children, d))] else rest)
  }

  /** d_put, with the cascade up the chain of parents; no result where it would follow a null parent. */
  function Put(s: State, d: nat): Option<State>
    decreases |s.nodes|
  {
    if d !in s.nodes then None
    else if s.nodes[d].ref != 1 then Some(s.(nodes := s.nodes[d := s.nodes[d].(ref := Less(s.nodes[d].ref))]))
    else if s.nodes[d].parent.None? || s.nodes[d].parent.value !in s.nodes then None
    else (FewerNodes(s, d); Put(Unlinked(s, d), s.nodes[d].parent.value))
  }

  /** An unsigned word less one. */
  function Less(n: nat): nat { if n == 0 then 0xFFFF_FFFF else n - 1 }

  lemma FewerNodes(s: State, d: nat)
    requires d in s.nodes && s.nodes[d].parent.Some? && s.nodes[d].parent.value in s.nodes
    ensures |Unlinked(s, d).nodes| < |s.nodes|
  {
    assert Unlinked(s, d).nodes.Keys == s.nodes.Keys - {d};
  }

  /** What strncpy stores of a name. */
  function Stored(name: string): string
  {
    if |name| <= MAXNAMELEN then name else name[..MAXNAMELEN]
  }

  /** The name that strcmp reads in an entry: a name that fills the field has no terminator, and the text after
      the field is read on. */
  function Text(n: Dentry): string
  {
    if |n.name| < MAXNAMELEN then n.name else n.name + n.after
  }

  /** d_alloc under a parent, filled in by the file system; the new entry is at the old `next`. */
  function Alloc(s: State, name: string, after: string, p: nat): State
    requires p in s.nodes
  {
    var q := s.nodes[p];
    State(s.nodes[p := q.(ref := q.ref + 1, children := [s.next] + q.children)]
                 [s.next := Dentry(Stored(name), after, 1, Some(p), [])],
          s.next + 1)
  }

  /** The first child whose name compares equal. */
  function ChildNamed(s: State, children: seq<nat>, name: string): (r: Option<nat>)
    ensures r.Some? ==> r.value in children && r.value in s.nodes && Text(s.nodes[r.value]) == name
    ensures r.None? ==> forall c :: c in children && c in s.nodes ==> Text(s.nodes[c]) != name
  {
    if children == [] then None
    else if children[0] in s.nodes && Text(s.nodes[children[0]]) == name then Some(children[0])
    else ChildNamed(s, children[1..], name)
  }

  datatype Answer = Fault | Error(code: int, s: State) | Found(d: nat, s: State)

  /** d_lookup; `reply` is what the file system's own lookup says. */
  function Lookup(s: State, dir: nat, name: string, reply: Reply): Answer
    requires dir in s.nodes
  {
    var c := ChildNamed(s, s.nodes[dir].children, name);
    if c.Some? then Found(c.value, Get(s, c.value))
    else
      var s1 := Alloc(s, name, reply.after, dir);
      if reply.error == 0 then Found(s.next, s1)
      else
        match Put(s1, s.next)
        case None => Fault
        case Some(s2) => Error(reply.error, s2)
  }

  // ----- Invariant

  ghost predicate NodeOk(s: State, d: nat)
    requires d in s.nodes
  {
    var n := s.nodes[d];
    && d < s.next && Distinct(n.children)
    && (n.parent.Some? ==> n.parent.value in s.nodes && n.parent.value != d && d in s.nodes[n.parent.value].children)
    && forall c :: c in n.children ==> c in s.nodes && s.nodes[c].parent == Some(d)
  }

  /** Each entry has one reference per holder and one per child, and at least one. */
  ghost predicate Counted(s: State, h: multiset<nat>, d: nat)
    requires d in s.nodes
  {
    s.nodes[d].ref == h[d] + |s.nodes[d].children| && s.nodes[d].ref > 0
  }

  ghost predicate Inv(s: State, h: multiset<nat>)
  {
    && (forall d :: d in s.nodes ==> NodeOk(s, d))
    && (forall d :: d in s.nodes ==> Counted(s, h, d))
    && (forall d :: d in h ==> d in s.nodes)
  }

  // ----- What the operations keep

  lemma GetKeeps(s: State, h: multiset<nat>, d: nat)
    requires Inv(s, h) && d in s.nodes
    ensures Inv(Get(s, d), h + multiset{d})
  {
    var s' := Get(s, d);
    forall e | e in s'.nodes ensures NodeOk(s', e) && Counted(s', h + multiset{d}, e) {
      assert NodeOk(s, e) && Counted(s, h, e);
    }
  }

  lemma AllocKeeps(s: State, h: multiset<nat>, name: string, after: string, p: nat)
    requires Inv(s, h) && p in s.nodes
    ensures Inv(Alloc(s, name, after, p), h + multiset{s.next})
  {
    var s' := Alloc(s, name, after, p);
    assert NodeOk(s, p) && s.next !in s.nodes && s.next !in h;
    PushFacts(s.nodes[p].children, s.next);
    forall e | e in s'.nodes ensures NodeOk(s', e) && Counted(s', h + multiset{s.next}, e) {
      if e != s.next { assert NodeOk(s, e) && Counted(s, h, e); }
    }
  }

  /** Freeing an entry without holders but one, and without children, turns its reference to its parent into
      one that is about to be dropped. */
  lemma UnlinkKeeps(s: State, h: multiset<nat>, d: nat)
    requires Inv(s, h) && d in h && s.nodes[d].ref == 1 && s.nodes[d].parent.Some?
    ensures s.nodes[d].parent.value in s.nodes
    ensures Inv(Unlinked(s, d), h - multiset{d} + multiset{s.nodes[d].parent.value})
  {
    assert NodeOk(s, d) && Counted(s, h, d);
    var p := s.nodes[d].parent.value;
    assert NodeOk(s, p) && Counted(s, h, p);
    RemoveFacts(s.nodes[p].children, d);
    assert s.nodes[d].children == [] && h[d] == 1;
    var s', h' := Unlinked(s, d), h - multiset{d} + multiset{p};
    forall e | e in s'.nodes ensures NodeOk(s', e) && Counted(s', h', e) {
      assert NodeOk(s, e) && Counted(s, h, e);
    }
    forall e | e in h' ensures e in s'.nodes { assert e != d; }
  }

  /** d_put drops the reference of one holder; what the cascade frees has no holder and no child left, and
      what stays is not otherwise changed. */
  lemma {:induction false} PutKeeps(s: State, h: multiset<nat>, d: nat)
    requires Inv(s, h) && d in h
    ensures Put(s, d).Some? ==> Inv(Put(s, d).value, h - multiset{d})
    ensures Put(s, d).Some? ==> Kept(s, Put(s, d).value)
    decreases |s.nodes|
  {
    hide Inv;
    hide Unlinked;
    hide Kept;
    At(s, h, d);
    if s.nodes[d].ref > 1 {
      DropOne(s, h, d);
    } else if s.nodes[d].parent.Some? {
      var p := s.nodes[d].parent.value;
      UnlinkKeeps(s, h, d);
      FewerNodes(s, d);
      PutKeeps(Unlinked(s, d), h - multiset{d} + multiset{p}, p);
      assert h - multiset{d} + multiset{p} - multiset{p} == h - multiset{d};
      if Put(s, d).Some? { KeptUp(s, d, Put(s, d).value); }
    }
  }

  lemma At(s: State, h: multiset<nat>, d: nat)
    requires Inv(s, h) && d in h
    ensures d in s.nodes && s.nodes[d].ref > 0
    ensures s.nodes[d].parent.Some? ==> s.nodes[d].parent.value in s.nodes
  {
    assert Counted(s, h, d) && NodeOk(s, d);
  }

  lemma KeptUp(s: State, d: nat, s': State)
    requires d in s.nodes && s.nodes[d].parent.Some? && s.nodes[d].parent.value in s.nodes
    requires Kept(Unlinked(s, d), s')
    ensures Kept(s, s')
  {
  }

  lemma DropOne(s: State, h: multiset<nat>, d: nat)
    requires Inv(s, h) && d in h && s.nodes[d].ref > 1
    ensures Put(s, d).Some? && Inv(Put(s, d).value, h - multiset{d}) && Kept(s, Put(s, d).value)
  {
    var s' := Put(s, d).value;
    forall e | e in s'.nodes ensures NodeOk(s', e) && Counted(s', h - multiset{d}, e) {
      assert NodeOk(s, e) && Counted(s, h, e);
    }
  }

  predicate Same(m: Dentry, n: Dentry) { m.name == n.name && m.after == n.after && m.parent == n.parent }

  /** Entries may go, but none changes its name, and parents stay while a child does. */
  ghost predicate Kept(s: State, s': State)
  {
    && s'.next == s.next
    && forall e :: e in s'.nodes ==> e in s.nodes && Same(s.nodes[e], s'.nodes[e])
  }

  /** Entries from `d` up, each the parent of the one before. */
  ghost predicate Lineage(s: State, a: seq<nat>, d: nat)
  {
    && a != [] && a[0] == d && (forall i :: 0 <= i < |a| ==> a[i] in s.nodes)
    && forall i, j :: 0 <= i && j == i + 1 && j < |a| ==> s.nodes[a[i]].parent == Some(a[j])
  }

  /** A lineage of entries with one reference each, up to one that has not exactly one. */
  ghost predicate Cascade(s: State, a: seq<nat>, d: nat)
  {
    && Lineage(s, a, d) && s.nodes[a[|a| - 1]].ref != 1
    && forall i :: 0 <= i < |a| - 1 ==> s.nodes[a[i]].ref == 1
  }

  /** d_put does not follow a null parent exactly when the entries it frees on its way up, all with one
      reference, lead to one that has another. */
  lemma PutFaults(s: State, d: nat)
    ensures Put(s, d).Some? <==> exists a :: Cascade(s, a, d)
  {
    if Put(s, d).Some? { var a := CascadeOf(s, d); }
    if a :| Cascade(s, a, d) { PutCascade(s, d, a); }
  }

  lemma {:induction false} CascadeOf(s: State, d: nat) returns (a: seq<nat>)
    requires Put(s, d).Some?
    ensures Cascade(s, a, d)
    decreases |s.nodes|
  {
    if s.nodes[d].ref != 1 {
      a := [d];
    } else {
      var p := s.nodes[d].parent.value;
      FewerNodes(s, d);
      var b := CascadeOf(Unlinked(s, d), p);
      a := [d] + b;
      CascadeUp(s, d, b);
    }
  }

  lemma CascadeUp(s: State, d: nat, b: seq<nat>)
    requires d in s.nodes && s.nodes[d].ref == 1 && s.nodes[d].parent.Some? && s.nodes[d].parent.value in s.nodes
    requires Cascade(Unlinked(s, d), b, s.nodes[d].parent.value)
    ensures Cascade(s, [d] + b, d)
  {
    var a, t := [d] + b, Unlinked(s, d);
    forall i | 0 <= i < |a| ensures a[i] in s.nodes && (0 < i < |a| - 1 ==> s.nodes[a[i]].ref == 1) {
      if i > 0 { assert b[i - 1] in t.nodes; }
    }
    forall i, j | 0 <= i && j == i + 1 && j < |a| ensures s.nodes[a[i]].parent == Some(a[j]) {
      if i > 0 { assert t.nodes[b[i - 1]].parent == Some(b[j - 1]); }
    }
    assert b[|b| - 1] in t.nodes;
  }

  lemma {:induction false} PutCascade(s: State, d: nat, a: seq<nat>)
    requires Cascade(s, a, d)
    ensures Put(s, d).Some?
    decreases |a|
  {
    if |a| > 1 {
      assert s.nodes[a[0]].parent == Some(a[1]);
      if k :| 0 < k < |a| && a[k] == d {
        CascadeFrom(s, d, a, k);
        PutCascade(s, d, a[k..]);
      } else {
        FewerNodes(s, d);
        CascadeDown(s, d, a);
        PutCascade(Unlinked(s, d), a[1], a[1..]);
      }
    }
  }

  lemma CascadeFrom(s: State, d: nat, a: seq<nat>, k: nat)
    requires Cascade(s, a, d) && 0 < k < |a| && a[k] == d
    ensures Cascade(s, a[k..], d)
  {
    var b := a[k..];
    forall i, j | 0 <= i && j == i + 1 && j < |b| ensures s.nodes[b[i]].parent == Some(b[j]) {
      assert s.nodes[a[i + k]].parent == Some(a[j + k]);
    }
  }

  lemma CascadeDown(s: State, d: nat, a: seq<nat>)
    requires Cascade(s, a, d) && |a| > 1 && s.nodes[d].parent == Some(a[1])
    requires forall k :: 0 < k < |a| ==> a[k] != d
    ensures Cascade(Unlinked(s, d), a[1..], a[1])
  {
    var b, t := a[1..], Unlinked(s, d);
    forall i | 0 <= i < |b| ensures b[i] in t.nodes && t.nodes[b[i]].ref == s.nodes[a[i + 1]].ref {
      assert a[i + 1] in s.nodes;
    }
    forall i, j | 0 <= i && j == i + 1 && j < |b| ensures t.nodes[b[i]].parent == Some(b[j]) {
      assert s.nodes[a[i + 1]].parent == Some(a[j + 1]);
    }
  }

  /** In terms of who holds what: d_put of a held entry does not follow a null parent exactly when the entry, or
      one above it, has another holder or another child. */
  lemma PutFaultsHeld(s: State, h: multiset<nat>, d: nat)
    requires Inv(s, h) && d in h
    ensures Put(s, d).Some? <==> exists a :: Lineage(s, a, d) && Shared(s, h, a[|a| - 1])
  {
    PutFaults(s, d);
    if a :| Cascade(s, a, d) {
      assert Counted(s, h, a[|a| - 1]);
    }
    if a :| Lineage(s, a, d) && Shared(s, h, a[|a| - 1]) {
      assert Counted(s, h, a[|a| - 1]);
      CascadeBelow(s, d, a);
    }
  }

  /** More than one holder or child together. */
  ghost predicate Shared(s: State, h: multiset<nat>, x: nat)
  {
    x in s.nodes && h[x] + |s.nodes[x].children| > 1
  }

  lemma {:induction false} CascadeBelow(s: State, d: nat, a: seq<nat>)
    requires Lineage(s, a, d) && s.nodes[a[|a| - 1]].ref != 1
    ensures exists b :: Cascade(s, b, d)
  {
    if i :| 0 <= i < |a| - 1 && s.nodes[a[i]].ref != 1 {
      CascadeBelow(s, d, a[..i + 1]);
    } else {
      assert Cascade(s, a, d);
    }
  }

  /** The last reference to a root, as when testfs gives up its superblock: d_free puts the parent it has not. */
  lemma LastRootReference(name: string, after: string)
    ensures var s := State(map[0 := Dentry(name, after, 1, None, [])], 1);
            Inv(s, multiset{0}) && Put(s, 0).None?
  {
    var s := State(map[0 := Dentry(name, after, 1, None, [])], 1);
    assert NodeOk(s, 0) && Counted(s, multiset{0}, 0);
  }

  /** Roots are held by something that stays. */
  ghost predicate Anchored(s: State, roots: multiset<nat>)
  {
    forall d :: d in s.nodes && s.nodes[d].parent.None? ==> d in roots
  }

  /** While roots are held besides, no d_put faults, and roots stay held. */
  lemma {:induction false} PutAnchored(s: State, h: multiset<nat>, roots: multiset<nat>, d: nat)
    requires Inv(s, h + roots) && d in h && Anchored(s, roots)
    ensures Put(s, d).Some? && Inv(Put(s, d).value, h - multiset{d} + roots) && Anchored(Put(s, d).value, roots)
    ensures Kept(s, Put(s, d).value)
    decreases |s.nodes|
  {
    hide Inv;
    hide Unlinked;
    assert h + roots - multiset{d} == h - multiset{d} + roots;
    PutKeeps(s, h + roots, d);
    At(s, h + roots, d);
    if s.nodes[d].ref == 1 {
      HeldTwice(s, h, roots, d);
      var p := s.nodes[d].parent.value;
      UnlinkKeeps(s, h + roots, d);
      assert h + roots - multiset{d} + multiset{p} == h - multiset{d} + multiset{p} + roots;
      FewerNodes(s, d);
      UnlinkAnchored(s, roots, d);
      PutAnchored(Unlinked(s, d), h - multiset{d} + multiset{p}, roots, p);
    }
  }

  lemma HeldTwice(s: State, h: multiset<nat>, roots: multiset<nat>, d: nat)
    requires Inv(s, h + roots) && d in h && d in s.nodes && s.nodes[d].ref == 1
    ensures d !in roots
  {
    assert Counted(s, h + roots, d);
  }

  lemma UnlinkAnchored(s: State, roots: multiset<nat>, d: nat)
    requires Anchored(s, roots) && d in s.nodes && s.nodes[d].parent.Some? && s.nodes[d].parent.value in s.nodes
    ensures Anchored(Unlinked(s, d), roots)
  {
  }

  // ----- Looking up a child

  lemma PutFresh(s: State, h: multiset<nat>, name: string, after: string, p: nat)
    requires Inv(s, h) && p in s.nodes
    ensures Put(Alloc(s, name, after, p), s.next) == Some(s.(next := s.next + 1))
  {
    assert NodeOk(s, p) && Counted(s, h, p) && s.next !in s.nodes;
    var s1 := Alloc(s, name, after, p);
    var s2 := Unlinked(s1, s.next);
    FewerNodes(s1, s.next);
    assert s1.nodes[p].children == [s.next] + s.nodes[p].children;
    assert Remove(s1.nodes[p].children, s.next) == s.nodes[p].children;
    assert s2.nodes == s.nodes[p := s.nodes[p].(ref := s.nodes[p].ref + 1)];
    assert Put(s2, p) == Some(s2.(nodes := s2.nodes[p := s2.nodes[p].(ref := s.nodes[p].ref)]));
    assert s2.nodes[p := s.nodes[p]] == s.nodes;
  }

  /** Entries may come, but none goes or moves. */
  ghost predicate Grown(s: State, s': State)
  {
    forall e :: e in s.nodes ==> e in s'.nodes && s'.nodes[e].parent == s.nodes[e].parent
  }

  /** No entry without a parent comes into being. */
  ghost predicate NoNewRoots(s: State, s': State)
  {
    forall e :: e in s'.nodes && s'.nodes[e].parent.None? ==> e in s.nodes && s.nodes[e].parent.None?
  }

  /** d_lookup of a directory never faults.  Found, the child is a child of the directory and has one holder
      more; not found, every entry is as it was. */
  lemma LookupKeeps(s: State, h: multiset<nat>, dir: nat, name: string, reply: Reply)
    requires Inv(s, h) && dir in s.nodes
    ensures match Lookup(s, dir, name, reply)
            case Fault => false
            case Error(code, s') => code == reply.error != 0 && s' == s.(next := s.next + 1)
            case Found(d, s') =>
              && Inv(s', h + multiset{d}) && d in s'.nodes && s'.nodes[d].parent == Some(dir)
              && (|name| < MAXNAMELEN ==> s'.nodes[d].name == name) && Grown(s, s') && NoNewRoots(s, s')
  {
    if ChildNamed(s, s.nodes[dir].children, name).Some? {
      ChildKeeps(s, h, dir, name, reply);
    } else {
      NewKeeps(s, h, dir, name, reply.after);
      PutFresh(s, h, name, reply.after, dir);
      hide Inv;
      hide Put;
      hide NoNewRoots;
      hide Grown;
    }
  }

  lemma ChildKeeps(s: State, h: multiset<nat>, dir: nat, name: string, reply: Reply)
    requires Inv(s, h) && dir in s.nodes && ChildNamed(s, s.nodes[dir].children, name).Some?
    ensures var d := ChildNamed(s, s.nodes[dir].children, name).value;
            var s' := Get(s, d);
            && Lookup(s, dir, name, reply) == Found(d, s') && Inv(s', h + multiset{d})
            && s'.nodes[d].parent == Some(dir) && Text(s'.nodes[d]) == name && Grown(s, s') && NoNewRoots(s, s')
  {
    assert NodeOk(s, dir);
    hide Inv;
    GetKeeps(s, h, ChildNamed(s, s.nodes[dir].children, name).value);
  }

  lemma NewKeeps(s: State, h: multiset<nat>, dir: nat, name: string, after: string)
    requires Inv(s, h) && dir in s.nodes
    ensures var d, s' := s.next, Alloc(s, name, after, dir);
            && Inv(s', h + multiset{d}) && d in s'.nodes && s'.nodes[d].parent == Some(dir)
            && s'.nodes[d].name == Stored(name) && Grown(s, s') && NoNewRoots(s, s')
  {
    hide Inv;
    NextUnused(s, h);
    AllocKeeps(s, h, name, after, dir);
  }

  lemma NextUnused(s: State, h: multiset<nat>)
    requires Inv(s, h)
    ensures s.next !in s.nodes
  {
    assert forall d :: d in s.nodes ==> NodeOk(s, d);
  }

  // ----- Names of siblings

  ghost predicate DistinctNames(s: State)
  {
    forall c, e ::
      (c in s.nodes && e in s.nodes && c != e && s.nodes[c].parent.Some? && s.nodes[c].parent == s.nodes[e].parent) ==>
        s.nodes[c].name != s.nodes[e].name
  }

  lemma PutNames(s: State, s': State)
    requires DistinctNames(s) && Kept(s, s')
    ensures DistinctNames(s')
  {
  }

  /** Some child in memory has this in its name field. */
  ghost predicate NameTaken(s: State, dir: nat, stored: string)
    requires dir in s.nodes
  {
    exists c :: c in s.nodes[dir].children && c in s.nodes && s.nodes[c].name == stored
  }

  /** d_lookup keeps siblings' names apart exactly when the child was found in memory or what is stored of its
      name is new among them; names that fit with their terminator always do. */
  lemma LookupNames(s: State, h: multiset<nat>, dir: nat, name: string, after: string)
    requires Inv(s, h) && DistinctNames(s) && dir in s.nodes
    ensures var a := Lookup(s, dir, name, Reply(0, after));
            && a.Found?
            && (DistinctNames(a.s) <==>
                  ChildNamed(s, s.nodes[dir].children, name).Some? || !NameTaken(s, dir, Stored(name)))
            && (|name| < MAXNAMELEN ==> DistinctNames(a.s))
  {
    if ChildNamed(s, s.nodes[dir].children, name).None? {
      NewNames(s, h, dir, name, after);
      hide DistinctNames;
      hide Inv;
    }
  }

  lemma NewNames(s: State, h: multiset<nat>, dir: nat, name: string, after: string)
    requires Inv(s, h) && DistinctNames(s) && dir in s.nodes
    ensures DistinctNames(Alloc(s, name, after, dir)) <==> !NameTaken(s, dir, Stored(name))
  {
    assert NodeOk(s, dir) && s.next !in s.nodes;
    var s' := Alloc(s, name, after, dir);
    if NameTaken(s, dir, Stored(name)) {
      var c :| c in s.nodes[dir].children && c in s.nodes && s.nodes[c].name == Stored(name);
      assert s'.nodes[c].parent == s'.nodes[s.next].parent && s'.nodes[c].name == s'.nodes[s.next].name;
    } else {
      forall c | c in s.nodes && s.nodes[c].parent == Some(dir) ensures s.nodes[c].name != Stored(name) {
        assert NodeOk(s, c);
      }
      hide Inv;
      hide NameTaken;
      hide Stored;
    }
  }

  /** Looking a name up twice in a row gives the same entry exactly when the name fits with its terminator or the
      text after the name field happens to be the rest of the name; otherwise a second entry with the same name
      field is made beside the first. */
  lemma LookupTwice(s: State, h: multiset<nat>, dir: nat, name: string, after: string, again: string)
    requires Inv(s, h) && dir in s.nodes && ChildNamed(s, s.nodes[dir].children, name).None?
    ensures var a := Lookup(s, dir, name, Reply(0, after));
            && a.Found? && dir in a.s.nodes
            && var b := Lookup(a.s, dir, name, Reply(0, again));
               && b.Found?
               && (b.d == a.d <==> |name| < MAXNAMELEN || after == name[MAXNAMELEN..])
               && (b.d != a.d ==> !DistinctNames(b.s))
  {
    var a := Lookup(s, dir, name, Reply(0, after));
    NewKeeps(s, h, dir, name, after);
    assert a.d == s.next && a.s == Alloc(s, name, after, dir);
    NextUnused(s, h);
    NextUnused(a.s, h + multiset{a.d});
    assert NodeOk(s, dir) && s.next !in s.nodes[dir].children;
    var kids := a.s.nodes[dir].children;
    assert kids == [s.next] + s.nodes[dir].children && kids[1..] == s.nodes[dir].children;
    SameChildren(s, a.s, kids[1..], name);
    TextOfNew(name, after);
    var b := Lookup(a.s, dir, name, Reply(0, again));
    if b.d != a.d {
      assert b.s.nodes[a.d].name == b.s.nodes[b.d].name && b.s.nodes[a.d].parent == b.s.nodes[b.d].parent;
    }
  }

  lemma TextOfNew(name: string, after: string)
    ensures forall p, c, r :: Text(Dentry(Stored(name), after, r, p, c)) == name <==>
                                |name| < MAXNAMELEN || after == name[MAXNAMELEN..]
  {
    if |name| >= MAXNAMELEN {
      assert name == name[..MAXNAMELEN] + name[MAXNAMELEN..];
      assert (Stored(name) + after)[MAXNAMELEN..] == after;
    }
  }

  lemma {:induction false} SameChildren(s: State, t: State, kids: seq<nat>, name: string)
    requires forall c :: c in kids ==> (c in s.nodes <==> c in t.nodes)
    requires forall c :: c in kids && c in s.nodes ==> Text(s.nodes[c]) == Text(t.nodes[c])
    ensures ChildNamed(s, kids, name) == ChildNamed(t, kids, name)
  {
    if kids != [] { SameChildren(s, t, kids[1..], name); }
  }

  /** A root directory in memory, with one holder. */
  function Rooted(): State { State(map[0 := Dentry("", "", 1, None, [])], 1) }

  /** A name of 256 characters, on a file system like testfs that finds every name: unless the inode pointer
      starts with a null byte, the second lookup makes a second entry. */
  lemma NameOf256(after: string)
    requires after != ""
    ensures var name := seq(256, _ => 'a');
            var a := Lookup(Rooted(), 0, name, Reply(0, after));
            a.Found? && 0 in a.s.nodes && Lookup(a.s, 0, name, Reply(0, after)).Found? &&
            a.d != Lookup(a.s, 0, name, Reply(0, after)).d
  {
    var name := seq(256, _ => 'a');
    LastRootReference("", "");
    LookupTwice(Rooted(), multiset{0}, 0, name, after, after);
  }

  /** And one of 257, unless the text after the field is its last character. */
  lemma NameOf257(after: string)
    requires after != "a"
    ensures var name := seq(257, _ => 'a');
            var a := Lookup(Rooted(), 0, name, Reply(0, after));
            a.Found? && 0 in a.s.nodes && Lookup(a.s, 0, name, Reply(0, after)).Found? &&
            a.d != Lookup(a.s, 0, name, Reply(0, after)).d
  {
    var name := seq(257, _ => 'a');
    LastRootReference("", "");
    assert name[MAXNAMELEN..] == "a";
    LookupTwice(Rooted(), multiset{0}, 0, name, after, after);
  }

  /** What looking up and putting back may do to the tree: no new roots, and siblings' names stay apart as long
      as the names asked for fit. */
  ghost predicate Evolves(s: State, s': State, short: bool)
  {
    NoNewRoots(s, s') && (short && DistinctNames(s) ==> DistinctNames(s'))
  }

  lemma LookupEvolves(s: State, h: multiset<nat>, dir: nat, name: string, reply: Reply, short: bool)
    requires Inv(s, h) && dir in s.nodes && (short ==> |name| < MAXNAMELEN)
    ensures match Lookup(s, dir, name, reply)
            case Fault => true
            case Error(_, s') => Evolves(s, s', short)
            case Found(_, s') => Evolves(s, s', short)
  {
    LookupKeeps(s, h, dir, name, reply);
    if short && DistinctNames(s) {
      match Lookup(s, dir, name, reply)
      case Error(_, s') => assert DistinctNames(s');
      case Found(_, s') => LookupNames(s, h, dir, name, reply.after); SameFound(s, dir, name, reply);
    }
  }

  lemma SameFound(s: State, dir: nat, name: string, reply: Reply)
    requires dir in s.nodes && Lookup(s, dir, name, reply).Found?
    ensures Lookup(s, dir, name, reply) == Lookup(s, dir, name, Reply(0, reply.after))
  {
  }
}
