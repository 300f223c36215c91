/** Open files and the descriptor tables of tasks (kernel/src/fs.c, kernel/src/file.c). */
module Descriptors {
  /** Slots per table, FS_MAX_OPEN_FILES. */
  const N: nat := 1024

  /** A slot: the flags FD_OCCUPIED, FD_INVALID and the pipe bits, and the file (0 for none). */
  datatype Slot = Slot(occupied: bool, invalid: bool, pipe: nat, file: nat)

  const Empty := Slot(false, false, 0, 0)

  predicate Valid(e: Slot) { e.occupied && !e.invalid }

  /** `refs` holds f_refs of every open file, `held` the references the kernel keeps outside any table, and
      `closed` the files the driver was told to close, in order.  Files are numbered as they are opened. */
  datatype State = State(
    tabs: map<nat, seq<Slot>>,
    refs: map<nat, nat>,
    held: multiset<nat>,
    closed: seq<nat>,
    next: nat)

  ghost predicate Names(s: State, t: nat, i: nat, f: nat)
  {
    t in s.tabs && i < |s.tabs[t]| && Valid(s.tabs[t][i]) && s.tabs[t][i].file == f
  }

  /** The descriptors that name a file. */
  ghost function Holders(s: State, f: nat): set<(nat, nat)>
  {
    set t, i | t in s.tabs && 0 <= i < |s.tabs[t]| && Names(s, t, i, f) :: (t, i)
  }

  // ----- Invariant

  ghost predicate SlotOk(s: State, t: nat, i: nat)
    requires t in s.tabs && i < |s.tabs[t]|
  {
    var e := s.tabs[t][i];
    if Valid(e) then e.file in s.refs else e.file == 0 && (!e.occupied ==> e == Empty)
  }

  ghost predicate Counted(s: State, f: nat)
    requires f in s.refs
  {
    s.refs[f] == |Holders(s, f)| + s.held[f] && s.refs[f] > 0
  }

  ghost predicate Once(s: State)
  {
    && s.next > 0
    && (forall f :: 0 < f < s.next <==> f in s.refs || f in s.closed)
    && (forall f :: f in s.refs ==> f !in s.closed)
    && (forall i, j :: 0 <= i < j < |s.closed| ==> s.closed[i] != s.closed[j])
  }

  ghost predicate SlotsOk(s: State)
  {
    && (forall t :: t in s.tabs ==> |s.tabs[t]| == N)
    && (forall t, i :: t in s.tabs && 0 <= i < |s.tabs[t]| ==> SlotOk(s, t, i))
    && (forall f :: f in s.held ==> f in s.refs)
  }

  /** Every open file has as many references as there are descriptors and kernel references to it, other
      slots hold no file, and a file was closed by its driver once, or is open. */
  ghost predicate Inv(s: State)
  {
    SlotsOk(s) && (forall f :: f in s.refs ==> Counted(s, f)) && Once(s)
  }

  // ----- Elementary changes

  function SetSlot(s: State, t: nat, i: nat, e: Slot): State
    requires t in s.tabs && i < |s.tabs[t]|
  {
    s.(tabs := s.tabs[t := s.tabs[t][i := e]])
  }

  /** A slot that names no file comes to name an open one. */
  function Attach(s: State, t: nat, i: nat, e: Slot): State
    requires t in s.tabs && i < |s.tabs[t]| && e.file in s.refs
  {
    SetSlot(s.(refs := s.refs[e.file := s.refs[e.file] + 1]), t, i, e)
  }

  /** file_close with a driver that succeeds: the last reference closes the file. */
  function Drop(s: State, f: nat): State
    requires f in s.refs && s.refs[f] > 0
  {
    if s.refs[f] > 1 then s.(refs := s.refs[f := s.refs[f] - 1])
    else s.(refs := s.refs - {f}, closed := s.closed + [f])
  }

  /** A slot that names a file is emptied and the reference dropped. */
  function Detach(s: State, t: nat, i: nat): State
    requires t in s.tabs && i < |s.tabs[t]| && s.tabs[t][i].file in s.refs && s.refs[s.tabs[t][i].file] > 0
  {
    SetSlot(Drop(s, s.tabs[t][i].file), t, i, Empty)
  }

  /** A file is opened and named by a slot. */
  function Opened(s: State, t: nat, i: nat): State
    requires t in s.tabs && i < |s.tabs[t]|
  {
    SetSlot(s.(refs := s.refs[s.next := 1], next := s.next + 1), t, i, Slot(true, false, 0, s.next))
  }

  // ----- What they keep

  lemma HoldersSet(s: State, s': State, t: nat, i: nat, e: Slot, f: nat)
    requires t in s.tabs && i < |s.tabs[t]| && s'.tabs == s.tabs[t := s.tabs[t][i := e]]
    ensures Valid(e) && e.file == f ==> Holders(s', f) == Holders(s, f) + {(t, i)}
    ensures !(Valid(e) && e.file == f) ==> Holders(s', f) == Holders(s, f) - {(t, i)}
    ensures (t, i) in Holders(s, f) <==> Names(s, t, i, f)
  {
    forall u: nat, j: nat ensures Names(s', u, j, f) <==> if u == t && j == i then Valid(e) && e.file == f else Names(s, u, j, f) {
    }
  }

  lemma AttachKeeps(s: State, t: nat, i: nat, e: Slot)
    requires Inv(s) && t in s.tabs && i < N && !Valid(s.tabs[t][i]) && Valid(e) && e.file in s.refs
    ensures Inv(Attach(s, t, i, e))
  {
    var s' := Attach(s, t, i, e);
    assert SlotsOk(s') by { AttachSlots(s, t, i, e); }
    forall f | f in s'.refs ensures Counted(s', f) {
      HoldersSet(s, s', t, i, e, f);
      assert Counted(s, f);
    }
  }

  lemma AttachSlots(s: State, t: nat, i: nat, e: Slot)
    requires SlotsOk(s) && t in s.tabs && i < N && Valid(e) && e.file in s.refs
    ensures SlotsOk(Attach(s, t, i, e))
  {
    var s' := Attach(s, t, i, e);
    forall u, j | u in s'.tabs && 0 <= j < |s'.tabs[u]| ensures SlotOk(s', u, j) { assert SlotOk(s, u, j); }
  }

  lemma DetachKeeps(s: State, t: nat, i: nat)
    requires Inv(s) && t in s.tabs && i < N && Valid(s.tabs[t][i])
    ensures s.tabs[t][i].file in s.refs && s.refs[s.tabs[t][i].file] > 0 && Inv(Detach(s, t, i))
  {
    assert SlotOk(s, t, i);
    var g := s.tabs[t][i].file;
    assert Counted(s, g);
    DetachCounts(s, t, i);
    hide Counted;
    DetachSlots(s, t, i);
    DropOnce(s, g);
    OnceTabs(Drop(s, g), Detach(s, t, i));
    hide Once;
    hide SlotsOk;
  }

  /** Whether files were closed once does not depend on the tables. */
  lemma OnceTabs(s: State, s': State)
    requires Once(s) && s'.refs == s.refs && s'.closed == s.closed && s'.next == s.next
    ensures Once(s')
  {
  }

  lemma DetachCounts(s: State, t: nat, i: nat)
    requires t in s.tabs && i < |s.tabs[t]| && Valid(s.tabs[t][i]) && s.tabs[t][i].file in s.refs
    requires forall f :: f in s.refs ==> Counted(s, f)
    ensures s.refs[s.tabs[t][i].file] > 0
    ensures var s' := Detach(s, t, i); forall f :: f in s'.refs ==> Counted(s', f)
    ensures s.refs[s.tabs[t][i].file] == 1 ==>
              Holders(Detach(s, t, i), s.tabs[t][i].file) == {} && s.tabs[t][i].file !in s.held
  {
    var g := s.tabs[t][i].file;
    assert Counted(s, g);
    var s' := Detach(s, t, i);
    FewerHolders(s, s', t, i);
    hide Holders;
    hide Names;
    forall f | f in s'.refs ensures Counted(s', f) { assert Counted(s, f); }
  }

  lemma FewerHolders(s: State, s': State, t: nat, i: nat)
    requires t in s.tabs && i < |s.tabs[t]| && Valid(s.tabs[t][i]) && s'.tabs == s.tabs[t := s.tabs[t][i := Empty]]
    ensures forall f :: |Holders(s', f)| == |Holders(s, f)| - (if f == s.tabs[t][i].file then 1 else 0)
    ensures |Holders(s, s.tabs[t][i].file)| == 1 ==> Holders(s', s.tabs[t][i].file) == {}
  {
    var g := s.tabs[t][i].file;
    forall f ensures |Holders(s', f)| == |Holders(s, f)| - (if f == g then 1 else 0) {
      HoldersSet(s, s', t, i, Empty, f);
      if f == g { assert (t, i) in Holders(s, g); } else { assert Holders(s', f) == Holders(s, f); }
    }
    if |Holders(s, g)| == 1 { assert |Holders(s', g)| == 0; }
  }

  lemma DetachSlots(s: State, t: nat, i: nat)
    requires SlotsOk(s) && t in s.tabs && i < N && Valid(s.tabs[t][i])
    requires var g := s.tabs[t][i].file;
             && g in s.refs && s.refs[g] > 0
             && (s.refs[g] == 1 ==> Holders(Detach(s, t, i), g) == {} && g !in s.held)
    ensures SlotsOk(Detach(s, t, i))
  {
    var s' := Detach(s, t, i);
    var g := s.tabs[t][i].file;
    forall u, j | u in s'.tabs && 0 <= j < |s'.tabs[u]| ensures SlotOk(s', u, j) {
      if u != t || j != i {
        assert SlotOk(s, u, j) && s'.tabs[u][j] == s.tabs[u][j];
        assert Names(s', u, j, g) ==> (u, j) in Holders(s', g);
      }
    }
  }

  lemma DropOnce(s: State, g: nat)
    requires Once(s) && g in s.refs && s.refs[g] > 0
    ensures Once(Drop(s, g))
  {
    var s' := Drop(s, g);
    assert forall f :: f in s'.closed <==> f in s.closed || (s.refs[g] == 1 && f == g);
  }

  /** Slots that name no file may be reserved and released. */
  lemma MarkKeeps(s: State, t: nat, i: nat, e: Slot)
    requires Inv(s) && t in s.tabs && i < N && !Valid(s.tabs[t][i]) && !Valid(e) && e.file == 0 && (!e.occupied ==> e == Empty)
    ensures Inv(SetSlot(s, t, i, e))
  {
    var s' := SetSlot(s, t, i, e);
    forall u, j | u in s'.tabs && 0 <= j < |s'.tabs[u]| ensures SlotOk(s', u, j) { assert SlotOk(s, u, j); }
    forall f | f in s'.refs ensures Counted(s', f) {
      HoldersSet(s, s', t, i, e, f);
      assert Counted(s, f);
    }
  }

  lemma OpenedKeeps(s: State, t: nat, i: nat)
    requires Inv(s) && t in s.tabs && i < N && !Valid(s.tabs[t][i])
    ensures Inv(Opened(s, t, i))
  {
    assert s.next !in s.refs && s.next !in s.held;
    NoHolder(s, s.next);
    OpenedCounts(s, t, i);
    OpenedSlots(s, t, i);
    OpenedOnce(s, t, i);
    hide SlotsOk;
    hide Counted;
    hide Once;
  }

  lemma OpenedCounts(s: State, t: nat, i: nat)
    requires t in s.tabs && i < |s.tabs[t]| && !Valid(s.tabs[t][i]) && s.next !in s.held && Holders(s, s.next) == {}
    requires forall f :: f in s.refs ==> Counted(s, f)
    ensures var s' := Opened(s, t, i); forall f :: f in s'.refs ==> Counted(s', f)
  {
    var s' := Opened(s, t, i);
    forall f | f in s'.refs ensures Counted(s', f) {
      HoldersSet(s, s', t, i, Slot(true, false, 0, s.next), f);
      hide Holders;
      assert f != s.next ==> Counted(s, f);
    }
  }

  lemma OpenedSlots(s: State, t: nat, i: nat)
    requires SlotsOk(s) && t in s.tabs && i < N
    ensures SlotsOk(Opened(s, t, i))
  {
    var s' := Opened(s, t, i);
    forall u, j | u in s'.tabs && 0 <= j < |s'.tabs[u]| ensures SlotOk(s', u, j) { assert SlotOk(s, u, j); }
  }

  lemma OpenedOnce(s: State, t: nat, i: nat)
    requires Once(s) && t in s.tabs && i < |s.tabs[t]|
    ensures Once(Opened(s, t, i))
  {
  }

  lemma NoHolder(s: State, g: nat)
    requires SlotsOk(s) && g !in s.refs
    ensures Holders(s, g) == {}
  {
    forall t, i | t in s.tabs && 0 <= i < |s.tabs[t]| ensures !Names(s, t, i, g) { assert SlotOk(s, t, i); }
  }

  /** A task without descriptors. */
  function WithTable(s: State, t: nat): State
  {
    s.(tabs := s.tabs[t := seq(N, i => Empty)])
  }

  lemma TableKeeps(s: State, t: nat)
    requires Inv(s) && t !in s.tabs
    ensures Inv(WithTable(s, t))
  {
    var s' := WithTable(s, t);
    forall u, j | u in s'.tabs && 0 <= j < |s'.tabs[u]| ensures SlotOk(s', u, j) {
      if u != t { assert SlotOk(s, u, j); }
    }
    forall f | f in s'.refs ensures Counted(s', f) {
      assert forall u: nat, j: nat :: Names(s', u, j, f) <==> Names(s, u, j, f);
      assert Holders(s', f) == Holders(s, f);
      assert Counted(s, f);
    }
  }

  /** file_get and file_close by the kernel. */
  function Get(s: State, f: nat): State
    requires f in s.refs
  {
    s.(refs := s.refs[f := s.refs[f] + 1], held := s.held + multiset{f})
  }

  function PutBack(s: State, f: nat): State
    requires f in s.refs && s.refs[f] > 0
  {
    Drop(s.(held := s.held - multiset{f}), f)
  }

  lemma GetKeeps(s: State, f: nat)
    requires Inv(s) && f in s.refs
    ensures Inv(Get(s, f))
  {
    SameTables(s, Get(s, f));
    forall g | g in s.refs ensures Counted(Get(s, f), g) { assert Counted(s, g); }
    var s' := Get(s, f);
    forall u, j | u in s'.tabs && 0 <= j < |s'.tabs[u]| ensures SlotOk(s', u, j) { assert SlotOk(s, u, j); }
  }

  lemma SameTables(s: State, s': State)
    requires s'.tabs == s.tabs
    ensures forall f :: Holders(s', f) == Holders(s, f)
  {
    assert forall u: nat, j: nat, f: nat :: Names(s', u, j, f) <==> Names(s, u, j, f);
  }

  lemma PutKeeps(s: State, f: nat)
    requires Inv(s) && f in s.held
    ensures f in s.refs && s.refs[f] > 0 && Inv(PutBack(s, f))
  {
    assert f in s.refs && Counted(s, f);
    var s' := PutBack(s, f);
    SameTables(s, s');
    assert s.refs[f] == 1 ==> Holders(s, f) == {} && s.held[f] == 1;
    forall g | g in s'.refs ensures Counted(s', g) { assert Counted(s, g); }
    forall u, j | u in s'.tabs && 0 <= j < |s'.tabs[u]| ensures SlotOk(s', u, j) {
      assert SlotOk(s, u, j);
      assert Names(s, u, j, f) ==> (u, j) in Holders(s, f);
    }
    DropOnce(s.(held := s.held - multiset{f}), f);
  }
}
