/** The system calls on descriptors, and what every run of them keeps (kernel/src/fs.c). */
module DescriptorRuns {
  import opened Options
  import opened Descriptors

  /** The lowest unoccupied slot from `i` on. */
  function FirstFree(tab: seq<Slot>, i: nat): (r: Option<nat>)
    requires i <= |tab|
    ensures r.Some? ==> i <= r.value < |tab| && !tab[r.value].occupied && forall j :: i <= j < r.value ==> tab[j].occupied
    ensures r.None? ==> forall j :: i <= j < |tab| ==> tab[j].occupied
    decreases |tab| - i
  {
    if i == |tab| then None else if !tab[i].occupied then Some(i) else FirstFree(tab, i + 1)
  }

  /** The lowest slot from `i` on that names no file, reserved or not. */
  function FirstVacant(tab: seq<Slot>, i: nat): (r: Option<nat>)
    requires i <= |tab|
    ensures r.Some? ==> i <= r.value < |tab| && !Valid(tab[r.value]) && forall j :: i <= j < r.value ==> Valid(tab[j])
    ensures r.None? ==> forall j :: i <= j < |tab| ==> Valid(tab[j])
    decreases |tab| - i
  {
    if i == |tab| then None else if !Valid(tab[i]) then Some(i) else FirstVacant(tab, i + 1)
  }

  predicate ValidFd(s: State, t: nat, fd: int)
    requires t in s.tabs
  {
    0 <= fd < |s.tabs[t]| && Valid(s.tabs[t][fd])
  }

  // ----- System calls

  /** sys_open; `ok` says whether the file is found, or made, and its driver opens it. */
  ghost function Open(s: State, t: nat, ok: bool): State
    requires Inv(s) && t in s.tabs
  {
    match FirstFree(s.tabs[t], 0)
    case None => s
    case Some(i) => if ok then Opened(s, t, i) else s
  }

  ghost function Dup(s: State, t: nat, fd: int): State
    requires Inv(s) && t in s.tabs
  {
    if !ValidFd(s, t, fd) || FirstFree(s.tabs[t], 0).None? then s
    else
      assert SlotOk(s, t, fd);
      Attach(s, t, FirstFree(s.tabs[t], 0).value, Slot(true, false, 0, s.tabs[t][fd].file))
  }

  ghost function Close(s: State, t: nat, fd: int): State
    requires Inv(s) && t in s.tabs
  {
    if !ValidFd(s, t, fd) then s else (DetachKeeps(s, t, fd); Detach(s, t, fd))
  }

  /** The slot dup2 is asked for, or finds. */
  ghost function Target(s: State, t: nat, other: int): Option<nat>
    requires t in s.tabs
  {
    if other == -1 then FirstVacant(s.tabs[t], 0)
    else if 0 <= other < |s.tabs[t]| then Some(other)
    else None
  }

  ghost function Dup2(s: State, t: nat, fd: int, other: int): State
    requires Inv(s) && t in s.tabs
  {
    if !ValidFd(s, t, fd) || Target(s, t, other).None? then s
    else
      var to := Target(s, t, other).value;
      var s1 := Close(s, t, to);
      if to == fd then s1
      else
        StillOpen(s, t, fd, to);
        Attach(s1, t, to, s.tabs[t][fd])
  }

  /** Closing one descriptor leaves the file of another open. */
  lemma StillOpen(s: State, t: nat, fd: int, to: nat)
    requires Inv(s) && t in s.tabs && ValidFd(s, t, fd) && to < N && to != fd
    ensures var s1 := Close(s, t, to);
            t in s1.tabs && |s1.tabs[t]| == N && s1.tabs[t][fd] == s.tabs[t][fd] && s.tabs[t][fd].file in s1.refs
    ensures Inv(Close(s, t, to)) && !Valid(Close(s, t, to).tabs[t][to])
  {
    if ValidFd(s, t, to) { DetachKeeps(s, t, to); }
    var s1 := Close(s, t, to);
    assert SlotOk(s1, t, fd);
  }

  /** sys_resfd: the lowest unoccupied slot is taken without naming a file. */
  ghost function Reserve(s: State, t: nat): State
    requires Inv(s) && t in s.tabs
  {
    match FirstFree(s.tabs[t], 0)
    case None => s
    case Some(i) => SetSlot(s, t, i, Slot(true, true, 0, s.tabs[t][i].file))
  }

  lemma ReserveKeeps(s: State, t: nat)
    requires Inv(s) && t in s.tabs
    ensures Inv(Reserve(s, t))
  {
    var r := FirstFree(s.tabs[t], 0);
    if r.Some? {
      SlotEmpty(s, t, r.value);
      MarkKeeps(s, t, r.value, Slot(true, true, 0, 0));
    }
  }

  /** A slot reserved and then released is as it was. */
  lemma ReleaseUndoesReserve(s: State, t: nat)
    requires Inv(s) && t in s.tabs && FirstFree(s.tabs[t], 0).Some?
    ensures var i := FirstFree(s.tabs[t], 0).value;
            var s1 := Reserve(s, t);
            t in s1.tabs && i < |s1.tabs[t]| && !ValidFd(s1, t, i) && Relfd(s1, t, i) == s
  {
    var i := FirstFree(s.tabs[t], 0).value;
    SlotEmpty(s, t, i);
    var tab := s.tabs[t];
    assert tab[i := Slot(true, true, 0, 0)][i := Empty] == tab;
    assert s.tabs[t := tab] == s.tabs;
  }

  /** copy_task_vfs from slot `i` on. */
  ghost function ForkFrom(s: State, t: nat, child: nat, i: nat): State
    requires Inv(s) && t in s.tabs && child in s.tabs && t != child && i <= N
    requires forall j :: i <= j < N ==> !Valid(s.tabs[child][j])
    decreases N - i
  {
    if i == N then s
    else if Valid(s.tabs[t][i]) then
      assert SlotOk(s, t, i);
      AttachKeeps(s, child, i, s.tabs[t][i]);
      ForkFrom(Attach(s, child, i, s.tabs[t][i]), t, child, i + 1)
    else ForkFrom(s, t, child, i + 1)
  }

  ghost function Fork(s: State, t: nat, child: nat): State
    requires Inv(s) && t in s.tabs && child !in s.tabs
  {
    TableKeeps(s, child);
    ForkFrom(WithTable(s, child), t, child, 0)
  }

  /** free_task_vfs from slot `i` on. */
  ghost function ExitFrom(s: State, t: nat, i: nat): State
    requires Inv(s) && t in s.tabs && i <= N
    decreases N - i
  {
    if i == N then s
    else if Valid(s.tabs[t][i]) then
      DetachKeeps(s, t, i);
      ExitFrom(Detach(s, t, i), t, i + 1)
    else if s.tabs[t][i].occupied then
      MarkKeeps(s, t, i, Empty);
      ExitFrom(SetSlot(s, t, i, Empty), t, i + 1)
    else ExitFrom(s, t, i + 1)
  }

  // ----- What fork and exit do

  lemma {:induction false} ForkKeeps(s: State, t: nat, child: nat, i: nat)
    requires Inv(s) && t in s.tabs && child in s.tabs && t != child && i <= N
    requires forall j :: i <= j < N ==> !Valid(s.tabs[child][j])
    ensures var s' := ForkFrom(s, t, child, i);
            && Inv(s') && s'.tabs.Keys == s.tabs.Keys && s'.closed == s.closed && s'.refs.Keys == s.refs.Keys
            && (forall u :: u in s.tabs && u != child ==> s'.tabs[u] == s.tabs[u])
            && (forall j :: 0 <= j < i ==> s'.tabs[child][j] == s.tabs[child][j])
            && (forall j :: i <= j < N ==>
                  s'.tabs[child][j] == if Valid(s.tabs[t][j]) then s.tabs[t][j] else s.tabs[child][j])
    decreases N - i
  {
    hide Inv;
    if i < N {
      TableSize(s, t);
      TableSize(s, child);
      if Valid(s.tabs[t][i]) {
        SlotFile(s, t, i);
        AttachKeeps(s, child, i, s.tabs[t][i]);
        ForkKeeps(Attach(s, child, i, s.tabs[t][i]), t, child, i + 1);
      } else {
        ForkKeeps(s, t, child, i + 1);
      }
    }
  }

  lemma TableSize(s: State, t: nat)
    requires Inv(s) && t in s.tabs
    ensures |s.tabs[t]| == N
  {
  }

  lemma SlotFile(s: State, t: nat, i: nat)
    requires Inv(s) && t in s.tabs && i < N && Valid(s.tabs[t][i])
    ensures s.tabs[t][i].file in s.refs
  {
    assert SlotOk(s, t, i);
  }

  lemma SlotEmpty(s: State, t: nat, i: nat)
    requires Inv(s) && t in s.tabs && i < N && !s.tabs[t][i].occupied
    ensures s.tabs[t][i] == Empty
  {
    assert SlotOk(s, t, i);
  }

  lemma DetachTabs(s: State, t: nat, i: nat)
    requires t in s.tabs && i < |s.tabs[t]| && s.tabs[t][i].file in s.refs && s.refs[s.tabs[t][i].file] > 0
    ensures Detach(s, t, i).tabs == s.tabs[t := s.tabs[t][i := Empty]]
  {
  }

  /** The child of a fork names the files its parent names, in the same slots, and nothing else. */
  lemma ForkCopies(s: State, t: nat, child: nat)
    requires Inv(s) && t in s.tabs && child !in s.tabs
    ensures var s' := Fork(s, t, child);
            && Inv(s') && s'.tabs.Keys == s.tabs.Keys + {child} && s'.closed == s.closed
            && (forall u :: u in s.tabs ==> s'.tabs[u] == s.tabs[u])
            && |s'.tabs[child]| == N
            && (forall j :: 0 <= j < N ==> s'.tabs[child][j] == if Valid(s.tabs[t][j]) then s.tabs[t][j] else Empty)
  {
    TableKeeps(s, child);
    ForkKeeps(WithTable(s, child), t, child, 0);
    TableSize(Fork(s, t, child), child);
  }

  lemma {:induction false} ExitKeeps(s: State, t: nat, i: nat)
    requires Inv(s) && t in s.tabs && i <= N
    ensures var s' := ExitFrom(s, t, i);
            && Inv(s') && s'.tabs.Keys == s.tabs.Keys
            && (forall u :: u in s.tabs && u != t ==> s'.tabs[u] == s.tabs[u])
            && |s'.tabs[t]| == N && |s.tabs[t]| == N
            && (forall j :: 0 <= j < N ==> s'.tabs[t][j] == if j < i then s.tabs[t][j] else Empty)
    decreases N - i
  {
    hide Inv;
    hide Drop;
    TableSize(s, t);
    if i < N {
      if Valid(s.tabs[t][i]) {
        DetachKeeps(s, t, i);
        DetachTabs(s, t, i);
        ExitKeeps(Detach(s, t, i), t, i + 1);
      } else if s.tabs[t][i].occupied {
        MarkKeeps(s, t, i, Empty);
        ExitKeeps(SetSlot(s, t, i, Empty), t, i + 1);
      } else {
        SlotEmpty(s, t, i);
        ExitKeeps(s, t, i + 1);
      }
    }
  }

  // ----- Runs

  datatype Op =
    | DoOpen(t: nat, ok: bool)
    | DoDup(t: nat, fd: int)
    | DoDup2(t: nat, fd: int, other: int)
    | DoClose(t: nat, fd: int)
    | DoFork(t: nat, child: nat)
    | DoExit(t: nat)
    | DoReserve(t: nat)
    | DoRelease(t: nat, slot: nat)
    | DoGet(f: nat)
    | DoPut(f: nat)

  /** The caller of sys_relfd gives back a slot that names no file; RelfdKeeps says what happens otherwise. */
  ghost predicate May(s: State, op: Op)
  {
    match op
    case DoOpen(t, _) => t in s.tabs
    case DoDup(t, _) => t in s.tabs
    case DoDup2(t, _, _) => t in s.tabs
    case DoClose(t, _) => t in s.tabs
    case DoFork(t, child) => t in s.tabs && child !in s.tabs
    case DoExit(t) => t in s.tabs
    case DoReserve(t) => t in s.tabs
    case DoRelease(t, slot) => t in s.tabs && slot < N && !ValidFd(s, t, slot)
    case DoGet(f) => f in s.refs
    case DoPut(f) => f in s.held
  }

  ghost function Next(s: State, op: Op): State
    requires Inv(s) && May(s, op)
  {
    match op
    case DoOpen(t, ok) => Open(s, t, ok)
    case DoDup(t, fd) => Dup(s, t, fd)
    case DoDup2(t, fd, other) => Dup2(s, t, fd, other)
    case DoClose(t, fd) => Close(s, t, fd)
    case DoFork(t, child) => Fork(s, t, child)
    case DoExit(t) => ExitFrom(s, t, 0)
    case DoReserve(t) => Reserve(s, t)
    case DoRelease(t, slot) => Relfd(s, t, slot)
    case DoGet(f) => Get(s, f)
    case DoPut(f) => PutKeeps(s, f); PutBack(s, f)
  }

  lemma NextKeeps(s: State, op: Op)
    requires Inv(s) && May(s, op)
    ensures Inv(Next(s, op))
  {
    match op
    case DoOpen(t, ok) => OpenKeeps(s, t, ok);
    case DoDup(t, fd) => DupKeeps(s, t, fd);
    case DoDup2(t, fd, other) => Dup2Keeps(s, t, fd, other);
    case DoClose(t, fd) => CloseKeeps(s, t, fd);
    case DoFork(t, child) => ForkCopies(s, t, child);
    case DoExit(t) => ExitKeeps(s, t, 0);
    case DoReserve(t) => ReserveKeeps(s, t);
    case DoRelease(t, slot) => RelfdKeeps(s, t, slot);
    case DoGet(f) => GetKeeps(s, f);
    case DoPut(f) => PutKeeps(s, f);
  }

  lemma OpenKeeps(s: State, t: nat, ok: bool)
    requires Inv(s) && t in s.tabs
    ensures Inv(Open(s, t, ok))
  {
    var r := FirstFree(s.tabs[t], 0);
    if r.Some? && ok { OpenedKeeps(s, t, r.value); }
  }

  lemma DupKeeps(s: State, t: nat, fd: int)
    requires Inv(s) && t in s.tabs
    ensures Inv(Dup(s, t, fd))
  {
    var r := FirstFree(s.tabs[t], 0);
    if ValidFd(s, t, fd) && r.Some? {
      SlotFile(s, t, fd);
      AttachKeeps(s, t, r.value, Slot(true, false, 0, s.tabs[t][fd].file));
    }
  }

  lemma CloseKeeps(s: State, t: nat, fd: int)
    requires Inv(s) && t in s.tabs
    ensures Inv(Close(s, t, fd))
  {
    if ValidFd(s, t, fd) { DetachKeeps(s, t, fd); }
  }

  lemma Dup2Keeps(s: State, t: nat, fd: int, other: int)
    requires Inv(s) && t in s.tabs
    ensures Inv(Dup2(s, t, fd, other))
  {
    if ValidFd(s, t, fd) && Target(s, t, other).Some? {
      var to := Target(s, t, other).value;
      CloseKeeps(s, t, to);
      if to != fd {
        TableSize(s, t);
        StillOpen(s, t, fd, to);
        AttachKeeps(Close(s, t, to), t, to, s.tabs[t][fd]);
      }
    }
  }

  ghost predicate StepAt(ss: seq<State>, ops: seq<Op>, i: nat)
    requires |ss| == |ops| + 1 && i < |ops|
  {
    Inv(ss[i]) ==> May(ss[i], ops[i]) && ss[i + 1] == Next(ss[i], ops[i])
  }

  ghost predicate Trace(ss: seq<State>, ops: seq<Op>)
  {
    |ss| == |ops| + 1 && forall i :: 0 <= i < |ops| ==> StepAt(ss, ops, i)
  }

  /** One task, no open files. */
  function Boot(t: nat): State
  {
    WithTable(State(map[], map[], multiset{}, [], 1), t)
  }

  /** Over every run each open file has exactly as many references as descriptors and kernel references name
      it, and each file is closed by its driver once, when its last reference goes. */
  lemma {:induction false} RunCounts(ss: seq<State>, ops: seq<Op>, t: nat, k: nat)
    requires Trace(ss, ops) && ss[0] == Boot(t) && k < |ss|
    ensures Inv(ss[k])
  {
    if k == 0 {
      TableKeeps(State(map[], map[], multiset{}, [], 1), t);
    } else {
      RunCounts(ss, ops, t, k - 1);
      assert StepAt(ss, ops, k - 1);
      hide Inv;
      hide Next;
      NextKeeps(ss[k - 1], ops[k - 1]);
    }
  }

  /** A file is closed by an operation exactly when that takes its last reference, and then no descriptor and
      no kernel reference names it any more. */
  lemma ClosedIsGone(s: State, f: nat)
    requires Inv(s) && f in s.closed
    ensures f !in s.refs && Holders(s, f) == {} && s.held[f] == 0
  {
    assert f !in s.refs;
    NoHolder(s, f);
  }

  // ----- What each call does

  /** Every slot but one is as it was. */
  ghost predicate Elsewhere(s: State, s': State, t: nat, i: nat)
  {
    && s'.tabs.Keys == s.tabs.Keys && (forall u :: u in s.tabs ==> |s'.tabs[u]| == |s.tabs[u]|)
    && forall u, j :: u in s.tabs && 0 <= j < |s.tabs[u]| && (u != t || j != i) ==> s'.tabs[u][j] == s.tabs[u][j]
  }

  /** sys_open makes the lowest free slot name a file that was never open before, with that one reference. */
  lemma OpenNames(s: State, t: nat, ok: bool)
    requires Inv(s) && t in s.tabs
    ensures var r, s' := FirstFree(s.tabs[t], 0), Open(s, t, ok);
            if r.None? || !ok then s' == s
            else
              exists f :: && f !in s.refs && f !in s.closed && Names(s', t, r.value, f) && s'.refs == s.refs[f := 1]
                          && Elsewhere(s, s', t, r.value) && s'.held == s.held && s'.closed == s.closed
  {
    var r, s' := FirstFree(s.tabs[t], 0), Open(s, t, ok);
    if r.Some? && ok {
      assert Elsewhere(s, s', t, r.value) && Names(s', t, r.value, s.next);
      assert s.next !in s.refs && s.next !in s.closed;
      hide Inv;
      hide Elsewhere;
    }
  }

  /** sys_dup makes the lowest free slot name the file of the descriptor, which has one reference more. */
  lemma DupNames(s: State, t: nat, fd: int)
    requires Inv(s) && t in s.tabs
    ensures var r, s' := FirstFree(s.tabs[t], 0), Dup(s, t, fd);
            if r.None? || !ValidFd(s, t, fd) then s' == s
            else
              var f := s.tabs[t][fd].file;
              && f in s.refs && Names(s', t, r.value, f) && Names(s', t, fd, f) && s'.refs == s.refs[f := s.refs[f] + 1]
              && s'.tabs[t][r.value] == s.tabs[t][fd].(pipe := 0)
              && Elsewhere(s, s', t, r.value) && s'.held == s.held && s'.closed == s.closed && s'.next == s.next
  {
    if ValidFd(s, t, fd) { SlotFile(s, t, fd); }
  }

  /** sys_close empties the slot; its file has one reference less, and with the last one is closed by its driver. */
  lemma CloseEmpties(s: State, t: nat, fd: int)
    requires Inv(s) && t in s.tabs
    ensures var s' := Close(s, t, fd);
            if !ValidFd(s, t, fd) then s' == s
            else
              var f := s.tabs[t][fd].file;
              && t in s'.tabs && fd < |s'.tabs[t]| && s'.tabs[t][fd] == Empty && f in s.refs
              && Elsewhere(s, s', t, fd) && s'.held == s.held && s'.next == s.next
              && (if s.refs[f] == 1 then s'.refs == s.refs - {f} && s'.closed == s.closed + [f]
                  else s'.refs == s.refs[f := s.refs[f] - 1] && s'.closed == s.closed)
  {
    if ValidFd(s, t, fd) { DetachKeeps(s, t, fd); }
  }

  // ----- Where the code does not do what it promises

  /** dup2 makes the target name the file exactly when the target is another descriptor; onto itself it
      closes it. */
  lemma Dup2Names(s: State, t: nat, fd: int, other: int)
    requires Inv(s) && t in s.tabs && ValidFd(s, t, fd) && Target(s, t, other).Some?
    ensures var to, s' := Target(s, t, other).value, Dup2(s, t, fd, other);
            && (Names(s', t, to, s.tabs[t][fd].file) <==> to != fd)
            && (to != fd ==> s'.tabs[t][to] == s.tabs[t][fd])
            && (to == fd ==> t in s'.tabs && to < |s'.tabs[t]| && s'.tabs[t][to] == Empty)
  {
    var to := Target(s, t, other).value;
    TableSize(s, t);
    if to != fd { StillOpen(s, t, fd, to); } else { DetachKeeps(s, t, fd); DetachTabs(s, t, fd); }
  }

  /** No other slot is touched. */
  lemma Dup2Elsewhere(s: State, t: nat, fd: int, other: int)
    requires Inv(s) && t in s.tabs && ValidFd(s, t, fd) && Target(s, t, other).Some?
    ensures Elsewhere(s, Dup2(s, t, fd, other), t, Target(s, t, other).value)
  {
    var to := Target(s, t, other).value;
    TableSize(s, t);
    CloseEmpties(s, t, to);
    hide Target;
    if to != fd {
      StillOpen(s, t, fd, to);
      hide Inv;
      hide Close;
      AttachElsewhere(Close(s, t, to), t, to, s.tabs[t][fd]);
    }
  }

  lemma AttachElsewhere(s: State, t: nat, i: nat, e: Slot)
    requires t in s.tabs && i < |s.tabs[t]| && e.file in s.refs
    ensures Elsewhere(s, Attach(s, t, i, e), t, i)
  {
  }

  /** Asked for any slot, dup2 takes the lowest free one exactly when the lowest that names no file is not
      reserved. */
  lemma Dup2Lowest(tab: seq<Slot>)
    ensures var r := FirstVacant(tab, 0);
            r == FirstFree(tab, 0) <==> (r.Some? ==> !tab[r.value].occupied)
  {
    var r, q := FirstVacant(tab, 0), FirstFree(tab, 0);
    if r.Some? && !tab[r.value].occupied {
      assert q.Some? && q.value <= r.value;
      assert !Valid(tab[q.value]);
    }
  }

  /** close through a driver that may fail: the count is already down by then. */
  ghost function CloseWith(s: State, t: nat, fd: int, ok: bool): State
    requires Inv(s) && t in s.tabs && ValidFd(s, t, fd)
  {
    DetachKeeps(s, t, fd);
    var f := s.tabs[t][fd].file;
    if ok || s.refs[f] > 1 then Detach(s, t, fd) else s.(refs := s.refs[f := 0])
  }

  /** The counts stay right exactly when the driver succeeds or is not called. */
  lemma CloseWithKeeps(s: State, t: nat, fd: int, ok: bool)
    requires Inv(s) && t in s.tabs && ValidFd(s, t, fd)
    ensures s.tabs[t][fd].file in s.refs
    ensures Inv(CloseWith(s, t, fd, ok)) <==> ok || s.refs[s.tabs[t][fd].file] > 1
  {
    DetachKeeps(s, t, fd);
    var f, s' := s.tabs[t][fd].file, CloseWith(s, t, fd, ok);
    if !ok && s.refs[f] == 1 { assert !Counted(s', f); }
  }

  /** sys_relfd clears the flags of any slot. */
  function Relfd(s: State, t: nat, fd: nat): State
    requires t in s.tabs && fd < |s.tabs[t]|
  {
    SetSlot(s, t, fd, Slot(false, false, 0, s.tabs[t][fd].file))
  }

  /** The counts stay right exactly when the slot did not name a file. */
  lemma RelfdKeeps(s: State, t: nat, fd: nat)
    requires Inv(s) && t in s.tabs && fd < N
    ensures Inv(Relfd(s, t, fd)) <==> !ValidFd(s, t, fd)
  {
    TableSize(s, t);
    assert SlotOk(s, t, fd);
    var s' := Relfd(s, t, fd);
    if ValidFd(s, t, fd) {
      assert s.tabs[t][fd].file > 0 by { hide SlotsOk; }
      assert s'.tabs[t][fd].file == s.tabs[t][fd].file && !SlotOk(s', t, fd);
    } else {
      MarkKeeps(s, t, fd, Empty);
    }
  }

  // ----- At inputs

  /** One task that has opened one file. */
  ghost function OneFile(t: nat): (s: State)
    ensures Inv(s) && t in s.tabs && ValidFd(s, t, 0) && s.tabs[t][0].file == 1 && s.refs == map[1 := 1]
  {
    BootInv(t);
    OpenKeeps(Boot(t), t, true);
    assert FirstFree(Boot(t).tabs[t], 0) == Some(0);
    Open(Boot(t), t, true)
  }

  lemma BootInv(t: nat)
    ensures Inv(Boot(t))
  {
    TableKeeps(State(map[], map[], multiset{}, [], 1), t);
  }

  /** Closing the only descriptor of a file whose driver fails, releasing it with sys_relfd, and dup2 of it onto
      itself. */
  lemma OneFileLost(t: nat)
    ensures !Inv(CloseWith(OneFile(t), t, 0, false)) && !Inv(Relfd(OneFile(t), t, 0))
    ensures var s' := Dup2(OneFile(t), t, 0, 0); t in s'.tabs && |s'.tabs[t]| > 0 && s'.tabs[t][0] == Empty
  {
    hide Inv;
    var s := OneFile(t);
    hide OneFile;
    TableSize(s, t);
    CloseWithKeeps(s, t, 0, false);
    RelfdKeeps(s, t, 0);
    Dup2Names(s, t, 0, 0);
  }

  /** After sys_resfd by a new task, dup2 to any slot takes the slot reserved, not the free one. */
  lemma ReservedTaken(t: nat)
    ensures Inv(Boot(t))
    ensures var s := Reserve(Boot(t), t);
            && t in s.tabs && |s.tabs[t]| == N && s.tabs[t][0].occupied
            && Target(s, t, -1) == Some(0) && FirstFree(s.tabs[t], 0) == Some(1)
  {
    BootInv(t);
    var tab := Boot(t).tabs[t];
    assert FirstFree(tab, 0) == Some(0);
    var s := Reserve(Boot(t), t);
    assert s.tabs[t] == tab[0 := Slot(true, true, 0, 0)];
  }
}
