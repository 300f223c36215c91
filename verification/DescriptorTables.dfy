/** The loops and updates of kernel/src/fs.c and kernel/src/file.c on descriptor tables and open files, for
    drivers whose close succeeds. */
module DescriptorTables {
  import opened Options
  import opened Descriptors
  import opened DescriptorRuns

  const EBADF: int := -9
  const EMFILE: int := -24

  class Tables {
    var tabs: map<nat, seq<Slot>>
    var refs: map<nat, nat>
    ghost var held: multiset<nat>
    var closed: seq<nat>
    var next: nat

    ghost function S(): State
      reads this
    {
      State(tabs, refs, held, closed, next)
    }

    /** The first task. */
    constructor (t: nat)
      ensures S() == Boot(t) && Inv(S())
    {
      TableKeeps(State(map[], map[], multiset{}, [], 1), t);
      tabs := map[t := seq(N, i => Empty)];
      refs := map[];
      held := multiset{};
      closed := [];
      next := 1;
    }

    /** FD_VALID */
    predicate IsValid(t: nat, fd: int)
      requires t in tabs
      reads this
    {
      0 <= fd < |tabs[t]| && Valid(tabs[t][fd])
    }

    /** The search for a free slot in sys_open and sys_dup. */
    method FindFree(t: nat) returns (fd: nat)
      requires t in tabs
      ensures FirstFree(tabs[t], 0) == if fd == |tabs[t]| then None else Some(fd)
      ensures fd <= |tabs[t]|
    {
      fd := 0;
      while fd < |tabs[t]|
        invariant fd <= |tabs[t]| && FirstFree(tabs[t], fd) == FirstFree(tabs[t], 0)
      {
        if !tabs[t][fd].occupied {
          return;
        }
        fd := fd + 1;
      }
    }

    method Write(t: nat, i: nat, e: Slot)
      requires t in tabs && i < |tabs[t]|
      modifies this`tabs
      ensures S() == SetSlot(old(S()), t, i, e)
    {
      tabs := tabs[t := tabs[t][i := e]];
    }

    /** file_close */
    method CloseFile(f: nat)
      requires f in refs && refs[f] > 0
      modifies this`refs, this`closed
      ensures S() == Drop(old(S()), f)
    {
      refs := refs[f := refs[f] - 1];
      if refs[f] > 0 {
        return;
      }
      closed := closed + [f];
      refs := refs - {f};
    }

    method SysOpen(t: nat, ok: bool, error: int) returns (fd: int)
      requires Inv(S()) && t in tabs && error < 0
      modifies this
      ensures Inv(S()) && S() == Open(old(S()), t, ok)
      ensures var r := old(FirstFree(tabs[t], 0)); fd == if r.None? then EMFILE else if !ok then error else r.value
    {
      hide Inv;
      TableSize(S(), t);
      OpenKeeps(S(), t, ok);
      var i := FindFree(t);
      if i == N {
        return EMFILE;
      }
      SlotEmpty(S(), t, i);
      ghost var s := S();
      Write(t, i, Slot(true, true, 0, 0));
      if !ok {
        WriteTwice(s, t, i, Slot(true, true, 0, 0), Empty);
        Write(t, i, Empty);
        return error;
      }
      WriteTwice(s, t, i, Slot(true, true, 0, 0), Slot(true, false, 0, next));
      refs := refs[next := 1];
      Write(t, i, Slot(true, false, 0, next));
      next := next + 1;
      fd := i;
    }

    method SysDup(t: nat, fd: int) returns (r: int)
      requires Inv(S()) && t in tabs
      modifies this
      ensures Inv(S()) && S() == Dup(old(S()), t, fd)
      ensures var q := old(FirstFree(tabs[t], 0));
              r == if !old(ValidFd(S(), t, fd)) then EBADF else if q.None? then EMFILE else q.value
      ensures r >= 0 ==> Names(S(), t, r, old(S()).tabs[t][fd].file)
    {
      hide Elsewhere;
      hide Names;
      hide Inv;
      DupNames(S(), t, fd);
      TableSize(S(), t);
      DupKeeps(S(), t, fd);
      if !IsValid(t, fd) {
        return EBADF;
      }
      SlotFile(S(), t, fd);
      var file := tabs[t][fd].file;
      var i := FindFree(t);
      if i == N {
        return EMFILE;
      }
      ghost var s := S();
      Write(t, i, Slot(true, true, 0, 0));
      WriteTwice(s, t, i, Slot(true, true, 0, 0), Slot(true, false, 0, file));
      refs := refs[file := refs[file] + 1];
      Write(t, i, Slot(true, false, 0, file));
      r := i;
    }

    method SysClose(t: nat, fd: int) returns (r: int)
      requires Inv(S()) && t in tabs
      modifies this
      ensures Inv(S()) && S() == Close(old(S()), t, fd)
      ensures r == if old(ValidFd(S(), t, fd)) then 0 else EBADF
    {
      hide Inv;
      CloseKeeps(S(), t, fd);
      if !IsValid(t, fd) {
        return EBADF;
      }
      TableSize(S(), t);
      DetachKeeps(S(), t, fd);
      CloseFile(tabs[t][fd].file);
      Write(t, fd, Empty);
      r := 0;
    }

    method SysDup2(t: nat, fd: int, otherfd: int) returns (r: int)
      requires Inv(S()) && t in tabs
      modifies this
      ensures Inv(S()) && S() == Dup2(old(S()), t, fd, otherfd)
      ensures var q := old(Target(S(), t, otherfd));
              r == if !old(ValidFd(S(), t, fd)) then EBADF
                   else if q.None? then (if otherfd == -1 then EMFILE else EBADF)
                   else q.value
    {
      hide Inv;
      Dup2Keeps(S(), t, fd, otherfd);
      TableSize(S(), t);
      if !IsValid(t, fd) {
        return EBADF;
      }
      var other := otherfd;
      if other == -1 {
        other := 0;
        while other < N
          invariant 0 <= other <= N && FirstVacant(tabs[t], other) == FirstVacant(tabs[t], 0)
        {
          if !IsValid(t, other) {
            break;
          }
          other := other + 1;
        }
        if other == N {
          return EMFILE;
        }
      } else if other >= N || other < 0 {
        return EBADF;
      }
      ghost var s := S();
      if IsValid(t, other) {
        var c := SysClose(t, other);
      }
      CopySlot(t, fd, other, s);
      r := other;
    }

    /** The end of sys_dup2: the flags are copied and the file is got, which does nothing to no file. */
    method CopySlot(t: nat, fd: nat, other: nat, ghost s: State)
      requires Inv(s) && t in s.tabs && |s.tabs[t]| == N && fd < N && other < N && ValidFd(s, t, fd) && S() == Close(s, t, other)
      modifies this`tabs, this`refs
      ensures S() == Dup2(s, t, fd, other)
    {
      hide Inv;
      if other != fd { StillOpen(s, t, fd, other); } else { DetachKeeps(s, t, fd); DetachTabs(s, t, fd); }
      NonzeroFile(s, t, fd);
      var e := tabs[t][fd];
      if e.file != 0 {
        refs := refs[e.file := refs[e.file] + 1];
      } else {
        WriteTwice(S(), t, other, e, e);
      }
      Write(t, other, e);
    }

    /** copy_task_vfs for a new task */
    method CopyVfs(t: nat, child: nat)
      requires Inv(S()) && t in tabs && child !in tabs
      modifies this`tabs, this`refs
      ensures Inv(S()) && S() == Fork(old(S()), t, child)
    {
      hide Inv;
      hide ForkFrom;
      ghost var s0 := S();
      ForkCopies(s0, t, child);
      TableKeeps(s0, child);
      tabs := tabs[child := seq(N, i => Empty)];
      assert S() == WithTable(s0, child);
      var i := 0;
      while i < N
        invariant 0 <= i <= N && t in tabs && child in tabs && Inv(S())
        invariant |tabs[child]| == N && forall j :: i <= j < N ==> !Valid(tabs[child][j])
        invariant ForkFrom(S(), t, child, i) == Fork(s0, t, child)
      {
        TableSize(S(), t);
        ForkStep(S(), t, child, i);
        if IsValid(t, i) {
          SlotFile(S(), t, i);
          AttachKeeps(S(), child, i, tabs[t][i]);
          var e := tabs[t][i];
          refs := refs[e.file := refs[e.file] + 1];
          Write(child, i, e);
        }
        i := i + 1;
      }
      ForkEnd(S(), t, child);
    }

    /** free_task_vfs */
    method FreeVfs(t: nat)
      requires Inv(S()) && t in tabs
      modifies this`tabs, this`refs, this`closed
      ensures Inv(S()) && S() == ExitFrom(old(S()), t, 0)
    {
      hide Inv;
      hide Drop;
      ghost var s0 := S();
      ExitKeeps(s0, t, 0);
      var i := 0;
      while i < N
        invariant 0 <= i <= N && t in tabs && Inv(S())
        invariant ExitFrom(S(), t, i) == ExitFrom(s0, t, 0)
      {
        TableSize(S(), t);
        if tabs[t][i].occupied {
          if tabs[t][i].invalid {
            ReservedSlot(S(), t, i);
            Write(t, i, Empty);
          } else {
            DetachKeeps(S(), t, i);
            CloseFile(tabs[t][i].file);
            Write(t, i, Empty);
          }
        }
        i := i + 1;
      }
    }
  }

  lemma NonzeroFile(s: State, t: nat, i: nat)
    requires Inv(s) && t in s.tabs && i < N && Valid(s.tabs[t][i])
    ensures s.tabs[t][i].file != 0
  {
    SlotFile(s, t, i);
  }

  lemma WriteTwice(s: State, t: nat, i: nat, a: Slot, b: Slot)
    requires t in s.tabs && i < |s.tabs[t]|
    ensures SetSlot(SetSlot(s, t, i, a), t, i, b) == SetSlot(s, t, i, b)
    ensures SetSlot(s, t, i, s.tabs[t][i]) == s
  {
    assert s.tabs[t][i := a][i := b] == s.tabs[t][i := b];
    assert s.tabs[t][i := s.tabs[t][i]] == s.tabs[t];
  }

  /** A reserved slot has no file, so closing it does nothing. */
  lemma ReservedSlot(s: State, t: nat, i: nat)
    requires Inv(s) && t in s.tabs && i < N && s.tabs[t][i].occupied && s.tabs[t][i].invalid
    ensures s.tabs[t][i].file == 0 && Inv(SetSlot(s, t, i, Empty))
  {
    assert SlotOk(s, t, i);
    MarkKeeps(s, t, i, Empty);
  }

  /** One round of the loop of copy_task_vfs, and its end. */
  lemma ForkStep(s: State, t: nat, child: nat, i: nat)
    requires Inv(s) && t in s.tabs && child in s.tabs && t != child && i < N && |s.tabs[t]| == N && |s.tabs[child]| == N
    requires forall j :: i <= j < N ==> !Valid(s.tabs[child][j])
    ensures !Valid(s.tabs[t][i]) ==> ForkFrom(s, t, child, i) == ForkFrom(s, t, child, i + 1)
    ensures Valid(s.tabs[t][i]) ==>
              && s.tabs[t][i].file in s.refs && Inv(Attach(s, child, i, s.tabs[t][i]))
              && ForkFrom(s, t, child, i) == ForkFrom(Attach(s, child, i, s.tabs[t][i]), t, child, i + 1)
  {
    if Valid(s.tabs[t][i]) {
      SlotFile(s, t, i);
      AttachKeeps(s, child, i, s.tabs[t][i]);
    }
  }

  lemma ForkEnd(s: State, t: nat, child: nat)
    requires Inv(s) && t in s.tabs && child in s.tabs && t != child
    ensures ForkFrom(s, t, child, N) == s
  {
  }
}
