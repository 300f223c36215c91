/** Tasks, their states and the ready queue (kernel/src/task.c): what task_wait, task_wakeup, task_kill, fork
    and task_free do to them, and what every run of these keeps. */
module Tasks {
  import opened Options
  import opened Lists

  /** The bits of t_flags that concern scheduling. */
  datatype Flag = Running | Resched | WaitTask | WaitSig | Exit | Zombie | WaitIo | WaitMesg | Stopped

  const WAITMASK: set<Flag> := {WaitIo, WaitSig, WaitTask, WaitMesg, Stopped}

  datatype Task = Task(
    pid: int,
    gid: int,
    flags: set<Flag>,
    parent: Option<nat>,
    waitfor: int,
    status: int,
    dir: nat)

  datatype State = State(ready: seq<nat>, tasks: map<nat, Task>)

  predicate Waiting(f: set<Flag>) { f * WAITMASK != {} }

  // ----- Operations

  function Put(s: State, t: nat, f: set<Flag>): State
    requires t in s.tasks
  {
    s.(tasks := s.tasks[t := s.tasks[t].(flags := f)])
  }

  /** task_wait */
  function Wait(s: State, t: nat, flag: Flag): State
    requires t in s.tasks
  {
    if flag !in WAITMASK then s
    else Put(s.(ready := Remove(s.ready, t)), t, s.tasks[t].flags + {flag, Resched})
  }

  /** sys_waitpid of a child that has not exited. */
  function WaitFor(s: State, t: nat, pid: int): State
    requires t in s.tasks
  {
    Wait(s.(tasks := s.tasks[t := s.tasks[t].(waitfor := pid)]), t, WaitTask)
  }

  /** task_wakeup: to the front of the ready queue. */
  function Wakeup(s: State, t: nat): State
    requires t in s.tasks
  {
    if !Waiting(s.tasks[t].flags) then s
    else Put(s.(ready := [t] + Remove(s.ready, t)), t, s.tasks[t].flags - WAITMASK - {Resched} + {Running})
  }

  /** task_kill */
  function Kill(s: State, t: nat, status: int): State
    requires t in s.tasks
  {
    s.(tasks := s.tasks[t := s.tasks[t].(flags := {Exit}, status := status)])
  }

  /** The part of sys_fork that concerns scheduling. */
  function Fork(s: State, cur: nat, child: nat, pid: int, dir: nat): State
    requires cur in s.tasks
  {
    s.(ready := [child] + s.ready,
       tasks := s.tasks[child := Task(pid, 0, s.tasks[cur].flags, Some(cur), 0, 0, dir)])
  }

  /** The parent waits for this child. */
  predicate WaitsFor(parent: Task, dead: Task)
  {
    || parent.waitfor == -1
    || (parent.waitfor == 0 && dead.gid == parent.pid)
    || (parent.waitfor < -1 && dead.gid == -parent.waitfor)
    || (parent.waitfor > 0 && parent.waitfor == dead.pid)
  }

  function Orphaned(tasks: map<nat, Task>, dead: nat): (r: map<nat, Task>)
    ensures r.Keys == tasks.Keys
  {
    map t | t in tasks :: if tasks[t].parent == Some(dead) then tasks[t].(parent := None) else tasks[t]
  }

  /** The dead task tells a parent that waits for it. */
  function Notify(s: State, dead: nat): State
    requires dead in s.tasks
  {
    var d := s.tasks[dead];
    if d.parent.None? || d.parent.value !in s.tasks then s
    else
      var p := d.parent.value;
      if WaitTask in s.tasks[p].flags && WaitsFor(s.tasks[p], d) then
        Wakeup(s.(tasks := s.tasks[p := s.tasks[p].(waitfor := d.pid, status := d.status)]), p)
      else s
  }

  /** The dead task off the queue and its children without a parent. */
  function Buried(s: State, dead: nat): State
    requires dead in s.tasks
  {
    var s1 := Put(s.(ready := Remove(s.ready, dead)), dead, {Zombie});
    s1.(tasks := Orphaned(s1.tasks, dead))
  }

  /** task_free of a task that is not current; the first task is revived instead. */
  function Free(s: State, dead: nat): State
    requires dead in s.tasks
  {
    if s.tasks[dead].pid == 0 then Put(s, dead, {Running})
    else
      Notify(Buried(s, dead), dead)
  }

  // ----- Invariant

  ghost predicate ReadyOk(s: State, t: nat)
  {
    t in s.tasks && !Waiting(s.tasks[t].flags) && Zombie !in s.tasks[t].flags
  }

  /** The ready queue has no duplicates and no waiting or zombie task; a running task that does not wait is
      in it, and no zombie waits. */
  ghost predicate Inv(s: State)
  {
    && Distinct(s.ready)
    && (forall t :: t in s.ready ==> ReadyOk(s, t))
    && (forall t :: t in s.tasks && Running in s.tasks[t].flags ==> t in s.ready || Waiting(s.tasks[t].flags))
    && (forall t :: t in s.tasks && Zombie in s.tasks[t].flags ==> !Waiting(s.tasks[t].flags) && Running !in s.tasks[t].flags)
  }

  lemma WaitKeeps(s: State, t: nat, flag: Flag)
    requires Inv(s) && t in s.tasks && Zombie !in s.tasks[t].flags
    ensures Inv(Wait(s, t, flag))
  {
    RemoveFacts(s.ready, t);
    if flag in WAITMASK { assert flag in (s.tasks[t].flags + {flag, Resched}) * WAITMASK; }
  }

  lemma WaitForKeeps(s: State, t: nat, pid: int)
    requires Inv(s) && t in s.tasks && Zombie !in s.tasks[t].flags
    ensures Inv(WaitFor(s, t, pid))
  {
    var s1 := s.(tasks := s.tasks[t := s.tasks[t].(waitfor := pid)]);
    assert forall u :: u in s.ready ==> ReadyOk(s, u) && ReadyOk(s1, u);
    WaitKeeps(s1, t, WaitTask);
  }

  lemma WakeupKeeps(s: State, t: nat)
    requires Inv(s) && t in s.tasks
    ensures Inv(Wakeup(s, t))
  {
    if Waiting(s.tasks[t].flags) {
      RemoveFacts(s.ready, t);
      PushFacts(Remove(s.ready, t), t);
      var f := s.tasks[t].flags - WAITMASK - {Resched} + {Running};
      assert f * WAITMASK == {} && !Waiting(f);
      assert Zombie !in s.tasks[t].flags && Zombie !in f;
      hide Waiting;
      hide Remove;
      hide Distinct;
    }
  }

  lemma KillKeeps(s: State, t: nat, status: int)
    requires Inv(s) && t in s.tasks
    ensures Inv(Kill(s, t, status))
  {
    assert {Exit} * WAITMASK == {};
  }

  lemma ForkKeeps(s: State, cur: nat, child: nat, pid: int, dir: nat)
    requires Inv(s) && cur in s.ready && child !in s.tasks
    ensures Inv(Fork(s, cur, child, pid, dir))
  {
    PushFacts(s.ready, child);
  }

  lemma FreeKeeps(s: State, dead: nat)
    requires Inv(s) && dead in s.ready
    ensures Inv(Free(s, dead))
  {
    assert {Running} * WAITMASK == {};
    if s.tasks[dead].pid != 0 {
      BuryKeeps(s, dead);
      NotifyKeeps(Buried(s, dead), dead);
    }
  }

  lemma BuryKeeps(s: State, dead: nat)
    requires Inv(s) && dead in s.tasks
    ensures Inv(Buried(s, dead))
  {
    hide Buried;
    hide Remove;
    hide Waiting;
    RemoveFacts(s.ready, dead);
    BuriedFlags(s, dead);
  }

  lemma BuriedFlags(s: State, dead: nat)
    requires dead in s.tasks
    ensures var s2 := Buried(s, dead);
            && s2.tasks.Keys == s.tasks.Keys && s2.ready == Remove(s.ready, dead)
            && s2.tasks[dead].flags == {Zombie} && !Waiting({Zombie})
            && forall t :: t in s.tasks && t != dead ==> s2.tasks[t].flags == s.tasks[t].flags
  {
    assert {Zombie} * WAITMASK == {};
  }

  lemma NotifyKeeps(s: State, dead: nat)
    requires Inv(s) && dead in s.tasks
    ensures Inv(Notify(s, dead))
  {
    var d := s.tasks[dead];
    if d.parent.Some? && d.parent.value in s.tasks {
      var p := d.parent.value;
      var s1 := s.(tasks := s.tasks[p := s.tasks[p].(waitfor := d.pid, status := d.status)]);
      assert Inv(s1);
      WakeupKeeps(s1, p);
    }
  }

  // ----- What the operations do

  /** A task that waits and is woken is as it was, at the front of the ready queue. */
  lemma WakeupUndoesWait(s: State, t: nat, flag: Flag)
    requires Inv(s) && t in s.ready && t in s.tasks && flag in WAITMASK
    requires Running in s.tasks[t].flags && Resched !in s.tasks[t].flags
    ensures var s1 := Wait(s, t, flag);
            && t !in s1.ready && t in s1.tasks && Waiting(s1.tasks[t].flags) && flag in s1.tasks[t].flags
            && Wakeup(s1, t) == s.(ready := [t] + Remove(s.ready, t))
  {
    var f := s.tasks[t].flags;
    assert ReadyOk(s, t);
    FlagsBack(f, flag);
    RemoveFacts(s.ready, t);
    RemoveAbsent(Remove(s.ready, t), t);
    assert s.tasks[t := s.tasks[t].(flags := f)] == s.tasks;
    hide Inv;
    hide Waiting;
    hide Remove;
  }

  lemma FlagsBack(f: set<Flag>, flag: Flag)
    requires flag in WAITMASK && Running in f && Resched !in f && !Waiting(f)
    ensures Waiting(f + {flag, Resched}) && f + {flag, Resched} - WAITMASK - {Resched} + {Running} == f
  {
    assert flag in (f + {flag, Resched}) * WAITMASK;
    assert forall g :: g in f ==> g !in WAITMASK by {
      assert forall g :: g in f && g in WAITMASK ==> g in f * WAITMASK;
    }
  }

  lemma {:induction false} RemoveAbsent(q: seq<nat>, t: nat)
    requires t !in q
    ensures Remove(q, t) == q
  {
    if q != [] { RemoveAbsent(q[1..], t); }
  }

  /** The child of a fork goes first, can run if its parent can, and knows its parent. */
  lemma ForkedChild(s: State, cur: nat, child: nat, pid: int, dir: nat)
    requires Inv(s) && cur in s.ready && cur in s.tasks && child !in s.tasks
    ensures var s' := Fork(s, cur, child, pid, dir);
            && s'.ready != [] && s'.ready[0] == child && s'.ready[1..] == s.ready && child in s'.tasks
            && s'.tasks[child].pid == pid && s'.tasks[child].parent == Some(cur) && s'.tasks[child].dir == dir
            && s'.tasks[child].flags == s.tasks[cur].flags && forall t :: t in s.tasks ==> t in s'.tasks && s'.tasks[t] == s.tasks[t]
  {
  }

  /** Whether a task that waits with t_waitfor `w` waits for a child with this number and group: any child for -1, the
      one with the number if it is positive, and otherwise any of a group, 0 for that of the task's own number. */
  ghost predicate Awaits(w: int, self: int, pid: int, gid: int)
  {
    w == -1 || (if w > 0 then w == pid else w != -1 && gid == if w == 0 then self else -w)
  }

  ghost predicate Told(s: State, dead: nat, p: nat)
    requires dead in s.tasks && p in s.tasks
  {
    && s.tasks[dead].parent == Some(p) && WaitTask in s.tasks[p].flags
    && Awaits(s.tasks[p].waitfor, s.tasks[p].pid, s.tasks[dead].pid, s.tasks[dead].gid)
  }

  /** What task_free does to every other task: a parent that waits for the dead task becomes ready, with its number and
      status; the dead task's children lose their parent; and nothing else changes. */
  lemma FreeEffect(s: State, dead: nat, t: nat)
    requires Inv(s) && dead in s.tasks && t in s.tasks && t != dead && s.tasks[dead].pid != 0
    ensures var s', u := Free(s, dead), s.tasks[t];
            && t in s'.tasks
            && s'.tasks[t].parent == (if u.parent == Some(dead) then None else u.parent)
            && s'.tasks[t].pid == u.pid && s'.tasks[t].gid == u.gid && s'.tasks[t].dir == u.dir
            && if Told(s, dead, t) then
                 && t in s'.ready && Running in s'.tasks[t].flags && !Waiting(s'.tasks[t].flags)
                 && s'.tasks[t].waitfor == s.tasks[dead].pid && s'.tasks[t].status == s.tasks[dead].status
               else
                 && (t in s'.ready <==> t in s.ready) && s'.tasks[t].flags == u.flags
                 && s'.tasks[t].waitfor == u.waitfor && s'.tasks[t].status == u.status
  {
    RemoveFacts(s.ready, dead);
    BuriedTask(s, dead, t);
    var s1 := Buried(s, dead);
    if s.tasks[dead].parent == Some(dead) {
      assert s1.tasks[dead].parent.None?;
    } else {
      assert s1.tasks[dead] == s.tasks[dead].(flags := {Zombie});
      NotifyEffect(s1, dead, t);
    }
    hide Buried;
    hide Notify;
    hide Remove;
  }

  lemma BuriedTask(s: State, dead: nat, t: nat)
    requires dead in s.tasks && t in s.tasks && t != dead
    ensures var s1 := Buried(s, dead);
            && s1.tasks.Keys == s.tasks.Keys && s1.ready == Remove(s.ready, dead)
            && s1.tasks[t] == s.tasks[t].(parent := if s.tasks[t].parent == Some(dead) then None else s.tasks[t].parent)
  {
  }

  lemma NotifyEffect(s: State, dead: nat, t: nat)
    requires dead in s.tasks && t in s.tasks && t != dead
    ensures var s' := Notify(s, dead);
            && t in s'.tasks && s'.tasks[t].parent == s.tasks[t].parent && s'.tasks[t].pid == s.tasks[t].pid
            && s'.tasks[t].gid == s.tasks[t].gid && s'.tasks[t].dir == s.tasks[t].dir
            && if Told(s, dead, t) then
                 && t in s'.ready && Running in s'.tasks[t].flags && !Waiting(s'.tasks[t].flags)
                 && s'.tasks[t].waitfor == s.tasks[dead].pid && s'.tasks[t].status == s.tasks[dead].status
               else
                 (t in s'.ready <==> t in s.ready) && s'.tasks[t] == s.tasks[t]
  {
    var d := s.tasks[dead];
    if Told(s, dead, t) {
      assert WaitTask in s.tasks[t].flags * WAITMASK;
      assert (s.tasks[t].flags - WAITMASK - {Resched} + {Running}) * WAITMASK == {};
    } else if d.parent.Some? && d.parent.value in s.tasks && d.parent.value != t {
      RemoveKeeps(s.ready, d.parent.value, t);
    }
  }

  lemma {:induction false} RemoveKeeps(q: seq<nat>, t: nat, u: nat)
    requires u != t
    ensures u in Remove(q, t) <==> u in q
  {
    if q != [] { RemoveKeeps(q[1..], t, u); }
  }

  // ----- Runs

  datatype Op =
    | DoWait(t: nat, flag: Flag)
    | DoWaitFor(t: nat, pid: int)
    | DoWakeup(t: nat)
    | DoKill(t: nat, status: int)
    | DoFork(t: nat, child: nat, pid: int, dir: nat)
    | DoFree(t: nat)

  /** A task that waits or forks is ready; a task that is freed is ready and exiting. */
  ghost predicate May(s: State, op: Op)
  {
    match op
    case DoWait(t, _) => t in s.ready && t in s.tasks
    case DoWaitFor(t, _) => t in s.ready && t in s.tasks
    case DoWakeup(t) => t in s.tasks
    case DoKill(t, _) => t in s.tasks
    case DoFork(t, child, _, _) => t in s.ready && t in s.tasks && child !in s.tasks
    case DoFree(t) => t in s.ready && t in s.tasks && Exit in s.tasks[t].flags
  }

  ghost function Next(s: State, op: Op): State
    requires May(s, op)
  {
    match op
    case DoWait(t, flag) => Wait(s, t, flag)
    case DoWaitFor(t, pid) => WaitFor(s, t, pid)
    case DoWakeup(t) => Wakeup(s, t)
    case DoKill(t, status) => Kill(s, t, status)
    case DoFork(t, child, pid, dir) => Fork(s, t, child, pid, dir)
    case DoFree(t) => Free(s, t)
  }

  lemma NextKeeps(s: State, op: Op)
    requires Inv(s) && May(s, op)
    ensures Inv(Next(s, op))
  {
    match op
    case DoWait(t, flag) => assert ReadyOk(s, t); WaitKeeps(s, t, flag);
    case DoWaitFor(t, pid) => assert ReadyOk(s, t); WaitForKeeps(s, t, pid);
    case DoWakeup(t) => WakeupKeeps(s, t);
    case DoKill(t, status) => KillKeeps(s, t, status);
    case DoFork(t, child, pid, dir) => ForkKeeps(s, t, child, pid, dir);
    case DoFree(t) => FreeKeeps(s, t);
  }

  ghost predicate StepAt(ss: seq<State>, ops: seq<Op>, i: nat)
    requires |ss| == |ops| + 1 && i < |ops|
  {
    May(ss[i], ops[i]) && ss[i + 1] == Next(ss[i], ops[i])
  }

  ghost predicate Trace(ss: seq<State>, ops: seq<Op>)
  {
    |ss| == |ops| + 1 && forall i :: 0 <= i < |ops| ==> StepAt(ss, ops, i)
  }

  /** Over every run the ready queue has no duplicates and holds no waiting or zombie task. */
  lemma {:induction false} RunKeepsInv(ss: seq<State>, ops: seq<Op>, k: nat)
    requires Trace(ss, ops) && Inv(ss[0]) && k < |ss|
    ensures Inv(ss[k])
  {
    hide Inv;
    hide Next;
    hide May;
    if k > 0 {
      RunKeepsInv(ss, ops, k - 1);
      assert StepAt(ss, ops, k - 1);
      NextKeeps(ss[k - 1], ops[k - 1]);
    }
  }

  // ----- Waiting for a child

  /** Task `p` sleeps in sys_waitpid for `w`. */
  ghost predicate AsleepFor(s: State, p: nat, w: int)
  {
    p in s.tasks && p !in s.ready && WaitTask in s.tasks[p].flags && s.tasks[p].waitfor == w
  }

  /** The step wakes or kills the task, or frees a child it waits for. */
  ghost predicate Ends(s: State, op: Op, p: nat)
    requires May(s, op) && p in s.tasks
  {
    match op
    case DoWakeup(t) => t == p
    case DoKill(t, _) => t == p
    case DoFree(t) => s.tasks[t].pid != 0 && Told(s, t, p)
    case _ => false
  }

  /** A task asleep in sys_waitpid sleeps on exactly through the steps that do not end its sleep. */
  lemma SleepsOn(s: State, op: Op, p: nat, w: int)
    requires Inv(s) && May(s, op) && AsleepFor(s, p, w)
    ensures AsleepFor(Next(s, op), p, w) <==> !Ends(s, op, p)
  {
    match op
    case DoWait(u, flag) => RemoveKeeps(s.ready, u, p);
    case DoWaitFor(u, pid) => RemoveKeeps(s.ready, u, p);
    case DoWakeup(u) =>
      assert WaitTask in s.tasks[p].flags * WAITMASK;
      if u != p { RemoveKeeps(s.ready, u, p); }
    case DoKill(u, status) =>
    case DoFork(u, child, pid, dir) =>
    case DoFree(u) =>
      if s.tasks[u].pid != 0 {
        FreeEffect(s, u, p);
        hide Free;
      }
  }

  /** So it does over every run without such a step, and the child that ends it leaves it ready with the child's number
      and status. */
  lemma {:induction false} WaiterTold(ss: seq<State>, ops: seq<Op>, p: nat, w: int, k: nat)
    requires Trace(ss, ops) && Inv(ss[0]) && AsleepFor(ss[0], p, w) && k < |ops|
    requires forall i :: 0 <= i < k ==> p in ss[i].tasks && May(ss[i], ops[i]) && !Ends(ss[i], ops[i], p)
    ensures Inv(ss[k]) && AsleepFor(ss[k], p, w) && May(ss[k], ops[k])
    ensures var s, s', op := ss[k], ss[k + 1], ops[k];
            op.DoFree? && Ends(s, op, p) ==>
              && p in s'.ready && p in s'.tasks && !Waiting(s'.tasks[p].flags)
              && s'.tasks[p].waitfor == s.tasks[op.t].pid && s'.tasks[p].status == s.tasks[op.t].status
  {
    hide Inv;
    hide Next;
    hide May;
    hide AsleepFor;
    hide Ends;
    if k > 0 {
      WaiterTold(ss, ops, p, w, k - 1);
      assert StepAt(ss, ops, k - 1);
      NextKeeps(ss[k - 1], ops[k - 1]);
      SleepsOn(ss[k - 1], ops[k - 1], p, w);
    }
    assert StepAt(ss, ops, k);
    if ops[k].DoFree? { FreedTold(ss[k], ops[k].t, p, w); }
  }

  lemma FreedTold(s: State, dead: nat, p: nat, w: int)
    requires Inv(s) && AsleepFor(s, p, w) && May(s, DoFree(dead))
    ensures Ends(s, DoFree(dead), p) ==>
              var s' := Next(s, DoFree(dead));
              && p in s'.ready && p in s'.tasks && !Waiting(s'.tasks[p].flags)
              && s'.tasks[p].waitfor == s.tasks[dead].pid && s'.tasks[p].status == s.tasks[dead].status
  {
    if Ends(s, DoFree(dead), p) { FreeEffect(s, dead, p); }
    hide Free;
  }

  /** A task forks and waits for the child, which exits and is freed: the task is ready with the child's status. */
  lemma ForkWaitExit(s: State, t: nat, child: nat, pid: int, dir: nat, status: int)
    requires Inv(s) && t in s.ready && t in s.tasks && child !in s.tasks && pid > 0
    ensures May(s, DoFork(t, child, pid, dir))
    ensures var s1 := Next(s, DoFork(t, child, pid, dir));
            && May(s1, DoWaitFor(t, pid))
            && var s2 := Next(s1, DoWaitFor(t, pid));
               && AsleepFor(s2, t, pid) && May(s2, DoKill(child, status))
               && var s3 := Next(s2, DoKill(child, status));
                  && AsleepFor(s3, t, pid) && May(s3, DoFree(child))
                  && var s4 := Next(s3, DoFree(child));
                     && t in s4.ready && t in s4.tasks && !Waiting(s4.tasks[t].flags)
                     && s4.tasks[t].waitfor == pid && s4.tasks[t].status == status
  {
    var s1 := Fork(s, t, child, pid, dir);
    ForkKeeps(s, t, child, pid, dir);
    ForkedChild(s, t, child, pid, dir);
    hide Inv;
    hide Fork;
    ChildAwaited(s1, t, child, pid);
    var s2 := WaitFor(s1, t, pid);
    hide WaitFor;
    KillKeeps(s2, child, status);
    hide Free;
    hide Waiting;
    FreedTold(Kill(s2, child, status), child, t, pid);
  }

  /** A task waits for a ready child of its own. */
  lemma ChildAwaited(s: State, t: nat, child: nat, pid: int)
    requires Inv(s) && t in s.ready && t in s.tasks && child in s.ready && child in s.tasks && child != t
    requires s.tasks[child].pid == pid && s.tasks[child].parent == Some(t)
    ensures var s' := WaitFor(s, t, pid);
            && Inv(s') && AsleepFor(s', t, pid) && child in s'.ready && child in s'.tasks && s'.tasks[child] == s.tasks[child]
  {
    assert ReadyOk(s, t);
    WaitForKeeps(s, t, pid);
    RemoveFacts(s.ready, t);
    RemoveKeeps(s.ready, t, child);
    hide Remove;
  }

  /** The test sys_waitpid makes of a child that has exited already. */
  predicate Collects(parent: Task, child: Task, pid: int)
  {
    if pid > 0 then child.pid == pid
    else pid == -1 || (pid == 0 && child.gid == parent.gid) || (pid < -1 && child.pid == -pid)
  }

  /** Whether the child exits before the wait or after it makes no difference, for every child, exactly when the wait is
      for one child, for any child, or for the group of a task that leads its group. */
  lemma WaitsAgree(parent: Task, pid: int)
    ensures (forall child: Task :: Collects(parent, child, pid) <==> WaitsFor(parent.(waitfor := pid), child)) <==>
            pid > 0 || pid == -1 || (pid == 0 && parent.gid == parent.pid)
  {
    if pid == 0 && parent.gid != parent.pid {
      var child := parent.(gid := parent.gid);
      assert Collects(parent, child, pid) && !WaitsFor(parent.(waitfor := pid), child);
    }
    if pid < -1 {
      var child := parent.(pid := -pid, gid := 0);
      assert Collects(parent, child, pid) && !WaitsFor(parent.(waitfor := pid), child);
    }
  }

  // ----- Killing a task that waits

  /** Every exiting task is ready or waits to be, so that the scheduler comes across it. */
  ghost predicate Reapable(s: State)
  {
    forall t :: t in s.tasks && Exit in s.tasks[t].flags ==> t in s.ready || Waiting(s.tasks[t].flags)
  }

  /** task_kill keeps this exactly when the task killed is in the ready queue. */
  lemma KillReapable(s: State, t: nat, status: int)
    requires Inv(s) && Reapable(s) && t in s.tasks
    ensures Reapable(Kill(s, t, status)) <==> t in s.ready
  {
    assert {Exit} * WAITMASK == {};
    assert Kill(s, t, status).tasks[t].flags == {Exit};
  }

  /** The first task forks, the child waits, and is killed. */
  lemma KilledWaiting(child: nat, pid: int, dir: nat, flag: Flag, status: int)
    requires child != 0 && flag in WAITMASK
    ensures var s := State([0], map[0 := Task(0, 0, {Running}, None, 0, 0, 0)]);
            && Inv(s) && Reapable(s) && May(s, DoFork(0, child, pid, dir))
            && var s1 := Next(s, DoFork(0, child, pid, dir));
               && May(s1, DoWait(child, flag))
               && var s2 := Next(s1, DoWait(child, flag));
                  && May(s2, DoKill(child, status))
                  && var s3 := Next(s2, DoKill(child, status));
                     && Inv(s3) && child in s3.tasks && child !in s3.ready && s3.tasks[child].flags == {Exit}
                     && !Reapable(s3)
  {
    var s := State([0], map[0 := Task(0, 0, {Running}, None, 0, 0, 0)]);
    assert {Running} * WAITMASK == {} && {Exit} * WAITMASK == {};
    assert ReadyOk(s, 0) && Inv(s);
    hide Inv;
    NextKeeps(s, DoFork(0, child, pid, dir));
    var s1 := Next(s, DoFork(0, child, pid, dir));
    NextKeeps(s1, DoWait(child, flag));
    var s2 := Next(s1, DoWait(child, flag));
    assert s1.ready == [child, 0] && s1.ready[1..] == [0] && s2.ready == [0];
    NextKeeps(s2, DoKill(child, status));
  }

  /** A task killed while it waited is never freed, whatever happens next. */
  lemma {:induction false} NeverReaped(ss: seq<State>, ops: seq<Op>, t: nat, k: nat)
    requires Trace(ss, ops) && Inv(ss[0]) && k < |ss|
    requires t in ss[0].tasks && t !in ss[0].ready && ss[0].tasks[t].flags == {Exit}
    ensures Inv(ss[k]) && t in ss[k].tasks && t !in ss[k].ready && ss[k].tasks[t].flags == {Exit}
    ensures k < |ops| ==> ops[k] != DoFree(t)
  {
    hide Inv;
    hide Next;
    if k > 0 {
      NeverReaped(ss, ops, t, k - 1);
      assert StepAt(ss, ops, k - 1);
      NextKeeps(ss[k - 1], ops[k - 1]);
      StuckStep(ss[k - 1], ops[k - 1], t);
    }
    assert k < |ops| ==> StepAt(ss, ops, k);
  }

  lemma StuckStep(s: State, op: Op, t: nat)
    requires Inv(s) && May(s, op) && t in s.tasks && t !in s.ready && s.tasks[t].flags == {Exit}
    ensures var s' := Next(s, op); t in s'.tasks && t !in s'.ready && s'.tasks[t].flags == {Exit}
  {
    assert {Exit} * WAITMASK == {};
    match op
    case DoWait(u, flag) => RemoveFacts(s.ready, u);
    case DoWaitFor(u, pid) => RemoveFacts(s.ready, u);
    case DoWakeup(u) => RemoveFacts(s.ready, u);
    case DoKill(u, status) =>
    case DoFork(u, child, pid, dir) =>
    case DoFree(u) => StuckFree(s, u, t);
  }

  lemma StuckFree(s: State, dead: nat, t: nat)
    requires Inv(s) && dead in s.ready && dead in s.tasks
    requires t in s.tasks && t !in s.ready && s.tasks[t].flags == {Exit}
    ensures var s' := Free(s, dead); t in s'.tasks && t !in s'.ready && s'.tasks[t].flags == {Exit}
  {
    RemoveFacts(s.ready, dead);
    assert {Exit} * WAITMASK == {};
    var s2 := Buried(s, dead);
    assert s2.tasks[t].flags == {Exit} && t !in s2.ready;
  }
}
