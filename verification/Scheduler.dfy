/** How task_preempt chooses the next task (kernel/src/task.c), freeing the dead tasks it meets. */
module Scheduler {
  import opened Options
  import opened Lists
  import opened Tasks

  /** list_next: an item in no list is its own successor. */
  function NextOf(q: seq<nat>, t: nat): Option<nat>
  {
    if t !in q then Some(t)
    else if IndexOf(q, t) + 1 < |q| then Some(q[IndexOf(q, t) + 1])
    else None
  }

  ghost predicate Exiting(s: State, t: nat) { t in s.tasks && Exit in s.tasks[t].flags }

  ghost predicate Runnable(s: State, t: nat)
  {
    t in s.ready && t in s.tasks && Exit !in s.tasks[t].flags && !Waiting(s.tasks[t].flags)
  }

  ghost predicate SomeRunnable(s: State) { exists t :: Runnable(s, t) }

  // ----- Freeing dead tasks on the way

  ghost function Dead(s: State): set<nat>
  {
    set t | t in s.tasks && Exit in s.tasks[t].flags
  }

  lemma FlagsAfterNotify(s: State, dead: nat, t: nat)
    requires dead in s.tasks && t in s.tasks
    ensures var s' := Notify(s, dead);
            && t in s'.tasks && s'.tasks.Keys == s.tasks.Keys
            && (Exit in s'.tasks[t].flags <==> Exit in s.tasks[t].flags)
            && (!Waiting(s.tasks[t].flags) ==> s'.tasks[t].flags == s.tasks[t].flags)
            && (t in s.ready ==> t in s'.ready)
  {
    var d := s.tasks[dead];
    if d.parent.Some? && d.parent.value != t && t in s.ready { RemoveKeeps(s.ready, d.parent.value, t); }
  }

  /** Freeing a dead task makes nobody else exiting, and leaves ready tasks ready and runnable ones runnable. */
  lemma FreeOthers(s: State, dead: nat, t: nat)
    requires Inv(s) && dead in s.ready && Exiting(s, dead) && t in s.tasks
    ensures var s' := Free(s, dead);
            && s'.tasks.Keys == s.tasks.Keys
            && (Exiting(s', t) <==> Exiting(s, t) && t != dead)
            && (t in s.ready && t != dead ==> t in s'.ready)
            && (Runnable(s, t) ==> Runnable(s', t))
  {
    if s.tasks[dead].pid != 0 {
      var s2 := Buried(s, dead);
      assert t != dead ==> s2.tasks[t].flags == s.tasks[t].flags;
      if t in s.ready && t != dead { RemoveKeeps(s.ready, dead, t); }
      FlagsAfterNotify(s2, dead, t);
    }
  }

  lemma FreeFewer(s: State, dead: nat)
    requires Inv(s) && dead in s.ready && Exiting(s, dead)
    ensures |Dead(Free(s, dead))| < |Dead(s)|
  {
    var s' := Free(s, dead);
    forall t | t in s.tasks ensures t in Dead(s') <==> t in Dead(s) && t != dead { FreeOthers(s, dead, t); }
    FreeOthers(s, dead, dead);
    assert Dead(s') == Dead(s) - {dead};
    assert dead in Dead(s);
  }

  /** Freeing dead tasks one after another, each ready, exiting and in another address space than `dir`. */
  ghost predicate CanFree(s: State, dead: seq<nat>, dir: nat)
    decreases |dead|
  {
    dead == [] ||
    (&& dead[0] in s.ready && Exiting(s, dead[0]) && s.tasks[dead[0]].dir != dir
     && CanFree(Free(s, dead[0]), dead[1..], dir))
  }

  ghost function FreeAll(s: State, dead: seq<nat>, dir: nat): State
    requires CanFree(s, dead, dir)
    decreases |dead|
  {
    if dead == [] then s else FreeAll(Free(s, dead[0]), dead[1..], dir)
  }

  lemma {:induction false} FreeOneMore(s: State, dead: seq<nat>, dir: nat, t: nat)
    requires CanFree(s, dead, dir)
    requires var s1 := FreeAll(s, dead, dir); t in s1.ready && Exiting(s1, t) && s1.tasks[t].dir != dir
    ensures CanFree(s, dead + [t], dir) && FreeAll(s, dead + [t], dir) == Free(FreeAll(s, dead, dir), t)
    decreases |dead|
  {
    if dead == [] {
      assert (dead + [t])[1..] == [];
    } else {
      FreeOneMore(Free(s, dead[0]), dead[1..], dir, t);
      assert (dead + [t])[1..] == dead[1..] + [t];
    }
  }

  // ----- The walk

  ghost predicate RunnableFrom(s: State, i: nat)
  {
    exists j :: i <= j < |s.ready| && Runnable(s, s.ready[j])
  }

  /** How far the walk is from a runnable task, counting the jump back to the front. */
  ghost function Distance(s: State, cur: Option<nat>): nat
  {
    if cur.None? || cur.value !in s.ready then |s.ready| + 1
    else
      var i := IndexOf(s.ready, cur.value);
      if RunnableFrom(s, i) then |s.ready| - i else 2 * |s.ready| + 2 - i
  }

  lemma {:induction false} IndexAt(q: seq<nat>, i: nat)
    requires Distinct(q) && i < |q|
    ensures IndexOf(q, q[i]) == i
  {
  }

  lemma StepNearer(s: State, t: nat)
    requires Distinct(s.ready) && t in s.ready && !Runnable(s, t)
    ensures Distance(s, NextOf(s.ready, t)) < Distance(s, Some(t))
  {
    var i := IndexOf(s.ready, t);
    if i + 1 < |s.ready| {
      IndexAt(s.ready, i + 1);
      if RunnableFrom(s, i) {
        var j :| i <= j < |s.ready| && Runnable(s, s.ready[j]);
        assert i + 1 <= j;
      }
    }
  }

  lemma JumpNearer(s: State, cur: Option<nat>)
    requires Distinct(s.ready) && SomeRunnable(s) && (cur.None? || cur.value !in s.ready)
    ensures s.ready != [] && Distance(s, Some(s.ready[0])) < Distance(s, cur)
  {
    var t :| Runnable(s, t);
    var j := IndexOf(s.ready, t);
    IndexAt(s.ready, 0);
    assert RunnableFrom(s, 0);
  }

  /** The successor in the queue, going round; the front for a task that is not running or not in it. */
  ghost function RoundRobin(s: State, t: nat): nat
    requires s.ready != [] && t in s.tasks
  {
    if Running in s.tasks[t].flags && t in s.ready then s.ready[(IndexOf(s.ready, t) + 1) % |s.ready|] else s.ready[0]
  }

  ghost predicate Quiet(s: State) { forall t :: t in s.ready ==> !Exiting(s, t) }

  // ----- What the walk leaves behind

  /** A task the walk may leave where it is: one that exits in the current address space, or the first task, which is
      revived instead of freed. */
  ghost predicate Passed(s: State, t: nat, dir: nat)
  {
    t in s.tasks && (s.tasks[t].pid == 0 || (Exit in s.tasks[t].flags && s.tasks[t].dir == dir))
  }

  ghost predicate Slept(s: State, t: nat) { t in s.tasks && Waiting(s.tasks[t].flags) }

  /** The walk started behind `from`, or goes round if it came to the end or `from` does not run. */
  ghost predicate Goes(s: State, from: nat) { from in s.tasks && Running in s.tasks[from].flags && from in s.ready }

  /** The walk is at index `j` and has left alone only tasks it may: straight on from `from`, or round from the front, or
      from behind tasks it has woken since `s0`, and then those behind `from` as well. */
  ghost predicate Walk(s: State, s0: State, from: nat, a: nat, j: nat, round: bool, dir: nat)
  {
    && a <= j <= |s.ready| && (forall i :: a <= i < j ==> Passed(s, s.ready[i], dir))
    && (if round then
          && (a == 0 || Slept(s0, s.ready[a - 1]))
          && (Goes(s0, from) ==>
                forall i, k :: 0 <= i < k < |s.ready| && s.ready[i] == from ==> Passed(s, s.ready[k], dir))
        else a > 0 && s.ready[a - 1] == from)
    && (forall u :: Slept(s, u) ==> Slept(s0, u))
  }

  /** So it has skipped no task that can run, and freed every dead task it could. */
  ghost predicate Fair(s: State, s0: State, from: nat, t: nat, dir: nat)
  {
    exists a: nat, j: nat, round: bool :: j < |s.ready| && s.ready[j] == t && Walk(s, s0, from, a, j, round, dir)
  }

  /** The walk's task is the one at index `j`, or it has come to the end. */
  ghost predicate Placed(q: seq<nat>, cur: Option<nat>, j: nat, round: bool)
  {
    && (cur.None? ==> j == |q|) && (cur.Some? && cur.value in q ==> j < |q| && q[j] == cur.value)
    && (cur.Some? && cur.value !in q ==> round)
  }

  lemma NextAt(q: seq<nat>, j: nat)
    requires Distinct(q) && j < |q|
    ensures NextOf(q, q[j]) == if j + 1 < |q| then Some(q[j + 1]) else None
  {
    IndexAt(q, j);
  }

  lemma GoesReady(s: State, t: nat)
    ensures t in s.tasks ==> (Goes(s, t) <==> Running in s.tasks[t].flags && t in s.ready)
  {
  }

  lemma WalkStarts(s: State, from: nat, dir: nat)
    requires Distinct(s.ready)
    ensures Goes(s, from) ==> Walk(s, s, from, IndexOf(s.ready, from) + 1, IndexOf(s.ready, from) + 1, false, dir)
    ensures !Goes(s, from) ==> Walk(s, s, from, 0, 0, true, dir)
  {
  }

  lemma WalkJumps(s: State, s0: State, from: nat, a: nat, j: nat, round: bool, dir: nat)
    requires Walk(s, s0, from, a, j, round, dir) && Distinct(s.ready) && (j == |s.ready| || round)
    ensures Walk(s, s0, from, 0, 0, true, dir)
  {
    if !round {
      forall i, k | 0 <= i < k < |s.ready| && s.ready[i] == from ensures Passed(s, s.ready[k], dir) {
        assert i == a - 1;
      }
    }
  }

  lemma WalkSteps(s: State, s0: State, from: nat, a: nat, j: nat, round: bool, dir: nat)
    requires Walk(s, s0, from, a, j, round, dir) && j < |s.ready| && Passed(s, s.ready[j], dir)
    ensures Walk(s, s0, from, a, j + 1, round, dir)
  {
  }

  lemma FreeSlept(s: State, t: nat)
    requires Inv(s) && t in s.tasks
    ensures forall u :: Slept(Free(s, t), u) ==> Slept(s, u)
  {
    assert {Running} * WAITMASK == {} && {Zombie} * WAITMASK == {};
    if s.tasks[t].pid != 0 {
      forall u | Slept(Free(s, t), u) ensures Slept(s, u) {
        FreeKeys(s, t);
        if u != t { FreeEffect(s, t, u); } else { FreedFlags(s, t); }
      }
    }
  }

  lemma FreeKeys(s: State, t: nat)
    requires t in s.tasks
    ensures Free(s, t).tasks.Keys == s.tasks.Keys
  {
  }

  lemma FreedFlags(s: State, t: nat)
    requires t in s.tasks && s.tasks[t].pid != 0
    ensures t in Free(s, t).tasks && Free(s, t).tasks[t].flags == {Zombie}
  {
    assert WaitTask !in {Zombie};
  }

  lemma FreePassed(s: State, t: nat, dir: nat)
    requires Inv(s) && t in s.ready && s.tasks[t].pid != 0
    ensures forall u :: u in s.ready && u != t ==> (Passed(Free(s, t), u, dir) <==> Passed(s, u, dir))
  {
    forall u | u in s.ready && u != t ensures Passed(Free(s, t), u, dir) <==> Passed(s, u, dir) {
      assert ReadyOk(s, u);
      NotWaiting(s.tasks[u].flags);
      FreeEffect(s, t, u);
    }
  }

  lemma NotWaiting(f: set<Flag>)
    requires !Waiting(f)
    ensures WaitTask !in f
  {
    assert WaitTask in f ==> WaitTask in f * WAITMASK;
  }

  /** The queue without the dead task, and a parent that was woken in front. */
  lemma FreeReady(s: State, j: nat) returns (woken: seq<nat>)
    requires Inv(s) && j < |s.ready| && s.ready[j] in s.tasks && s.tasks[s.ready[j]].pid != 0
    ensures Free(s, s.ready[j]).ready == woken + (s.ready[..j] + s.ready[j + 1..])
    ensures |woken| <= 1 && forall i :: 0 <= i < |woken| ==> Slept(s, woken[i])
  {
    var t := s.ready[j];
    assert ReadyOk(s, t);
    RemoveAt(s.ready, j);
    var rest := s.ready[..j] + s.ready[j + 1..];
    var s1 := Buried(s, t);
    assert s1.ready == rest && s1.tasks[t].flags == {Zombie};
    var p := s1.tasks[t].parent;
    woken := [];
    assert [] + rest == rest;
    if p.Some? && p.value in s1.tasks && WaitTask in s1.tasks[p.value].flags && WaitsFor(s1.tasks[p.value], s1.tasks[t]) {
      BuriedTask(s, t, p.value);
      assert WaitTask in s.tasks[p.value].flags * WAITMASK;
      assert p.value !in s.ready by { assert p.value in s.ready ==> ReadyOk(s, p.value); }
      assert p.value !in rest;
      RemoveAbsent(rest, p.value);
      woken := [p.value];
    }
  }

  lemma {:induction false} RemoveAt(q: seq<nat>, j: nat)
    requires Distinct(q) && j < |q|
    ensures Remove(q, q[j]) == q[..j] + q[j + 1..]
  {
    if j > 0 {
      assert q[1..][j - 1] == q[j] && q[0] != q[j];
      RemoveAt(q[1..], j - 1);
      assert q[..j] == [q[0]] + q[1..][..j - 1];
      assert q[1..][j - 1 + 1..] == q[j + 1..];
    }
  }

  lemma FreeWalked(s: State, s': State, s0: State, from: nat, a: nat, j: nat, round: bool, dir: nat, woken: seq<nat>)
    requires Walk(s, s0, from, a, j, round, dir) && Inv(s0) && j < |s.ready| && Distinct(s.ready)
    requires s'.ready == woken + (s.ready[..j] + s.ready[j + 1..]) && |woken| <= 1
    requires forall i :: 0 <= i < |woken| ==> Slept(s, woken[i])
    requires forall u :: Slept(s', u) ==> Slept(s, u)
    requires forall u :: u in s.ready && u != s.ready[j] ==> (Passed(s', u, dir) <==> Passed(s, u, dir))
    ensures Walk(s', s0, from, |woken| + a, |woken| + j, round, dir)
  {
    var w := |woken|;
    assert Goes(s0, from) ==> !Slept(s0, from) by { if Goes(s0, from) { assert ReadyOk(s0, from); } }
    hide Inv;
    hide Passed;
    hide Slept;
    hide Goes;
    forall i | w <= i < |s'.ready|
      ensures s'.ready[i] == s.ready[if i - w < j then i - w else i - w + 1] && s'.ready[i] != s.ready[j]
    {
      assert s'.ready[i] == (s.ready[..j] + s.ready[j + 1..])[i - w];
    }
    assert forall i :: 0 <= i < w ==> s'.ready[i] == woken[i];
  }

  lemma RevivedWalk(s: State, s0: State, from: nat, a: nat, j: nat, round: bool, dir: nat)
    requires Walk(s, s0, from, a, j, round, dir) && j < |s.ready| && s.ready[j] in s.tasks && s.tasks[s.ready[j]].pid == 0
    requires forall u :: Slept(Free(s, s.ready[j]), u) ==> Slept(s, u)
    ensures Walk(Free(s, s.ready[j]), s0, from, a, j + 1, round, dir)
  {
    var t, s' := s.ready[j], Free(s, s.ready[j]);
    assert s'.ready == s.ready && forall u :: Passed(s, u, dir) || u == t ==> Passed(s', u, dir);
    hide Free;
    hide Passed;
    hide Slept;
    hide Goes;
  }

  /** Freeing the task at `j`: where the walk goes on. */
  lemma WalkFrees(s: State, s0: State, from: nat, a: nat, j: nat, round: bool, dir: nat) returns (a': nat, j': nat)
    requires Walk(s, s0, from, a, j, round, dir) && Inv(s) && Inv(s0) && j < |s.ready| && Exiting(s, s.ready[j])
    ensures var t, s' := s.ready[j], Free(s, s.ready[j]);
            && Walk(s', s0, from, a', j', round, dir)
            && j' <= |s'.ready| && s'.ready[j'..] == s.ready[j + 1..]
  {
    hide Walk;
    hide Free;
    var t := s.ready[j];
    FreeSlept(s, t);
    if s.tasks[t].pid == 0 {
      RevivedWalk(s, s0, from, a, j, round, dir);
      RevivedReady(s, t);
      a', j' := a, j + 1;
    } else {
      var woken := FreeReady(s, j);
      FreePassed(s, t, dir);
      a', j' := |woken| + a, |woken| + j;
      FreeWalked(s, Free(s, t), s0, from, a, j, round, dir, woken);
      assert Free(s, t).ready[j'..] == s.ready[j + 1..];
    }
  }

  lemma RevivedReady(s: State, t: nat)
    requires t in s.tasks && s.tasks[t].pid == 0
    ensures Free(s, t).ready == s.ready
  {
  }

  class Processor {
    var ready: seq<nat>
    var tasks: map<nat, Task>
    var current: nat
    var curdir: nat

    ghost function S(): State
      reads this
    {
      State(ready, tasks)
    }

    /** task_free of a task other than the one chosen so far. */
    method FreeTask(dead: nat)
      requires Inv(S()) && dead in tasks
      modifies this`ready, this`tasks
      ensures S() == Free(old(S()), dead)
    {
      if tasks[dead].pid == 0 {
        tasks := tasks[dead := tasks[dead].(flags := {Running})];
        return;
      }
      ready := Remove(ready, dead);
      tasks := tasks[dead := tasks[dead].(flags := {Zombie})];
      tasks := Orphaned(tasks, dead);
      var d := tasks[dead];
      if d.parent.Some? && d.parent.value in tasks {
        var p := d.parent.value;
        if WaitTask in tasks[p].flags && WaitsFor(tasks[p], d) {
          tasks := tasks[p := tasks[p].(waitfor := d.pid, status := d.status)];
          WakeTask(p);
        }
      }
    }

    /** task_wait, up to the call of schedule. */
    method SleepTask(t: nat, flag: Flag)
      requires Inv(S()) && t in ready
      modifies this`ready, this`tasks
      ensures Inv(S()) && t in old(S()).tasks && S() == Wait(old(S()), t, flag)
    {
      assert ReadyOk(S(), t);
      WaitKeeps(S(), t, flag);
      if flag !in WAITMASK {
        return;
      }
      ready := Remove(ready, t);
      tasks := tasks[t := tasks[t].(flags := tasks[t].flags + {flag, Resched})];
    }

    /** task_kill, up to the call of schedule. */
    method KillTask(t: nat, status: int)
      requires Inv(S()) && t in tasks
      modifies this`tasks
      ensures Inv(S()) && S() == Kill(old(S()), t, status)
    {
      KillKeeps(S(), t, status);
      tasks := tasks[t := tasks[t].(flags := {Exit}, status := status)];
    }

    /** sys_fork: the child goes to the front of the ready queue with the flags of its parent. */
    method ForkTask(child: nat, pid: int, dir: nat)
      requires Inv(S()) && current in ready && current in tasks && child !in tasks
      modifies this`ready, this`tasks
      ensures Inv(S()) && S() == Fork(old(S()), current, child, pid, dir)
    {
      ForkKeeps(S(), current, child, pid, dir);
      tasks := tasks[child := Task(pid, 0, {}, Some(current), 0, 0, dir)];
      ready := [child] + ready;
      tasks := tasks[child := tasks[child].(flags := tasks[current].flags)];
    }

    /** task_wakeup */
    method WakeTask(t: nat)
      requires t in tasks
      modifies this`ready, this`tasks
      ensures S() == Wakeup(old(S()), t)
    {
      if tasks[t].flags * WAITMASK == {} {
        return;
      }
      ready := Remove(ready, t);
      ready := [t] + ready;
      tasks := tasks[t := tasks[t].(flags := tasks[t].flags - WAITMASK - {Resched} + {Running})];
    }

    /** A turn of the loop at a task that exits: it is freed if that can be done from here. */
    method StepPast(t: nat, ghost s0: State, ghost from: nat, ghost dead: seq<nat>, ghost a: nat, ghost j: nat, ghost round: bool)
      returns (cur: Option<nat>, ghost dead': seq<nat>, ghost a': nat, ghost j': nat)
      requires Inv(S()) && Inv(s0) && SomeRunnable(S()) && j < |ready| && ready[j] == t && Exiting(S(), t)
      requires CanFree(s0, dead, curdir) && S() == FreeAll(s0, dead, curdir) && Walk(S(), s0, from, a, j, round, curdir)
      modifies this`ready, this`tasks
      ensures Inv(S()) && SomeRunnable(S()) && CanFree(s0, dead', curdir) && S() == FreeAll(s0, dead', curdir)
      ensures Walk(S(), s0, from, a', j', round, curdir) && Placed(ready, cur, j', round)
      ensures cur.Some? ==> cur.value in ready && cur.value in tasks
      ensures S() == old(S()) || |Dead(S())| < |Dead(old(S()))|
      ensures S() == old(S()) ==> dead' == dead && Distance(S(), cur) < Distance(S(), Some(t))
    {
      hide Inv;
      hide FreeAll;
      hide CanFree;
      hide Distance;
      hide Dead;
      hide NextOf;
      hide Free;
      hide SomeRunnable;
      hide Walk;
      KeepFacts(S());
      NextReady(S(), t);
      NextAt(ready, j);
      cur := NextOf(ready, t);
      if tasks[t].dir != curdir {
        FreeOneMore(s0, dead, curdir, t);
        FreeFewer(S(), t);
        AfterFree(S(), t, cur);
        a', j' := WalkFrees(S(), s0, from, a, j, round, curdir);
        FreeTask(t);
        dead' := dead + [t];
      } else {
        StepNearer(S(), t);
        WalkSteps(S(), s0, from, a, j, round, curdir);
        dead', a', j' := dead, a, j + 1;
      }
    }

    /** The selection loop of task_preempt. */
    method Select() returns (ghost dead: seq<nat>)
      requires Inv(S()) && current in tasks && SomeRunnable(S())
      modifies this`ready, this`tasks, this`current
      ensures Inv(S()) && Runnable(S(), current)
      ensures CanFree(old(S()), dead, curdir) && S() == FreeAll(old(S()), dead, curdir)
      ensures Fair(S(), old(S()), old(current), current, curdir)
      ensures old(ready) != [] && (old(Quiet(S())) ==> dead == [] && current == RoundRobin(old(S()), old(current)))
    {
      hide Walk;
      hide Goes;
      hide Inv;
      hide Waiting;
      hide RoundRobin;
      hide FreeAll;
      hide CanFree;
      hide Distance;
      hide Dead;
      hide NextOf;
      hide SomeRunnable;
      ghost var s0, from := S(), current;
      KeepFacts(s0);
      NoneYet(s0, curdir);
      StartFacts(s0, current);
      ghost var goal := RoundRobin(s0, current);
      dead := [];
      WalkStarts(s0, current, curdir);
      GoesReady(s0, current);
      ghost var round := !Goes(s0, current);
      ghost var a: nat, j: nat := 0, 0;
      var cur: Option<nat>;
      if Running in tasks[current].flags {
        NextReady(s0, current);
        if !round {
          a, j := IndexOf(ready, current) + 1, IndexOf(ready, current) + 1;
          NextAt(ready, j - 1);
        }
        cur := NextOf(ready, current);
      } else {
        cur := Some(ready[0]);
      }
      while cur.None? || Exit in tasks[cur.value].flags || Waiting(tasks[cur.value].flags)
        invariant Inv(S()) && SomeRunnable(S()) && CanFree(s0, dead, curdir) && S() == FreeAll(s0, dead, curdir)
        invariant dead == [] ==> S() == s0
        invariant Quiet(s0) ==> dead == [] && Toward(s0, cur, goal)
        invariant cur.Some? ==> cur.value in tasks && (cur.value in ready || Waiting(tasks[cur.value].flags))
        invariant Walk(S(), s0, from, a, j, round, curdir) && Placed(ready, cur, j, round)
        decreases |Dead(S())|, Distance(S(), cur)
      {
        KeepFacts(S());
        if cur.None? || Waiting(tasks[cur.value].flags) {
          JumpNearer(S(), cur);
          WalkJumps(S(), s0, from, a, j, round, curdir);
          a, j, round := 0, 0, true;
          cur := Some(ready[0]);
        } else {
          cur, dead, a, j := StepPast(cur.value, s0, from, dead, a, j, round);
          NoneYet(s0, curdir);
        }
      }
      current := cur.value;
      assert Walk(S(), s0, from, a, j, round, curdir);
    }

    /** The rest of task_preempt once a task has used its time: the request to reschedule is taken back, and the next
        task is chosen. */
    method Yield() returns (ghost dead: seq<nat>)
      requires Inv(S()) && current in tasks && SomeRunnable(S())
      modifies this`ready, this`tasks, this`current
      ensures Inv(S()) && Runnable(S(), current)
      ensures var s := Cleared(old(S()), old(current));
              CanFree(s, dead, curdir) && S() == FreeAll(s, dead, curdir) && Fair(S(), s, old(current), current, curdir)
      ensures old(ready) != [] && (old(Quiet(S())) ==> dead == [] && current == RoundRobin(old(S()), old(current)))
    {
      ClearedKeeps(S(), current);
      hide Inv;
      hide FreeAll;
      hide CanFree;
      tasks := tasks[current := tasks[current].(flags := tasks[current].flags - {Resched})];
      dead := Select();
    }
  }

  function Cleared(s: State, t: nat): State
    requires t in s.tasks
  {
    Put(s, t, s.tasks[t].flags - {Resched})
  }

  /** No task is any more or less able to run for it. */
  lemma ClearedKeeps(s: State, t: nat)
    requires Inv(s) && t in s.tasks
    ensures var s' := Cleared(s, t);
            && Inv(s') && (Quiet(s') <==> Quiet(s)) && (SomeRunnable(s') <==> SomeRunnable(s))
            && (s.ready != [] ==> RoundRobin(s', t) == RoundRobin(s, t))
  {
    var s' := Cleared(s, t);
    assert (s.tasks[t].flags - {Resched}) * WAITMASK == s.tasks[t].flags * WAITMASK;
    assert forall u :: u in s.tasks ==> (Waiting(s'.tasks[u].flags) <==> Waiting(s.tasks[u].flags));
    hide Waiting;
    assert forall u :: Runnable(s', u) <==> Runnable(s, u);
    assert forall u :: u in s.ready ==> ReadyOk(s, u) && ReadyOk(s', u);
  }

  lemma KeepFacts(s: State)
    requires Inv(s) && SomeRunnable(s)
    ensures Distinct(s.ready) && s.ready != []
    ensures forall t :: t in s.ready ==> t in s.tasks && !Waiting(s.tasks[t].flags)
  {
    assert forall t :: t in s.ready ==> ReadyOk(s, t);
  }

  lemma NextReady(s: State, t: nat)
    ensures t in s.ready && NextOf(s.ready, t).Some? ==> NextOf(s.ready, t).value in s.ready
    ensures t !in s.ready ==> NextOf(s.ready, t) == Some(t)
  {
  }

  lemma NoneYet(s: State, dir: nat)
    ensures CanFree(s, [], dir) && FreeAll(s, [], dir) == s
  {
  }

  /** The walk is at its target, or is about to start at the front, which is it. */
  ghost predicate Toward(s: State, cur: Option<nat>, target: nat)
  {
    || cur == Some(target)
    || ((cur.None? || cur.value !in s.ready) && s.ready != [] && s.ready[0] == target)
  }

  lemma StartFacts(s: State, t: nat)
    requires Inv(s) && t in s.tasks && s.ready != []
    ensures Running in s.tasks[t].flags ==>
              (t in s.ready || Waiting(s.tasks[t].flags)) && Toward(s, NextOf(s.ready, t), RoundRobin(s, t))
    ensures Running !in s.tasks[t].flags ==> RoundRobin(s, t) == s.ready[0]
    ensures RoundRobin(s, t) in s.ready
  {
    hide IndexOf;
    if t in s.ready { Around(IndexOf(s.ready, t), |s.ready|); }
    assert Running in s.tasks[t].flags ==> t in s.ready || Waiting(s.tasks[t].flags);
    hide Inv;
    hide Waiting;
  }

  lemma Around(i: nat, n: nat)
    requires i < n
    ensures (i + 1) % n == if i + 1 < n then i + 1 else 0
  {
  }

  lemma AfterFree(s: State, dead: nat, cur: Option<nat>)
    requires Inv(s) && SomeRunnable(s) && dead in s.ready && Exiting(s, dead) && cur == NextOf(s.ready, dead)
    ensures Inv(Free(s, dead)) && SomeRunnable(Free(s, dead))
    ensures cur.Some? ==> cur.value in Free(s, dead).ready && cur.value in Free(s, dead).tasks
  {
    FreeKeeps(s, dead);
    var r :| Runnable(s, r);
    FreeOthers(s, dead, r);
    KeepFacts(s);
    if cur.Some? { FreeOthers(s, dead, cur.value); }
  }
}
