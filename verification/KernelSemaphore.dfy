/** The semaphore object of kernel/src/sem.c: its fields, and those of the waiting tasks it changes. */
module KernelSemaphore {
  import opened Options
  import opened Semaphores

  const ETIMEDOUT: int := -116

  /** The smallest of some deadlines, or the largest tick when there is none. */
  function Earliest(queue: seq<Waiter>, deadline: map<nat, nat>): nat
    requires forall i :: 0 <= i < |queue| ==> queue[i].task in deadline
  {
    if queue == [] then TICKS - 1
    else
      var last := |queue| - 1;
      var e := Earliest(queue[..last], deadline);
      if e > deadline[queue[last].task] then deadline[queue[last].task] else e
  }

  lemma {:induction false} EarliestIsLeast(queue: seq<Waiter>, deadline: map<nat, nat>)
    requires forall i :: 0 <= i < |queue| ==> queue[i].task in deadline && deadline[queue[i].task] < TICKS
    ensures forall i :: 0 <= i < |queue| ==> Earliest(queue, deadline) <= deadline[queue[i].task]
    ensures Earliest(queue, deadline) < TICKS - 1 ==>
              exists i :: 0 <= i < |queue| && Earliest(queue, deadline) == deadline[queue[i].task]
  {
    if queue != [] {
      var last := |queue| - 1;
      var front := queue[..last];
      EarliestIsLeast(front, deadline);
      assert forall i :: 0 <= i < last ==> front[i] == queue[i];
      if Earliest(queue, deadline) < TICKS - 1 && Earliest(front, deadline) <= deadline[queue[last].task] {
        var i :| 0 <= i < |front| && Earliest(front, deadline) == deadline[front[i].task];
        assert queue[i] == front[i];
      }
    }
  }

  lemma {:induction false} EarliestFrame(queue: seq<Waiter>, d: map<nat, nat>, e: map<nat, nat>)
    requires forall i :: 0 <= i < |queue| ==> queue[i].task in d && queue[i].task in e && d[queue[i].task] == e[queue[i].task]
    ensures Earliest(queue, d) == Earliest(queue, e)
  {
    if queue != [] {
      assert queue[|queue| - 1].task in d;
      EarliestFrame(queue[..|queue| - 1], d, e);
    }
  }

  class Semaphore {
    var units: int
    var locked: bool
    var queue: seq<Waiter>
    var deadline: map<nat, nat>
    var phase: map<nat, Phase>
    ghost var granted: multiset<nat>
    var next: nat
    ghost var log: seq<nat>
    ghost var mine: map<nat, nat>

    ghost function S(): State
      reads this
    {
      State(units, locked, queue, deadline, phase, granted, next, log, mine)
    }

    /** sem_alloc, for a given set of tasks. */
    constructor (n: nat, tasks: set<nat>)
      ensures S() == Fresh(n, tasks) && Inv(S(), n)
    {
      units, locked, queue, next := n, false, [], 0;
      deadline := map t | t in tasks :: 0;
      phase := map t | t in tasks :: Out;
      granted, log, mine := multiset{}, [], map t | t in tasks :: 0;
    }

    method Wakeup(t: nat)
      modifies this`phase
      ensures S() == Wake(old(S()), t)
    {
      if t in phase && phase[t] == Asleep {
        phase := phase[t := Awake];
      }
    }

    /** sem_wait up to task_waitio; no result when the task is to sleep. */
    method Wait(t: nat, timeout: nat, now: nat, ghost n: nat) returns (r: Option<int>)
      requires Inv(S(), n) && May(S(), DoEnter(t, timeout, now))
      modifies this
      ensures Inv(S(), n) && S() == Enter(old(S()), t, timeout, now)
      ensures r == Some(0) <==> S().granted == old(S()).granted + multiset{t}
      ensures r == Some(ETIMEDOUT) <==> locked
      ensures r == None <==> queue != old(queue)
    {
      hide Inv;
      hide QueueOk;
      EnterKeeps(S(), n, t, timeout, now);
      locked := true;
      if units == 0 {
        if timeout == 0 {
          return Some(ETIMEDOUT);
        }
        queue, mine := queue + [Waiter(t, next)], mine[t := next];
        next := next + 1;
        deadline := deadline[t := (now + timeout) % TICKS];
        phase := phase[t := Entering];
        locked := false;
        return None;
      }
      units := units - 1;
      granted, log := granted + multiset{t}, log + [next];
      next := next + 1;
      locked := false;
      r := Some(0);
    }

    /** sem_wait after task_waitio. */
    method Finish(t: nat, ghost n: nat) returns (r: int)
      requires Inv(S(), n) && May(S(), DoResume(t))
      modifies this`phase
      ensures Inv(S(), n) && S() == Resume(old(S()), t)
      ensures r in {0, ETIMEDOUT} && (r == 0 ==> t in granted) && (r == 0 <==> mine[t] in log)
    {
      ResumeKeeps(S(), n, t);
      hide Inv;
      phase := phase[t := Out];
      r := if deadline[t] == 1 then 0 else ETIMEDOUT;
    }

    /** sem_signal */
    method SignalUnit(ghost t: nat, ghost n: nat)
      requires Inv(S(), n) && May(S(), DoSignal(t))
      modifies this
      ensures Inv(S(), n) && S() == Signal(old(S()), t)
    {
      hide Inv;
      hide QueueOk;
      SignalKeeps(S(), n, t);
      locked := true;
      granted := granted - multiset{t};
      if queue == [] {
        units := units + 1;
        locked := false;
        return;
      }
      var w := queue[0];
      deadline := deadline[w.task := 1];
      queue := queue[1..];
      granted, log := granted + multiset{w.task}, log + [w.ticket];
      Wakeup(w.task);
      locked := false;
    }

    /** A waiter timing out: the first branch of the loop of sem_timeout. */
    method Expired(i: nat, ghost s: State, ghost n: nat)
      requires i < |queue| && S() == s.(locked := true) && Inv(s, n) && queue[i].task in deadline
      modifies this`queue, this`deadline, this`phase
      ensures S() == Expire(s, i).(locked := true) && Inv(Expire(s, i), n)
      ensures queue[..i] == old(queue[..i]) && deadline == old(deadline)[old(queue[i].task) := 0]
    {
      hide Inv;
      ExpireKeeps(s, n, i);
      var t := queue[i].task;
      deadline := deadline[t := 0];
      queue := queue[..i] + queue[i + 1..];
      Wakeup(t);
    }

    /** sem_timeout; no result where the callback is cancelled. */
    method Timeout(now: nat, ghost n: nat) returns (r: Option<nat>)
      requires Inv(S(), n) && May(S(), DoTick(now))
      modifies this
      ensures Inv(S(), n) && S() == Next(old(S()), DoTick(now))
      ensures QueueOk(S()) && var e := (QueueKnown(S()); Earliest(queue, deadline));
              r == if e == TICKS - 1 then None else Some(e)
    {
      hide Inv;
      hide QueueOk;
      hide TickFrom;
      hide Expire;
      ghost var s := S();
      TickKeeps(s, n, 0, now);
      QueueOf(s, n);
      var earliest := TICKS - 1;
      locked := true;
      var i := 0;
      while i < |queue|
        invariant 0 <= i <= |queue| && S() == s.(locked := true) && Inv(s, n) && !s.locked
        invariant forall j :: 0 <= j < |queue| ==> queue[j].task in deadline
        invariant TickFrom(s, i, now) == Next(old(S()), DoTick(now))
        invariant earliest == Earliest(queue[..i], deadline)
        decreases |queue| - i
      {
        var t := queue[i].task;
        TickStep(s, n, i, now);
        if deadline[t] <= now {
          ghost var d := deadline;
          OthersBefore(s, n, i);
          Expired(i, s, n);
          s := Expire(s, i);
          QueueOf(s, n);
          EarliestFrame(queue[..i], d, deadline);
        } else {
          assert queue[..i + 1][..i] == queue[..i];
          if earliest > deadline[t] {
            earliest := deadline[t];
          }
          i := i + 1;
        }
      }
      QueueOf(s, n);
      TickEnd(s, now);
      assert queue[..i] == queue;
      locked := false;
      assert S() == s;
      r := if earliest == TICKS - 1 then None else Some(earliest);
    }
  }

  /** One round of the loop of sem_timeout, and its end. */
  lemma TickStep(s: State, n: nat, i: nat, now: nat)
    requires Inv(s, n) && i < |s.queue|
    ensures s.queue[i].task in s.deadline && forall j :: 0 <= j < |s.queue| ==> s.queue[j].task in s.deadline
    ensures s.deadline[s.queue[i].task] > now ==> TickFrom(s, i, now) == TickFrom(s, i + 1, now)
    ensures s.deadline[s.queue[i].task] <= now ==>
              && |Expire(s, i).queue| == |s.queue| - 1 && Expire(s, i).locked == s.locked
              && (forall j :: 0 <= j < |Expire(s, i).queue| ==> Expire(s, i).queue[j].task in Expire(s, i).deadline)
              && TickFrom(s, i, now) == TickFrom(Expire(s, i), i, now)
  {
    QueueOf(s, n);
    if s.deadline[s.queue[i].task] <= now {
      ExpireKeeps(s, n, i);
      QueueOf(Expire(s, i), n);
    }
  }

  lemma TickEnd(s: State, now: nat)
    requires forall j :: 0 <= j < |s.queue| ==> s.queue[j].task in s.deadline
    ensures TickFrom(s, |s.queue|, now) == s
  {
  }

  lemma QueueOf(s: State, n: nat)
    requires Inv(s, n)
    ensures QueueOk(s) && forall j :: 0 <= j < |s.queue| ==> s.queue[j].task in s.deadline
  {
  }

  lemma OthersBefore(s: State, n: nat, i: nat)
    requires Inv(s, n) && i < |s.queue|
    ensures forall j :: 0 <= j < i ==> s.queue[..i][j] == s.queue[j] && s.queue[j].task != s.queue[i].task
  {
  }
}
