/** Semaphores and mutexes as a system of steps (kernel/src/sem.c): each region under the spin lock is one
    step, and so is each change of a task between running, about to sleep and asleep.  Only sem_signal and
    sem_timeout wake a waiting task. */
module Semaphores {
  const TICKS: nat := 0x1_0000_0000
  const SEM_FOREVER: nat := TICKS - 1

  /** A task is outside the semaphore, queued but not yet asleep, asleep, or awake and about to look at the
      outcome. */
  datatype Phase = Out | Entering | Asleep | Awake

  /** An entry of the list of waiters; tickets number the calls of sem_wait. */
  datatype Waiter = Waiter(task: nat, ticket: nat)

  /** `deadline` holds the t_timeout fields.  `granted` holds a task for every unit given to it and not
      signalled back, `log` the tickets that were given units, in order, `mine` the ticket of the last call of each
      task that had to wait. */
  datatype State = State(
    units: int,
    locked: bool,
    queue: seq<Waiter>,
    deadline: map<nat, nat>,
    phase: map<nat, Phase>,
    granted: multiset<nat>,
    next: nat,
    log: seq<nat>,
    mine: map<nat, nat>)

  ghost predicate Known(s: State, t: nat) { t in s.phase && t in s.deadline && t in s.mine }

  ghost predicate InQueue(s: State, t: nat)
  {
    exists i :: 0 <= i < |s.queue| && s.queue[i].task == t
  }

  // ----- Steps

  /** sem_wait up to task_waitio. */
  function Enter(s: State, t: nat, timeout: nat, now: nat): State
  {
    if s.units == 0 && timeout == 0 then s.(locked := true)
    else if s.units == 0 then
      s.(queue := s.queue + [Waiter(t, s.next)], deadline := s.deadline[t := (now + timeout) % TICKS],
         phase := s.phase[t := Entering], next := s.next + 1, mine := s.mine[t := s.next])
    else
      s.(units := s.units - 1, granted := s.granted + multiset{t}, log := s.log + [s.next], next := s.next + 1)
  }

  /** task_waitio of a queued task. */
  function Sleep(s: State, t: nat): State
  {
    s.(phase := s.phase[t := Asleep])
  }

  /** task_wakeup: nothing happens to a task that is not asleep. */
  function Wake(s: State, t: nat): State
  {
    if t in s.phase && s.phase[t] == Asleep then s.(phase := s.phase[t := Awake]) else s
  }

  /** sem_signal by a task that gives a unit back. */
  function Signal(s: State, t: nat): State
  {
    var g := s.granted - multiset{t};
    if s.queue == [] then s.(units := s.units + 1, granted := g)
    else
      var w := s.queue[0];
      Wake(s.(queue := s.queue[1..], deadline := s.deadline[w.task := 1],
              granted := g + multiset{w.task}, log := s.log + [w.ticket]), w.task)
  }

  /** One waiter timing out. */
  function Expire(s: State, i: nat): State
    requires i < |s.queue|
  {
    var t := s.queue[i].task;
    Wake(s.(queue := s.queue[..i] + s.queue[i + 1..], deadline := s.deadline[t := 0]), t)
  }

  /** sem_timeout from the waiter at index `i` on. */
  function TickFrom(s: State, i: nat, now: nat): State
    requires forall j :: 0 <= j < |s.queue| ==> s.queue[j].task in s.deadline
    decreases |s.queue| - i
  {
    if i >= |s.queue| then s
    else if s.deadline[s.queue[i].task] <= now then TickFrom(Expire(s, i), i, now)
    else TickFrom(s, i + 1, now)
  }

  /** sem_wait after task_waitio: the task goes on, with a unit or without. */
  function Resume(s: State, t: nat): State
  {
    s.(phase := s.phase[t := Out])
  }

  predicate GotUnit(s: State, t: nat)
    requires t in s.deadline
  {
    s.deadline[t] == 1
  }

  // ----- Invariant

  ghost predicate QueueOk(s: State)
  {
    && (forall i :: 0 <= i < |s.queue| ==> Known(s, s.queue[i].task) && s.phase[s.queue[i].task] in {Entering, Asleep})
    && (forall i, j :: 0 <= i < j < |s.queue| ==> s.queue[i].task != s.queue[j].task)
  }

  ghost predicate Increasing(xs: seq<nat>)
  {
    forall i, j :: 0 <= i < j < |xs| ==> xs[i] < xs[j]
  }

  /** Tickets given a unit come in order, before every ticket still waiting. */
  ghost predicate Ordered(s: State)
  {
    && Increasing(s.log) && (forall i :: 0 <= i < |s.log| ==> s.log[i] < s.next)
    && (forall i, j :: 0 <= i < j < |s.queue| ==> s.queue[i].ticket < s.queue[j].ticket)
    && (forall i :: 0 <= i < |s.queue| ==> s.queue[i].ticket < s.next)
    && (forall i, j :: 0 <= i < |s.log| && 0 <= j < |s.queue| ==> s.log[i] < s.queue[j].ticket)
  }

  /** Tasks inside sem_wait have tickets of their own, those in the queue the ones queued. */
  ghost predicate Ticketed(s: State)
  {
    && (forall t :: Known(s, t) && s.phase[t] != Out ==> s.mine[t] < s.next)
    && (forall t, u :: Known(s, t) && Known(s, u) && t != u && s.phase[t] != Out && s.phase[u] != Out ==> s.mine[t] != s.mine[u])
    && (forall i :: 0 <= i < |s.queue| ==> s.queue[i].task in s.mine && s.mine[s.queue[i].task] == s.queue[i].ticket)
  }

  /** A task that waited and is no longer queued has its outcome, which says that it was given a unit exactly if its
      ticket was, and then it has one. */
  ghost predicate Settled(s: State)
  {
    forall t :: Known(s, t) && s.phase[t] != Out && !InQueue(s, t) ==>
      s.deadline[t] in {0, 1} && (s.deadline[t] == 1 ==> t in s.granted) && (s.deadline[t] == 1 <==> s.mine[t] in s.log)
  }

  /** `n` is the number of units the semaphore was made with. */
  ghost predicate Inv(s: State, n: nat)
  {
    && s.units >= 0 && s.units + |s.granted| == n
    && (s.units > 0 ==> s.queue == [])
    && s.phase.Keys == s.deadline.Keys == s.mine.Keys
    && QueueOk(s) && Ordered(s) && Ticketed(s) && Settled(s)
  }

  // ----- Each step keeps it

  lemma EnterKeeps(s: State, n: nat, t: nat, timeout: nat, now: nat)
    requires Inv(s, n) && Known(s, t) && s.phase[t] == Out
    ensures Inv(Enter(s, t, timeout, now), n)
  {
    hide QueueOk;
    hide Ordered;
    hide Ticketed;
    hide Settled;
    var s' := Enter(s, t, timeout, now);
    if s.units == 0 && timeout > 0 {
      QueuedKeeps(s, s', t);
      NotQueued(s, t);
      QueuedTicket(s, s', t);
    } else {
      TakenKeeps(s, s');
    }
  }

  lemma NotQueued(s: State, t: nat)
    requires QueueOk(s) && Known(s, t) && s.phase[t] == Out
    ensures forall i :: 0 <= i < |s.queue| ==> s.queue[i].task != t
  {
  }

  /** Units may be taken at once while nobody waits. */
  lemma TakenKeeps(s: State, s': State)
    requires QueueOk(s) && Ordered(s) && Ticketed(s) && Settled(s)
    requires s'.queue == s.queue && s'.phase == s.phase && s'.deadline == s.deadline
    requires s'.mine == s.mine && s.granted <= s'.granted
    requires (s'.log == s.log && s'.next == s.next) || (s.queue == [] && s'.log == s.log + [s.next] && s'.next == s.next + 1)
    ensures QueueOk(s') && Ordered(s') && Ticketed(s') && Settled(s')
  {
    assert QueueOk(s') by { hide Ordered; hide Ticketed; hide Settled; }
    assert Ordered(s') by { hide QueueOk; hide Ticketed; hide Settled; }
    assert Ticketed(s') by { hide QueueOk; hide Ordered; hide Settled; }
    TakenSettled(s, s');
    hide Ordered;
    hide QueueOk;
    hide Ticketed;
    hide Settled;
  }

  /** A unit taken at once goes to a ticket nobody waits with. */
  lemma TakenSettled(s: State, s': State)
    requires Ticketed(s) && Settled(s) && s'.queue == s.queue && s'.phase == s.phase && s'.deadline == s.deadline
    requires s'.mine == s.mine && s.granted <= s'.granted && (s'.log == s.log || s'.log == s.log + [s.next])
    ensures Settled(s')
  {
    SameQueue(s, s');
    hide InQueue;
    assert forall x :: x in s'.log && x != s.next <==> x in s.log && x != s.next;
    assert forall u :: u in s.granted ==> u in s'.granted;
  }

  lemma QueuedTicket(s: State, s': State, t: nat)
    requires Ticketed(s) && s'.queue == s.queue + [Waiter(t, s.next)] && s'.phase == s.phase[t := Entering]
    requires s'.mine == s.mine[t := s.next] && s'.next == s.next + 1 && Known(s, t) && s.phase[t] == Out
    requires s'.deadline.Keys == s.deadline.Keys && forall i :: 0 <= i < |s.queue| ==> s.queue[i].task != t
    ensures Ticketed(s')
  {
    assert forall i :: 0 <= i < |s'.queue| ==> s'.queue[i] == if i < |s.queue| then s.queue[i] else Waiter(t, s.next);
  }

  /** One more waiter at the end of the list. */
  lemma QueuedKeeps(s: State, s': State, t: nat)
    requires QueueOk(s) && Ordered(s) && Settled(s) && Known(s, t) && s.phase[t] == Out
    requires s'.queue == s.queue + [Waiter(t, s.next)] && s'.phase == s.phase[t := Entering] && s'.next == s.next + 1
    requires t in s'.deadline && s'.deadline == s.deadline[t := s'.deadline[t]] && s'.granted == s.granted && s'.log == s.log
    requires s'.mine == s.mine[t := s.next]
    ensures QueueOk(s') && Ordered(s') && Settled(s')
  {
    assert forall i :: 0 <= i < |s'.queue| ==> s'.queue[i] == if i < |s.queue| then s.queue[i] else Waiter(t, s.next);
    assert QueueOk(s');
    assert Ordered(s') by { hide QueueOk; }
    forall u | InQueue(s, u) || u == t ensures InQueue(s', u) {
      if u == t {
        assert s'.queue[|s.queue|].task == t;
      } else {
        var i :| 0 <= i < |s.queue| && s.queue[i].task == u;
        assert s'.queue[i].task == u;
      }
    }
    hide QueueOk;
    hide Ordered;
  }

  lemma SleepKeeps(s: State, n: nat, t: nat)
    requires Inv(s, n) && Known(s, t) && s.phase[t] == Entering
    ensures Inv(Sleep(s, t), n)
  {
    hide QueueOk;
    hide Ordered;
    hide Ticketed;
    hide Settled;
    PhaseKeeps(s, Sleep(s, t), t);
  }

  /** A task inside sem_wait that is not queued, or does not wake up, may change its phase. */
  lemma PhaseKeeps(s: State, s': State, t: nat)
    requires QueueOk(s) && Ordered(s) && Ticketed(s) && Settled(s) && Known(s, t) && s.phase[t] != Out && t in s'.phase
    requires s' == s.(phase := s.phase[t := s'.phase[t]]) && (s'.phase[t] == Asleep || !InQueue(s, t))
    ensures QueueOk(s') && Ordered(s') && Ticketed(s') && Settled(s')
  {
    hide QueueOk;
    hide Ticketed;
    hide Settled;
    hide InQueue;
    PhaseQueue(s, s', t);
    PhaseTicketed(s, s', t);
    PhaseSettled(s, s', t);
  }

  lemma PhaseQueue(s: State, s': State, t: nat)
    requires QueueOk(s) && Known(s, t) && t in s'.phase && s' == s.(phase := s.phase[t := s'.phase[t]])
    requires s'.phase[t] == Asleep || !InQueue(s, t)
    ensures QueueOk(s')
  {
  }

  lemma PhaseTicketed(s: State, s': State, t: nat)
    requires Ticketed(s) && Known(s, t) && s.phase[t] != Out && t in s'.phase && s' == s.(phase := s.phase[t := s'.phase[t]])
    ensures Ticketed(s')
  {
    assert forall u :: Known(s', u) && s'.phase[u] != Out ==> Known(s, u) && s.phase[u] != Out;
  }

  lemma PhaseSettled(s: State, s': State, t: nat)
    requires Settled(s) && Known(s, t) && s.phase[t] != Out && t in s'.phase && s' == s.(phase := s.phase[t := s'.phase[t]])
    ensures Settled(s')
  {
    SameQueue(s, s');
    hide InQueue;
  }

  lemma SameQueue(s: State, s': State)
    requires s'.queue == s.queue
    ensures forall t :: InQueue(s', t) == InQueue(s, t)
  {
  }

  lemma ResumeKeeps(s: State, n: nat, t: nat)
    requires Inv(s, n) && Known(s, t) && s.phase[t] == Awake
    ensures Inv(Resume(s, t), n)
    ensures !InQueue(s, t) && s.deadline[t] in {0, 1} && (GotUnit(s, t) ==> t in s.granted)
    ensures GotUnit(s, t) <==> s.mine[t] in s.log
  {
    AwakeOut(s, t);
    hide QueueOk;
    hide Ordered;
    hide Ticketed;
    PhaseKeeps(s, Resume(s, t), t);
  }

  lemma SignalKeeps(s: State, n: nat, t: nat)
    requires Inv(s, n) && Known(s, t) && s.phase[t] == Out && t in s.granted
    ensures Inv(Signal(s, t), n)
  {
    hide QueueOk;
    hide Ordered;
    hide Ticketed;
    hide Settled;
    hide InQueue;
    if s.queue == [] {
      ReturnedKeeps(s, t);
    } else {
      GrantedKeeps(s, t);
      var w := s.queue[0].task;
      assert |s.granted - multiset{t} + multiset{w}| == |s.granted|;
    }
  }

  /** A unit given back while nobody waits. */
  lemma ReturnedKeeps(s: State, t: nat)
    requires s.queue == [] && QueueOk(s) && Ordered(s) && Settled(s) && Known(s, t) && s.phase[t] == Out
    ensures QueueOk(Signal(s, t)) && Ordered(Signal(s, t)) && Settled(Signal(s, t))
    ensures Ticketed(s) ==> Ticketed(Signal(s, t))
  {
    assert forall u :: InQueue(Signal(s, t), u) == InQueue(s, u);
    hide InQueue;
  }

  /** A unit handed to the first waiter. */
  lemma GrantedKeeps(s: State, t: nat)
    requires s.queue != [] && QueueOk(s) && Ordered(s) && Ticketed(s) && Settled(s) && Known(s, t) && s.phase[t] == Out
    ensures QueueOk(Signal(s, t)) && Ordered(Signal(s, t)) && Ticketed(Signal(s, t)) && Settled(Signal(s, t))
    ensures Signal(s, t).mine == s.mine
    ensures Signal(s, t).phase.Keys == s.phase.Keys && Signal(s, t).deadline.Keys == s.deadline.Keys + {s.queue[0].task}
    ensures Known(s, s.queue[0].task)
  {
    hide QueueOk;
    hide Ordered;
    hide Ticketed;
    hide Settled;
    var s' := Signal(s, t);
    assert s.queue[1..] == s.queue[..0] + s.queue[1..];
    InQueueKnown(s, 0);
    assert Removed(s, s', 0, 1);
    GrantOrdered(s, s');
    RemovedQueue(s, s', 0, 1);
    RemovedTicketed(s, s', 0, 1);
    StillGranted(s, t);
    GrantLog(s, s');
    RemovedSettled(s, s', 0, 1);
  }

  /** The unit goes to one ticket, whose task alone is told. */
  lemma GrantLog(s: State, s': State)
    requires s.queue != [] && QueueOk(s) && Ticketed(s) && s'.log == s.log + [s.queue[0].ticket]
    ensures s.queue[0].ticket in s'.log
    ensures forall u :: Known(s, u) && s.phase[u] != Out && u != s.queue[0].task ==> (s.mine[u] in s'.log <==> s.mine[u] in s.log)
  {
    var w := s.queue[0];
    assert forall x :: x in s'.log <==> x in s.log || x == w.ticket;
  }

  lemma StillGranted(s: State, t: nat)
    requires s.queue != [] && Known(s, t) && s.phase[t] == Out
    ensures forall u :: Known(s, u) && s.phase[u] != Out && u in s.granted ==> u in Signal(s, t).granted
    ensures s.queue[0].task in Signal(s, t).granted
  {
  }

  lemma GrantOrdered(s: State, s': State)
    requires Ordered(s) && s.queue != [] && s'.queue == s.queue[1..] && s'.log == s.log + [s.queue[0].ticket] && s'.next == s.next
    ensures Ordered(s')
  {
    assert forall i :: 0 <= i < |s'.queue| ==> s'.queue[i] == s.queue[i + 1];
    assert forall i :: 0 <= i < |s.log| ==> s'.log[i] == s.log[i];
  }

  /** `s'` is `s` with waiter `i` off the list, its outcome set to `o` and woken. */
  ghost predicate Removed(s: State, s': State, i: nat, o: nat)
  {
    && i < |s.queue| && s'.queue == s.queue[..i] + s.queue[i + 1..]
    && var t := s.queue[i].task;
       && Known(s, t) && s'.deadline == s.deadline[t := o] && s'.mine == s.mine && s'.next == s.next
       && s'.phase == if s.phase[t] == Asleep then s.phase[t := Awake] else s.phase
  }

  lemma RemovedQueue(s: State, s': State, i: nat, o: nat)
    requires QueueOk(s) && Removed(s, s', i, o)
    ensures QueueOk(s')
  {
    assert forall j :: 0 <= j < |s'.queue| ==> s'.queue[j] == s.queue[if j < i then j else j + 1];
  }

  lemma RemovedOrdered(s: State, s': State, i: nat, o: nat)
    requires Ordered(s) && Removed(s, s', i, o) && s'.log == s.log && s'.next == s.next
    ensures Ordered(s')
  {
    assert forall j :: 0 <= j < |s'.queue| ==> s'.queue[j] == s.queue[if j < i then j else j + 1];
  }

  lemma RemovedTicketed(s: State, s': State, i: nat, o: nat)
    requires QueueOk(s) && Ticketed(s) && Removed(s, s', i, o)
    ensures Ticketed(s')
  {
    var t := s.queue[i].task;
    assert s.phase[t] != Out && forall u :: Known(s', u) && s'.phase[u] != Out ==> Known(s, u) && s.phase[u] != Out;
    hide QueueOk;
    assert forall j :: 0 <= j < |s'.queue| ==> s'.queue[j] == s.queue[if j < i then j else j + 1];
  }

  lemma RemovedSettled(s: State, s': State, i: nat, o: nat)
    requires QueueOk(s) && Ticketed(s) && Settled(s) && Removed(s, s', i, o) && o <= 1
    requires o == 1 <==> s.queue[i].ticket in s'.log
    requires forall t :: Known(s, t) && s.phase[t] != Out && t != s.queue[i].task ==> (s.mine[t] in s'.log <==> s.mine[t] in s.log)
    requires forall t :: Known(s, t) && s.phase[t] != Out && t in s.granted ==> t in s'.granted
    requires o == 1 ==> s.queue[i].task in s'.granted
    ensures Settled(s')
  {
    Dequeued(s, s', i);
    hide QueueOk;
    hide InQueue;
  }

  /** A waiter taken off the list, with its outcome set. */
  lemma Dequeued(s: State, s': State, i: nat)
    requires QueueOk(s) && i < |s.queue| && s'.queue == s.queue[..i] + s.queue[i + 1..]
    ensures forall u :: InQueue(s', u) <==> InQueue(s, u) && u != s.queue[i].task
  {
    forall u ensures InQueue(s', u) <==> InQueue(s, u) && u != s.queue[i].task {
      if InQueue(s, u) && u != s.queue[i].task {
        var j :| 0 <= j < |s.queue| && s.queue[j].task == u;
        assert s'.queue[if j < i then j else j - 1] == s.queue[j];
      }
      if InQueue(s', u) {
        var j :| 0 <= j < |s'.queue| && s'.queue[j].task == u;
        assert s'.queue[j] == s.queue[if j < i then j else j + 1];
      }
    }
  }

  lemma NotYet(s: State, i: nat)
    requires Ordered(s) && i < |s.queue|
    ensures s.queue[i].ticket !in s.log
  {
  }

  lemma ExpireKeeps(s: State, n: nat, i: nat)
    requires Inv(s, n) && i < |s.queue|
    ensures Inv(Expire(s, i), n)
    ensures Expire(s, i).units == s.units && Expire(s, i).granted == s.granted && Expire(s, i).log == s.log
  {
    hide QueueOk;
    hide Ordered;
    hide Ticketed;
    hide Settled;
    var s' := Expire(s, i);
    InQueueKnown(s, i);
    RemovedQueue(s, s', i, 0);
    RemovedOrdered(s, s', i, 0);
    RemovedTicketed(s, s', i, 0);
    NotYet(s, i);
    RemovedSettled(s, s', i, 0);
  }

  lemma ExpireLocked(s: State, i: nat)
    requires i < |s.queue|
    ensures Expire(s, i).locked == s.locked && |Expire(s, i).queue| == |s.queue| - 1 && Expire(s, i).mine == s.mine
  {
  }

  lemma InQueueKnown(s: State, i: nat)
    requires QueueOk(s) && i < |s.queue|
    ensures Known(s, s.queue[i].task)
  {
  }

  lemma QueueKnown(s: State)
    requires QueueOk(s)
    ensures forall j :: 0 <= j < |s.queue| ==> s.queue[j].task in s.deadline
  {
  }

  /** sem_timeout keeps the invariant and gives and takes no unit. */
  lemma {:induction false} TickKeeps(s: State, n: nat, i: nat, now: nat)
    requires Inv(s, n)
    ensures forall j :: 0 <= j < |s.queue| ==> s.queue[j].task in s.deadline
    ensures var s' := TickFrom(s, i, now);
            && Inv(s', n) && s'.units == s.units && s'.granted == s.granted && s'.log == s.log && s'.locked == s.locked
            && s'.mine == s.mine
    decreases |s.queue| - i
  {
    hide Inv;
    hide QueueOk;
    hide Expire;
    InvQueue(s, n);
    QueueKnown(s);
    if i < |s.queue| {
      if s.deadline[s.queue[i].task] <= now {
        ExpireKeeps(s, n, i);
        ExpireLocked(s, i);
        TickKeeps(Expire(s, i), n, i, now);
      } else {
        TickKeeps(s, n, i + 1, now);
      }
    }
  }

  /** The waiters of a list whose deadline is later than `now`. */
  function Later(queue: seq<Waiter>, deadline: map<nat, nat>, now: nat): seq<Waiter>
  {
    if queue == [] then []
    else (if queue[0].task in deadline && deadline[queue[0].task] <= now then [] else [queue[0]])
         + Later(queue[1..], deadline, now)
  }

  lemma {:induction false} LaterFrame(queue: seq<Waiter>, d: map<nat, nat>, e: map<nat, nat>, now: nat)
    requires forall i :: 0 <= i < |queue| ==> queue[i].task in d && queue[i].task in e && d[queue[i].task] == e[queue[i].task]
    ensures Later(queue, d, now) == Later(queue, e, now)
  {
    if queue != [] {
      assert queue[0].task in d;
      LaterFrame(queue[1..], d, e, now);
    }
  }

  /** sem_timeout leaves on the list those whose deadline is later, in their order. */
  lemma {:induction false} TickQueue(s: State, i: nat, now: nat)
    requires QueueOk(s) && i <= |s.queue|
    ensures forall j :: 0 <= j < |s.queue| ==> s.queue[j].task in s.deadline
    ensures TickFrom(s, i, now).queue == s.queue[..i] + Later(s.queue[i..], s.deadline, now)
    decreases |s.queue| - i
  {
    hide QueueOk;
    hide Later;
    hide Expire;
    QueueKnown(s);
    if i == |s.queue| {
      LaterEnd(s, i, now);
    } else if s.deadline[s.queue[i].task] <= now {
      ExpireLater(s, i, now);
      TickQueue(Expire(s, i), i, now);
    } else {
      KeepLater(s, i, now);
      TickQueue(s, i + 1, now);
    }
  }

  lemma LaterEnd(s: State, i: nat, now: nat)
    requires i == |s.queue|
    ensures s.queue[..i] + Later(s.queue[i..], s.deadline, now) == s.queue
  {
    assert s.queue[i..] == [];
  }

  lemma KeepLater(s: State, i: nat, now: nat)
    requires i < |s.queue| && s.queue[i].task in s.deadline && s.deadline[s.queue[i].task] > now
    ensures s.queue[..i + 1] + Later(s.queue[i + 1..], s.deadline, now) == s.queue[..i] + Later(s.queue[i..], s.deadline, now)
  {
    assert s.queue[i..][1..] == s.queue[i + 1..];
    assert s.queue[..i + 1] == s.queue[..i] + [s.queue[i]];
  }

  lemma ExpireLater(s: State, i: nat, now: nat)
    requires QueueOk(s) && i < |s.queue| && s.queue[i].task in s.deadline && s.deadline[s.queue[i].task] <= now
    ensures var s1 := Expire(s, i);
            && QueueOk(s1) && |s1.queue| == |s.queue| - 1 && s1.queue[..i] == s.queue[..i]
            && Later(s1.queue[i..], s1.deadline, now) == Later(s.queue[i..], s.deadline, now)
  {
    var s1, rest := Expire(s, i), s.queue[i + 1..];
    RemovedQueue(s, s1, i, 0);
    assert s1.queue[i..] == rest && s.queue[i..][1..] == rest;
    assert forall j :: 0 <= j < |rest| ==> rest[j] == s.queue[i + 1 + j] && rest[j].task != s.queue[i].task;
    LaterFrame(rest, s1.deadline, s.deadline, now);
  }

  /** What sem_timeout does to every task: a waiter past its deadline is told so and woken, nobody else is
      touched. */
  lemma {:induction false} TickTask(s: State, i: nat, now: nat, t: nat)
    requires QueueOk(s) && i <= |s.queue| && Known(s, t)
    ensures forall j :: 0 <= j < |s.queue| ==> s.queue[j].task in s.deadline
    ensures var s' := TickFrom(s, i, now);
            && Known(s', t)
            && if InTail(s, i, t) && s.deadline[t] <= now
               then s'.deadline[t] == 0 && s'.phase[t] == (if s.phase[t] == Asleep then Awake else s.phase[t])
               else s'.deadline[t] == s.deadline[t] && s'.phase[t] == s.phase[t]
    decreases |s.queue| - i
  {
    QueueKnown(s);
    if i < |s.queue| {
      var w := s.queue[i].task;
      assert InTail(s, i, w);
      if s.deadline[w] <= now {
        var s1 := Expire(s, i);
        RemovedQueue(s, s1, i, 0);
        TailExpired(s, s1, i);
        hide QueueOk;
        TickTask(s1, i, now, t);
      } else {
        TailSkipped(s, i);
        hide QueueOk;
        TickTask(s, i + 1, now, t);
      }
    }
  }

  ghost predicate InTail(s: State, i: nat, t: nat)
  {
    exists j :: i <= j < |s.queue| && s.queue[j].task == t
  }

  lemma TailExpired(s: State, s1: State, i: nat)
    requires QueueOk(s) && i < |s.queue| && s1.queue == s.queue[..i] + s.queue[i + 1..]
    ensures forall t :: InTail(s1, i, t) <==> InTail(s, i, t) && t != s.queue[i].task
  {
    forall t ensures InTail(s1, i, t) <==> InTail(s, i, t) && t != s.queue[i].task {
      if InTail(s, i, t) && t != s.queue[i].task {
        var j :| i <= j < |s.queue| && s.queue[j].task == t;
        assert s1.queue[j - 1] == s.queue[j];
      }
      if InTail(s1, i, t) {
        var j :| i <= j < |s1.queue| && s1.queue[j].task == t;
        assert s1.queue[j] == s.queue[j + 1];
      }
    }
  }

  lemma TailSkipped(s: State, i: nat)
    requires i < |s.queue|
    ensures forall t :: InTail(s, i, t) <==> InTail(s, i + 1, t) || t == s.queue[i].task
  {
  }

  // ----- Runs

  datatype Op =
    | DoEnter(t: nat, timeout: nat, now: nat)
    | DoSleep(t: nat)
    | DoResume(t: nat)
    | DoSignal(t: nat)
    | DoTick(now: nat)

  /** The steps that may be taken: the spin lock must be free, and only a task with a unit signals. */
  ghost predicate May(s: State, op: Op)
  {
    match op
    case DoEnter(t, timeout, now) => !s.locked && Known(s, t) && s.phase[t] == Out && timeout < TICKS && now < TICKS
    case DoSleep(t) => Known(s, t) && s.phase[t] == Entering
    case DoResume(t) => Known(s, t) && s.phase[t] == Awake
    case DoSignal(t) => !s.locked && Known(s, t) && s.phase[t] == Out && t in s.granted
    case DoTick(now) => !s.locked && now < TICKS && QueueOk(s)
  }

  ghost function Next(s: State, op: Op): State
    requires May(s, op)
  {
    match op
    case DoEnter(t, timeout, now) => Enter(s, t, timeout, now)
    case DoSleep(t) => Sleep(s, t)
    case DoResume(t) => Resume(s, t)
    case DoSignal(t) => Signal(s, t)
    case DoTick(now) => QueueKnown(s); TickFrom(s, 0, now)
  }

  lemma NextKeeps(s: State, n: nat, op: Op)
    requires Inv(s, n) && May(s, op)
    ensures Inv(Next(s, op), n)
  {
    match op
    case DoEnter(t, timeout, now) => EnterKeeps(s, n, t, timeout, now);
    case DoSleep(t) => SleepKeeps(s, n, t);
    case DoResume(t) => ResumeKeeps(s, n, t);
    case DoSignal(t) => SignalKeeps(s, n, t);
    case DoTick(now) => TickKeeps(s, n, 0, now);
  }

  ghost predicate StepAt(ss: seq<State>, ops: seq<Op>, i: nat)
    requires |ss| == |ops| + 1 && i < |ops|
  {
    May(ss[i], ops[i]) && ss[i + 1] == Next(ss[i], ops[i])
  }

  ghost predicate Trace(ss: seq<State>, ops: seq<Op>)
  {
    |ss| == |ops| + 1 && forall i :: 0 <= i < |ops| ==> StepAt(ss, ops, i)
  }

  /** A new semaphore of `n` units, and some tasks. */
  function Fresh(n: nat, tasks: set<nat>): State
  {
    State(n, false, [], map t | t in tasks :: 0, map t | t in tasks :: Out, multiset{}, 0, [], map t | t in tasks :: 0)
  }

  /** In every interleaving free units and granted units add up to the initial number, nobody waits while a
      unit is free, and units are granted in the order of arrival. */
  lemma {:induction false} RunConserves(ss: seq<State>, ops: seq<Op>, n: nat, tasks: set<nat>, k: nat)
    requires Trace(ss, ops) && ss[0] == Fresh(n, tasks) && k < |ss|
    ensures Inv(ss[k], n)
  {
    if k > 0 {
      RunConserves(ss, ops, n, tasks, k - 1);
      assert StepAt(ss, ops, k - 1);
      NextKeeps(ss[k - 1], n, ops[k - 1]);
    }
  }

  /** A mutex is a semaphore of one unit: two tasks never have it together, and none has it twice. */
  lemma MutexExclusive(ss: seq<State>, ops: seq<Op>, tasks: set<nat>, k: nat, t: nat, u: nat)
    requires Trace(ss, ops) && ss[0] == Fresh(1, tasks) && k < |ss| && t in ss[k].granted && u in ss[k].granted
    ensures t == u && ss[k].granted[t] == 1
  {
    RunConserves(ss, ops, 1, tasks, k);
    var g := ss[k].granted;
    assert |g| <= 1;
    assert |g - multiset{t}| == |g| - 1;
    assert g - multiset{t} == multiset{};
    assert g[u] == (g - multiset{t})[u] + (if t == u then 1 else 0);
  }

  // ----- What a task is told

  /** Task `t` is in the call of sem_wait with this ticket, and has the `g` units it had before and one more if the
      ticket was given one. */
  ghost predicate InWait(s: State, t: nat, ticket: nat, g: nat)
  {
    && Known(s, t) && s.phase[t] != Out && s.mine[t] == ticket
    && s.granted[t] == g + if ticket in s.log then 1 else 0
  }

  lemma EnterWaits(s: State, n: nat, t: nat, timeout: nat, now: nat)
    requires Inv(s, n) && May(s, DoEnter(t, timeout, now)) && s.units == 0 && timeout > 0
    ensures InWait(Enter(s, t, timeout, now), t, s.next, s.granted[t])
  {
    assert s.next !in s.log;
  }

  lemma WaitStep(s: State, n: nat, op: Op, t: nat, ticket: nat, g: nat)
    requires Inv(s, n) && May(s, op) && InWait(s, t, ticket, g) && op != DoResume(t)
    ensures InWait(Next(s, op), t, ticket, g)
  {
    TicketBelow(s, n, t);
    hide QueueOk;
    hide Ordered;
    hide Ticketed;
    hide Settled;
    match op
    case DoEnter(u, timeout, now) =>
    case DoSleep(u) =>
    case DoResume(u) =>
    case DoSignal(u) => WaitSignal(s, n, u, t, ticket, g);
    case DoTick(now) =>
      InvQueue(s, n);
      TickKeeps(s, n, 0, now);
      TickTask(s, 0, now, t);
      hide TickFrom;
  }

  lemma TicketBelow(s: State, n: nat, t: nat)
    requires Inv(s, n) && Known(s, t) && s.phase[t] != Out
    ensures s.mine[t] < s.next
  {
  }

  lemma WaitSignal(s: State, n: nat, u: nat, t: nat, ticket: nat, g: nat)
    requires Inv(s, n) && May(s, DoSignal(u)) && InWait(s, t, ticket, g)
    ensures InWait(Signal(s, u), t, ticket, g)
  {
    hide Ordered;
    hide Settled;
    if s.queue != [] {
      var w := s.queue[0];
      InQueueKnown(s, 0);
      assert w.ticket == s.mine[w.task] && s.phase[w.task] != Out;
      if w.task == t { FirstNotYet(s, n); }
      hide QueueOk;
      hide Ticketed;
      assert forall x :: x in s.log + [w.ticket] <==> x in s.log || x == w.ticket;
    }
  }

  lemma FirstNotYet(s: State, n: nat)
    requires Inv(s, n) && s.queue != []
    ensures s.queue[0].ticket !in s.log
  {
    NotYet(s, 0);
  }

  lemma {:induction false} StillInWait(ss: seq<State>, ops: seq<Op>, n: nat, i: nat, k: nat, t: nat, ticket: nat, g: nat)
    requires Trace(ss, ops) && i <= k < |ss| && Inv(ss[i], n) && InWait(ss[i], t, ticket, g)
    requires forall j :: i <= j < k ==> ops[j] != DoResume(t)
    ensures Inv(ss[k], n) && InWait(ss[k], t, ticket, g)
    decreases k
  {
    hide Inv;
    hide InWait;
    hide Next;
    if k > i {
      StillInWait(ss, ops, n, i, k - 1, t, ticket, g);
      assert StepAt(ss, ops, k - 1);
      NextKeeps(ss[k - 1], n, ops[k - 1]);
      WaitStep(ss[k - 1], n, ops[k - 1], t, ticket, g);
    }
  }

  /** In every run, a task that had to wait and goes on is told that it got a unit exactly if its call was given one;
      it then has one unit more than before the call, and otherwise as many. */
  lemma WaitTold(ss: seq<State>, ops: seq<Op>, n: nat, tasks: set<nat>, i: nat, j: nat)
    requires Trace(ss, ops) && ss[0] == Fresh(n, tasks) && i < j < |ops|
    requires ops[i].DoEnter? && ss[i].units == 0 && ops[i].timeout > 0 && ops[j] == DoResume(ops[i].t)
    requires forall k :: i < k < j ==> ops[k] != ops[j]
    ensures var t := ops[i].t;
            && t in ss[j].deadline && (GotUnit(ss[j], t) <==> ss[i].next in ss[j].log)
            && ss[j + 1].granted[t] == ss[i].granted[t] + if GotUnit(ss[j], t) then 1 else 0
  {
    var t := ops[i].t;
    RunConserves(ss, ops, n, tasks, i);
    RunConserves(ss, ops, n, tasks, i + 1);
    hide Inv;
    hide Enter;
    assert StepAt(ss, ops, i);
    EnterWaits(ss[i], n, t, ops[i].timeout, ops[i].now);
    StillInWait(ss, ops, n, i + 1, j, t, ss[i].next, ss[i].granted[t]);
    assert StepAt(ss, ops, j);
    ResumeKeeps(ss[j], n, t);
  }

  // ----- Where the code does not do what it promises

  /** A sem_wait at `now` that finds no unit, the sleep, and the timer at `later`, before the time asked for is up:
      the task is taken off the list, told that its time is up and woken exactly when the deadline does not fit the
      tick counter.  For SEM_FOREVER that is so at every tick but 0. */
  lemma TimedOutEarly(s: State, n: nat, t: nat, timeout: nat, now: nat, later: nat)
    requires Inv(s, n) && May(s, DoEnter(t, timeout, now)) && s.units == 0 && timeout > 0
    requires now <= later < now + timeout && later < TICKS
    ensures var s1 := Next(s, DoEnter(t, timeout, now));
            && May(s1, DoSleep(t)) && Inv(s1, n)
            && var s2 := Next(s1, DoSleep(t));
               && May(s2, DoTick(later)) && Inv(s2, n)
               && var s3 := Next(s2, DoTick(later));
                  && Inv(s3, n) && Known(s3, t)
                  && (s3.phase[t] == Awake && s3.deadline[t] == 0 && !InQueue(s3, t) <==> now + timeout >= TICKS)
    ensures timeout == SEM_FOREVER && now > 0 ==> now + timeout >= TICKS
  {
    hide Inv;
    var s1 := Enter(s, t, timeout, now);
    EnterKeeps(s, n, t, timeout, now);
    var s2 := Sleep(s1, t);
    SleepKeeps(s1, n, t);
    QueuedLast(s, t, timeout, now);
    InvQueue(s2, n);
    TickTask(s2, 0, later, t);
    NextKeeps(s2, n, DoTick(later));
    var s3 := Next(s2, DoTick(later));
    InvQueue(s3, n);
    if s3.phase[t] == Awake { AwakeOut(s3, t); }
    Deadline(now, timeout, later);
  }

  lemma InvQueue(s: State, n: nat)
    requires Inv(s, n)
    ensures QueueOk(s)
  {
  }

  lemma AwakeOut(s: State, t: nat)
    requires QueueOk(s) && Known(s, t) && s.phase[t] == Awake
    ensures !InQueue(s, t)
  {
  }

  lemma QueuedLast(s: State, t: nat, timeout: nat, now: nat)
    requires s.units == 0 && timeout > 0
    ensures var s2 := Sleep(Enter(s, t, timeout, now), t);
            && Known(s2, t) && InTail(s2, 0, t) && s2.phase[t] == Asleep && s2.deadline[t] == (now + timeout) % TICKS
            && s2.locked == s.locked
  {
    var s2 := Sleep(Enter(s, t, timeout, now), t);
    assert s2.queue[|s.queue|].task == t;
  }

  lemma Deadline(now: nat, timeout: nat, later: nat)
    requires 0 < timeout < TICKS && now <= later < now + timeout && now < TICKS && later < TICKS
    ensures (now + timeout) % TICKS <= later <==> now + timeout >= TICKS
  {
    if now + timeout >= TICKS {
      assert (now + timeout) % TICKS == now + timeout - TICKS;
    }
  }

  /** The operation is a sem_wait told not to wait where no unit is free. */
  ghost predicate Leaks(s: State, op: Op)
  {
    op.DoEnter? && op.timeout == 0 && s.units == 0
  }

  /** The spin lock is left taken exactly when there was such a call. */
  lemma {:induction false} LockLeaks(ss: seq<State>, ops: seq<Op>, n: nat, k: nat)
    requires Trace(ss, ops) && Inv(ss[0], n) && !ss[0].locked && k < |ss|
    ensures Inv(ss[k], n) && (ss[k].locked <==> exists i :: 0 <= i < k && Leaks(ss[i], ops[i]))
  {
    hide Inv;
    hide Next;
    hide Leaks;
    if k > 0 {
      LockLeaks(ss, ops, n, k - 1);
      assert StepAt(ss, ops, k - 1);
      NextKeeps(ss[k - 1], n, ops[k - 1]);
      LockStep(ss[k - 1], n, ops[k - 1]);
    }
  }

  /** One task, told not to wait on a semaphore without units. */
  lemma NoWaitLocks(t: nat, now: nat)
    requires now < TICKS
    ensures var s := Fresh(0, {t}); May(s, DoEnter(t, 0, now)) && Next(s, DoEnter(t, 0, now)).locked
  {
  }

  lemma LockStep(s: State, n: nat, op: Op)
    requires Inv(s, n) && May(s, op)
    ensures Next(s, op).locked <==> s.locked || Leaks(s, op)
  {
    if op.DoTick? { TickKeeps(s, n, 0, op.now); }
  }

  /** From then on nobody waits, signals or times out: the semaphore does not change. */
  lemma {:induction false} LockedForever(ss: seq<State>, ops: seq<Op>, k: nat)
    requires Trace(ss, ops) && ss[0].locked && k < |ss|
    ensures ss[k].locked && ss[k].units == ss[0].units && ss[k].queue == ss[0].queue && ss[k].granted == ss[0].granted
  {
    if k > 0 {
      LockedForever(ss, ops, k - 1);
      assert StepAt(ss, ops, k - 1);
    }
  }

  /** Every sleeping task is on the list, where signals and timeouts find it. */
  ghost predicate AllFindable(s: State)
  {
    forall t :: Known(s, t) && s.phase[t] == Asleep ==> InQueue(s, t)
  }

  /** A task off the list that is asleep, or goes to sleep, stays asleep for good, and with it any unit it was
      given. */
  lemma {:induction false} LostForever(ss: seq<State>, ops: seq<Op>, n: nat, t: nat, k: nat)
    requires Trace(ss, ops) && Inv(ss[0], n) && k < |ss|
    requires Known(ss[0], t) && ss[0].phase[t] == Asleep && !InQueue(ss[0], t)
    ensures Inv(ss[k], n) && Known(ss[k], t) && ss[k].phase[t] == Asleep && !InQueue(ss[k], t)
    ensures ss[k].granted[t] == ss[0].granted[t]
  {
    if k > 0 {
      LostForever(ss, ops, n, t, k - 1);
      assert StepAt(ss, ops, k - 1);
      NextKeeps(ss[k - 1], n, ops[k - 1]);
      LostStep(ss[k - 1], n, ops[k - 1], t);
    }
  }

  lemma LostStep(s: State, n: nat, op: Op, t: nat)
    requires Inv(s, n) && May(s, op) && Known(s, t) && s.phase[t] == Asleep && !InQueue(s, t)
    ensures var s' := Next(s, op);
            Known(s', t) && s'.phase[t] == Asleep && !InQueue(s', t) && s'.granted[t] == s.granted[t]
  {
    match op
    case DoEnter(u, timeout, now) => LostEnter(s, u, timeout, now, t);
    case DoSleep(u) =>
    case DoResume(u) =>
    case DoSignal(u) => LostSignal(s, u, t);
    case DoTick(now) => LostTick(s, n, now, t);
  }

  lemma LostSignal(s: State, u: nat, t: nat)
    requires QueueOk(s) && Known(s, t) && s.phase[t] == Asleep && !InQueue(s, t)
    requires Known(s, u) && s.phase[u] == Out && u in s.granted
    ensures var s' := Signal(s, u);
            Known(s', t) && s'.phase[t] == Asleep && !InQueue(s', t) && s'.granted[t] == s.granted[t]
  {
    if s.queue != [] {
      assert s.queue[1..] == s.queue[..0] + s.queue[1..];
      Dequeued(s, Signal(s, u), 0);
      assert s.queue[0].task != t;
    }
  }

  lemma LostEnter(s: State, u: nat, timeout: nat, now: nat, t: nat)
    requires Known(s, t) && s.phase[t] == Asleep && !InQueue(s, t) && Known(s, u) && s.phase[u] == Out
    ensures var s' := Enter(s, u, timeout, now);
            Known(s', t) && s'.phase[t] == Asleep && !InQueue(s', t) && s'.granted[t] == s.granted[t]
  {
    var s' := Enter(s, u, timeout, now);
    assert forall i :: 0 <= i < |s'.queue| ==> s'.queue[i] == if i < |s.queue| then s.queue[i] else Waiter(u, s.next);
    assert u != t && s'.granted[t] == s.granted[t];
  }

  lemma LostTick(s: State, n: nat, now: nat, t: nat)
    requires Inv(s, n) && Known(s, t) && s.phase[t] == Asleep && !InQueue(s, t)
    ensures forall j :: 0 <= j < |s.queue| ==> s.queue[j].task in s.deadline
    ensures var s' := TickFrom(s, 0, now);
            Known(s', t) && s'.phase[t] == Asleep && !InQueue(s', t) && s'.granted[t] == s.granted[t]
  {
    hide Inv;
    hide QueueOk;
    hide TickFrom;
    hide Later;
    InvQueue(s, n);
    assert !InTail(s, 0, t);
    TickKeeps(s, n, 0, now);
    TickTask(s, 0, now, t);
    TickQueue(s, 0, now);
    LaterSubset(s.queue, s.deadline, now);
    var q := TickFrom(s, 0, now).queue;
    assert s.queue[0..] == s.queue && s.queue[..0] == [];
    assert q == Later(s.queue, s.deadline, now);
    assert forall i :: 0 <= i < |q| ==> q[i] in s.queue;
  }

  lemma {:induction false} LaterSubset(queue: seq<Waiter>, d: map<nat, nat>, now: nat)
    ensures forall w :: w in Later(queue, d, now) ==> w in queue
  {
    if queue != [] { LaterSubset(queue[1..], d, now); }
  }

  /** Going to sleep loses the task exactly when a signal or timeout came between its queueing and its sleep. */
  lemma SleepFindable(s: State, t: nat)
    requires AllFindable(s) && Known(s, t) && s.phase[t] == Entering
    ensures AllFindable(Sleep(s, t)) <==> InQueue(s, t)
  {
    assert forall u :: InQueue(Sleep(s, t), u) == InQueue(s, u);
  }

  /** No other step loses a task: runs in which every task is still queued when it goes to sleep, and only
      those, keep all sleepers findable. */
  lemma NextFindable(s: State, n: nat, op: Op)
    requires Inv(s, n) && AllFindable(s) && May(s, op)
    ensures AllFindable(Next(s, op)) <==> (op.DoSleep? ==> InQueue(s, op.t))
  {
    var s' := Next(s, op);
    match op
    case DoEnter(t, timeout, now) =>
      assert forall i :: 0 <= i < |s.queue| ==> s'.queue[i] == s.queue[i];
      assert forall u :: InQueue(s, u) ==> InQueue(s', u);
    case DoSleep(t) => SleepFindable(s, t);
    case DoResume(t) => assert forall u :: InQueue(s', u) == InQueue(s, u);
    case DoSignal(t) => SignalFindable(s, t);
    case DoTick(now) =>
      forall t | Known(s', t) && s'.phase[t] == Asleep ensures InQueue(s', t) { TickFindable(s, n, now, t); }
  }

  lemma SignalFindable(s: State, t: nat)
    requires QueueOk(s) && AllFindable(s)
    ensures AllFindable(Signal(s, t))
  {
    hide InQueue;
    hide QueueOk;
    if s.queue == [] {
      SameQueue(s, Signal(s, t));
    } else {
      FirstDequeued(s, t);
    }
  }

  lemma FirstDequeued(s: State, t: nat)
    requires QueueOk(s) && s.queue != []
    ensures Known(s, s.queue[0].task) && s.phase[s.queue[0].task] in {Entering, Asleep}
    ensures forall u :: InQueue(Signal(s, t), u) <==> InQueue(s, u) && u != s.queue[0].task
  {
    assert s.queue[1..] == s.queue[..0] + s.queue[1..];
    Dequeued(s, Signal(s, t), 0);
  }

  lemma TickFindable(s: State, n: nat, now: nat, t: nat)
    requires Inv(s, n) && AllFindable(s)
    ensures forall j :: 0 <= j < |s.queue| ==> s.queue[j].task in s.deadline
    ensures var s' := TickFrom(s, 0, now); Known(s', t) && s'.phase[t] == Asleep ==> InQueue(s', t)
  {
    TickKeeps(s, n, 0, now);
    TickKeys(s, 0, now);
    var s' := TickFrom(s, 0, now);
    if Known(s', t) && s'.phase[t] == Asleep {
      assert Known(s, t);
      TickTask(s, 0, now, t);
      assert InTail(s, 0, t) == InQueue(s, t);
      TickQueue(s, 0, now);
      assert s.queue[0..] == s.queue && s.queue[..0] == [];
      var i :| 0 <= i < |s.queue| && s.queue[i].task == t;
      LaterHas(s.queue, s.deadline, now, i);
      assert s.queue[i] in s'.queue;
    }
  }

  lemma {:induction false} TickKeys(s: State, i: nat, now: nat)
    requires QueueOk(s) && s.phase.Keys == s.deadline.Keys
    ensures forall j :: 0 <= j < |s.queue| ==> s.queue[j].task in s.deadline
    ensures TickFrom(s, i, now).phase.Keys == s.phase.Keys && TickFrom(s, i, now).deadline.Keys == s.deadline.Keys
    decreases |s.queue| - i
  {
    QueueKnown(s);
    if i < |s.queue| {
      if s.deadline[s.queue[i].task] <= now {
        RemovedQueue(s, Expire(s, i), i, 0);
        TickKeys(Expire(s, i), i, now);
      } else {
        TickKeys(s, i + 1, now);
      }
    }
  }

  lemma {:induction false} LaterHas(queue: seq<Waiter>, d: map<nat, nat>, now: nat, i: nat)
    requires i < |queue| && queue[i].task in d && d[queue[i].task] > now
    ensures queue[i] in Later(queue, d, now)
  {
    if i > 0 { LaterHas(queue[1..], d, now, i - 1); }
  }

  /** A unit is lost this way: one task has it, another queues, the first signals, the other goes to sleep. */
  lemma WakeupLost(t: nat, u: nat, timeout: nat) returns (ss: seq<State>, ops: seq<Op>)
    requires t != u && 0 < timeout < TICKS
    ensures Trace(ss, ops) && ss[0] == Fresh(1, {t, u}) && |ss| == 5
    ensures !ss[4].locked && u in ss[4].granted && Known(ss[4], u) && ss[4].phase[u] == Asleep && !InQueue(ss[4], u)
  {
    var s0, s1, s2, s3, s4 := LostStates(t, u, timeout);
    ss, ops := [s0, s1, s2, s3, s4], [DoEnter(t, timeout, 0), DoEnter(u, timeout, 0), DoSignal(t), DoSleep(u)];
    hide May;
    hide Next;
    hide Fresh;
    assert StepAt(ss, ops, 0) && StepAt(ss, ops, 1) && StepAt(ss, ops, 2) && StepAt(ss, ops, 3);
  }

  lemma LostStates(t: nat, u: nat, timeout: nat) returns (s0: State, s1: State, s2: State, s3: State, s4: State)
    requires t != u && 0 < timeout < TICKS
    ensures s0 == Fresh(1, {t, u})
    ensures May(s0, DoEnter(t, timeout, 0)) && s1 == Next(s0, DoEnter(t, timeout, 0))
    ensures May(s1, DoEnter(u, timeout, 0)) && s2 == Next(s1, DoEnter(u, timeout, 0))
    ensures May(s2, DoSignal(t)) && s3 == Next(s2, DoSignal(t))
    ensures May(s3, DoSleep(u)) && s4 == Next(s3, DoSleep(u))
    ensures !s4.locked && u in s4.granted && Known(s4, u) && s4.phase[u] == Asleep && !InQueue(s4, u)
  {
    s0 := Fresh(1, {t, u});
    s1 := s0.(units := 0, granted := multiset{t}, log := [0], next := 1);
    s2 := Enter(s1, u, timeout, 0);
    assert s2.queue == [Waiter(u, 1)];
    s3 := Signal(s2, t);
    s4 := Sleep(s3, u);
  }
}
