// How long a ready process waits for its turn.

module BoundedWaiting {
  import opened Words
  import opened KernelSpec
  import opened KernelInvariants

  /** Steps in which the scheduler is called. */
  predicate Reschedules(k: Kernel, e: Event) {
    e.Exit? || e.Switch? || (e.Wait? && e.semaphore in k.semaphores && k.semaphores[e.semaphore] == 0)
  }

  /** An exit first moves the cursor on, so the process right behind the exiting one is passed over. */
  predicate PassedOver(k: Kernel, e: Event, m: nat) {
    e.Exit? && k.current < |k.processes| && m == Succ(k.current, |k.processes|)
  }

  /** What one step can add to the wait of the process at position `m`: a new process, or a further lap. */
  function Delay(k: Kernel, e: Event, m: nat): int {
    if e.Create? then 1 else if PassedOver(k, e, m) then |k.processes| - 2 else 0
  }

  // ---------- One call of the scheduler

  lemma DistanceSplits(i: nat, j: nat, m: nat, n: nat)
    requires i < n && j < n && m < n && j != m && Distance(i, j, n) <= Distance(i, m, n)
    ensures Distance(j, m, n) == Distance(i, m, n) - Distance(i, j, n)
  {
  }

  /** A call that selects another process brings a ready one closer. */
  lemma ScheduleApproaches(ps: seq<Process>, current: nat, m: nat)
    requires current < |ps| && m < |ps| && ps[m].state == Ready && Schedule(ps, current) != m
    ensures Distance(Schedule(ps, current), m, |ps|) < Distance(current, m, |ps|)
  {
    hide Schedule;
    ScheduleSelects(ps, current);
    DistanceSplits(current, Schedule(ps, current), m, |ps|);
  }

  // ---------- One step

  lemma SuspendApproaches(k: Kernel, m: nat)
    requires k.current < |k.processes| && m < |k.processes|
    requires k.processes[m].state == Ready && SwitchToNext(StoreContext(k)).current != m
    ensures var l := SwitchToNext(StoreContext(k));
      && l.processes[m].state == Ready && l.processes[m].pid == k.processes[m].pid
      && |l.processes| == |k.processes|
      && Distance(l.current, m, |l.processes|) < Distance(k.current, m, |k.processes|)
  {
    hide Schedule, RestoreContext, StoreWords;
    ScheduleApproaches(StoreContext(k).processes, k.current, m);
  }

  /** Where a process other than the exiting one is found afterwards. */
  function After(current: nat, m: nat): (n: nat)
    requires m != current
    ensures Before(current, n) == m
  {
    if m < current then m else m - 1
  }

  lemma CursorAfterExit(k: Kernel, m: nat)
    requires k.current < |k.processes| && |k.processes| >= 2 && m < |k.processes| && m != k.current
    ensures var r := WithoutCurrent(k); var n := After(k.current, m);
      && n < |r.processes| && r.processes[n] == k.processes[m]
      && Distance(r.current, n, |r.processes|) ==
         if m == Succ(k.current, |k.processes|) then |k.processes| - 1
         else Distance(k.current, m, |k.processes|) - 1
  {
  }

  lemma ExitApproaches(k: Kernel, m: nat)
    requires SchedulingInvariant(k) && Enabled(k, Exit) && m < |k.processes| && m != k.current
    requires k.processes[m].state == Ready
    ensures |k.processes| >= 2
    ensures var l := Next(k, Exit); var n := After(k.current, m);
      && |l.processes| == |k.processes| - 1 && n < |l.processes| && l.processes[n] == k.processes[m]
      && l.current < |l.processes|
      && (l.current != n ==>
            Distance(l.current, n, |l.processes|) + 1 <=
            Distance(k.current, m, |k.processes|) + Delay(k, Exit, m))
  {
    hide Schedule, RestoreContext, WithoutCurrent, SchedulingInvariant;
    CursorAfterExit(k, m);
    var r, n := WithoutCurrent(k), After(k.current, m);
    if Schedule(r.processes, r.current) != n {
      ScheduleApproaches(r.processes, r.current, n);
    }
  }

  lemma BlockingApproaches(k: Kernel, s: Word, m: nat)
    requires k.current < |k.processes| && m < |k.processes| && m != k.current && Enabled(k, Wait(s))
    requires k.processes[m].state == Ready && Reschedules(k, Wait(s)) && Next(k, Wait(s)).current != m
    ensures var l := Next(k, Wait(s));
      && |l.processes| == |k.processes|
      && l.processes[m].state == Ready && l.processes[m].pid == k.processes[m].pid
      && Distance(l.current, m, |l.processes|) < Distance(k.current, m, |k.processes|)
  {
    hide SwitchToNext, StoreContext;
    SuspendApproaches(k.(processes := k.processes[k.current := Block(k.processes[k.current], s)]), m);
  }

  /** The process at position `m` is ready but not running. */
  ghost predicate WaitsAt(k: Kernel, m: nat) {
    m < |k.processes| && k.current < |k.processes| && m != k.current && k.processes[m].state == Ready
  }

  /** In one step a waiting process is chosen, or comes as much closer as the scheduler was called, less any delay. */
  lemma WaitingStep(k: Kernel, e: Event, m: nat) returns (n: nat)
    requires SchedulingInvariant(k) && Enabled(k, e) && WaitsAt(k, m)
    ensures n < |Next(k, e).processes| && Next(k, e).processes[n].pid == k.processes[m].pid
    ensures Next(k, e).current < |Next(k, e).processes| && Next(k, e).processes[n].state == Ready
    ensures n != Next(k, e).current ==>
      Distance(Next(k, e).current, n, |Next(k, e).processes|) + (if Reschedules(k, e) then 1 else 0) <=
      Distance(k.current, m, |k.processes|) + Delay(k, e, m)
  {
    hide Schedule, RestoreContext, LoadWord, StoreWords, InitialStack, KeepsOff, SwitchToNext, StoreContext,
      WithoutCurrent, StatesAgree, PidsAscend;
    SchedulingStep(k, e);
    n := m;
    match e
    case Execute(_, _) =>
    case Create(_, _, _, _, _) =>
    case Exit =>
      n := After(k.current, m);
      ExitApproaches(k, m);
    case Wait(s) =>
      if k.semaphores[s] == 0 {
        BlockedWaiter(k, s, m);
        if Next(k, e).current != m {
          BlockingApproaches(k, s, m);
        }
      }
    case Post(s) =>
      PostLeavesReady(k, s, m);
    case Switch =>
      SwitchKeepsList(k, m);
      if Next(k, e).current != m {
        SuspendApproaches(k, m);
      }
  }

  lemma SwitchKeepsList(k: Kernel, m: nat)
    requires k.current < |k.processes| && m < |k.processes|
    ensures var l := SwitchToNext(StoreContext(k));
      && |l.processes| == |k.processes|
      && l.processes[m].state == k.processes[m].state && l.processes[m].pid == k.processes[m].pid
  {
    hide Schedule, RestoreContext, StoreWords;
  }

  lemma BlockedWaiter(k: Kernel, s: Word, m: nat)
    requires k.current < |k.processes| && m < |k.processes| && m != k.current
    requires s in k.semaphores && k.semaphores[s] == 0
    ensures var l := Next(k, Wait(s));
      && |l.processes| == |k.processes|
      && l.processes[m].state == k.processes[m].state && l.processes[m].pid == k.processes[m].pid
  {
    hide SwitchToNext, StoreContext;
    SwitchKeepsList(k.(processes := k.processes[k.current := Block(k.processes[k.current], s)]), m);
  }

  lemma PostLeavesReady(k: Kernel, s: Word, m: nat)
    requires StatesAgree(k.processes) && k.current < |k.processes| && m < |k.processes| && s in k.semaphores
    requires k.processes[m].state == Ready
    ensures |Next(k, Post(s)).processes| == |k.processes| && Next(k, Post(s)).processes[m] == k.processes[m]
  {
    hide Unblock;
    assert LocksAgree(k.processes[m]);
    UnblockAgrees(k.processes[m], s);
  }

  // ---------- Over runs

  ghost predicate NotCurrent(k: Kernel, pid: nat) {
    k.current < |k.processes| ==> k.processes[k.current].pid != pid
  }

  ghost function SchedulerCalls(states: seq<Kernel>, events: seq<Event>, t: nat): nat
    requires t <= |events| && t <= |states|
  {
    if t == 0 then 0
    else SchedulerCalls(states, events, t - 1) + if Reschedules(states[t - 1], events[t - 1]) then 1 else 0
  }

  ghost function Position(k: Kernel, pid: nat): nat {
    if exists i :: 0 <= i < |k.processes| && k.processes[i].pid == pid
    then var i :| 0 <= i < |k.processes| && k.processes[i].pid == pid; i
    else 0
  }

  /** Creations among the first `t` steps, and a lap of the list for each exit that passed the process over. */
  ghost function Delays(states: seq<Kernel>, events: seq<Event>, pid: nat, t: nat): int
    requires t <= |events| && t <= |states|
  {
    if t == 0 then 0
    else Delays(states, events, pid, t - 1) + Delay(states[t - 1], events[t - 1], Position(states[t - 1], pid))
  }

  lemma PositionFound(k: Kernel, pid: nat, m: nat)
    requires PidsAscend(k) && m < |k.processes| && k.processes[m].pid == pid
    ensures Position(k, pid) == m
  {
  }

  /**
   * Bounded waiting. A ready process that is not chosen in `t` steps stays in the list and stays
   * ready, and the scheduler has been called fewer times than the process's distance behind the
   * cursor, plus one for each creation and a lap for each exit that passed it over.
   */
  lemma {:induction false} BoundedWaiting(states: seq<Kernel>, events: seq<Event>, m: nat, t: nat) returns (n: nat)
    requires IsRun(states, events) && SchedulingInvariant(states[0]) && t <= |events|
    requires WaitsAt(states[0], m)
    requires forall i :: 0 <= i <= t ==> NotCurrent(states[i], states[0].processes[m].pid)
    ensures WaitsAt(states[t], n) && states[t].processes[n].pid == states[0].processes[m].pid
    ensures SchedulerCalls(states, events, t) + Distance(states[t].current, n, |states[t].processes|) <=
      Distance(states[0].current, m, |states[0].processes|) + Delays(states, events, states[0].processes[m].pid, t)
  {
    hide Enabled, Next, StatesAgree, Delay, Reschedules, Distance;
    n := m;
    if t > 0 {
      var l := BoundedWaiting(states, events, m, t - 1);
      SchedulingAlways(states, events, t - 1);
      PositionFound(states[t - 1], states[0].processes[m].pid, l);
      n := WaitingStep(states[t - 1], events[t - 1], l);
      assert NotCurrent(states[t], states[0].processes[m].pid);
    }
  }

  /** Without exits and creations a ready process runs after at most N - 1 calls of the scheduler, for a list of N. */
  lemma ChosenWithinOneLap(states: seq<Kernel>, events: seq<Event>, m: nat, t: nat)
    requires IsRun(states, events) && SchedulingInvariant(states[0]) && t <= |events|
    requires WaitsAt(states[0], m)
    requires forall i :: 0 <= i < t ==> !events[i].Create? && !events[i].Exit?
    requires SchedulerCalls(states, events, t) >= |states[0].processes| - 1
    ensures exists i :: 0 <= i <= t && !NotCurrent(states[i], states[0].processes[m].pid)
  {
    hide Enabled, Next, SchedulingInvariant, SchedulerCalls;
    var pid := states[0].processes[m].pid;
    if forall i :: 0 <= i <= t ==> NotCurrent(states[i], pid) {
      var n := BoundedWaiting(states, events, m, t);
      NoDelays(states, events, pid, t);
      assert false;
    }
  }

  lemma {:induction false} NoDelays(states: seq<Kernel>, events: seq<Event>, pid: nat, t: nat)
    requires t <= |events| && t <= |states|
    requires forall i :: 0 <= i < t ==> !events[i].Create? && !events[i].Exit?
    ensures Delays(states, events, pid, t) == 0
  {
    hide Position;
    if t > 0 {
      NoDelays(states, events, pid, t - 1);
    }
  }

  /** The process right behind an exiting one is indeed passed over whenever any other process is ready. */
  lemma ExitPassesOver(k: Kernel, m: nat)
    requires SchedulingInvariant(k) && |k.processes| >= 2 && m == Succ(k.current, |k.processes|)
    requires k.processes[m].state == Ready
    ensures |Next(k, Exit).processes| == |k.processes| - 1 && Next(k, Exit).current < |k.processes| - 1
    ensures Next(k, Exit).processes[Next(k, Exit).current].pid == k.processes[m].pid <==>
      forall j :: 0 <= j < |k.processes| && j != k.current && j != m ==> k.processes[j].state != Ready
  {
    hide Schedule, RestoreContext, WithoutCurrent, StatesAgree;
    CursorAfterExit(k, m);
    var r, n := WithoutCurrent(k), After(k.current, m);
    WithoutCurrentPids(k);
    Survivors(k);
    assert r.current == n;
    assert r.processes[n].state == Ready;
    ScheduleSelects(r.processes, r.current);
    var chosen := Schedule(r.processes, r.current);
    assert r.processes[chosen].pid == r.processes[n].pid ==> chosen == n;
    if chosen == n {
      forall j | 0 <= j < |k.processes| && j != k.current && j != m ensures k.processes[j].state != Ready {
        CursorAfterExit(k, j);
        assert Distance(n, After(k.current, j), |r.processes|) < Distance(n, n, |r.processes|);
      }
    } else {
      assert k.processes[Before(k.current, chosen)] == r.processes[chosen];
    }
  }
}
