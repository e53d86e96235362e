// The round-robin scheduler: a cursor into the list of processes.

module Scheduler {
  import opened Sequences
  import opened Words
  import opened KernelSpec
  import opened KernelInvariants
  import opened Processes

  lemma PositionUnique(ps: seq<ArmProcess>, i: nat)
    requires Distinct(ps) && i < |ps|
    ensures IndexOf(ps, ps[i]) == i
  {
  }

  predicate Stops(p: Process) {
    p.state == Ready || p.state == Running
  }

  /** The first position from `i` on where the scheduler's loop comes to an end. */
  function FirstStop(ps: seq<Process>, i: nat, left: nat): (j: nat)
    requires i < |ps|
    ensures j < |ps|
    decreases left
  {
    if Stops(ps[i]) || left == 0 then i else FirstStop(ps, Succ(i, |ps|), left - 1)
  }

  function Pred(i: nat, n: nat): (j: nat)
    requires i < n
    ensures j < n && Succ(j, n) == i
  {
    if i == 0 then n - 1 else i - 1
  }

  lemma PredOfSucc(i: nat, n: nat)
    requires i < n
    ensures Pred(Succ(i, n), n) == i
  {
  }

  /** Where the cursor ends up: on a ready process, or just before a running one. */
  function Settles(ps: seq<Process>, current: nat): (j: nat)
    requires current < |ps|
    ensures j < |ps|
  {
    var stop := FirstStop(ps, Succ(current, |ps|), |ps| - 1);
    if ps[stop].state == Running then Pred(stop, |ps|) else stop
  }

  /** How many positions the loop still looks at, if it is to come to an end. */
  ghost predicate StopWithin(ps: seq<Process>, i: nat, left: nat)
    requires i < |ps|
    decreases left
  {
    Stops(ps[i]) || (left > 0 && StopWithin(ps, Succ(i, |ps|), left - 1))
  }

  lemma {:induction false} StopIsAhead(ps: seq<Process>, i: nat, m: nat, left: nat)
    requires i < |ps| && m < |ps| && Stops(ps[m])
    requires left == if m >= i then m - i else m - i + |ps|
    ensures StopWithin(ps, i, left)
    decreases left
  {
    if m != i {
      StopIsAhead(ps, Succ(i, |ps|), m, left - 1);
    }
  }

  lemma {:induction false} StopWithinMore(ps: seq<Process>, i: nat, left: nat, more: nat)
    requires i < |ps| && StopWithin(ps, i, left) && left <= more
    ensures StopWithin(ps, i, more)
    decreases left
  {
    if !Stops(ps[i]) {
      StopWithinMore(ps, Succ(i, |ps|), left - 1, more - 1);
    }
  }

  lemma StopWithinALap(ps: seq<Process>, i: nat)
    requires i < |ps| && exists m :: 0 <= m < |ps| && Stops(ps[m])
    ensures StopWithin(ps, i, |ps| - 1)
  {
    var m :| 0 <= m < |ps| && Stops(ps[m]);
    var left := if m >= i then m - i else m - i + |ps|;
    StopIsAhead(ps, i, m, left);
    StopWithinMore(ps, i, left, |ps| - 1);
  }

  lemma LooksFurther(ps: seq<Process>, i: nat, left: nat)
    requires i < |ps| && StopWithin(ps, i, left)
    ensures Stops(ps[i]) ==> FirstStop(ps, i, left) == i
    ensures !Stops(ps[i]) ==>
      left > 0 && StopWithin(ps, Succ(i, |ps|), left - 1)
      && FirstStop(ps, Succ(i, |ps|), left - 1) == FirstStop(ps, i, left)
  {
  }

  /** Among ready and blocked processes the loop selects what the specification selects. */
  lemma SettlesIsSchedule(ps: seq<Process>, current: nat)
    requires current < |ps| && StatesAgree(ps)
    ensures Settles(ps, current) == Schedule(ps, current)
  {
    StopIsReady(ps, Succ(current, |ps|), |ps| - 1);
    assert LocksAgree(ps[FirstStop(ps, Succ(current, |ps|), |ps| - 1)]);
  }

  lemma {:induction false} StopIsReady(ps: seq<Process>, i: nat, left: nat)
    requires i < |ps| && StatesAgree(ps)
    ensures FirstStop(ps, i, left) == FirstReady(ps, i, left)
    decreases left
  {
    assert LocksAgree(ps[i]);
    if ps[i].state != Ready && left > 0 {
      StopIsReady(ps, Succ(i, |ps|), left - 1);
    }
  }

  /** The list as it would be if running processes were ready. */
  function Eager(ps: seq<Process>): (es: seq<Process>)
    ensures |es| == |ps|
    ensures forall i :: 0 <= i < |ps| ==> (es[i].state == Ready <==> Stops(ps[i]))
  {
    seq(|ps|, i requires 0 <= i < |ps| => if Stops(ps[i]) then ps[i].(state := Ready) else ps[i])
  }

  lemma {:induction false} StopIsEager(ps: seq<Process>, i: nat, left: nat)
    requires i < |ps|
    ensures FirstStop(ps, i, left) == FirstReady(Eager(ps), i, left)
    decreases left
  {
    hide Eager, Stops;
    if !Stops(ps[i]) && left > 0 {
      StopIsEager(ps, Succ(i, |ps|), left - 1);
    }
  }

  /** The loop stops at the first ready or running process behind the cursor, just before it if it is running. */
  lemma SettlesMeans(ps: seq<Process>, current: nat) returns (stop: nat)
    requires current < |ps| && exists m :: 0 <= m < |ps| && Stops(ps[m])
    ensures stop < |ps| && (ps[stop].state == Ready || ps[stop].state == Running)
    ensures forall m :: 0 <= m < |ps| && Distance(current, m, |ps|) < Distance(current, stop, |ps|) ==>
      ps[m].state != Ready && ps[m].state != Running
    ensures ps[stop].state == Ready ==> Settles(ps, current) == stop
    ensures ps[stop].state == Running ==> Succ(Settles(ps, current), |ps|) == stop
  {
    hide Eager, FirstStop, FirstReady;
    stop := FirstStop(ps, Succ(current, |ps|), |ps| - 1);
    StopIsEager(ps, Succ(current, |ps|), |ps| - 1);
    var m :| 0 <= m < |ps| && Stops(ps[m]);
    assert Eager(ps)[m].state == Ready;
    ScheduleSelects(Eager(ps), current);
  }

  // ---------- Without a ready process

  /** The cursor after `n` rounds of the loop. */
  function Rounds(current: nat, length: nat, n: nat): (i: nat)
    requires current < length
    ensures i < length
  {
    if n == 0 then current else Succ(Rounds(current, length, n - 1), length)
  }

  ghost predicate StopsAfter(ps: seq<Process>, current: nat, n: nat)
    requires current < |ps|
  {
    Stops(ps[Rounds(current, |ps|, n)])
  }

  /** The loop ends, after some number of rounds, iff some process is ready or running. */
  lemma LoopEndsIff(ps: seq<Process>, current: nat)
    requires current < |ps|
    ensures (exists n: nat :: n > 0 && StopsAfter(ps, current, n)) <==> exists m :: 0 <= m < |ps| && Stops(ps[m])
  {
    if exists m :: 0 <= m < |ps| && Stops(ps[m]) {
      StopWithinALap(ps, Succ(current, |ps|));
      assert Rounds(current, |ps|, 0) == current;
      var n := RoundsToStop(ps, current, 1, |ps| - 1);
      assert StopsAfter(ps, current, n);
    }
  }

  lemma {:induction false} RoundsToStop(ps: seq<Process>, current: nat, n: nat, left: nat) returns (m: nat)
    requires current < |ps| && StopWithin(ps, Rounds(current, |ps|, n), left)
    ensures m >= n && Stops(ps[Rounds(current, |ps|, m)])
    decreases left
  {
    m := n;
    if !Stops(ps[Rounds(current, |ps|, n)]) {
      m := RoundsToStop(ps, current, n + 1, left - 1);
    }
  }

  /** The loop, standing at `at` with `left` more positions to look at, will settle at `end`. */
  ghost predicate Ahead(vs: seq<Process>, at: nat, left: nat, end: nat) {
    && at < |vs| && left < |vs|
    && StopWithin(vs, Succ(at, |vs|), left)
    && var stop := FirstStop(vs, Succ(at, |vs|), left);
       end == if vs[stop].state == Running then Pred(stop, |vs|) else stop
  }

  lemma LookingStarts(vs: seq<Process>, at: nat)
    requires at < |vs| && exists m :: 0 <= m < |vs| && Stops(vs[m])
    ensures Ahead(vs, at, |vs| - 1, Settles(vs, at))
  {
    StopWithinALap(vs, Succ(at, |vs|));
  }

  /** The next position is where the loop stops, or brings it one step on. */
  lemma LookOn(vs: seq<Process>, at: nat, left: nat, end: nat)
    requires Ahead(vs, at, left, end)
    ensures at < |vs|
    ensures var next := Succ(at, |vs|);
      && (vs[next].state == Running ==> end == at)
      && (vs[next].state == Ready ==> end == next)
      && (!Stops(vs[next]) ==> left > 0 && Ahead(vs, next, left - 1, end))
  {
    hide FirstStop, StopWithin;
    LooksFurther(vs, Succ(at, |vs|), left);
    PredOfSucc(at, |vs|);
  }

  // ---------- The scheduler

  lemma StateAt(ps: seq<ArmProcess>, i: nat)
    requires i < |ps|
    ensures |Views(ps)| == |ps| && Views(ps)[i].state == ps[i].state
    ensures Stops(Views(ps)[i]) <==> ps[i].state == Ready || ps[i].state == Running
  {
  }

  class NormalScheduler {
    const manager: ProcessManager
    var current: ArmProcess  // the list node the iterator names

    /** The cursor names a process that is still in the list. */
    ghost predicate Live()
      reads this, manager
    {
      current in manager.processes
    }

    constructor (manager: ProcessManager)
      requires manager.processes != []
      ensures this.manager == manager && current == manager.processes[0]
    {
      this.manager := manager;
      current := manager.processes[0];
    }

    /** The node after the cursor's, or the list's first. */
    method GetNext() returns (next: ArmProcess)
      requires Live()
      ensures var i := IndexOf(manager.processes, current);
        i < |manager.processes| && next == manager.processes[Succ(i, |manager.processes|)]
    {
      var i := 0;
      while i < |manager.processes| && manager.processes[i] != current
        invariant i <= |manager.processes| && forall j :: 0 <= j < i ==> manager.processes[j] != current
      {
        i := i + 1;
      }
      next := if i + 1 == |manager.processes| then manager.processes[0] else manager.processes[i + 1];
    }

    method DeleteProcess(pid: nat)
      requires Live() && Distinct(manager.processes)
      modifies this`current, manager`processes
      ensures var ps, i := old(manager.processes), FirstPid(old(Views(manager.processes)), pid);
        manager.processes == if i == |ps| then ps else ps[..i] + ps[i + 1..]
      ensures var ps, i := old(manager.processes), IndexOf(old(manager.processes), old(current));
        i < |ps| && current == if old(current).pid == pid then ps[Succ(i, |ps|)] else old(current)
    {
      hide IndexOf, FirstPid, Views, Distinct;
      if pid == current.pid {
        current := GetNext();
      }
      manager.DeleteProcess(pid);
    }

    /** Moves the cursor on to the next ready process. */
    method ScheduleNext()
      requires manager.processes != [] ==> Live() && Distinct(manager.processes)
      requires manager.processes != [] ==> exists m :: 0 <= m < |manager.processes| && Stops(Views(manager.processes)[m])
      modifies this`current
      ensures manager.processes == [] ==> current == old(current)
      ensures manager.processes != [] ==>
        Live() &&
        IndexOf(manager.processes, current) ==
        Settles(Views(manager.processes), IndexOf(manager.processes, old(current)))
    {
      if manager.processes == [] {
        return;
      }
      MoveOn();
    }

    /** The loop, once there is a process to look at. */
    method MoveOn()
      requires Live() && Distinct(manager.processes)
      requires exists m :: 0 <= m < |manager.processes| && Stops(Views(manager.processes)[m])
      modifies this`current
      ensures Live()
      ensures IndexOf(manager.processes, current) ==
        Settles(Views(manager.processes), IndexOf(manager.processes, old(current)))
    {
      hide IndexOf, Distinct, Succ, Stops, Views, Ahead, Settles;
      ghost var ps, vs := manager.processes, Views(manager.processes);
      ghost var at, left := IndexOf(ps, current), |ps| - 1;
      ghost var end := Settles(vs, at);
      LookingStarts(vs, at);
      var next := GetNext();
      while next.state != Running
        invariant at < |ps| && at == IndexOf(ps, current) && next == ps[Succ(at, |ps|)]
        invariant left >= 0 && Ahead(vs, at, left, end)
        decreases left
      {
        StateAt(ps, Succ(at, |ps|));
        LookOn(vs, at, left, end);
        PositionUnique(ps, Succ(at, |ps|));
        at := Succ(at, |ps|);
        current := next;
        if current.state == Ready || current.state == Running {
          return;
        }
        next := GetNext();
        left := left - 1;
      }
      StateAt(ps, Succ(at, |ps|));
      LookOn(vs, at, left, end);
    }

    /** Takes the semaphore off every process's list. */
    method UnblockAll(semaphore: Word)
      requires Distinct(manager.processes)
      modifies manager.processes
      ensures Views(manager.processes) == KernelSpec.UnblockAll(old(Views(manager.processes)), semaphore)
    {
      ghost var vs := Views(manager.processes);
      var i := 0;
      while i < |manager.processes|
        invariant i <= |manager.processes|
        invariant forall j :: 0 <= j < i ==> manager.processes[j].View() == Unblock(vs[j], semaphore)
        invariant forall j :: i <= j < |manager.processes| ==> manager.processes[j].View() == vs[j]
      {
        manager.processes[i].Unblock(semaphore);
        i := i + 1;
      }
    }
  }

  /**
   * After a deletion the cursor names a live process iff it did not name the deleted one, or another
   * process is left to move on to.
   */
  lemma CursorStaysLive(ps: seq<ArmProcess>, at: nat, deleted: nat)
    requires Distinct(ps) && at < |ps| && deleted < |ps|
    ensures ps[if deleted == at then Succ(at, |ps|) else at] in ps[..deleted] + ps[deleted + 1..]
      <==> deleted != at || |ps| >= 2
  {
    var rest := ps[..deleted] + ps[deleted + 1..];
    var cursor := if deleted == at then Succ(at, |ps|) else at;
    if cursor != deleted {
      assert rest[if cursor < deleted then cursor else cursor - 1] == ps[cursor];
    } else {
      assert |rest| == 0;
    }
  }
}
