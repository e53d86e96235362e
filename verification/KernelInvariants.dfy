// What every step of the kernel keeps.

module KernelInvariants {
  import opened Sequences
  import opened Words
  import opened KernelSpec

  // ---------- Memory

  lemma {:induction false} StoredWords(mem: map<int, Word>, a: int, ws: seq<Word>)
    ensures forall i :: 0 <= i < |ws| ==> ws[i] == LoadWord(StoreWords(mem, a, ws), a + 4 * i)
    ensures forall b :: b < a || b >= a + 4 * |ws| ==> LoadWord(StoreWords(mem, a, ws), b) == LoadWord(mem, b)
  {
    if ws != [] {
      StoredWords(mem, a, ws[..|ws| - 1]);
    }
  }

  lemma StoredThenLoaded(mem: map<int, Word>, a: int, ws: seq<Word>, n: nat)
    requires n <= |ws|
    ensures LoadWords(StoreWords(mem, a, ws), a, n) == ws[..n]
  {
    StoredWords(mem, a, ws);
  }

  // ---------- Scheduling

  /** How far `j` lies behind `i` on the ring; a whole lap for `i` itself. */
  function Distance(i: nat, j: nat, n: nat): (d: int)
    requires i < n && j < n
    ensures 1 <= d <= n
  {
    if i < j then j - i else j - i + n
  }

  /** Nothing strictly between `i` and `j` on the ring is ready. */
  ghost predicate NoneReadyBetween(ps: seq<Process>, i: nat, j: nat)
    requires i < |ps| && j < |ps|
  {
    forall m :: 0 <= m < |ps| && Distance(i, m, |ps|) < Distance(i, j, |ps|) ==> ps[m].state != Ready
  }

  lemma ReadyAfterALap(ps: seq<Process>, i: nat)
    requires i < |ps| && AnyReady(ps) && NoneReadyBetween(ps, i, i)
    ensures ps[i].state == Ready
  {
    var m :| 0 <= m < |ps| && ps[m].state == Ready;
    assert Distance(i, m, |ps|) < Distance(i, i, |ps|) || m == i;
  }

  lemma NoneReadyFurther(ps: seq<Process>, current: nat, i: nat)
    requires current < |ps| && i < |ps| && i != current
    requires NoneReadyBetween(ps, current, i) && ps[i].state != Ready
    ensures NoneReadyBetween(ps, current, Succ(i, |ps|))
    ensures Distance(current, Succ(i, |ps|), |ps|) == Distance(current, i, |ps|) + 1
  {
    var n := Succ(i, |ps|);
    forall m | 0 <= m < |ps| && Distance(current, m, |ps|) < Distance(current, n, |ps|)
      ensures ps[m].state != Ready
    {
      assert Distance(current, m, |ps|) == Distance(current, i, |ps|) ==> m == i;
    }
  }

  lemma {:induction false} FirstReadyFound(ps: seq<Process>, current: nat, i: nat, left: nat)
    requires current < |ps| && i < |ps| && AnyReady(ps)
    requires Distance(current, i, |ps|) + left == |ps| && NoneReadyBetween(ps, current, i)
    ensures var j := FirstReady(ps, i, left); ps[j].state == Ready && NoneReadyBetween(ps, current, j)
    decreases left
  {
    if left == 0 {
      ReadyAfterALap(ps, i);
    } else if ps[i].state != Ready {
      NoneReadyFurther(ps, current, i);
      FirstReadyFound(ps, current, Succ(i, |ps|), left - 1);
    }
  }

  /** With a ready process the scheduler selects the first one behind the cursor. */
  lemma ScheduleSelects(ps: seq<Process>, current: nat)
    requires current < |ps| && AnyReady(ps)
    ensures ps[Schedule(ps, current)].state == Ready
    ensures NoneReadyBetween(ps, current, Schedule(ps, current))
  {
    var i := Succ(current, |ps|);
    assert Distance(current, i, |ps|) == 1;
    FirstReadyFound(ps, current, i, |ps| - 1);
  }

  // ---------- Process states and semaphores

  /** Blocked exactly on the semaphores in the list; never running or killed. */
  ghost predicate LocksAgree(p: Process) {
    && (p.state == Ready || p.state == Blocked)
    && (p.state == Blocked <==> p.locks != [])
    && Distinct(p.locks)
  }

  ghost predicate StatesAgree(ps: seq<Process>) {
    forall i :: 0 <= i < |ps| ==> LocksAgree(ps[i])
  }

  ghost predicate WaitersAtZero(k: Kernel) {
    forall i, s :: 0 <= i < |k.processes| && s in k.processes[i].locks ==> s in k.semaphores && k.semaphores[s] == 0
  }

  /** Process identifiers grow along the list. */
  ghost predicate PidsAscend(k: Kernel) {
    && (forall i, j :: 0 <= i < j < |k.processes| ==> k.processes[i].pid < k.processes[j].pid)
    && (forall i :: 0 <= i < |k.processes| ==> k.processes[i].pid < k.nextPid)
  }

  ghost predicate CurrentReady(k: Kernel) {
    k.current < |k.processes| && k.processes[k.current].state == Ready
  }

  /** Which processes run, which wait, and who is who. */
  ghost predicate SchedulingInvariant(k: Kernel) {
    CurrentReady(k) && StatesAgree(k.processes) && PidsAscend(k)
  }

  lemma WithoutIndex(locks: seq<Word>, i: nat, t: Word)
    requires i < |locks| && Distinct(locks)
    ensures t in locks[..i] + locks[i + 1..] <==> t in locks && t != locks[i]
  {
    var rest := locks[..i] + locks[i + 1..];
    if t in locks && t != locks[i] {
      var m :| 0 <= m < |locks| && locks[m] == t;
      assert rest[if m < i then m else m - 1] == t;
    }
    if t in rest {
      var m :| 0 <= m < |rest| && rest[m] == t;
      assert t == locks[if m < i then m else m + 1];
    }
  }

  lemma WithoutIndexDistinct(locks: seq<Word>, i: nat)
    requires i < |locks| && Distinct(locks)
    ensures Distinct(locks[..i] + locks[i + 1..])
  {
    var rest := locks[..i] + locks[i + 1..];
    assert forall m :: 0 <= m < |rest| ==> rest[m] == locks[if m < i then m else m + 1];
  }

  /** Blocking lists the semaphore once, behind those already listed; blocking again changes nothing. */
  lemma BlockLists(p: Process, s: Word)
    ensures var b := Block(p, s);
      && b.state == Blocked && p.locks <= b.locks && Block(b, s) == b
      && (s in p.locks ==> b.locks == p.locks)
      && (s !in p.locks ==> |b.locks| == |p.locks| + 1 && b.locks[|p.locks|] == s)
  {
  }

  /** Unblocking takes back what blocking a ready process has done. */
  lemma UnblockTakesBack(p: Process, s: Word)
    requires p.state == Ready && p.locks == []
    ensures Unblock(Block(p, s), s) == p
  {
    assert [] + [s] == [s] && [s][..0] + [s][1..] == [];
  }

  /** Unblocking takes the semaphore, and nothing else, off the list; a ready process is left alone. */
  lemma UnblockAgrees(p: Process, s: Word)
    requires LocksAgree(p)
    ensures LocksAgree(Unblock(p, s))
    ensures forall t :: t in Unblock(p, s).locks <==> t in p.locks && t != s
    ensures p.state == Ready ==> Unblock(p, s) == p
  {
    hide Distinct;
    var i := IndexOf(p.locks, s);
    if i < |p.locks| {
      WithoutIndexDistinct(p.locks, i);
      forall t ensures t in Unblock(p, s).locks <==> t in p.locks && t != s {
        WithoutIndex(p.locks, i, t);
      }
    }
  }

  lemma SwitchKeepsScheduling(k: Kernel)
    requires k.current < |k.processes| && AnyReady(k.processes) && StatesAgree(k.processes) && PidsAscend(k)
    ensures SchedulingInvariant(SwitchToNext(k))
  {
    ScheduleSelects(k.processes, k.current);
  }

  lemma StoreKeepsScheduling(k: Kernel)
    requires k.current < |k.processes| && StatesAgree(k.processes) && PidsAscend(k)
    ensures var stored := StoreContext(k);
      && stored.current == k.current && |stored.processes| == |k.processes|
      && StatesAgree(stored.processes) && PidsAscend(stored)
      && (forall i :: 0 <= i < |k.processes| ==> stored.processes[i].state == k.processes[i].state)
      && (forall i :: 0 <= i < |k.processes| ==> stored.processes[i].locks == k.processes[i].locks)
  {
    hide StoreWords;
  }

  /** Where the process at position `n` was before the current one left the list. */
  function Before(current: nat, n: nat): nat {
    if n < current then n else n + 1
  }

  lemma Survivors(k: Kernel)
    requires k.current < |k.processes| && |k.processes| >= 2
    ensures var r := WithoutCurrent(k);
      forall n :: 0 <= n < |r.processes| ==> r.processes[n] == k.processes[Before(k.current, n)]
  {
  }

  lemma WithoutCurrentKeeps(k: Kernel)
    requires SchedulingInvariant(k) && AnotherReady(k.processes, k.current)
    ensures |k.processes| >= 2
    ensures var r := WithoutCurrent(k); AnyReady(r.processes) && StatesAgree(r.processes) && PidsAscend(r)
  {
    hide WithoutCurrent, LocksAgree;
    var j :| 0 <= j < |k.processes| && j != k.current && k.processes[j].state == Ready;
    Survivors(k);
    WithoutCurrentPids(k);
    assert Before(k.current, if j < k.current then j else j - 1) == j;
  }

  lemma WithoutCurrentPids(k: Kernel)
    requires SchedulingInvariant(k) && |k.processes| >= 2
    ensures PidsAscend(WithoutCurrent(k))
  {
    hide LocksAgree, StatesAgree;
    Survivors(k);
    var r := WithoutCurrent(k);
    forall i, j | 0 <= i < j < |r.processes| ensures r.processes[i].pid < r.processes[j].pid {
      assert r.processes[i] == k.processes[Before(k.current, i)];
      assert r.processes[j] == k.processes[Before(k.current, j)];
    }
  }

  lemma BlockKeeps(k: Kernel, s: Word)
    requires SchedulingInvariant(k) && AnotherReady(k.processes, k.current)
    ensures var b := k.(processes := k.processes[k.current := Block(k.processes[k.current], s)]);
      && AnyReady(b.processes) && StatesAgree(b.processes) && PidsAscend(b)
  {
    var ps := k.processes[k.current := Block(k.processes[k.current], s)];
    var j :| 0 <= j < |k.processes| && j != k.current && k.processes[j].state == Ready;
    assert ps[j].state == Ready;
    assert LocksAgree(k.processes[k.current]);
  }

  /** Every step keeps the scheduling invariant; in particular the current process is always ready. */
  lemma SchedulingStep(k: Kernel, e: Event)
    requires SchedulingInvariant(k) && Enabled(k, e)
    ensures SchedulingInvariant(Next(k, e))
  {
    hide StoreContext, SwitchToNext, StoreWords, Unblock, Distinct, InitialStack, PspInside, StacksDisjoint;
    match e
    case Execute(_, _) =>
    case Create(_, _, _, _, _) =>
    case Exit =>
      WithoutCurrentKeeps(k);
      SwitchKeepsScheduling(WithoutCurrent(k));
    case Wait(s) =>
      if k.semaphores[s] == 0 {
        var b := k.(processes := k.processes[k.current := Block(k.processes[k.current], s)]);
        BlockKeeps(k, s);
        StoreKeepsScheduling(b);
        StillReady(b.processes, StoreContext(b).processes);
        SwitchKeepsScheduling(StoreContext(b));
      }
    case Post(s) =>
      if WakesWaiters(s) {
        forall i | 0 <= i < |k.processes|
          ensures LocksAgree(Unblock(k.processes[i], s)) && Unblock(k.processes[i], s).pid == k.processes[i].pid
          ensures k.processes[i].state == Ready ==> Unblock(k.processes[i], s).state == Ready
        {
          assert LocksAgree(k.processes[i]);
          UnblockAgrees(k.processes[i], s);
          UnblockKeepsIdentity(k.processes[i], s);
        }
      }
    case Switch =>
      StoreKeepsScheduling(k);
      StillReady(k.processes, StoreContext(k).processes);
      SwitchKeepsScheduling(StoreContext(k));
  }

  lemma StillReady(ps: seq<Process>, stored: seq<Process>)
    requires AnyReady(ps) && |stored| == |ps| && forall i :: 0 <= i < |ps| ==> stored[i].state == ps[i].state
    ensures AnyReady(stored)
  {
    var i :| 0 <= i < |ps| && ps[i].state == Ready;
    assert stored[i].state == Ready;
  }

  lemma UnblockKeepsIdentity(p: Process, s: Word)
    ensures var u := Unblock(p, s); u.pid == p.pid && u.stack == p.stack && u.size == p.size && u.sp == p.sp
  {
  }

  /** In every state of a run the current process is ready, and no process is running or killed. */
  lemma {:induction false} SchedulingAlways(states: seq<Kernel>, events: seq<Event>, i: nat)
    requires IsRun(states, events) && SchedulingInvariant(states[0]) && i < |states|
    ensures SchedulingInvariant(states[i])
  {
    if i > 0 {
      SchedulingAlways(states, events, i - 1);
      SchedulingStep(states[i - 1], events[i - 1]);
    }
  }

  // ---------- Waiting

  /** A wait on a semaphore above zero takes one off it, and does nothing else. */
  lemma WaitTakes(k: Kernel, s: Word)
    requires k.current < |k.processes| && s in k.semaphores && k.semaphores[s] > 0
    ensures Next(k, Wait(s)) == k.(semaphores := k.semaphores[s := k.semaphores[s] - 1])
  {
  }

  /** A wait on a semaphore at zero blocks the process on it alone, and a ready one runs on; the rest is as it was. */
  lemma WaitBlocks(k: Kernel, s: Word)
    requires SchedulingInvariant(k) && Enabled(k, Wait(s)) && k.semaphores[s] == 0
    ensures var n := Next(k, Wait(s)); var p, q := k.processes[k.current], n.processes[k.current];
      && n.semaphores == k.semaphores && |n.processes| == |k.processes|
      && q.state == Blocked && q.pid == p.pid && q.locks == [s]
      && n.current != k.current && n.current < |n.processes| && n.processes[n.current].state == Ready
      && forall i :: 0 <= i < |k.processes| && i != k.current ==> n.processes[i] == k.processes[i]
  {
    hide Schedule, StoreWords, RestoreContext, StatesAgree, PidsAscend;
    NoLocks(k);
    var b := k.(processes := k.processes[k.current := Block(k.processes[k.current], s)]);
    BlockKeeps(k, s);
    assert [] + [s] == [s];
    StoredProcesses(b);
    StillReady(b.processes, StoreContext(b).processes);
    ScheduleSelects(StoreContext(b).processes, k.current);
  }

  lemma NoLocks(k: Kernel)
    requires SchedulingInvariant(k)
    ensures k.processes[k.current].locks == []
  {
    assert LocksAgree(k.processes[k.current]);
  }

  lemma StoredProcesses(k: Kernel)
    requires k.current < |k.processes|
    ensures var s := StoreContext(k);
      && |s.processes| == |k.processes|
      && (forall i :: 0 <= i < |k.processes| ==> s.processes[i].state == k.processes[i].state)
      && forall i :: 0 <= i < |k.processes| && i != k.current ==> s.processes[i] == k.processes[i]
  {
    hide StoreWords;
  }

  // ---------- Lost wake-ups

  /** No process waits for the semaphore. */
  ghost predicate NoWaiter(ps: seq<Process>, s: Word) {
    forall i :: 0 <= i < |ps| ==> s !in ps[i].locks
  }

  lemma UnblockAllWakes(ps: seq<Process>, s: Word)
    requires StatesAgree(ps)
    ensures NoWaiter(UnblockAll(ps, s), s)
    ensures forall i, t :: 0 <= i < |ps| && t != s ==> (t in UnblockAll(ps, s)[i].locks <==> t in ps[i].locks)
  {
    hide Unblock, Distinct;
    forall i | 0 <= i < |ps|
      ensures forall t :: t in UnblockAll(ps, s)[i].locks <==> t in ps[i].locks && t != s
    {
      assert LocksAgree(ps[i]);
      UnblockAgrees(ps[i], s);
    }
  }

  /**
   * A post leaves no process waiting for the semaphore iff its address lies in the lower half of the
   * address space, zero excepted, or none was.
   */
  lemma PostWakes(k: Kernel, s: Word)
    requires SchedulingInvariant(k) && s in k.semaphores
    ensures NoWaiter(Next(k, Post(s)).processes, s) <==> 1 <= s < 0x8000_0000 || NoWaiter(k.processes, s)
    ensures forall i, t :: 0 <= i < |k.processes| && t != s ==>
      (t in Next(k, Post(s)).processes[i].locks <==> t in k.processes[i].locks)
  {
    hide NoWaiter, Unblock, LocksAgree;
    UnblockAllWakes(k.processes, s);
  }

  /** Such a post makes ready who waited for nothing else. */
  lemma PostReadies(k: Kernel, s: Word, i: nat)
    requires k.current < |k.processes| && s in k.semaphores && 1 <= s < 0x8000_0000
    requires i < |k.processes| && k.processes[i].locks == [s]
    ensures Next(k, Post(s)).processes[i] == k.processes[i].(state := Ready, locks := [])
  {
    assert [s][..0] + [s][1..] == [];
  }

  /** A post keeps every waiter's semaphore at zero iff its address is in that range or nobody waits for it. */
  lemma PostKeepsWaitersAtZero(k: Kernel, s: Word)
    requires SchedulingInvariant(k) && WaitersAtZero(k) && s in k.semaphores
    ensures WaitersAtZero(Next(k, Post(s))) <==> 1 <= s < 0x8000_0000 || NoWaiter(k.processes, s)
  {
    hide UnblockAll, StatesAgree, PidsAscend;
    PostWakes(k, s);
    var n := Next(k, Post(s));
    assert forall t :: t in n.semaphores <==> t in k.semaphores;
    if !(1 <= s < 0x8000_0000) && !NoWaiter(k.processes, s) {
      var i :| 0 <= i < |k.processes| && s in k.processes[i].locks;
      assert k.semaphores[s] == 0 && n.semaphores[s] == 1 && s in n.processes[i].locks;
    }
  }

  lemma SwitchKeepsSemaphores(k: Kernel)
    requires k.current < |k.processes|
    ensures SwitchToNext(k).semaphores == k.semaphores && StoreContext(k).semaphores == k.semaphores
    ensures SwitchToNext(k).processes == k.processes
  {
  }

  lemma SwitchKeepsWaiters(k: Kernel)
    requires k.current < |k.processes| && WaitersAtZero(k)
    ensures WaitersAtZero(SwitchToNext(k))
  {
  }

  lemma StoreKeepsWaiters(k: Kernel)
    requires k.current < |k.processes| && WaitersAtZero(k)
    ensures WaitersAtZero(StoreContext(k)) && StoreContext(k).current < |StoreContext(k).processes|
  {
    hide StoreWords;
  }

  lemma ExitKeepsWaiters(k: Kernel)
    requires WaitersAtZero(k) && Enabled(k, Exit)
    ensures |k.processes| >= 2
    ensures WaitersAtZero(Next(k, Exit)) && Next(k, Exit).semaphores == k.semaphores
  {
    hide SwitchToNext;
    var j :| 0 <= j < |k.processes| && j != k.current && k.processes[j].state == Ready;
    Survivors(k);
    SwitchKeepsWaiters(WithoutCurrent(k));
    SwitchKeepsSemaphores(WithoutCurrent(k));
  }

  lemma WaitKeepsWaiters(k: Kernel, s: Word)
    requires SchedulingInvariant(k) && WaitersAtZero(k) && Enabled(k, Wait(s))
    ensures WaitersAtZero(Next(k, Wait(s)))
    ensures Next(k, Wait(s)).semaphores.Keys == k.semaphores.Keys
  {
    hide SwitchToNext, StoreContext, Distinct;
    if k.semaphores[s] == 0 {
      var b := k.(processes := k.processes[k.current := Block(k.processes[k.current], s)]);
      StoreKeepsWaiters(b);
      SwitchKeepsWaiters(StoreContext(b));
      SwitchKeepsSemaphores(b);
      SwitchKeepsSemaphores(StoreContext(b));
    }
  }

  lemma WaitersStep(k: Kernel, e: Event)
    requires SchedulingInvariant(k) && WaitersAtZero(k) && Enabled(k, e)
    requires forall s :: s in k.semaphores ==> 1 <= s < 0x8000_0000
    ensures WaitersAtZero(Next(k, e)) && Next(k, e).semaphores.Keys == k.semaphores.Keys
  {
    hide StoreContext, SwitchToNext, StoreWords, Unblock, Distinct, InitialStack, PspInside, StacksDisjoint, Schedule;
    match e
    case Execute(_, _) =>
    case Create(_, _, _, _, _) =>
    case Exit =>
      ExitKeepsWaiters(k);
    case Wait(s) =>
      WaitKeepsWaiters(k, s);
    case Post(s) =>
      PostKeepsWaitersAtZero(k, s);
    case Switch =>
      StoreKeepsWaiters(k);
      SwitchKeepsWaiters(StoreContext(k));
      SwitchKeepsSemaphores(k);
      SwitchKeepsSemaphores(StoreContext(k));
  }

  /**
   * No lost wake-up: with every semaphore in the lower half of the address space, as on-chip RAM is,
   * in every state of a run a process is blocked iff its list of semaphores is not empty, the list
   * has no duplicates and every semaphore in it is at zero.
   */
  lemma {:induction false} NoLostWakeup(states: seq<Kernel>, events: seq<Event>, i: nat)
    requires IsRun(states, events) && i < |states|
    requires SchedulingInvariant(states[0]) && WaitersAtZero(states[0])
    requires forall s :: s in states[0].semaphores ==> 1 <= s < 0x8000_0000
    ensures SchedulingInvariant(states[i]) && WaitersAtZero(states[i])
    ensures states[i].semaphores.Keys == states[0].semaphores.Keys
  {
    hide SchedulingInvariant, WaitersAtZero, Next, Enabled;
    if i > 0 {
      NoLostWakeup(states, events, i - 1);
      SchedulingStep(states[i - 1], events[i - 1]);
      WaitersStep(states[i - 1], events[i - 1]);
    }
  }
}
