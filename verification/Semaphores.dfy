// Conservation of semaphore values over runs, and mutual exclusion for the mutex built on one.

module Semaphores {
  import opened Words
  import opened KernelSpec
  import opened KernelInvariants

  // ---------- Counting

  predicate CompletesWait(k: Kernel, e: Event, s: Word) {
    e == Wait(s) && s in k.semaphores && k.semaphores[s] != 0
  }

  /** Waits on `s` that came to an end among the first `n` steps; one that blocks is taken up again later. */
  ghost function CompletedWaits(states: seq<Kernel>, events: seq<Event>, s: Word, n: nat): nat
    requires n <= |events| && n <= |states|
  {
    if n == 0 then 0
    else CompletedWaits(states, events, s, n - 1) + if CompletesWait(states[n - 1], events[n - 1], s) then 1 else 0
  }

  ghost function Posts(events: seq<Event>, s: Word, n: nat): nat
    requires n <= |events|
  {
    if n == 0 then 0 else Posts(events, s, n - 1) + if events[n - 1] == Post(s) then 1 else 0
  }

  lemma SemaphoreStep(k: Kernel, e: Event, s: Word)
    requires Enabled(k, e) && s in k.semaphores
    ensures s in Next(k, e).semaphores
    ensures Next(k, e).semaphores[s] ==
      if CompletesWait(k, e, s) then k.semaphores[s] - 1
      else if e == Post(s) then Wrap(k.semaphores[s] as int + 1)
      else k.semaphores[s]
  {
    hide StoreWords, LoadWord, RestoreContext, Schedule, UnblockAll, InitialStack, KeepsOff, Wrap;
  }

  lemma WrapStep(x: int, d: int)
    ensures Wrap(Wrap(x) + d) == Wrap(x + d)
  {
  }

  /** At every point of a run: value = initial value + posts - completed waits, in 32-bit arithmetic. */
  lemma {:induction false} Conservation(states: seq<Kernel>, events: seq<Event>, s: Word, n: nat)
    requires IsRun(states, events) && n <= |events| && s in states[0].semaphores
    ensures s in states[n].semaphores
    ensures states[n].semaphores[s] ==
      Wrap(states[0].semaphores[s] + Posts(events, s, n) - CompletedWaits(states, events, s, n))
  {
    hide Next, Enabled;
    if n > 0 {
      Conservation(states, events, s, n - 1);
      SemaphoreStep(states[n - 1], events[n - 1], s);
      var before := states[0].semaphores[s] + Posts(events, s, n - 1) - CompletedWaits(states, events, s, n - 1);
      if CompletesWait(states[n - 1], events[n - 1], s) {
        WrapStep(before, -1);
        assert states[n].semaphores[s] == states[n - 1].semaphores[s] - 1;
        InRange(states[n].semaphores[s]);
      } else if events[n - 1] == Post(s) {
        WrapStep(before, 1);
      }
    }
  }

  lemma InRange(w: Word)
    ensures Wrap(w) == w
  {
  }

  /** Step `i` posts to a counter that is full. */
  ghost predicate OverflowsAt(states: seq<Kernel>, events: seq<Event>, s: Word, i: nat)
    requires i < |events| && i < |states|
  {
    events[i] == Post(s) && s in states[i].semaphores && states[i].semaphores[s] == WORD_LIMIT - 1
  }

  ghost function Overflows(states: seq<Kernel>, events: seq<Event>, s: Word, n: nat): nat
    requires n <= |events| && n <= |states|
  {
    if n == 0 then 0
    else Overflows(states, events, s, n - 1) + if OverflowsAt(states, events, s, n - 1) then 1 else 0
  }

  lemma WrapOne(w: Word)
    ensures Wrap(w as int + 1) == if w == WORD_LIMIT - 1 then 0 else w + 1
  {
  }

  /** In the integers: every post to a full counter loses 2^32. */
  lemma {:induction false} WhatOverflowsLose(states: seq<Kernel>, events: seq<Event>, s: Word, n: nat)
    requires IsRun(states, events) && n <= |events| && s in states[0].semaphores
    ensures s in states[n].semaphores
    ensures states[n].semaphores[s] + WORD_LIMIT * Overflows(states, events, s, n) ==
      states[0].semaphores[s] + Posts(events, s, n) - CompletedWaits(states, events, s, n)
  {
    hide Next, Enabled, Wrap;
    if n > 0 {
      WhatOverflowsLose(states, events, s, n - 1);
      SemaphoreStep(states[n - 1], events[n - 1], s);
      WrapOne(states[n - 1].semaphores[s]);
    }
  }

  lemma {:induction false} NoOverflowsIff(states: seq<Kernel>, events: seq<Event>, s: Word, n: nat)
    requires n <= |events| && n <= |states|
    ensures Overflows(states, events, s, n) == 0 <==> forall i :: 0 <= i < n ==> !OverflowsAt(states, events, s, i)
  {
    hide OverflowsAt;
    if n > 0 {
      NoOverflowsIff(states, events, s, n - 1);
    }
  }

  /** Value = initial value + posts - completed waits holds in the integers iff no post met a full counter. */
  lemma ExactConservation(states: seq<Kernel>, events: seq<Event>, s: Word, n: nat)
    requires IsRun(states, events) && n <= |events| && s in states[0].semaphores
    ensures s in states[n].semaphores
    ensures states[n].semaphores[s] ==
      states[0].semaphores[s] + Posts(events, s, n) - CompletedWaits(states, events, s, n)
      <==> forall i :: 0 <= i < n ==> !OverflowsAt(states, events, s, i)
  {
    hide IsRun, OverflowsAt;
    RunLength(states, events);
    WhatOverflowsLose(states, events, s, n);
    NoOverflowsIff(states, events, s, n);
  }

  lemma RunLength(states: seq<Kernel>, events: seq<Event>)
    requires IsRun(states, events)
    ensures |states| == |events| + 1
  {
  }

  /** So it does as long as the initial value and the posts together stay below 2^32. */
  lemma FewPosts(states: seq<Kernel>, events: seq<Event>, s: Word, n: nat)
    requires IsRun(states, events) && n <= |events| && s in states[0].semaphores
    requires states[0].semaphores[s] + Posts(events, s, n) < WORD_LIMIT
    ensures s in states[n].semaphores
    ensures states[n].semaphores[s] ==
      states[0].semaphores[s] + Posts(events, s, n) - CompletedWaits(states, events, s, n)
  {
    hide IsRun, Overflows;
    RunLength(states, events);
    WhatOverflowsLose(states, events, s, n);
  }

  // ---------- Mutual exclusion

  function CurrentPid(k: Kernel): nat {
    if k.current < |k.processes| then k.processes[k.current].pid else 0
  }

  /** The processes between a completed lock of the mutex at `s` and the unlock. */
  ghost function Holders(states: seq<Kernel>, events: seq<Event>, s: Word, n: nat): set<nat>
    requires n <= |events| && n <= |states|
  {
    if n == 0 then {}
    else
      var before := Holders(states, events, s, n - 1);
      if CompletesWait(states[n - 1], events[n - 1], s) then before + {CurrentPid(states[n - 1])}
      else if events[n - 1] == Post(s) then before - {CurrentPid(states[n - 1])}
      else before
  }

  /** Among the first `n` steps only a holder unlocks. */
  ghost predicate UnlockedByHolders(states: seq<Kernel>, events: seq<Event>, s: Word, n: nat)
    requires n <= |events| && n <= |states|
  {
    forall i :: 0 <= i < n && events[i] == Post(s) ==> CurrentPid(states[i]) in Holders(states, events, s, i)
  }

  /**
   * A mutex starts at one. Unlocked only by holders, it always has its token either in the semaphore
   * or with a holder, so at most one process is ever between lock and unlock.
   */
  lemma {:induction false} MutualExclusion(states: seq<Kernel>, events: seq<Event>, s: Word, n: nat)
    requires IsRun(states, events) && n <= |events|
    requires s in states[0].semaphores && states[0].semaphores[s] == 1
    requires UnlockedByHolders(states, events, s, n)
    ensures s in states[n].semaphores
    ensures |Holders(states, events, s, n)| + states[n].semaphores[s] == 1
    ensures forall p, q :: p in Holders(states, events, s, n) && q in Holders(states, events, s, n) ==> p == q
  {
    hide Next, Enabled;
    if n > 0 {
      MutualExclusion(states, events, s, n - 1);
      SemaphoreStep(states[n - 1], events[n - 1], s);
      var before := Holders(states, events, s, n - 1);
      var pid := CurrentPid(states[n - 1]);
      if CompletesWait(states[n - 1], events[n - 1], s) {
        assert before == {};
        assert Holders(states, events, s, n) == {pid};
      } else if events[n - 1] == Post(s) {
        assert before - {pid} == {};
        InRange(states[n - 1].semaphores[s] + 1);
      }
    }
    AtMostOne(Holders(states, events, s, n));
  }

  /** The mutex's one token is in the semaphore or with a holder. */
  ghost predicate TokenKept(states: seq<Kernel>, events: seq<Event>, s: Word, n: nat)
    requires n <= |events| && n < |states|
  {
    s in states[n].semaphores && |Holders(states, events, s, n)| + states[n].semaphores[s] == 1
  }

  lemma UnlockTakesFromHolder(states: seq<Kernel>, events: seq<Event>, s: Word, n: nat)
    requires IsRun(states, events) && n < |events| && events[n] == Post(s)
    requires TokenKept(states, events, s, n) && TokenKept(states, events, s, n + 1)
    ensures CurrentPid(states[n]) in Holders(states, events, s, n)
  {
    hide Next, Enabled, CurrentPid;
    SemaphoreStep(states[n], events[n], s);
    InRange(states[n].semaphores[s] + 1);
    var before, pid := Holders(states, events, s, n), CurrentPid(states[n]);
    assert pid !in before ==> before - {pid} == before;
  }

  /** The token is kept at every point up to `n` iff only holders have unlocked. */
  lemma TokenKeptIff(states: seq<Kernel>, events: seq<Event>, s: Word, n: nat)
    requires IsRun(states, events) && n <= |events|
    requires s in states[0].semaphores && states[0].semaphores[s] == 1
    ensures (forall i :: 0 <= i <= n ==> TokenKept(states, events, s, i)) <==> UnlockedByHolders(states, events, s, n)
  {
    hide Next, Enabled, Holders, CurrentPid;
    if UnlockedByHolders(states, events, s, n) {
      forall i | 0 <= i <= n ensures TokenKept(states, events, s, i) {
        MutualExclusion(states, events, s, i);
      }
    }
    if forall i :: 0 <= i <= n ==> TokenKept(states, events, s, i) {
      forall i | 0 <= i < n && events[i] == Post(s) ensures CurrentPid(states[i]) in Holders(states, events, s, i) {
        assert TokenKept(states, events, s, i) && TokenKept(states, events, s, i + 1);
        UnlockTakesFromHolder(states, events, s, i);
      }
    }
  }

  lemma AtMostOne(pids: set<nat>)
    requires |pids| <= 1
    ensures forall p, q :: p in pids && q in pids ==> p == q
  {
    forall p, q | p in pids && q in pids ensures p == q {
      if p != q {
        assert {p, q} <= pids;
        SubsetSize({p, q}, pids);
        assert false;
      }
    }
  }

  lemma SubsetSize(small: set<nat>, large: set<nat>)
    requires small <= large
    ensures |small| <= |large|
  {
    assert large == small + (large - small);
  }

  /** A process is blocked on a mutex only while some process holds it. */
  lemma BlockedOnlyWhileHeld(states: seq<Kernel>, events: seq<Event>, s: Word, n: nat, i: nat)
    requires IsRun(states, events) && n <= |events|
    requires SchedulingInvariant(states[0]) && WaitersAtZero(states[0])
    requires forall t :: t in states[0].semaphores ==> 1 <= t < 0x8000_0000
    requires s in states[0].semaphores && states[0].semaphores[s] == 1
    requires UnlockedByHolders(states, events, s, n)
    requires i < |states[n].processes| && s in states[n].processes[i].locks
    ensures exists p :: Holders(states, events, s, n) == {p}
  {
    hide Next, Enabled;
    MutualExclusion(states, events, s, n);
    NoLostWakeup(states, events, n);
    var holders := Holders(states, events, s, n);
    var p :| p in holders;
    assert holders == {p};
  }

  /** Steps that neither lock nor unlock the mutex leave it and its holders alone. */
  lemma {:induction false} QuietSteps(states: seq<Kernel>, events: seq<Event>, s: Word, from: nat, to: nat)
    requires IsRun(states, events) && from <= to <= |events| && s in states[from].semaphores
    requires forall i :: from <= i < to ==> events[i] != Wait(s) && events[i] != Post(s)
    ensures s in states[to].semaphores && states[to].semaphores[s] == states[from].semaphores[s]
    ensures Holders(states, events, s, to) == Holders(states, events, s, from)
  {
    hide Next, Enabled;
    if from < to {
      QuietSteps(states, events, s, from, to - 1);
      SemaphoreStep(states[to - 1], events[to - 1], s);
    }
  }

  /**
   * Unlocked by a process that does not hold it, a mutex is free while it is held, and the next
   * lock, at step `m`, goes through: then two processes hold it, unless the holder itself locks again.
   */
  lemma UnlockedByAnother(states: seq<Kernel>, events: seq<Event>, s: Word, n: nat, pid: nat, m: nat)
    requires IsRun(states, events) && n < m < |events|
    requires s in states[0].semaphores && states[0].semaphores[s] == 1
    requires UnlockedByHolders(states, events, s, n) && Holders(states, events, s, n) == {pid}
    requires events[n] == Post(s) && CurrentPid(states[n]) != pid
    requires events[m] == Wait(s) && forall i :: n < i < m ==> events[i] != Wait(s) && events[i] != Post(s)
    ensures s in states[n + 1].semaphores && states[n + 1].semaphores[s] == 1
    ensures Holders(states, events, s, n + 1) == {pid}
    ensures CompletesWait(states[m], events[m], s)
    ensures Holders(states, events, s, m + 1) == {pid, CurrentPid(states[m])}
    ensures CurrentPid(states[m]) != pid ==> |Holders(states, events, s, m + 1)| == 2
  {
    hide Next, Enabled, CurrentPid;
    MutualExclusion(states, events, s, n);
    SemaphoreStep(states[n], events[n], s);
    QuietSteps(states, events, s, n + 1, m);
  }

  lemma PostKeepsCurrent(k: Kernel, s: Word)
    requires Enabled(k, Post(s))
    ensures CurrentPid(Next(k, Post(s))) == CurrentPid(k)
  {
  }

  /** A process that unlocks a mutex another one holds, and locks it right away, holds it together with that one. */
  lemma TwoHolders(states: seq<Kernel>, events: seq<Event>, s: Word, n: nat, pid: nat)
    requires IsRun(states, events) && n + 1 < |events|
    requires s in states[0].semaphores && states[0].semaphores[s] == 1
    requires UnlockedByHolders(states, events, s, n) && Holders(states, events, s, n) == {pid}
    requires events[n] == Post(s) && CurrentPid(states[n]) != pid && events[n + 1] == Wait(s)
    ensures Holders(states, events, s, n + 2) == {pid, CurrentPid(states[n])} && |Holders(states, events, s, n + 2)| == 2
  {
    hide Next, Enabled, Holders, UnlockedByHolders, CurrentPid;
    UnlockedByAnother(states, events, s, n, pid, n + 1);
    PostKeepsCurrent(states[n], s);
  }
}
