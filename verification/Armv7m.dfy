// The operations that interrupts and system calls reach, as the machine carries them out. Each of
// them takes the kernel's state where the step of the specification says.

module Armv7m {
  import opened Sequences
  import opened Words
  import opened KernelSpec
  import opened KernelInvariants
  import opened Processes
  import opened Scheduler

  class Machine {
    const core: Core
    const scheduler: NormalScheduler
    const exitHandler: Word
    var semaphores: map<Word, Word>

    ghost predicate Valid()
      reads this, core, scheduler, scheduler.manager
    {
      && scheduler.Live()
      && Distinct(scheduler.manager.processes)
      && |core.registers| == 8
    }

    ghost function View(): (k: Kernel)
      requires Valid()
      reads this, core, scheduler, scheduler.manager, scheduler.manager.processes
      ensures k.current < |k.processes|
    {
      var ps := scheduler.manager.processes;
      Kernel(Views(ps), IndexOf(ps, scheduler.current), semaphores, core.mem,
             Cpu(core.registers, core.lr, core.psp), scheduler.manager.nextPid)
    }

    constructor (core: Core, scheduler: NormalScheduler, exitHandler: Word, semaphores: map<Word, Word>)
      requires scheduler.Live() && Distinct(scheduler.manager.processes) && |core.registers| == 8
      ensures this.core == core && this.scheduler == scheduler && this.exitHandler == exitHandler
      ensures this.semaphores == semaphores && Valid()
    {
      this.core, this.scheduler, this.exitHandler, this.semaphores := core, scheduler, exitHandler, semaphores;
    }

    // ---------- Context switch

    /** The scheduler's choice, and the stack pointer its context lies at. */
    method GetNextTask() returns (sp: int)
      requires Valid() && StatesAgree(View().processes) && AnyReady(View().processes)
      modifies scheduler`current
      ensures Valid()
      ensures View() == old(View()).(current := Schedule(old(View()).processes, old(View()).current))
      ensures sp == StackPointer(View().mem, View().processes[View().current])
    {
      hide Schedule, StatesAgree, StackPointer, IndexOf, Distinct, Settles;
      ghost var k := View();
      ghost var m :| 0 <= m < |k.processes| && k.processes[m].state == Ready;
      assert Stops(k.processes[m]);
      SettlesIsSchedule(k.processes, k.current);
      scheduler.ScheduleNext();
      sp := scheduler.current.CurrentStackPointer(core);
    }

    method SwitchToNextTask()
      requires Valid() && StatesAgree(View().processes) && AnyReady(View().processes)
      modifies scheduler`current, core`registers, core`lr, core`psp
      ensures Valid() && View() == SwitchToNext(old(View()))
    {
      hide Schedule, StatesAgree, IndexOf, StackPointer;
      var r0 := GetNextTask();
      core.LoadFrame(r0);
    }

    /** What the suspended process needs to go on is put on its stack. */
    method StoreTask()
      requires Valid()
      modifies scheduler.manager.processes, core`mem
      ensures Valid() && View() == StoreContext(old(View()))
    {
      hide StoreWords, Distinct;
      ghost var ps, at := scheduler.manager.processes, IndexOf(scheduler.manager.processes, scheduler.current);
      var r0 := core.StoreFrame(core.psp);
      UpdateStackPointer(r0);
    }

    method UpdateStackPointer(stack: int)
      requires Valid()
      modifies scheduler.manager.processes
      ensures Valid()
      ensures var k := old(View()); View() == k.(processes := k.processes[k.current := k.processes[k.current].(sp := stack)])
    {
      ghost var vs := Views(scheduler.manager.processes);
      scheduler.current.SetCurrentStackPointer(stack);
      OneChanged(scheduler.manager.processes, scheduler.current, vs);
    }

    /** PendSV: at the lowest priority, so never in the middle of another handler. */
    method StoreAndSwitchToNextTask()
      requires Valid() && StatesAgree(View().processes) && AnyReady(View().processes)
      modifies scheduler`current, core, scheduler.manager.processes
      ensures Valid() && View() == Next(old(View()), Switch)
    {
      hide StoreContext, SwitchToNext, AnyReady, StatesAgree;
      ghost var k := View();
      StoreTask();
      StoreKeepsStates(k);
      SwitchToNextTask();
    }

    // ---------- System calls

    /** Blocks the current process and gives way to the next. */
    method Block(semaphore: Word)
      requires Valid() && StatesAgree(View().processes) && AnotherReady(View().processes, View().current)
      modifies scheduler`current, core, scheduler.manager.processes
      ensures Valid()
      ensures var k := old(View());
        var blocked := k.(processes := k.processes[k.current := KernelSpec.Block(k.processes[k.current], semaphore)]);
        View() == SwitchToNext(StoreContext(blocked))
    {
      hide *;
      ghost var k := View();
      BlockCurrent(semaphore);
      BlockedLeavesAnother(k, semaphore);
      StoreAndSwitchToNextTask();
      SwitchStep(k.(processes := k.processes[k.current := KernelSpec.Block(k.processes[k.current], semaphore)]));
    }

    method BlockCurrent(semaphore: Word)
      requires Valid()
      modifies scheduler.manager.processes
      ensures Valid()
      ensures var k := old(View());
        View() == k.(processes := k.processes[k.current := KernelSpec.Block(k.processes[k.current], semaphore)])
    {
      hide KernelSpec.Block;
      ghost var vs := Views(scheduler.manager.processes);
      scheduler.current.Block(semaphore);
      OneChanged(scheduler.manager.processes, scheduler.current, vs);
    }

    /** `failures` exclusive stores fail before one succeeds. */
    method SemaphoreWait(semaphore: Word, failures: nat)
      requires Valid() && StatesAgree(View().processes) && Enabled(View(), Wait(semaphore))
      modifies this`semaphores, scheduler`current, core, scheduler.manager.processes
      ensures Valid() && View() == Next(old(View()), Wait(semaphore))
    {
      hide StoreContext, SwitchToNext, StatesAgree, KernelSpec.Block, AnotherReady, IndexOf, Views;
      ghost var k := View();
      var left := failures;
      while true
        invariant Valid() && View() == k
        decreases left
      {
        var r1 := semaphores[semaphore];
        if r1 == 0 {
          Block(semaphore);
          return;
        }
        if left == 0 {
          semaphores := semaphores[semaphore := r1 - 1];
          return;
        }
        left := left - 1;
      }
    }

    method SemaphorePost(semaphore: Word, failures: nat)
      requires Valid() && semaphore in semaphores
      modifies this`semaphores, scheduler.manager.processes
      ensures Valid() && View() == Next(old(View()), Post(semaphore))
    {
      hide StatesAgree, Unblock, IndexOf, Views;
      ghost var k := View();
      var left := failures;
      while left > 0
        invariant Valid() && View() == k
      {
        left := left - 1;
      }
      semaphores := semaphores[semaphore := Wrap(semaphores[semaphore] as int + 1)];
      if Signed(semaphore) >= 1 {
        scheduler.UnblockAll(semaphore);
      }
    }

    method Spawn(entry: Word, arg: Word, base: int, size: nat)
      requires Valid() && size % 4 == 0 && size >= 4 + SOFTWARE_FRAME + HARDWARE_FRAME
      modifies scheduler.manager, core`mem
      ensures Valid() && View() == Next(old(View()), Create(entry, arg, exitHandler, base, size))
    {
      hide StoreWords, InitialStack, StatesAgree;
      ghost var ps, vs := scheduler.manager.processes, Views(scheduler.manager.processes);
      var p := scheduler.manager.CreateProcess(core, base, entry, size, arg, exitHandler);
      PositionPrefix(ps, p, scheduler.current);
      assert Views(scheduler.manager.processes) == vs + [p.View()];
    }

    /** Deletes the current process and switches without saving anything of it. */
    method ProcessExit()
      requires Valid() && StatesAgree(View().processes) && PidsAscend(View()) && Enabled(View(), Exit)
      modifies scheduler`current, scheduler.manager`processes, core
      ensures Valid() && View() == Next(old(View()), Exit)
    {
      hide SwitchToNext, StatesAgree, PidsAscend, AnyReady;
      ghost var k := View();
      DeleteCurrent();
      ExitLeavesReady(k);
      SwitchToNextTask();
    }

    method DeleteCurrent()
      requires Valid() && PidsAscend(View()) && |View().processes| >= 2
      modifies scheduler`current, scheduler.manager`processes
      ensures Valid() && View() == WithoutCurrent(old(View()))
    {
      hide PidsAscend, IndexOf, Views, Succ, Distinct, WithoutCurrent;
      ghost var k := View();
      ghost var ps := scheduler.manager.processes;
      EraseCurrent();
      CurrentRemoved(ps, k.current);
      CursorMoved(k);
    }

    /** Takes the current process out of the list, the cursor moved on to its successor. */
    method EraseCurrent()
      requires Valid() && PidsAscend(View()) && |View().processes| >= 2
      modifies scheduler`current, scheduler.manager`processes
      ensures var ps, at := old(scheduler.manager.processes), old(View()).current;
        && at < |ps| && scheduler.manager.processes == ps[..at] + ps[at + 1..]
        && scheduler.current == ps[Succ(at, |ps|)]
    {
      hide PidsAscend, IndexOf, FirstPid, Views, Succ, Distinct;
      ghost var k := View();
      FirstPidIsCurrent(k);
      assert FirstPid(k.processes, scheduler.current.pid) == k.current;
      scheduler.DeleteProcess(scheduler.current.pid);
    }
  }

  /** A lock on a semaphore of its own that starts at one. */
  class Mutex {
    const machine: Machine
    const semaphore: Word

    constructor (machine: Machine, semaphore: Word)
      requires machine.Valid() && semaphore !in machine.semaphores
      modifies machine`semaphores
      ensures this.machine == machine && this.semaphore == semaphore && machine.Valid()
      ensures machine.View() == old(machine.View()).(semaphores := old(machine.semaphores)[semaphore := 1])
    {
      this.machine, this.semaphore := machine, semaphore;
      new;
      machine.semaphores := machine.semaphores[semaphore := 1];
    }

    method Lock(failures: nat)
      requires machine.Valid() && StatesAgree(machine.View().processes) && Enabled(machine.View(), Wait(semaphore))
      modifies machine`semaphores, machine.scheduler`current, machine.core, machine.scheduler.manager.processes
      ensures machine.Valid() && machine.View() == Next(old(machine.View()), Wait(semaphore))
    {
      hide *;
      machine.SemaphoreWait(semaphore, failures);
    }

    method Unlock(failures: nat)
      requires machine.Valid() && semaphore in machine.semaphores
      modifies machine`semaphores, machine.scheduler.manager.processes
      ensures machine.Valid() && machine.View() == Next(old(machine.View()), Post(semaphore))
    {
      hide *;
      machine.SemaphorePost(semaphore, failures);
    }
  }

  // ---------- What the proofs above need to know about lists

  lemma OneChanged(ps: seq<ArmProcess>, p: ArmProcess, was: seq<Process>)
    requires Distinct(ps) && p in ps && |was| == |ps|
    requires forall i :: 0 <= i < |ps| && ps[i] != p ==> ps[i].View() == was[i]
    ensures Views(ps) == was[IndexOf(ps, p) := p.View()]
  {
    var at := IndexOf(ps, p);
    assert forall i :: 0 <= i < |ps| && i != at ==> ps[i] != p;
  }

  lemma {:induction false} PositionPrefix(ps: seq<ArmProcess>, p: ArmProcess, q: ArmProcess)
    requires q in ps
    ensures IndexOf(ps + [p], q) == IndexOf(ps, q)
  {
    if ps[0] != q {
      assert (ps + [p])[1..] == ps[1..] + [p];
      PositionPrefix(ps[1..], p, q);
    }
  }

  lemma RestDistinct(ps: seq<ArmProcess>, at: nat)
    requires Distinct(ps) && at < |ps|
    ensures Distinct(ps[..at] + ps[at + 1..])
  {
    var rest := ps[..at] + ps[at + 1..];
    assert forall i :: 0 <= i < |rest| ==> rest[i] == ps[Before(at, i)];
  }

  lemma SwitchStep(k: Kernel)
    requires k.current < |k.processes|
    ensures Next(k, Switch) == SwitchToNext(StoreContext(k))
  {
    hide SwitchToNext, StoreContext;
  }

  /** The list without its element at `at`, and where the element behind it is found then. */
  lemma CurrentRemoved(ps: seq<ArmProcess>, at: nat)
    requires Distinct(ps) && at < |ps| && |ps| >= 2
    ensures var rest := ps[..at] + ps[at + 1..];
      && Distinct(rest) && ps[Succ(at, |ps|)] in rest
      && Views(rest) == Views(ps)[..at] + Views(ps)[at + 1..]
      && IndexOf(rest, ps[Succ(at, |ps|)]) == if Succ(at, |ps|) == 0 then 0 else at
  {
    hide Distinct, IndexOf;
    var rest := ps[..at] + ps[at + 1..];
    RestDistinct(ps, at);
    var cursor := if Succ(at, |ps|) == 0 then 0 else at;
    assert ps[Succ(at, |ps|)] == rest[cursor];
    PositionUnique(rest, cursor);
  }

  lemma CursorMoved(k: Kernel)
    requires k.current < |k.processes| && |k.processes| >= 2
    ensures WithoutCurrent(k) ==
      k.(processes := k.processes[..k.current] + k.processes[k.current + 1..],
         current := if Succ(k.current, |k.processes|) == 0 then 0 else k.current)
  {
  }

  lemma FirstPidIsCurrent(k: Kernel)
    requires PidsAscend(k) && k.current < |k.processes|
    ensures FirstPid(k.processes, k.processes[k.current].pid) == k.current
  {
    var i := FirstPid(k.processes, k.processes[k.current].pid);
    assert i <= k.current;
  }

  lemma StoreKeepsStates(k: Kernel)
    requires k.current < |k.processes| && StatesAgree(k.processes) && AnyReady(k.processes)
    ensures StatesAgree(StoreContext(k).processes) && AnyReady(StoreContext(k).processes)
  {
    hide StoreWords, Distinct;
    StillReady(k.processes, StoreContext(k).processes);
  }

  lemma BlockedLeavesAnother(k: Kernel, s: Word)
    requires k.current < |k.processes| && StatesAgree(k.processes) && AnotherReady(k.processes, k.current)
    ensures var ps := k.processes[k.current := KernelSpec.Block(k.processes[k.current], s)];
      StatesAgree(ps) && AnyReady(ps)
  {
    var ps := k.processes[k.current := KernelSpec.Block(k.processes[k.current], s)];
    var j :| 0 <= j < |k.processes| && j != k.current && k.processes[j].state == Ready;
    assert ps[j].state == Ready && LocksAgree(k.processes[k.current]);
  }

  lemma ExitLeavesReady(k: Kernel)
    requires k.current < |k.processes| && StatesAgree(k.processes) && AnotherReady(k.processes, k.current)
    ensures |k.processes| >= 2
    ensures var r := WithoutCurrent(k); StatesAgree(r.processes) && AnyReady(r.processes)
  {
    hide WithoutCurrent, LocksAgree;
    var j :| 0 <= j < |k.processes| && j != k.current && k.processes[j].state == Ready;
    Survivors(k);
    assert Before(k.current, if j < k.current then j else j - 1) == j;
  }
}
