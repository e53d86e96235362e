// From the first process on: every reachable state of the kernel keeps every invariant.

module Boot {
  import opened Words
  import opened KernelSpec
  import opened KernelInvariants
  import opened ContextIsolation
  import opened Semaphores

  /** One process has been created, and nothing has run yet. */
  function BeforeBoot(entry: Word, exitHandler: Word, stack: int, size: nat, semaphores: map<Word, Word>): Kernel
    requires size >= 4 + SOFTWARE_FRAME + HARDWARE_FRAME
  {
    Kernel([Process(1, Ready, [], stack, size, stack + size - SOFTWARE_FRAME - HARDWARE_FRAME)], 0, semaphores,
           StoreWords(map[], stack, InitialStack(size / 4, entry, 0, exitHandler)), Cpu([], 0, 0), 2)
  }

  /** The root process has been started. */
  function Booted(entry: Word, exitHandler: Word, stack: int, size: nat, semaphores: map<Word, Word>): Kernel
    requires size >= 4 + SOFTWARE_FRAME + HARDWARE_FRAME
  {
    SwitchToNext(BeforeBoot(entry, exitHandler, stack, size, semaphores))
  }

  lemma BeforeBootSuspended(entry: Word, exitHandler: Word, stack: int, size: nat, semaphores: map<Word, Word>)
    requires size % 4 == 0 && size >= 4 + SOFTWARE_FRAME + HARDWARE_FRAME
    ensures AllSuspended(BeforeBoot(entry, exitHandler, stack, size, semaphores))
  {
    hide StoreWords, LoadWord, InitialStack;
    var ws := InitialStack(size / 4, entry, 0, exitHandler);
    StoredWords(map[], stack, ws);
    InitialWords(size / 4, entry, 0, exitHandler);
    assert ws[0] == LoadWord(BeforeBoot(entry, exitHandler, stack, size, semaphores).mem, stack + 4 * 0);
  }

  /** Starting the root process establishes every invariant, whatever semaphores there are. */
  lemma BootEstablishes(entry: Word, exitHandler: Word, stack: int, size: nat, semaphores: map<Word, Word>)
    requires size % 4 == 0 && size >= 4 + SOFTWARE_FRAME + HARDWARE_FRAME
    ensures var k := Booted(entry, exitHandler, stack, size, semaphores);
      SchedulingInvariant(k) && StackInvariant(k) && WaitersAtZero(k) && k.semaphores == semaphores
  {
    hide StoreWords, LoadWord, InitialStack, RestoreContext, StackInvariant, AllSuspended;
    var b := BeforeBoot(entry, exitHandler, stack, size, semaphores);
    BeforeBootSuspended(entry, exitHandler, stack, size, semaphores);
    SwitchRestores(b);
    assert b.processes[0].state == Ready;
    SwitchKeepsScheduling(b);
  }

  /**
   * In every state reachable from the start of the root process: the current process is ready and
   * none is running or killed, stacks are apart and undamaged, suspended contexts lie on their own
   * stacks, and with semaphores below 2^31 no wake-up is ever lost.
   */
  lemma ReachableStates(states: seq<Kernel>, events: seq<Event>, i: nat, entry: Word, exitHandler: Word,
                                           stack: int, size: nat, semaphores: map<Word, Word>)
    requires size % 4 == 0 && size >= 4 + SOFTWARE_FRAME + HARDWARE_FRAME
    requires IsRun(states, events) && i < |states|
    requires states[0] == Booted(entry, exitHandler, stack, size, semaphores)
    ensures SchedulingInvariant(states[i]) && StackInvariant(states[i])
    ensures (forall s :: s in semaphores ==> 1 <= s < 0x8000_0000) ==> WaitersAtZero(states[i])
  {
    hide Enabled, Next, Booted, SchedulingInvariant, StackInvariant, WaitersAtZero;
    BootEstablishes(entry, exitHandler, stack, size, semaphores);
    SchedulingAlways(states, events, i);
    StacksAlways(states, events, i);
    if forall s :: s in semaphores ==> 1 <= s < 0x8000_0000 {
      NoLostWakeup(states, events, i);
    }
  }

  // ---------- A run that loses a wake-up

  const HIGH_ADDRESS: Word := 0x8000_0000

  /** The root process creates a second one and gives way; the second waits, and the root posts. */
  function LosingEvents(): seq<Event> {
    [Create(0x200, 0, 0x300, 72, 72), Switch, Wait(HIGH_ADDRESS), Post(HIGH_ADDRESS)]
  }

  function After(k: Kernel): Kernel
    requires k.current < |k.processes|
  {
    SwitchToNext(StoreContext(k))
  }

  /** What a switch does to the list, the cursor and the semaphores. */
  lemma SwitchedTo(k: Kernel, next: nat)
    requires k.current < |k.processes| && Schedule(k.processes, k.current) == next
    requires Schedule(StoreContext(k).processes, k.current) == next
    ensures var l := After(k);
      && l.current == next && l.semaphores == k.semaphores && |l.processes| == |k.processes|
      && forall i :: 0 <= i < |k.processes| ==>
           && l.processes[i].state == k.processes[i].state && l.processes[i].locks == k.processes[i].locks
           && l.processes[i].pid == k.processes[i].pid
  {
    hide Schedule, StoreWords, RestoreContext;
  }

  lemma TwoReady(ps: seq<Process>)
    requires |ps| == 2 && ps[0].state == ps[1].state == Ready
    ensures Schedule(ps, 0) == 1
  {
  }

  lemma OnlyFirstReady(ps: seq<Process>)
    requires |ps| == 2 && ps[0].state == Ready && ps[1].state == Blocked
    ensures Schedule(ps, 1) == 0
  {
  }

  /** The second process, blocked by its wait, with the root process running. */
  lemma WaitBlocks(k: Kernel)
    requires k.current == 1 && |k.processes| == 2 && k.processes[0].state == k.processes[1].state == Ready
    requires k.processes[1].locks == [] && k.semaphores == map[HIGH_ADDRESS := 0]
    ensures Enabled(k, Wait(HIGH_ADDRESS))
    ensures var l := Next(k, Wait(HIGH_ADDRESS));
      && l.current == 0 && |l.processes| == 2 && l.semaphores == map[HIGH_ADDRESS := 0]
      && l.processes[1].state == Blocked && l.processes[1].locks == [HIGH_ADDRESS]
  {
    hide SwitchToNext, StoreContext, Schedule;
    assert k.processes[0].state == Ready;
    var b := k.(processes := k.processes[1 := Block(k.processes[1], HIGH_ADDRESS)]);
    StoredList(b);
    OnlyFirstReady(b.processes);
    OnlyFirstReady(StoreContext(b).processes);
    SwitchedTo(b, 0);
  }

  lemma StoredList(k: Kernel)
    requires k.current < |k.processes|
    ensures |StoreContext(k).processes| == |k.processes|
    ensures forall i :: 0 <= i < |k.processes| ==> StoreContext(k).processes[i].state == k.processes[i].state
  {
    hide StoreWords;
  }

  /**
   * A semaphore at 2^31, reached from the start of the root process in four steps: it has been
   * posted, and its waiter is still blocked.
   */
  lemma LostWakeup() returns (states: seq<Kernel>)
    ensures IsRun(states, LosingEvents())
    ensures states[0] == Booted(0x100, 0x300, 0, 72, map[HIGH_ADDRESS := 0])
    ensures var k := states[4];
      && HIGH_ADDRESS in k.semaphores && k.semaphores[HIGH_ADDRESS] == 1
      && |k.processes| == 2 && k.processes[1].state == Blocked && k.processes[1].locks == [HIGH_ADDRESS]
  {
    hide SwitchToNext, StoreContext, Schedule, InitialStack, StoreWords, Booted, BeforeBoot;
    var k0 := Booted(0x100, 0x300, 0, 72, map[HIGH_ADDRESS := 0]);
    BootedList(map[HIGH_ADDRESS := 0]);
    var k1 := Next(k0, LosingEvents()[0]);
    StoredList(k1);
    TwoReady(k1.processes);
    TwoReady(StoreContext(k1).processes);
    SwitchedTo(k1, 1);
    var k2 := Next(k1, Switch);
    WaitBlocks(k2);
    var k3 := Next(k2, Wait(HIGH_ADDRESS));
    var k4 := Next(k3, Post(HIGH_ADDRESS));
    assert k1.processes[0].state == Ready;
    states := [k0, k1, k2, k3, k4];
  }

  lemma BootedList(semaphores: map<Word, Word>)
    ensures var k := Booted(0x100, 0x300, 0, 72, semaphores);
      && k.current == 0 && k.semaphores == semaphores && k.nextPid == 2
      && k.processes == [Process(1, Ready, [], 0, 72, 4)]
  {
    hide InitialStack, StoreWords, RestoreContext;
  }

  // ---------- A run that passes a process over

  /** The root process creates two more and exits. */
  function PassingEvents(): seq<Event> {
    [Create(0x200, 0, 0x300, 72, 72), Create(0x200, 0, 0x300, 144, 72), Exit]
  }

  /** The second process stands right behind the exiting one, but the third runs. */
  lemma PassedOverRun() returns (states: seq<Kernel>)
    ensures IsRun(states, PassingEvents())
    ensures states[0] == Booted(0x100, 0x300, 0, 72, map[HIGH_ADDRESS := 0])
    ensures var before, k := states[2], states[3];
      && before.current == 0 && |before.processes| == 3
      && before.processes[1].pid == 2 && before.processes[1].state == Ready
      && k.current < |k.processes| && k.processes[k.current].pid == 3
  {
    hide InitialStack, StoreWords, Booted, BeforeBoot, RestoreContext, Schedule;
    var k0 := Booted(0x100, 0x300, 0, 72, map[HIGH_ADDRESS := 0]);
    BootedList(map[HIGH_ADDRESS := 0]);
    var k1 := Next(k0, PassingEvents()[0]);
    var k2 := Next(k1, PassingEvents()[1]);
    assert k2.processes[1].state == Ready;
    var rest := WithoutCurrent(k2).processes;
    assert rest == [k2.processes[1], k2.processes[2]];
    TwoReady(rest);
    states := [k0, k1, k2, Next(k2, Exit)];
  }

  // ---------- A run in which two processes hold a mutex

  const MUTEX: Word := 0x1000

  /** The root process locks, creates a second one and gives way; the second unlocks and locks. */
  function StealingEvents(): seq<Event> {
    [Wait(MUTEX), Create(0x200, 0, 0x300, 72, 72), Switch, Post(MUTEX), Wait(MUTEX)]
  }

  /** Both are between lock and unlock. */
  lemma StolenMutex() returns (states: seq<Kernel>)
    ensures IsRun(states, StealingEvents())
    ensures states[0] == Booted(0x100, 0x300, 0, 72, map[MUTEX := 1])
    ensures Holders(states, StealingEvents(), MUTEX, 5) == {1, 2}
  {
    hide SwitchToNext, StoreContext, Schedule, InitialStack, StoreWords, Booted, BeforeBoot, Holders;
    var k0 := Booted(0x100, 0x300, 0, 72, map[MUTEX := 1]);
    BootedList(map[MUTEX := 1]);
    var k1 := Next(k0, StealingEvents()[0]);
    var k2 := Next(k1, StealingEvents()[1]);
    StoredList(k2);
    TwoReady(k2.processes);
    TwoReady(StoreContext(k2).processes);
    SwitchedTo(k2, 1);
    var k3 := Next(k2, Switch);
    var k4 := Next(k3, Post(MUTEX));
    var k5 := Next(k4, Wait(MUTEX));
    assert k2.processes[0].state == Ready;
    states := [k0, k1, k2, k3, k4, k5];
    RootHolds(states);
    TwoHolders(states, StealingEvents(), MUTEX, 3, 1);
  }

  lemma RootHolds(states: seq<Kernel>)
    requires |states| == 6 && states[0].semaphores == map[MUTEX := 1] && CurrentPid(states[0]) == 1
    ensures Holders(states, StealingEvents(), MUTEX, 3) == {1}
    ensures UnlockedByHolders(states, StealingEvents(), MUTEX, 3)
  {
    var es := StealingEvents();
    assert Holders(states, es, MUTEX, 0) == {};
    assert Holders(states, es, MUTEX, 1) == {1};
    assert Holders(states, es, MUTEX, 2) == {1};
  }
}
