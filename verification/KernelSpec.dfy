// The kernel as a step system: processes with their stacks in one memory, the
// scheduler's cursor into the process list, semaphores and the registers that
// a context switch saves.

module KernelSpec {
  import opened Sequences
  import opened Words

  const CANARY: Word := 0xdead_beef
  const RETURN_TO_THREAD_MODE_PSP: Word := 0xffff_fffd
  const DEFAULT_PSR: Word := 0x2100_0000

  const SOFTWARE_FRAME := 36  // r4-r11, lr
  const HARDWARE_FRAME := 32  // r0-r3, r12, lr, pc, psr

  datatype State = Ready | Blocked | Running | Killed

  /** Semaphores are known by their addresses. */
  datatype Process = Process(
    pid: nat,
    state: State,
    locks: seq<Word>,  // semaphores the process is blocked on
    stack: int,        // lowest address of the stack
    size: nat,         // in bytes
    sp: int)           // where the context lies while the process is suspended

  /** r4-r11, the exception return value and the process stack pointer. */
  datatype Cpu = Cpu(registers: seq<Word>, lr: Word, psp: int)

  datatype Kernel = Kernel(
    processes: seq<Process>,
    current: nat,
    semaphores: map<Word, Word>,
    mem: map<int, Word>,
    cpu: Cpu,
    nextPid: nat)

  // ---------- Memory, by words

  function LoadWord(mem: map<int, Word>, a: int): Word {
    if a in mem then mem[a] else 0
  }

  function LoadWords(mem: map<int, Word>, a: int, n: nat): (ws: seq<Word>)
    ensures |ws| == n
    ensures forall i :: 0 <= i < n ==> ws[i] == LoadWord(mem, a + 4 * i)
  {
    seq(n, i => LoadWord(mem, a + 4 * i))
  }

  function StoreWords(mem: map<int, Word>, a: int, ws: seq<Word>): map<int, Word> {
    if ws == [] then mem else StoreWords(mem, a, ws[..|ws| - 1])[a + 4 * (|ws| - 1) := ws[|ws| - 1]]
  }

  // ---------- Scheduling

  /** The list position after `i`; the list is a ring to the scheduler. */
  function Succ(i: nat, n: nat): (j: nat)
    requires i < n
    ensures j < n
  {
    if i + 1 == n then 0 else i + 1
  }

  predicate AnyReady(ps: seq<Process>) {
    exists i :: 0 <= i < |ps| && ps[i].state == Ready
  }

  /** The first ready process from position `i` on, looking at `left` more positions. */
  function FirstReady(ps: seq<Process>, i: nat, left: nat): (j: nat)
    requires i < |ps|
    ensures j < |ps|
    decreases left
  {
    if ps[i].state == Ready || left == 0 then i else FirstReady(ps, Succ(i, |ps|), left - 1)
  }

  function Schedule(ps: seq<Process>, current: nat): (next: nat)
    requires current < |ps|
    ensures next < |ps|
  {
    FirstReady(ps, Succ(current, |ps|), |ps| - 1)
  }

  // ---------- Context switch

  function StoreContext(k: Kernel): Kernel
    requires k.current < |k.processes|
  {
    var sp := k.cpu.psp - SOFTWARE_FRAME;
    k.(mem := StoreWords(k.mem, sp, k.cpu.registers + [k.cpu.lr]),
       processes := k.processes[k.current := k.processes[k.current].(sp := sp)])
  }

  /** The saved stack pointer, or null if the stack has overrun its canary. */
  function StackPointer(mem: map<int, Word>, p: Process): int {
    if LoadWord(mem, p.stack) == CANARY then p.sp else 0
  }

  function RestoreContext(mem: map<int, Word>, sp: int): Cpu {
    Cpu(LoadWords(mem, sp, 8), LoadWord(mem, sp + 32), sp + SOFTWARE_FRAME)
  }

  /** Lets the scheduler choose, then loads the chosen process's context. */
  function SwitchToNext(k: Kernel): Kernel
    requires k.current < |k.processes|
  {
    var next := Schedule(k.processes, k.current);
    k.(current := next, cpu := RestoreContext(k.mem, StackPointer(k.mem, k.processes[next])))
  }

  // ---------- Processes

  /** A fresh stack: canary, zeros, and the frame the first resume pops. */
  function InitialStack(words: nat, entry: Word, arg: Word, exitHandler: Word): (ws: seq<Word>)
    requires words >= 18
    ensures |ws| == words
  {
    [CANARY] + seq(words - 18, _ => 0)
    + [0, 0, 0, 0, 0, 0, 0, 0, RETURN_TO_THREAD_MODE_PSP]
    + [arg, 0, 0, 0, 0, exitHandler, entry, DEFAULT_PSR]
  }

  function Block(p: Process, semaphore: Word): Process {
    p.(locks := if semaphore in p.locks then p.locks else p.locks + [semaphore], state := Blocked)
  }

  function Unblock(p: Process, semaphore: Word): Process {
    var i := IndexOf(p.locks, semaphore);
    if i == |p.locks| then p
    else
      var locks := p.locks[..i] + p.locks[i + 1..];
      p.(locks := locks, state := if locks == [] then Ready else p.state)
  }

  function UnblockAll(ps: seq<Process>, semaphore: Word): (all: seq<Process>)
    ensures |all| == |ps|
    ensures forall i :: 0 <= i < |ps| ==> all[i] == Unblock(ps[i], semaphore)
  {
    seq(|ps|, i requires 0 <= i < |ps| => Unblock(ps[i], semaphore))
  }

  /** A word as a signed number. */
  function Signed(w: Word): int {
    if w < WORD_LIMIT / 2 then w else w - WORD_LIMIT
  }

  /** After the increment the handler compares the semaphore's address, as a signed number, with 1. */
  predicate WakesWaiters(semaphore: Word) {
    Signed(semaphore) >= 1
  }

  /** The list without the current process, and the cursor moved to its successor. */
  function WithoutCurrent(k: Kernel): (r: Kernel)
    requires k.current < |k.processes| && |k.processes| >= 2
    ensures r.current < |r.processes| == |k.processes| - 1
  {
    k.(processes := k.processes[..k.current] + k.processes[k.current + 1..],
       current := if Succ(k.current, |k.processes|) == 0 then 0 else k.current)
  }

  // ---------- Steps

  datatype Event =
    | Execute(cpu: Cpu, mem: map<int, Word>)                                       // the current process runs
    | Create(entry: Word, arg: Word, exitHandler: Word, stack: int, size: nat)     // spawn
    | Exit                                                                         // SYSCALL_EXIT
    | Wait(semaphore: Word)                                                        // SYSCALL_SEMAPHORE_WAIT
    | Post(semaphore: Word)                                                        // SYSCALL_SEMAPHORE_POST
    | Switch                                                                       // YIELD, or the time slice is over

  predicate InStack(p: Process, a: int) {
    p.stack <= a < p.stack + p.size
  }

  predicate StacksDisjoint(stack: int, size: nat, p: Process) {
    stack + size <= p.stack || p.stack + p.size <= stack
  }

  /** Room for one more context above the canary, and the hardware frame inside the stack. */
  predicate PspInside(p: Process, psp: int) {
    && p.stack + 4 + SOFTWARE_FRAME <= psp
    && psp + HARDWARE_FRAME <= p.stack + p.size
    && (psp - p.stack) % 4 == 0
  }

  predicate AnotherReady(ps: seq<Process>, i: nat) {
    exists j :: 0 <= j < |ps| && j != i && ps[j].state == Ready
  }

  /** The current process keeps off the other processes' stacks and off its own canary. */
  ghost predicate KeepsOff(k: Kernel, mem: map<int, Word>)
    requires k.current < |k.processes|
  {
    && LoadWord(mem, k.processes[k.current].stack) == LoadWord(k.mem, k.processes[k.current].stack)
    && forall i, a :: 0 <= i < |k.processes| && i != k.current && InStack(k.processes[i], a) ==>
         LoadWord(mem, a) == LoadWord(k.mem, a)
  }

  /** When a step can be taken and comes to an end: the scheduler spins for ever without a ready process. */
  ghost predicate Enabled(k: Kernel, e: Event) {
    && k.current < |k.processes|
    && var p := k.processes[k.current];
       match e
       case Execute(cpu, mem) => |cpu.registers| == 8 && PspInside(p, cpu.psp) && KeepsOff(k, mem)
       case Create(_, _, _, stack, size) =>
         && size % 4 == 0 && size >= 4 + SOFTWARE_FRAME + HARDWARE_FRAME
         && (forall i :: 0 <= i < |k.processes| ==> StacksDisjoint(stack, size, k.processes[i]))
       case Exit => AnotherReady(k.processes, k.current)
       case Wait(s) => s in k.semaphores && (k.semaphores[s] == 0 ==> AnotherReady(k.processes, k.current))
       case Post(s) => s in k.semaphores
       case Switch => AnyReady(k.processes)
  }

  function NewProcess(k: Kernel, stack: int, size: nat): Process {
    Process(k.nextPid, Ready, [], stack, size, stack + size - SOFTWARE_FRAME - HARDWARE_FRAME)
  }

  function Next(k: Kernel, e: Event): Kernel
    requires k.current < |k.processes|
    requires e.Create? ==> e.size >= 72
    requires e.Exit? ==> |k.processes| >= 2
    requires e.Wait? || e.Post? ==> e.semaphore in k.semaphores
  {
    match e
    case Execute(cpu, mem) => k.(cpu := cpu, mem := mem)
    case Create(entry, arg, exitHandler, stack, size) =>
      k.(processes := k.processes + [NewProcess(k, stack, size)],
         mem := StoreWords(k.mem, stack, InitialStack(size / 4, entry, arg, exitHandler)),
         nextPid := k.nextPid + 1)
    case Exit => SwitchToNext(WithoutCurrent(k))
    case Wait(s) =>
      if k.semaphores[s] != 0 then k.(semaphores := k.semaphores[s := k.semaphores[s] - 1])
      else
        var blocked := k.(processes := k.processes[k.current := Block(k.processes[k.current], s)]);
        SwitchToNext(StoreContext(blocked))
    case Post(s) =>
      var posted := k.(semaphores := k.semaphores[s := Wrap(k.semaphores[s] as int + 1)]);
      if WakesWaiters(s) then posted.(processes := UnblockAll(k.processes, s)) else posted
    case Switch => SwitchToNext(StoreContext(k))
  }

  /** A run: one more state than events, each state the result of its event. */
  ghost predicate IsRun(states: seq<Kernel>, events: seq<Event>) {
    && |states| == |events| + 1
    && forall i :: 0 <= i < |events| ==> Enabled(states[i], events[i]) && states[i + 1] == Next(states[i], events[i])
  }
}
