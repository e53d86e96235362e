// Processes never see each other's switches: whatever a process has in its registers and on its
// stack when it is suspended, it finds there when it runs again.

module ContextIsolation {
  import opened Words
  import opened KernelSpec
  import opened KernelInvariants

  // ---------- The stacks

  ghost predicate StacksApart(ps: seq<Process>) {
    forall i, j :: 0 <= i < |ps| && 0 <= j < |ps| && i != j ==> StacksDisjoint(ps[i].stack, ps[i].size, ps[j])
  }

  predicate CanaryIntact(mem: map<int, Word>, p: Process) {
    p.size >= 4 + SOFTWARE_FRAME + HARDWARE_FRAME && LoadWord(mem, p.stack) == CANARY
  }

  ghost predicate CanariesIntact(k: Kernel) {
    forall i :: 0 <= i < |k.processes| ==> CanaryIntact(k.mem, k.processes[i])
  }

  /** A suspended process keeps its nine words and the hardware frame above them on its own stack. */
  ghost predicate Suspended(p: Process) {
    && p.stack + 4 <= p.sp
    && p.sp + SOFTWARE_FRAME + HARDWARE_FRAME <= p.stack + p.size
    && (p.sp - p.stack) % 4 == 0
  }

  ghost predicate OthersSuspended(k: Kernel) {
    forall i :: 0 <= i < |k.processes| && i != k.current ==> Suspended(k.processes[i])
  }

  ghost predicate CurrentRuns(k: Kernel) {
    && k.current < |k.processes|
    && |k.cpu.registers| == 8
    && PspInside(k.processes[k.current], k.cpu.psp)
  }

  ghost predicate StackInvariant(k: Kernel) {
    StacksApart(k.processes) && CanariesIntact(k) && OthersSuspended(k) && CurrentRuns(k)
  }

  // ---------- What a process owns

  /** The registers of process `i`: in the processor while it runs, on its stack otherwise. */
  function Context(k: Kernel, i: nat): Cpu
    requires i < |k.processes|
  {
    if i == k.current then k.cpu else RestoreContext(k.mem, k.processes[i].sp)
  }

  /** The process's stack from its process stack pointer up, hardware frame included. */
  ghost predicate SameStackAbove(mem: map<int, Word>, later: map<int, Word>, psp: int, p: Process) {
    forall a :: psp <= a < p.stack + p.size ==> LoadWord(later, a) == LoadWord(mem, a)
  }

  /** Position `n` of `l` holds the process of position `m` of `k`, with all it owned there. */
  ghost predicate SameContext(k: Kernel, m: nat, l: Kernel, n: nat)
    requires m < |k.processes| && n < |l.processes|
  {
    && l.processes[n].stack == k.processes[m].stack
    && l.processes[n].size == k.processes[m].size
    && Context(l, n) == Context(k, m)
    && SameStackAbove(k.mem, l.mem, Context(k, m).psp, k.processes[m])
  }

  // ---------- Saving

  /** The words a suspension writes lie on the current stack, below the process stack pointer. */
  lemma StoredBelow(k: Kernel, a: int)
    requires CurrentRuns(k)
    requires a < k.cpu.psp - SOFTWARE_FRAME || k.cpu.psp <= a
    ensures LoadWord(StoreContext(k).mem, a) == LoadWord(k.mem, a)
  {
    StoredWords(k.mem, k.cpu.psp - SOFTWARE_FRAME, k.cpu.registers + [k.cpu.lr]);
  }

  /** A saved context is nine words below the process stack pointer: r4 lowest, r11, then the exception return value. */
  lemma SavedFrame(k: Kernel)
    requires k.current < |k.processes| && |k.cpu.registers| == 8
    ensures var s := StoreContext(k);
      && s.processes[k.current].sp == k.cpu.psp - 36
      && (forall i :: 0 <= i < 8 ==> LoadWord(s.mem, k.cpu.psp - 36 + 4 * i) == k.cpu.registers[i])
      && LoadWord(s.mem, k.cpu.psp - 4) == k.cpu.lr
  {
    hide StoreWords, LoadWord;
    var ws := k.cpu.registers + [k.cpu.lr];
    StoredWords(k.mem, k.cpu.psp - 36, ws);
    assert forall i :: 0 <= i < 8 ==> ws[i] == k.cpu.registers[i];
    assert ws[8] == LoadWord(StoreContext(k).mem, k.cpu.psp - 36 + 4 * 8);
  }

  /**
   * A switch takes a process up at its saved stack pointer iff the word at the end of its stack is
   * still 0xdeadbeef; otherwise it loads whatever lies from address zero on.
   */
  lemma SwitchChecksCanary(k: Kernel)
    requires k.current < |k.processes|
    ensures var n := SwitchToNext(k); var p := k.processes[n.current];
      var from := if LoadWord(k.mem, p.stack) == 0xdead_beef then p.sp else 0;
      && n.cpu.psp == from + 36 && |n.cpu.registers| == 8
      && (forall i :: 0 <= i < 8 ==> n.cpu.registers[i] == LoadWord(k.mem, from + 4 * i))
      && n.cpu.lr == LoadWord(k.mem, from + 32)
  {
    hide Schedule;
  }

  lemma SavedRestores(k: Kernel)
    requires CurrentRuns(k)
    ensures RestoreContext(StoreContext(k).mem, StoreContext(k).processes[k.current].sp) == k.cpu
  {
    hide StoreWords;
    var ws := k.cpu.registers + [k.cpu.lr];
    var sp := k.cpu.psp - SOFTWARE_FRAME;
    StoredThenLoaded(k.mem, sp, ws, 8);
    StoredWords(k.mem, sp, ws);
    assert ws[..8] == k.cpu.registers;
    assert ws[8] == LoadWord(StoreWords(k.mem, sp, ws), sp + 4 * 8);
  }

  /** Every process is suspended, and no stack is damaged. */
  ghost predicate AllSuspended(k: Kernel) {
    && k.current < |k.processes|
    && StacksApart(k.processes) && CanariesIntact(k)
    && forall i :: 0 <= i < |k.processes| ==> Suspended(k.processes[i])
  }

  lemma StoreSuspends(k: Kernel)
    requires StackInvariant(k)
    ensures AllSuspended(StoreContext(k))
  {
    hide StoreWords;
    var s := StoreContext(k);
    forall i | 0 <= i < |k.processes| ensures CanaryIntact(s.mem, s.processes[i]) {
      assert CanaryIntact(k.mem, k.processes[i]);
      assert i != k.current ==> StacksDisjoint(k.processes[i].stack, k.processes[i].size, k.processes[k.current]);
      StoredBelow(k, k.processes[i].stack);
    }
    assert forall i :: 0 <= i < |k.processes| ==>
      s.processes[i].stack == k.processes[i].stack && s.processes[i].size == k.processes[i].size;
  }

  /** What process `m` owns once the kernel has saved the current context. */
  ghost predicate SavedContext(k: Kernel, m: nat, s: Kernel)
    requires m < |k.processes|
  {
    && m < |s.processes|
    && s.processes[m].stack == k.processes[m].stack && s.processes[m].size == k.processes[m].size
    && RestoreContext(s.mem, s.processes[m].sp) == Context(k, m)
    && SameStackAbove(k.mem, s.mem, Context(k, m).psp, k.processes[m])
  }

  lemma FrameOfAnother(k: Kernel, m: nat, a: int)
    requires StackInvariant(k) && m < |k.processes| && m != k.current && InStack(k.processes[m], a)
    ensures LoadWord(StoreContext(k).mem, a) == LoadWord(k.mem, a)
  {
    hide StoreWords, LoadWord;
    assert StacksDisjoint(k.processes[m].stack, k.processes[m].size, k.processes[k.current]);
    StoredBelow(k, a);
  }

  lemma SameFrameSameContext(mem: map<int, Word>, later: map<int, Word>, sp: int)
    requires forall a :: sp <= a < sp + SOFTWARE_FRAME ==> LoadWord(later, a) == LoadWord(mem, a)
    ensures RestoreContext(later, sp) == RestoreContext(mem, sp)
  {
    hide LoadWord;
    assert LoadWords(later, sp, 8) == LoadWords(mem, sp, 8);
  }

  lemma StoreSaves(k: Kernel, m: nat)
    requires StackInvariant(k) && m < |k.processes|
    ensures SavedContext(k, m, StoreContext(k))
  {
    hide StoreWords, LoadWord, RestoreContext;
    var s, p := StoreContext(k), k.processes[m];
    if m == k.current {
      SavedRestores(k);
      forall a | k.cpu.psp <= a < p.stack + p.size ensures LoadWord(s.mem, a) == LoadWord(k.mem, a) {
        StoredBelow(k, a);
      }
    } else {
      assert Suspended(p);
      forall a | p.sp <= a < p.stack + p.size ensures LoadWord(s.mem, a) == LoadWord(k.mem, a) {
        FrameOfAnother(k, m, a);
      }
      SameFrameSameContext(k.mem, s.mem, p.sp);
      RestoredPsp(k.mem, p.sp);
    }
  }

  lemma RestoredPsp(mem: map<int, Word>, sp: int)
    ensures RestoreContext(mem, sp).psp == sp + SOFTWARE_FRAME && |RestoreContext(mem, sp).registers| == 8
  {
  }

  // ---------- Restoring

  /** With every context saved, the switch loads the next process's own context and nothing else changes. */
  lemma SwitchRestores(s: Kernel)
    requires AllSuspended(s)
    ensures StackInvariant(SwitchToNext(s))
    ensures SwitchToNext(s).processes == s.processes && SwitchToNext(s).mem == s.mem
    ensures forall n :: 0 <= n < |s.processes| ==>
      Context(SwitchToNext(s), n) == RestoreContext(s.mem, s.processes[n].sp)
  {
    hide Schedule;
    var next := Schedule(s.processes, s.current);
    assert CanaryIntact(s.mem, s.processes[next]);
  }

  // ---------- Steps

  /** A new frame on a fresh stack: the words of the constructor, and no other process's stack touched. */
  lemma CreateKeepsOff(k: Kernel, e: Event)
    requires k.current < |k.processes| && e.Create? && Enabled(k, e)
    ensures forall i, a :: 0 <= i < |k.processes| && InStack(k.processes[i], a) ==>
      LoadWord(Next(k, e).mem, a) == LoadWord(k.mem, a)
  {
    hide LoadWord, StoreWords;
    forall i, a | 0 <= i < |k.processes| && InStack(k.processes[i], a)
      ensures LoadWord(Next(k, e).mem, a) == LoadWord(k.mem, a)
    {
      assert StacksDisjoint(e.stack, e.size, k.processes[i]);
      StoredWords(k.mem, e.stack, InitialStack(e.size / 4, e.entry, e.arg, e.exitHandler));
    }
  }

  /** The first resume pops the constructed frame: zeroed registers and a return into thread mode. */
  lemma CreatedContext(k: Kernel, e: Event)
    requires k.current < |k.processes| && e.Create? && Enabled(k, e)
    ensures var n := Next(k, e); var psp := e.stack + e.size - 32;
      && Context(n, |k.processes|) == Cpu([0, 0, 0, 0, 0, 0, 0, 0], 0xffff_fffd, psp)
      && LoadWords(n.mem, psp, 8) == [e.arg, 0, 0, 0, 0, e.exitHandler, e.entry, 0x2100_0000]
      && LoadWord(n.mem, e.stack) == 0xdead_beef
      && n.processes == k.processes + [Process(k.nextPid, Ready, [], e.stack, e.size, psp - 36)] && n.nextPid == k.nextPid + 1
  {
    hide LoadWord, StoreWords, InitialStack, KeepsOff;
    var w := e.size / 4;
    var ws := InitialStack(w, e.entry, e.arg, e.exitHandler);
    StoredWords(k.mem, e.stack, ws);
    InitialWords(w, e.entry, e.arg, e.exitHandler);
    assert ws[0] == LoadWord(Next(k, e).mem, e.stack + 4 * 0);
    assert ws[w - 9] == LoadWord(Next(k, e).mem, e.stack + 4 * (w - 9));
    LoadedPart(k.mem, e.stack, ws, w - 17, 8);
    LoadedPart(k.mem, e.stack, ws, w - 8, 8);
  }

  /** Between the canary and that frame a fresh stack is zero. */
  lemma CreatedZeros(k: Kernel, e: Event, i: nat)
    requires k.current < |k.processes| && e.Create? && Enabled(k, e)
    requires 1 <= i < e.size / 4 - 17
    ensures LoadWord(Next(k, e).mem, e.stack + 4 * i) == 0
  {
    hide LoadWord, StoreWords, KeepsOff;
    var ws := InitialStack(e.size / 4, e.entry, e.arg, e.exitHandler);
    StoredWords(k.mem, e.stack, ws);
    assert ws[i] == 0;
  }

  lemma LoadedPart(mem: map<int, Word>, a: int, ws: seq<Word>, from: nat, n: nat)
    requires from + n <= |ws|
    ensures LoadWords(StoreWords(mem, a, ws), a + 4 * from, n) == ws[from..from + n]
  {
    hide LoadWord, StoreWords;
    StoredWords(mem, a, ws);
    var loaded := LoadWords(StoreWords(mem, a, ws), a + 4 * from, n);
    forall j | 0 <= j < n ensures loaded[j] == ws[from..from + n][j] {
      assert ws[from + j] == LoadWord(StoreWords(mem, a, ws), a + 4 * (from + j));
    }
  }

  lemma InitialWords(words: nat, entry: Word, arg: Word, exitHandler: Word)
    requires words >= 18
    ensures var ws := InitialStack(words, entry, arg, exitHandler);
      && ws[0] == CANARY
      && ws[words - 17..words - 9] == [0, 0, 0, 0, 0, 0, 0, 0]
      && ws[words - 9] == RETURN_TO_THREAD_MODE_PSP
      && ws[words - 8..words] == [arg, 0, 0, 0, 0, exitHandler, entry, DEFAULT_PSR]
  {
  }

  lemma ExitLeavesSuspended(k: Kernel)
    requires StackInvariant(k) && |k.processes| >= 2
    ensures AllSuspended(WithoutCurrent(k))
  {
    hide CanaryIntact, Suspended;
    var r := WithoutCurrent(k);
    assert forall i :: 0 <= i < |r.processes| ==> r.processes[i] == k.processes[if i < k.current then i else i + 1];
  }

  lemma BlockKeepsStacks(k: Kernel, s: Word)
    requires StackInvariant(k)
    ensures var b := k.(processes := k.processes[k.current := Block(k.processes[k.current], s)]);
      && StackInvariant(b)
      && forall m :: 0 <= m < |k.processes| ==> Context(b, m) == Context(k, m) && SameSpace(b.processes[m], k.processes[m])
  {
    hide LoadWord;
  }

  ghost predicate SameSpace(p: Process, q: Process) {
    p.stack == q.stack && p.size == q.size && p.pid == q.pid
  }

  lemma UnblockAllKeepsStacks(k: Kernel, l: Kernel, s: Word)
    requires StackInvariant(k)
    requires l.processes == k.processes || l.processes == UnblockAll(k.processes, s)
    requires l.current == k.current && l.mem == k.mem && l.cpu == k.cpu
    ensures StackInvariant(l)
    ensures forall m :: 0 <= m < |k.processes| ==> Context(l, m) == Context(k, m) && SameSpace(l.processes[m], k.processes[m])
  {
    hide LoadWord, Unblock;
    forall m | 0 <= m < |k.processes|
      ensures SameSpace(l.processes[m], k.processes[m]) && l.processes[m].sp == k.processes[m].sp
    {
      UnblockKeepsIdentity(k.processes[m], s);
    }
  }

  lemma SuspendAndSwitch(k: Kernel)
    requires StackInvariant(k)
    ensures var l := SwitchToNext(StoreContext(k));
      && StackInvariant(l) && |l.processes| == |k.processes|
      && forall m :: 0 <= m < |k.processes| ==> SameContext(k, m, l, m) && l.processes[m].pid == k.processes[m].pid
  {
    hide LoadWord, StoreWords, RestoreContext, StacksApart, CanariesIntact, OthersSuspended, Schedule;
    var s := StoreContext(k);
    StoreSuspends(k);
    SwitchRestores(s);
    forall m | 0 <= m < |k.processes| ensures SameContext(k, m, SwitchToNext(s), m) {
      StoreSaves(k, m);
    }
  }

  lemma CreateKeepsStacks(k: Kernel, e: Event)
    requires StackInvariant(k) && e.Create? && Enabled(k, e)
    ensures StackInvariant(Next(k, e))
    ensures forall m :: 0 <= m < |k.processes| ==> SameContext(k, m, Next(k, e), m)
  {
    hide LoadWord, StoreWords, RestoreContext, InitialStack;
    var n := Next(k, e);
    CreateKeepsOff(k, e);
    CreatedContext(k, e);
    forall i | 0 <= i < |n.processes| ensures CanaryIntact(n.mem, n.processes[i]) {
      if i < |k.processes| {
        assert CanaryIntact(k.mem, k.processes[i]) && InStack(k.processes[i], k.processes[i].stack);
      }
    }
    forall m | 0 <= m < |k.processes| ensures SameContext(k, m, n, m) {
      var p := k.processes[m];
      assert forall a :: InStack(p, a) ==> LoadWord(n.mem, a) == LoadWord(k.mem, a);
      RestoredPsp(k.mem, p.sp);
      if m != k.current {
        assert Suspended(p);
        assert forall a :: p.sp <= a < p.sp + SOFTWARE_FRAME ==> InStack(p, a);
        SameFrameSameContext(k.mem, n.mem, p.sp);
      }
      assert forall a :: Context(k, m).psp <= a < p.stack + p.size ==> InStack(p, a);
    }
  }

  lemma ExecuteKeepsStacks(k: Kernel, e: Event)
    requires StackInvariant(k) && e.Execute? && Enabled(k, e)
    ensures StackInvariant(Next(k, e))
    ensures forall m :: 0 <= m < |k.processes| && m != k.current ==> SameContext(k, m, Next(k, e), m)
  {
    hide LoadWord, RestoreContext;
    var n := Next(k, e);
    forall i | 0 <= i < |k.processes| ensures CanaryIntact(n.mem, n.processes[i]) {
      assert CanaryIntact(k.mem, k.processes[i]) && InStack(k.processes[i], k.processes[i].stack);
    }
    forall m | 0 <= m < |k.processes| && m != k.current ensures SameContext(k, m, n, m) {
      var p := k.processes[m];
      assert forall a :: InStack(p, a) ==> LoadWord(n.mem, a) == LoadWord(k.mem, a);
      RestoredPsp(k.mem, p.sp);
      assert Suspended(p);
      assert forall a :: p.sp <= a < p.stack + p.size ==> InStack(p, a);
      SameFrameSameContext(k.mem, n.mem, p.sp);
    }
  }

  lemma ExitKeepsStacks(k: Kernel)
    requires StackInvariant(k) && Enabled(k, Exit)
    ensures |k.processes| >= 2 && StackInvariant(Next(k, Exit)) && |Next(k, Exit).processes| == |k.processes| - 1
    ensures forall n :: 0 <= n < |k.processes| - 1 ==>
      Next(k, Exit).processes[n] == k.processes[Before(k.current, n)] && SameContext(k, Before(k.current, n), Next(k, Exit), n)
  {
    hide LoadWord, RestoreContext, Schedule, StacksApart, CanariesIntact;
    var j :| 0 <= j < |k.processes| && j != k.current && k.processes[j].state == Ready;
    ExitLeavesSuspended(k);
    SwitchRestores(WithoutCurrent(k));
  }

  // ---------- Over runs

  /** Every event but the process's own execution leaves its registers and its stack as they are. */
  predicate Undisturbed(k: Kernel, e: Event, pid: nat) {
    e.Execute? ==> k.current < |k.processes| && k.processes[k.current].pid != pid
  }

  lemma SamePositions(k: Kernel, l: Kernel, m: nat, n: nat)
    requires PidsAscend(l) && m < |k.processes| && n < |l.processes| && k.processes[m].pid == l.processes[n].pid
    requires m < |l.processes| && l.processes[m].pid == k.processes[m].pid
    ensures m == n
  {
  }

  lemma NothingMoved(k: Kernel, l: Kernel, m: nat)
    requires m < |k.processes| && m < |l.processes| && SameSpace(l.processes[m], k.processes[m])
    requires Context(l, m) == Context(k, m) && l.mem == k.mem
    ensures SameContext(k, m, l, m)
  {
  }

  lemma WaitKeepsStacks(k: Kernel, s: Word)
    requires StackInvariant(k) && Enabled(k, Wait(s))
    ensures var l := Next(k, Wait(s));
      && StackInvariant(l) && |l.processes| == |k.processes|
      && forall m :: 0 <= m < |k.processes| ==> SameContext(k, m, l, m) && l.processes[m].pid == k.processes[m].pid
  {
    hide LoadWord, StoreWords, RestoreContext, StacksApart, CanariesIntact, OthersSuspended, SwitchToNext, StoreContext, Block;
    if k.semaphores[s] == 0 {
      var b := k.(processes := k.processes[k.current := Block(k.processes[k.current], s)]);
      BlockKeepsStacks(k, s);
      SuspendAndSwitch(b);
    } else {
      UnblockAllKeepsStacks(k, Next(k, Wait(s)), s);
    }
  }

  lemma ContextStep(k: Kernel, e: Event, m: nat, n: nat)
    requires SchedulingInvariant(k) && StackInvariant(k) && Enabled(k, e)
    requires m < |k.processes| && n < |Next(k, e).processes| && Next(k, e).processes[n].pid == k.processes[m].pid
    requires Undisturbed(k, e, k.processes[m].pid)
    ensures StackInvariant(Next(k, e)) && SameContext(k, m, Next(k, e), n)
  {
    hide LoadWord, StoreWords, RestoreContext, InitialStack, StackInvariant, StatesAgree, SameContext, SwitchToNext,
      StoreContext, Schedule, Context, SameStackAbove, Unblock, WithoutCurrent, KeepsOff;
    SchedulingStep(k, e);
    match e
    case Execute(_, _) =>
      ExecuteKeepsStacks(k, e);
      SamePositions(k, Next(k, e), m, n);
    case Create(_, _, _, _, _) =>
      CreateKeepsStacks(k, e);
      SamePositions(k, Next(k, e), m, n);
    case Exit =>
      ExitKeepsStacks(k);
      assert k.processes[Before(k.current, n)].pid == k.processes[m].pid;
      assert Before(k.current, n) == m;
    case Wait(s) =>
      WaitKeepsStacks(k, s);
      SamePositions(k, Next(k, e), m, n);
    case Post(s) =>
      UnblockAllKeepsStacks(k, Next(k, e), s);
      SamePositions(k, Next(k, e), m, n);
      NothingMoved(k, Next(k, e), m);
    case Switch =>
      SuspendAndSwitch(k);
      SamePositions(k, Next(k, e), m, n);
  }

  lemma StackStep(k: Kernel, e: Event)
    requires StackInvariant(k) && Enabled(k, e)
    ensures StackInvariant(Next(k, e))
  {
    hide LoadWord, StoreWords, RestoreContext, InitialStack, StacksApart, CanariesIntact, OthersSuspended, SameContext,
      SwitchToNext, StoreContext, Schedule, Context, SameStackAbove, Unblock, UnblockAll, WithoutCurrent, KeepsOff;
    match e
    case Execute(_, _) => ExecuteKeepsStacks(k, e);
    case Create(_, _, _, _, _) => CreateKeepsStacks(k, e);
    case Exit => ExitKeepsStacks(k);
    case Wait(s) => WaitKeepsStacks(k, s);
    case Post(s) => UnblockAllKeepsStacks(k, Next(k, e), s);
    case Switch => SuspendAndSwitch(k);
  }

  /** In every state of a run no stack is damaged and every suspended context lies on its own stack. */
  lemma {:induction false} StacksAlways(states: seq<Kernel>, events: seq<Event>, i: nat)
    requires IsRun(states, events) && StackInvariant(states[0]) && i < |states|
    ensures StackInvariant(states[i])
  {
    hide StackInvariant, Enabled, Next;
    if i > 0 {
      StacksAlways(states, events, i - 1);
      StackStep(states[i - 1], events[i - 1]);
    }
  }

  /** A process of the next state that is not new was there before. */
  lemma WasThere(k: Kernel, e: Event, n: nat) returns (m: nat)
    requires SchedulingInvariant(k) && Enabled(k, e)
    requires n < |Next(k, e).processes| && Next(k, e).processes[n].pid < k.nextPid
    ensures m < |k.processes| && k.processes[m].pid == Next(k, e).processes[n].pid
  {
    hide LoadWord, StoreWords, RestoreContext, InitialStack, Schedule, KeepsOff, StatesAgree;
    m := if e.Exit? then Before(k.current, n) else n;
    if e.Post? {
      UnblockKeepsIdentity(k.processes[n], e.semaphore);
    } else if e.Exit? {
      Survivors(k);
    } else if e.Wait? && k.semaphores[e.semaphore] == 0 {
      hide StoreContext, SwitchToNext;
      var b := k.(processes := k.processes[k.current := Block(k.processes[k.current], e.semaphore)]);
      PidsKept(b);
      PidsKept(StoreContext(b));
    }
  }

  lemma PidsKept(k: Kernel)
    requires k.current < |k.processes|
    ensures SwitchToNext(k).processes == k.processes && |StoreContext(k).processes| == |k.processes|
    ensures StoreContext(k).current == k.current
    ensures forall i :: 0 <= i < |k.processes| ==> StoreContext(k).processes[i].pid == k.processes[i].pid
  {
    hide Schedule, StoreWords, RestoreContext;
  }

  lemma NextPidGrows(k: Kernel, e: Event)
    requires k.current < |k.processes| && Enabled(k, e)
    ensures Next(k, e).nextPid >= k.nextPid
  {
    hide LoadWord, StoreWords, RestoreContext, InitialStack, Schedule, KeepsOff, UnblockAll;
  }

  lemma {:induction false} PidStaysOld(states: seq<Kernel>, events: seq<Event>, i: nat, j: nat)
    requires IsRun(states, events) && SchedulingInvariant(states[0]) && i <= j < |states|
    ensures states[i].nextPid <= states[j].nextPid
  {
    hide Enabled, Next;
    if i < j {
      PidStaysOld(states, events, i, j - 1);
      SchedulingAlways(states, events, j - 1);
      NextPidGrows(states[j - 1], events[j - 1]);
    }
  }

  lemma SameContextComposes(k: Kernel, m: nat, l: Kernel, n: nat, t: Kernel, q: nat)
    requires m < |k.processes| && n < |l.processes| && q < |t.processes|
    requires SameContext(k, m, l, n) && SameContext(l, n, t, q)
    ensures SameContext(k, m, t, q)
  {
    hide Context, LoadWord;
  }

  /** From state `i` to state `j` of a run only other processes execute. */
  ghost predicate UndisturbedUntil(states: seq<Kernel>, events: seq<Event>, i: nat, j: nat, pid: nat)
    requires j <= |events| && j <= |states|
  {
    forall t :: i <= t < j ==> Undisturbed(states[t], events[t], pid)
  }

  /**
   * Whatever steps are taken in between, the registers and the stack of a process change only when
   * the process itself executes.
   */
  lemma {:induction false} ContextKept(states: seq<Kernel>, events: seq<Event>, i: nat, j: nat, m: nat, n: nat)
    requires IsRun(states, events) && SchedulingInvariant(states[0]) && StackInvariant(states[0])
    requires i <= j < |states| && m < |states[i].processes| && n < |states[j].processes|
    requires states[i].processes[m].pid == states[j].processes[n].pid
    requires UndisturbedUntil(states, events, i, j, states[i].processes[m].pid)
    ensures SameContext(states[i], m, states[j], n)
    decreases j
  {
    hide Enabled, Next, StackInvariant, SameContext, Undisturbed, StatesAgree;
    SchedulingAlways(states, events, i);
    if i == j {
      SameAsItself(states[i], m, n);
    } else {
      SchedulingAlways(states, events, j - 1);
      StacksAlways(states, events, j - 1);
      PidStaysOld(states, events, i, j - 1);
      var q := WasThere(states[j - 1], events[j - 1], n);
      ContextKept(states, events, i, j - 1, m, q);
      ContextStep(states[j - 1], events[j - 1], q, n);
      SameContextComposes(states[i], m, states[j - 1], q, states[j], n);
    }
  }

  lemma SameAsItself(k: Kernel, m: nat, n: nat)
    requires PidsAscend(k) && m < |k.processes| && n < |k.processes| && k.processes[m].pid == k.processes[n].pid
    ensures SameContext(k, m, k, n)
  {
  }

  /** A process that runs again finds r4-r11, lr, its stack pointer and its stack as it left them. */
  lemma ContextIsolation(states: seq<Kernel>, events: seq<Event>, i: nat, j: nat)
    requires IsRun(states, events) && SchedulingInvariant(states[0]) && StackInvariant(states[0])
    requires i <= j < |states| && CurrentReady(states[i]) && CurrentReady(states[j])
    requires states[i].processes[states[i].current].pid == states[j].processes[states[j].current].pid
    requires UndisturbedUntil(states, events, i, j, states[i].processes[states[i].current].pid)
    ensures states[j].cpu == states[i].cpu
    ensures SameStackAbove(states[i].mem, states[j].mem, states[i].cpu.psp, states[i].processes[states[i].current])
  {
    hide Enabled, Next, StackInvariant, UndisturbedUntil;
    ContextKept(states, events, i, j, states[i].current, states[j].current);
  }

  /** The first time a new process runs, it starts on exactly the frame its constructor made. */
  lemma FirstResume(states: seq<Kernel>, events: seq<Event>, i: nat, j: nat)
    requires IsRun(states, events) && SchedulingInvariant(states[0]) && StackInvariant(states[0])
    requires i < j < |states| && events[i].Create? && CurrentReady(states[j])
    requires states[j].processes[states[j].current].pid == states[i].nextPid
    requires UndisturbedUntil(states, events, i + 1, j, states[i].nextPid)
    ensures var e, psp := events[i], events[i].stack + events[i].size - HARDWARE_FRAME;
      && states[j].cpu == Cpu([0, 0, 0, 0, 0, 0, 0, 0], RETURN_TO_THREAD_MODE_PSP, psp)
      && LoadWords(states[j].mem, psp, 8) == [e.arg, 0, 0, 0, 0, e.exitHandler, e.entry, DEFAULT_PSR]
  {
    hide StackInvariant, UndisturbedUntil, KeepsOff, LoadWord, StoreWords, InitialStack, RestoreContext;
    var m := |states[i].processes|;
    SchedulingAlways(states, events, i);
    CreatedContext(states[i], events[i]);
    assert states[i + 1].processes[m] == NewProcess(states[i], events[i].stack, events[i].size);
    ContextKept(states, events, i + 1, j, m, states[j].current);
    var psp := events[i].stack + events[i].size - HARDWARE_FRAME;
    assert LoadWords(states[j].mem, psp, 8) == LoadWords(states[i + 1].mem, psp, 8);
  }
}
