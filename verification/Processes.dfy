// The processor's saved registers and memory, the processes with their stacks in it, and the list of
// processes.

module Processes {
  import opened Sequences
  import opened Words
  import opened KernelSpec

  /** The registers a context switch moves, and the memory it moves them to and from. */
  class Core {
    var mem: map<int, Word>
    var registers: seq<Word>  // r4-r11
    var lr: Word
    var psp: int

    /** Writes word `i` of the block at `base`, known to hold `ws`. */
    method Put(base: int, i: nat, v: Word, ghost was: map<int, Word>, ghost ws: seq<Word>)
      returns (ghost now: seq<Word>)
      requires i < |ws| && mem == StoreWords(was, base, ws)
      modifies this`mem
      ensures now == ws[i := v] && mem == StoreWords(was, base, now)
    {
      mem := mem[base + 4 * i := v];
      now := ws[i := v];
      Restored(was, base, ws, i, v);
    }

    /** A new block of zeros. */
    method Allocate(base: int, words: nat)
      modifies this`mem
      ensures mem == StoreWords(old(mem), base, Zeros(words))
    {
      var i := 0;
      while i < words
        invariant i <= words && mem == StoreWords(old(mem), base, Zeros(i))
      {
        assert Zeros(i + 1)[..i] == Zeros(i);
        mem := mem[base + 4 * i := 0];
        i := i + 1;
      }
    }

    /** `stmdb r0!, {r4-r11, lr}` */
    method StoreFrame(r0: int) returns (r: int)
      requires |registers| == 8
      modifies this`mem
      ensures r == r0 - SOFTWARE_FRAME
      ensures mem == StoreWords(old(mem), r, registers + [lr])
    {
      r := r0 - SOFTWARE_FRAME;
      ghost var ws := registers + [lr];
      var i := 0;
      while i < 8
        invariant i <= 8 && mem == StoreWords(old(mem), r, ws[..i])
      {
        assert ws[..i + 1][..i] == ws[..i];
        mem := mem[r + 4 * i := registers[i]];
        i := i + 1;
      }
      mem := mem[r + 32 := lr];
      assert ws[..8] == ws[..|ws| - 1];
    }

    /** `ldmia r0!, {r4-r11, lr}` and `msr psp, r0` */
    method LoadFrame(r0: int)
      modifies this`registers, this`lr, this`psp
      ensures Cpu(registers, lr, psp) == RestoreContext(mem, r0)
    {
      registers := [];
      while |registers| < 8
        invariant |registers| <= 8 && forall j :: 0 <= j < |registers| ==> registers[j] == LoadWord(mem, r0 + 4 * j)
      {
        registers := registers + [LoadWord(mem, r0 + 4 * |registers|)];
      }
      lr := LoadWord(mem, r0 + 32);
      psp := r0 + SOFTWARE_FRAME;
      assert registers == LoadWords(mem, r0, 8);
    }
  }

  lemma {:induction false} Restored(mem: map<int, Word>, a: int, ws: seq<Word>, i: nat, v: Word)
    requires i < |ws|
    ensures StoreWords(mem, a, ws)[a + 4 * i := v] == StoreWords(mem, a, ws[i := v])
  {
    var n := |ws| - 1;
    if i < n {
      Restored(mem, a, ws[..n], i, v);
      assert ws[i := v][..n] == ws[..n][i := v];
      assert ws[i := v][n] == ws[n];
      assert StoreWords(mem, a, ws)[a + 4 * i := v] == StoreWords(mem, a, ws[..n])[a + 4 * i := v][a + 4 * n := ws[n]];
    } else {
      assert ws[i := v][..n] == ws[..n];
      assert StoreWords(mem, a, ws)[a + 4 * i := v] == StoreWords(mem, a, ws[..n])[a + 4 * i := v];
    }
  }

  class ArmProcess {
    const pid: nat
    const stack: int
    const size: nat
    var state: State
    var locks: seq<Word>
    var sp: int

    function View(): Process
      reads this
    {
      Process(pid, state, locks, stack, size, sp)
    }

    /** Zeroes the stack at `base`, marks its end and lays out the frame that the first resume pops. */
    constructor (core: Core, pid: nat, base: int, entry: Word, size: nat, arg: Word, exitHandler: Word)
      requires size % 4 == 0 && size >= 4 + SOFTWARE_FRAME + HARDWARE_FRAME
      modifies core`mem
      ensures View() == Process(pid, Ready, [], base, size, base + size - SOFTWARE_FRAME - HARDWARE_FRAME)
      ensures core.mem == StoreWords(old(core.mem), base, InitialStack(size / 4, entry, arg, exitHandler))
    {
      this.pid, this.stack, this.size := pid, base, size;
      state, locks := Ready, [];
      sp := base + size - HARDWARE_FRAME - SOFTWARE_FRAME;
      new;
      var w := size / 4;
      core.Allocate(base, w);
      FillFrame(core, base, w, entry, arg, exitHandler, old(core.mem));
    }

    static method FillFrame(core: Core, base: int, w: nat, entry: Word, arg: Word, exitHandler: Word,
        ghost was: map<int, Word>)
      requires w >= 18 && core.mem == StoreWords(was, base, Zeros(w))
      modifies core`mem
      ensures core.mem == StoreWords(was, base, InitialStack(w, entry, arg, exitHandler))
    {
      hide StoreWords;
      ghost var ws := core.Put(base, 0, CANARY, was, Zeros(w));
      var hardware := w - 8;
      ws := core.Put(base, hardware, arg, was, ws);
      ws := core.Put(base, hardware + 1, 0, was, ws);
      ws := core.Put(base, hardware + 2, 0, was, ws);
      ws := core.Put(base, hardware + 3, 0, was, ws);
      var i := 0;
      while i < 8  // r4-r11
        invariant i <= 8 && |ws| == w && core.mem == StoreWords(was, base, ws)
        invariant ws == Zeros(w)[0 := CANARY][w - 8 := arg]
      {
        ws := core.Put(base, w - 17 + i, 0, was, ws);
        i := i + 1;
      }
      ws := core.Put(base, hardware + 7, DEFAULT_PSR, was, ws);
      ws := core.Put(base, hardware + 5, exitHandler, was, ws);
      ws := core.Put(base, hardware + 6, entry, was, ws);
      ws := core.Put(base, w - 9, RETURN_TO_THREAD_MODE_PSP, was, ws);
      assert ws == InitialStack(w, entry, arg, exitHandler);
    }

    /** The saved stack pointer, or null once the word at the stack's end has been overwritten. */
    method CurrentStackPointer(core: Core) returns (r: int)
      ensures r == StackPointer(core.mem, View())
    {
      if LoadWord(core.mem, stack) != CANARY {
        return 0;
      }
      return sp;
    }

    method SetCurrentStackPointer(stackPointer: int)
      modifies this`sp
      ensures View() == old(View()).(sp := stackPointer)
    {
      sp := stackPointer;
    }

    /** Where the semaphore stands in the list of locks, or the list's end. */
    method FindLock(semaphore: Word) returns (i: nat)
      ensures i == IndexOf(locks, semaphore)
    {
      i := 0;
      while i < |locks| && locks[i] != semaphore
        invariant i <= |locks| && forall j :: 0 <= j < i ==> locks[j] != semaphore
      {
        i := i + 1;
      }
    }

    method Block(semaphore: Word)
      modifies this
      ensures View() == KernelSpec.Block(old(View()), semaphore)
    {
      var lock := FindLock(semaphore);
      if lock == |locks| {
        locks := locks + [semaphore];
      }
      state := Blocked;
    }

    method Unblock(semaphore: Word)
      modifies this
      ensures View() == KernelSpec.Unblock(old(View()), semaphore)
    {
      var lock := FindLock(semaphore);
      if lock != |locks| {
        locks := locks[..lock] + locks[lock + 1..];
        if |locks| == 0 {
          state := Ready;
        }
      }
    }
  }

  // ---------- The list of processes

  function Views(ps: seq<ArmProcess>): (vs: seq<Process>)
    reads ps
    ensures |vs| == |ps|
    ensures forall i :: 0 <= i < |ps| ==> vs[i] == ps[i].View()
  {
    seq(|ps|, i requires 0 <= i < |ps| reads ps => ps[i].View())
  }

  /** The position of the first process with the identifier, or the list's length. */
  function FirstPid(ps: seq<Process>, pid: nat): (i: nat)
    ensures i <= |ps|
    ensures i < |ps| ==> ps[i].pid == pid
    ensures forall j :: 0 <= j < i ==> ps[j].pid != pid
  {
    if ps == [] || ps[0].pid == pid then 0 else 1 + FirstPid(ps[1..], pid)
  }

  class ProcessManager {
    var processes: seq<ArmProcess>
    var nextPid: nat

    constructor ()
      ensures processes == [] && nextPid == 1
    {
      processes, nextPid := [], 1;
    }

    method CreateProcess(core: Core, base: int, entry: Word, size: nat, arg: Word, exitHandler: Word)
      returns (p: ArmProcess)
      requires size % 4 == 0 && size >= 4 + SOFTWARE_FRAME + HARDWARE_FRAME
      modifies this, core`mem
      ensures fresh(p) && processes == old(processes) + [p] && nextPid == old(nextPid) + 1
      ensures p.View() ==
        Process(old(nextPid), Ready, [], base, size, base + size - SOFTWARE_FRAME - HARDWARE_FRAME)
      ensures core.mem == StoreWords(old(core.mem), base, InitialStack(size / 4, entry, arg, exitHandler))
    {
      p := new ArmProcess(core, nextPid, base, entry, size, arg, exitHandler);
      nextPid := nextPid + 1;
      processes := processes + [p];
    }

    /** Erases the first process with the identifier, if there is one. */
    method DeleteProcess(pid: nat)
      modifies this`processes
      ensures var i := FirstPid(old(Views(processes)), pid);
        processes == if i == |old(processes)| then old(processes) else old(processes[..i] + processes[i + 1..])
    {
      var i := 0;
      while i < |processes| && processes[i].pid != pid
        invariant i <= |processes| && forall j :: 0 <= j < i ==> processes[j].pid != pid
      {
        i := i + 1;
      }
      assert i == FirstPid(Views(processes), pid) by {
        assert i < |processes| ==> Views(processes)[i].pid == pid;
        assert forall j :: 0 <= j < i ==> Views(processes)[j].pid == processes[j].pid;
      }
      if i != |processes| {
        processes := processes[..i] + processes[i + 1..];
      }
    }
  }
}
