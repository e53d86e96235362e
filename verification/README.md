# MSOS verification model

MSOS is a small operating system for Cortex-M microcontrollers. This project models the five parts of
it that carry the most state and arithmetic, in Dafny, and proves what each of them promises.

**Modules (Words, Elf, ModuleFormat, ImageLayout, LinkSpec, Generator, LotProperties, PatchProperties,
Acceptance, LoadSpec, Loader, LoadProperties, Linking, LinkLimits).** A script links an ELF file into an
`MSDL` image: it classifies symbols, gives each R_ARM_GOT_BREL relocation (section 4.6 of ELF for the ARM Architecture, ARM IHI 0044) a slot in an offset
table (LOT), patches the code words and serialises the tables. The dynamic linker parses the image, places
text, data and bss and fills the LOT. `Linking.LinkingPreservesMeaning` connects the two programs: what
compiled code reads through r9 is the run-time address of the symbol its relocation named. What both
sides rely on is `Linking.Linkable`: one exported symbol, main in .text, no GOT reference to main, code words
that do not overlap, and no data relocations. For the number of exports and the references to main the exact
conditions are proved (`Linking.CodeFoundIff`, `LinkLimits`). `Acceptance.LinksIff` says which files the
script takes, `ImageLayout` what stands at which byte of an image, and `LoadProperties` what the loader makes
of any image at all.

**Kernel (KernelSpec, KernelInvariants, Semaphores, ContextIsolation, BoundedWaiting, Boot; Processes,
Scheduler, Armv7m).** Processes with stacks in one memory, a scheduler cursor, semaphores and the registers a context
switch saves form a step system: execution of the current process, creation, exit, wait, post, and
switches for a yield or at the end of a time slice. Each handler is one step, because PendSV has the
lowest priority. The theorems are about every run, and `Boot.ReachableStates` about every state reachable
from the start of the root process. The classes in `Processes`, `Scheduler` and `Armv7m`
carry the same operations out on objects, memory words and registers, and each is proved to take the
kernel's state where the step says. A blocked wait is a step that suspends its caller, which waits again when
it is resumed. Frames follow sections B1.5.6 and B1.5.8 of the ARMv7-M Architecture Reference Manual.

**Terminal (Terminal, TerminalDriver, TerminalProperties).** The receive handler of the serial driver
echoes, erases and queues what is typed; `_fgets` edits the queued bytes again into a bounded buffer. The
two editors are proved to agree, with the terminal screen as the judge.

**Numbers (Numbers, Printer, Format).** Two integer printers, one that reverses the number and one that
reverses the text, against canonical positional notation; the printf loop against a recursive interpreter.

**Files and text (CStrings, Tokens, Tokenizers, CommandLine, Directory, Readdir, RamFs, Descriptors).**
Tokenizers and a whole command line against the maximal runs of a text, ordered listings, the readdir
cursor that finds its place by name, file handles, and the descriptor bitmap.

Operations that work in place are methods over classes and arrays, proved against functions; the theorems
are about those functions. Undefined behaviour of the original (a store outside a buffer, a signed
overflow, a missing argument) is an outcome of its own, so that "it does not happen" is something proved.

Findings. Where a promise does not hold for every input, the exact condition is proved, and a lemma has a
literal input:

- A post wakes waiters only if the semaphore's *address*, taken as a signed number, is at least 1
  (src/arch/armv7-m/semaphore.s:54 compares r0): `KernelInvariants.PostKeepsWaitersAtZero`; a run from boot in
  `Boot.LostWakeup`.
- An exit moves the cursor on and then schedules from there, so the process right behind is passed over unless
  no other is ready: `BoundedWaiting.ExitPassesOver`; a run from boot in `Boot.PassedOverRun`.
- GOT relocations of main are counted, but neither written nor given room. Every external offset is shifted
  (`Linking.OffsetsReachIffMainUnreferenced`; `LinkLimits.ImportMisses`), and the indices outgrow the LOT
  (`LinkLimits.IndicesFitIff`), up to a store outside it (`LinkLimits.LocalsCorruptIff`;
  `LinkLimits.VariableCorrupts`).
- A second GOT relocation of main makes the script fail: `Acceptance.LinksIff`; `MainTwice`.
- A module that failed to load stays listed. Loaded again in place its code gets the LOT of the failed one:
  `LoadSpec.OwnLotIff`, `RetriedInPlace`; `StaleLot`.
- Unlocked by a process that does not hold it, a mutex lets a second one in: `Semaphores.TokenKeptIff`,
  `UnlockedByAnother`; a run from boot in `Boot.StolenMutex`.
- A raw backspace or a zero byte puts the two line editors out of step: `TerminalProperties.EditorsAgree`;
  `RawBackspace`, `ZeroByte`.
- A full buffer makes `_fgets` lose a byte and return a line too many: `TerminalProperties.FgetsReadsLinesIff`;
  `OverlongLine`. With a count of 1 it writes past its buffer: `FgetsStaysInside`;
  `CountOfOne`.
- The serial printer garbles numbers whose digit reversal does not fit the type:
  `Numbers.PrintedIsCanonicalIff`; `DecimalGarbled`.
- printf counts literal characters, not those of the arguments, and the last piece twice when a directive ends
  it: `Format.CountIsWrittenIff`, `CountIsLiteralsIff`; `DirectiveAtTheEnd`.
- readdir never ends when a name comes twice, which `create` does not prevent:
  `Readdir.DirectoryReadsOnceIff`; `SamePathTwice`.
- The splitter fails on a text of delimiters only: `Tokens.FailsIff`; `OnlyBlanks`. The last argument of a
  command keeps the blanks behind it: `CommandLine.ArgumentStrings`; `BlankBehind`.

## Model

| member | source | states |
|---|---|---|
| Elf.WithLocalization | scripts/generate_binary.py:53-77 | the symbols picked for a localization are exactly the listed symbols that classify so |
| Generator.ProcessSymbolsVisibility | scripts/generate_binary.py:53-77 | the classification loop computes the map in which a later symbol of the same name wins |
| Elf.VisibilityFrom | scripts/generate_binary.py:53-77 | every localization in the map is that of a listed symbol with the name |
| Elf.VisibilityAt | scripts/generate_binary.py:53-77 | in a table without repeated names every listed symbol is in the map under its own localization |
| Elf.LocalizedIff | scripts/generate_binary.py:53-62 | a name has a localization iff a symbol that is not a file name has it and it is none of the empty name, $t and $d |
| Elf.LocalizedAs | scripts/generate_binary.py:64-77 | main, and global symbols that are not hidden, are external where undefined and exported where defined; every other symbol is internal |
| Generator.SearchRelocation | scripts/generate_binary.py:91-95 | true iff some site already names the symbol |
| Generator.GetIndexOfRelocation | scripts/generate_binary.py:97-101 | index of the first site that names the symbol, or -1 |
| Generator.ExtractRelocations | scripts/generate_binary.py:104-144 | the loop refines the recursive index assignment, error for an unknown relocation kind included |
| Acceptance.ExtractsIff | scripts/generate_binary.py:104-144 | extraction succeeds iff no relocation has an unsupported kind and every GOT relocation names a symbol with a localization; calls and jumps are skipped |
| Acceptance.FirstUnknown | scripts/generate_binary.py:104-144 | otherwise the first relocation that is not so decides between the two errors |
| Acceptance.LinksIff | scripts/generate_binary.py:227-533 | the generator takes an ELF file iff sections follow each other from 0, every relocation is known, patched words lie in the code, main is named once at most, local symbols lie in the module, sizes, counts and offsets fit, and the API file has the codes; misplaced sections are reported first |
| Acceptance.LinkFails | scripts/generate_binary.py:104-144 | with the sections in place the first unknown relocation is the error of the whole script |
| Acceptance.MainTwice | scripts/generate_binary.py:128-136 | a file with two GOT relocations of main is refused |
| LotProperties.IndicesNameSlots | scripts/generate_binary.py:104-144 | without GOT references to main, every site gets the slot of its own symbol, repeated externals share one slot, and the entries of the image name every index from 0 up exactly once |
| LotProperties.SlotsAreTargets | scripts/generate_binary.py:104-144 | the slot table holds exactly the targets of the GOT relocations |
| LinkLimits.IndicesFitIff | scripts/generate_binary.py:104-144 | the indices handed out fit the LOT that the loader allocates iff no GOT relocation names main |
| Generator.CollectFirstSites | scripts/generate_binary.py:367-378 | of several sites of one symbol exactly the first gets an entry |
| LotProperties.FirstSitesNames | scripts/generate_binary.py:367-378 | collecting first sites loses no symbol |
| Generator.PatchOffsets | scripts/generate_binary.py:349-353 | in-place patching of the code equals the specified fold, and fails iff a word lies outside |
| PatchProperties.PatchedWords | scripts/generate_binary.py:349-353 | with disjoint words every patched word reads four times its index, and all other bytes are unchanged |
| PatchProperties.PatchesOfRelocations | scripts/generate_binary.py:104-144 | every site that needs a slot is patched with the slot of its own symbol, nothing else is patched, and disjoint sites give consistent patches |
| Generator.WriteExternalRelocations | scripts/generate_binary.py:444-458 | the loop emits the specified external entries or the first error |
| Generator.WriteLocalRelocations | scripts/generate_binary.py:464-479 | the loop emits index and section packed together with the section-relative value, or the first error |
| Generator.WriteSymbols | scripts/generate_binary.py:501-527 | the loop emits the symbol table or the first error: no code, or a value that does not fit |
| Generator.AssembleImage | scripts/generate_binary.py:296-533 | the bytes appended table by table are the serialised module |
| Generator.GenerateModule | scripts/generate_binary.py:227-535 | without data relocations the generator produces the image of the linked module, or the same error |
| ModuleFormat.HeaderRoundTrip | include/msos/dynamic_linker/module_header.hpp:27-61 | the loader reads back every field of the 24-byte header the generator packed |
| ModuleFormat.EntriesRoundTrip | src/dynamic_linker/relocation.cpp:26-46 | a relocation table in memory is read back entry by entry |
| ModuleFormat.SymbolsRoundTrip | src/dynamic_linker/symbol.cpp:45-63 | walking the symbol table in steps of one fixed-size entry reads back every symbol |
| ModuleFormat.ImageRoundTrip | scripts/generate_binary.py:296-533 | parsing the serialised image recovers header, relocation table, symbol table, padding position, code and data |
| ImageLayout.LowestByteFirst | scripts/generate_binary.py:298 | a packed word is its bytes in the order of their weights |
| ImageLayout.HeaderBytes | scripts/generate_binary.py:296-410 | MSDL, then code, data and bss size as words, then four counts as half-words, each at its offset |
| ImageLayout.EntryBytes | scripts/generate_binary.py:457 | index at 0, offset at 4 |
| ImageLayout.SymbolBytes | scripts/generate_binary.py:516 | 12 at 0, section at 2, offset at 4, code at 8 |
| ImageLayout.EntryInTable | scripts/generate_binary.py:444-487 | entry j is the eight bytes from 8j on |
| ImageLayout.SymbolInTable | scripts/generate_binary.py:499-527 | symbol j is the twelve bytes from 12j on |
| ImageLayout.ImageInOrder | scripts/generate_binary.py:296-533 | header, entries, symbols, padding, code and data follow each other and there is nothing else |
| ImageLayout.PaddingIsZero | scripts/generate_binary.py:529-530 | fewer than sixteen zeros, up to a multiple of sixteen |
| ImageLayout.LocalEntryMeans | scripts/generate_binary.py:461-479 | an even index for .text and an odd one for .data and .bss, twice the slot; values in the data block count from the end of the code |
| ImageLayout.SymbolEntryMeans | scripts/generate_binary.py:499-527 | a symbol entry has section 0, 1 or 2, and the code of its name, or that of undefined for an exported symbol other than main |
| Linking.OffsetReachesSymbol | src/dynamic_linker/relocation.cpp:31-36 | a self-relative offset lands on its own symbol iff the generator counted no more relocations than it wrote |
| Linking.OffsetsReachIffMainUnreferenced | scripts/generate_binary.py:401-403 | every external offset lands on its own symbol iff no GOT relocation names main |
| LinkLimits.ImportMisses | scripts/generate_binary.py:401-403 | a file, accepted by the generator, whose one external offset is eight too large and whose slot is outside the LOT |
| LinkLimits.LocalsCorruptIff | src/dynamic_linker/dynamic_linker.cpp:163-196 | a module that reaches local symbols only loads into a store outside the LOT iff a GOT relocation of main stands before one of a local symbol |
| LinkLimits.VariableLinks | scripts/generate_binary.py:227-535 | the generator accepts a file whose code takes the addresses of main and of a variable |
| LinkLimits.VariableCorrupts | src/dynamic_linker/dynamic_linker.cpp:172-196 | and every image of it loads into a store outside the LOT |
| Linking.AlignShift | src/dynamic_linker/dynamic_linker.cpp:69 | the two 16-byte round-ups agree iff the image base is 16-aligned |
| Linking.CodeFound | src/dynamic_linker/dynamic_linker.cpp:63-70 | with one exported symbol the loader finds the code where the generator put it iff the base is 16-aligned |
| Linking.CodeFoundIff | include/msos/dynamic_linker/module_header.hpp:42-45 | in an aligned image the code is found iff one symbol is exported, or none or two are and the padding hides the difference |
| Linking.OnlyMainCanBeExported | scripts/generate_binary.py:508-514 | without a code for "undefined" a linked module exports nothing but main |
| Loader.FindSymbolAt | src/dynamic_linker/dynamic_linker.cpp:128-140 | first symbol with the code in a table of fixed-size entries |
| LoadSpec.FindSymbolFirst | src/dynamic_linker/dynamic_linker.cpp:128-140 | the search ends at the first symbol that has the code, and finds nothing iff none has it |
| Loader.FindEnvironmentSymbol | src/dynamic_linker/dynamic_linker.cpp:260-270 | first environment entry with the code |
| LoadSpec.FindAddress | src/dynamic_linker/dynamic_linker.cpp:260-270 | the address of the first environment entry with the code; none iff no entry has it |
| Loader.ProcessExternalRelocations | src/dynamic_linker/dynamic_linker.cpp:216-241 | the loop fills the LOT as specified, goes on after a missing symbol, and reports it |
| LoadProperties.ExternalPhase | src/dynamic_linker/dynamic_linker.cpp:216-241 | for any table: a store misses the LOT iff a listed symbol has a slot outside it; otherwise complete iff all symbols are listed, and every slot holds the address of the last listed symbol for it |
| Loader.ProcessLocalRelocations | src/dynamic_linker/dynamic_linker.cpp:172-196 | the loop fills local slots with text- or data-relative addresses as specified |
| LoadProperties.LocalPhase | src/dynamic_linker/dynamic_linker.cpp:172-193 | for any table: a store misses the LOT iff half of an index is no slot; otherwise every slot holds what the last entry for it says, by the parity of its index |
| Loader.ProcessDataRelocations | src/dynamic_linker/dynamic_linker.cpp:243-257 | the loop stores relocated words in the data block as specified |
| LoadProperties.DataPhase | src/dynamic_linker/dynamic_linker.cpp:243-256 | for any table: a store misses the block iff an index lies outside it; otherwise every word is the data address behind the offset of the last entry for it, or unchanged |
| Loader.LoadedModule.AllocateText | src/dynamic_linker/module.cpp:85-89 | text of code size, or failure |
| Loader.LoadedModule.AllocateData | src/dynamic_linker/module.cpp:91-95 | data and bss in one block, or failure |
| Loader.LoadedModule.AllocateLot | src/dynamic_linker/dynamic_linker.cpp:163-170 | one slot per external and local relocation, contents unspecified |
| Loader.PlaceText | src/dynamic_linker/dynamic_linker.cpp:77-89 | text copied, or used where it lies |
| Loader.PlaceData | src/dynamic_linker/dynamic_linker.cpp:91-98 | initialised data followed by zeros |
| Loader.SetStart | src/dynamic_linker/dynamic_linker.cpp:100-104 | start address from the symbol of code 1, if any |
| Loader.DynamicLinker.LoadModule | src/dynamic_linker/dynamic_linker.cpp:53-126 | loading has the specified outcome in every error order; a module that fails after the cookie stays listed, with the text range and LOT it had reached, behind the ranges already listed |
| LoadProperties.LoadErrors | src/dynamic_linker/dynamic_linker.cpp:57-110 | each allocation error, and the cookie error, is reported iff the steps before it went well and its own did not |
| LoadProperties.ExternalError | src/dynamic_linker/dynamic_linker.cpp:112-117 | the relocation error is reported iff some symbol is not listed and no listed one has a slot outside the LOT |
| LoadProperties.CookieBytes | src/dynamic_linker/dynamic_linker.cpp:57-61 | the cookie is right iff the first four bytes are M, S, D and L |
| LoadProperties.LoadedRange | src/dynamic_linker/dynamic_linker.cpp:73-126 | a module that loads is listed with the range of its own text and its own LOT |
| LoadProperties.RejectedRange | src/dynamic_linker/dynamic_linker.cpp:76-110 | a rejected one with the text it got, if any, and no LOT |
| Loader.DynamicLinker.UnloadModule | src/dynamic_linker/dynamic_linker.cpp:42-51 | removes exactly the given module |
| Loader.DynamicLinker.GetLotForModuleAt | src/dynamic_linker/dynamic_linker.cpp:142-156 | LOT of the first module whose text holds the address, or 0xffffffff |
| LoadProperties.InRangeIff | src/dynamic_linker/dynamic_linker.cpp:146-148 | a module holds the addresses from its first text byte to its last, and none if they wrap around |
| LoadProperties.LotOfNone | src/dynamic_linker/dynamic_linker.cpp:153-154 | 0xffffffff where no module holds the address |
| LoadSpec.LotOfOwnModule | src/dynamic_linker/dynamic_linker.cpp:142-156 | with text ranges that do not both hold the address, a program counter gets its own module's LOT |
| LoadSpec.OwnLotIff | src/dynamic_linker/dynamic_linker.cpp:142-156 | a program counter in a module gets that module's own LOT iff the first listed module that holds it is not an earlier one with another LOT |
| LoadSpec.RetriedInPlace | src/dynamic_linker/dynamic_linker.cpp:73-93 | an image loaded in place that failed and then loads gets the LOT of the failed module, its own iff that is the same |
| LoadSpec.StaleLot | src/dynamic_linker/dynamic_linker.cpp:89-93 | eight bytes of code, first without room for data: loaded again, they are given LOT address 0 |
| Linking.ExternalsFilled | src/dynamic_linker/dynamic_linker.cpp:216-241 | all stores of the external phase hit the LOT, each found symbol is in its slot, and the phase succeeds iff all are found |
| Linking.LocalsFilled | src/dynamic_linker/dynamic_linker.cpp:172-196 | each local slot gets its address and no other slot changes |
| Linking.LotFilled | src/dynamic_linker/dynamic_linker.cpp:112-120 | after both phases every slot holds the run-time address of its target |
| Linking.FoundIffComplete | src/dynamic_linker/dynamic_linker.cpp:112-117 | the external phase succeeds iff every relocated external symbol is in the environment |
| Linking.LinkingPreservesMeaning | src/dynamic_linker/dynamic_linker.cpp:53-126 | main theorem: loading a generated image succeeds iff the environment is complete, and then every GOT site of an external or local symbol reads a LOT slot holding the run-time address of the symbol its relocation names, other code bytes are as compiled, data is as in the ELF file and bss is zero |
| Linking.EveryGotSiteReads | src/dynamic_linker/dynamic_linker.cpp:53-126 | in a linkable file that is every R_ARM_GOT_BREL relocation: each names an external or a local symbol, and reads its address |
| Linking.ModuleStartsAtMain | src/dynamic_linker/dynamic_linker.cpp:72-104 | the start address is text base plus the value of main |
| Linking.DataSymbolsLand | src/dynamic_linker/dynamic_linker.cpp:97-98 | in a loaded module the word read through a GOT site of a .data symbol is the address of that symbol's own initial bytes, of a .bss symbol an address in the zeroed tail |
| KernelInvariants.ScheduleSelects | src/arch/armv7-m/normal_scheduler.cpp:64-82 | the scheduler selects a ready process and no process between cursor and choice is ready |
| Scheduler.LoopEndsIff | src/arch/armv7-m/normal_scheduler.cpp:71-80 | the scheduling loop ends iff some process is ready or running |
| Scheduler.SettlesIsSchedule | src/arch/armv7-m/normal_scheduler.cpp:71-80 | among ready and blocked processes the loop's result is the specified choice |
| Scheduler.SettlesMeans | src/arch/armv7-m/normal_scheduler.cpp:64-82 | the loop stops at the first ready or running process behind the cursor, on a ready one or just before a running one |
| Scheduler.CursorStaysLive | src/arch/armv7-m/normal_scheduler.cpp:55-62 | after a deletion the cursor names a live process iff it did not name the deleted one or another is left |
| Scheduler.NormalScheduler.GetNext | src/arch/armv7-m/normal_scheduler.cpp:49-53 | the node after the cursor, or the first |
| Scheduler.NormalScheduler.ScheduleNext | src/arch/armv7-m/normal_scheduler.cpp:64-82 | terminates with a ready or running process in the list, and the cursor is where the specification puts it |
| Scheduler.NormalScheduler.DeleteProcess | src/arch/armv7-m/normal_scheduler.cpp:55-62 | one process leaves the list and the cursor moves on only if it named it |
| Scheduler.NormalScheduler.UnblockAll | src/arch/armv7-m/normal_scheduler.cpp:84-90 | every process in the list is unblocked, no other object changes |
| Processes.ProcessManager.CreateProcess | include/msos/kernel/process/process_manager.hpp:46-50 | a fresh ready process at the end of the list, on an initialised stack |
| Processes.ProcessManager.DeleteProcess | include/msos/kernel/process/process_manager.hpp:52-62 | exactly the first process with the identifier leaves the list |
| Processes.ArmProcess.constructor | src/arch/armv7-m/arm_process.cpp:67-105 | memory afterwards is the canary, zeros and the two frames laid out register by register |
| Processes.ArmProcess.CurrentStackPointer | src/arch/armv7-m/arm_process.cpp:133-143 | the saved pointer, or null once the canary is gone |
| Processes.ArmProcess.Block | src/arch/armv7-m/arm_process.cpp:150-158 | semaphore in the list once, state blocked |
| Processes.ArmProcess.Unblock | src/arch/armv7-m/arm_process.cpp:160-172 | semaphore removed; ready only when the list empties by it |
| KernelInvariants.UnblockAgrees | src/arch/armv7-m/arm_process.cpp:160-172 | unblocking removes exactly this semaphore and keeps state and list in agreement; a ready process is unchanged |
| KernelInvariants.BlockLists | src/arch/armv7-m/arm_process.cpp:150-158 | blocking lists the semaphore once, behind those already listed |
| KernelInvariants.UnblockTakesBack | src/arch/armv7-m/arm_process.cpp:150-172 | unblocking a process that was blocked while ready restores it |
| Processes.Core.StoreFrame | src/arch/armv7-m/context_switch.s:30-31 | the nine registers are stored below the stack pointer, lowest register lowest |
| Processes.Core.LoadFrame | src/arch/armv7-m/context_switch.s:24-25 | registers and psp are those the frame at the address describes |
| Armv7m.Machine.GetNextTask | src/arch/armv7-m/context_switch.cpp:62-71 | schedules and returns the chosen process's stack pointer |
| Armv7m.Machine.SwitchToNextTask | src/arch/armv7-m/context_switch.s:22-26 | the kernel state takes the specified switch |
| Armv7m.Machine.StoreAndSwitchToNextTask | src/arch/armv7-m/context_switch.s:29-33 | the kernel state takes the Switch step |
| Armv7m.Machine.SemaphoreWait | src/arch/armv7-m/semaphore.s:22-41 | after any number of failed exclusive stores the kernel state takes the Wait step once |
| KernelInvariants.WaitTakes | src/arch/armv7-m/semaphore.s:31-41 | a wait above zero takes one off the semaphore and does nothing else |
| KernelInvariants.WaitBlocks | src/arch/armv7-m/semaphore.cpp:27-39 | a wait at zero blocks the process on the semaphore, another ready one runs, and nothing else changes |
| Armv7m.Machine.SemaphorePost | src/arch/armv7-m/semaphore.s:44-58 | after any number of failed exclusive stores the kernel state takes the Post step once |
| Armv7m.Machine.Block | src/arch/armv7-m/semaphore.cpp:27-39 | the current process is blocked, its context saved, and the next one loaded |
| Armv7m.Machine.ProcessExit | src/syscalls/syscalls.cpp:298-313 | the kernel state takes the Exit step: nothing of the exiting process is saved |
| Armv7m.Machine.Spawn | src/arch/armv7-m/spawn.cpp:183-188 | the kernel state takes the Create step |
| Armv7m.Mutex.constructor | src/kernel/synchronization/mutex.cpp:26-28 | a semaphore of its own with value one |
| Armv7m.Mutex.Lock | src/kernel/synchronization/mutex.cpp:30-33 | a Wait step on the mutex's semaphore |
| Armv7m.Mutex.Unlock | src/kernel/synchronization/mutex.cpp:35-38 | a Post step on the mutex's semaphore |
| KernelInvariants.SchedulingStep | src/arch/armv7-m/svc_handler.cpp:36-58 | every step keeps: the current process is ready, blocked iff waiting, never running or killed, pids ascend |
| KernelInvariants.SchedulingAlways | src/arch/armv7-m/svc_handler.cpp:36-58 | the same in every state of every run |
| KernelInvariants.PostWakes | src/arch/armv7-m/semaphore.s:44-58 | a post leaves no process waiting for the semaphore iff 1 <= address < 2^31 or none was; other semaphores' waiters are untouched |
| KernelInvariants.PostReadies | src/arch/armv7-m/semaphore.cpp:41-48 | such a post makes ready a process that waited for nothing else |
| KernelInvariants.PostKeepsWaitersAtZero | src/arch/armv7-m/semaphore.s:54-57 | a post keeps every waited-for semaphore at zero iff 1 <= address < 2^31 or nobody waits |
| KernelInvariants.NoLostWakeup | src/arch/armv7-m/semaphore.cpp:41-48 | with semaphores below 2^31, in every state of every run a process is blocked iff its list is not empty, the list has no duplicates, and every semaphore in it is at zero |
| Semaphores.Conservation | src/arch/armv7-m/semaphore.s:31-53 | at every point of every run value = initial + posts - completed waits, modulo 2^32 |
| Semaphores.WhatOverflowsLose | src/arch/armv7-m/semaphore.s:31-53 | in the integers, value = initial + posts - completed waits - 2^32 for every post that met a full counter |
| Semaphores.ExactConservation | src/arch/armv7-m/semaphore.s:31-53 | the equation holds in the integers iff no post so far met a counter at 2^32 - 1 |
| Semaphores.FewPosts | src/arch/armv7-m/semaphore.s:31-53 | so it does while initial value plus posts fit 32 bits |
| Semaphores.MutualExclusion | src/kernel/synchronization/mutex.cpp:26-38 | a mutex unlocked only by holders has holders + value = 1 in every state, so at most one process holds it |
| Semaphores.BlockedOnlyWhileHeld | src/kernel/synchronization/mutex.cpp:30-33 | a process is blocked on a mutex only while exactly one process holds it |
| Semaphores.TokenKeptIff | src/kernel/synchronization/mutex.cpp:26-38 | at every point so far the mutex's one token is in the semaphore or with its one holder, iff only holders have unlocked |
| Semaphores.UnlockedByAnother | src/kernel/synchronization/mutex.cpp:30-38 | an unlock by a process that does not hold the mutex makes it free while it is held; the next lock, however much later, goes through, and makes two holders unless the holder locks again |
| Semaphores.TwoHolders | src/kernel/synchronization/mutex.cpp:30-38 | a process that unlocks a mutex another one holds and then locks it holds it together with that one |
| Boot.StolenMutex | src/kernel/synchronization/mutex.cpp:30-38 | a run from boot of five events after which the root process and a second one both hold a mutex |
| ContextIsolation.CreatedContext | src/arch/armv7-m/arm_process.cpp:73-104 | a new process's context is zeros, thread-mode return and a hardware frame with argument, exit handler, entry and status word |
| ContextIsolation.CreatedZeros | src/arch/armv7-m/arm_process.cpp:67-105 | between the canary and the frame a fresh stack is zero |
| ContextIsolation.SavedFrame | src/arch/armv7-m/context_switch.s:30-31 | a saved context is nine words below the process stack pointer, r4 lowest and the return value highest |
| ContextIsolation.SwitchChecksCanary | src/arch/armv7-m/arm_process.cpp:133-143 | a switch loads the context at the saved stack pointer iff the stack's last word is 0xdeadbeef, and the words from address 0 on otherwise |
| ContextIsolation.StoreSaves | src/arch/armv7-m/context_switch.s:29-32 | saving keeps what every process owns: registers, stack pointer, and its stack from there up |
| ContextIsolation.SwitchRestores | src/arch/armv7-m/context_switch.s:22-26 | a switch loads the chosen process's own saved context and changes no memory |
| ContextIsolation.StacksAlways | src/arch/armv7-m/context_switch.s:21-33 | in every state of every run stacks are apart, canaries intact, and suspended frames inside their stacks |
| ContextIsolation.ContextStep | src/arch/armv7-m/context_switch.s:21-33 | no step changes registers or stack of a process, but its own execution |
| ContextIsolation.ContextKept | src/arch/armv7-m/context_switch.s:21-33 | the same over any stretch of a run with any creations, exits and preemptions |
| ContextIsolation.ContextIsolation | src/arch/armv7-m/context_switch.s:21-33 | a process that runs again finds r4-r11, lr, psp and its stack as it left them |
| ContextIsolation.FirstResume | src/arch/armv7-m/arm_process.cpp:82-104 | the first time a process runs it starts on exactly the frame its constructor made |
| Boot.BootEstablishes | src/arch/armv7-m/spawn.cpp:190-204 | starting the root process establishes every invariant the run theorems start from |
| Boot.ReachableStates | src/arch/armv7-m/svc_handler.cpp:36-58 | every state reachable from there keeps all of them, and with semaphores below 2^31 no wake-up is lost |
| Boot.LostWakeup | src/arch/armv7-m/semaphore.s:54-57 | four steps from the start of the root process to a posted semaphore at 2^31 whose waiter stays blocked |
| Boot.PassedOverRun | src/arch/armv7-m/normal_scheduler.cpp:55-62 | three steps from there to an exit after which the ready process right behind is not the one that runs |
| BoundedWaiting.ScheduleApproaches | src/arch/armv7-m/normal_scheduler.cpp:64-82 | a call that selects another process brings a ready one strictly closer |
| BoundedWaiting.ExitApproaches | src/syscalls/syscalls.cpp:298-313 | an exit brings a ready process closer unless it stood right behind the exiting one |
| BoundedWaiting.BoundedWaiting | src/arch/armv7-m/normal_scheduler.cpp:64-82 | a ready process that is not chosen stays listed and ready, and the number of scheduler calls stays below its distance plus creations plus a lap for each exit that passed it over |
| BoundedWaiting.ChosenWithinOneLap | src/arch/armv7-m/normal_scheduler.cpp:64-82 | without creations and exits a ready process runs within N - 1 calls for a list of N |
| BoundedWaiting.ExitPassesOver | src/arch/armv7-m/normal_scheduler.cpp:55-62 | after an exit the process right behind is chosen iff no third process is ready |
| TerminalDriver.UsartDriver.OnData | src/drivers/character/usart/usart_driver.cpp:49-77 | the handler echoes, counts and queues as specified, for every byte and echo setting |
| TerminalDriver.UsartDriver.Read | src/drivers/character/usart/usart_file.cpp:38-51 | takes the front of the queue, as much as is there and fits |
| TerminalDriver.Fgets | src/libc/printf.cpp:49-82 | the loop has the specified outcome, the buffer holds the text and a zero, and nothing behind the count is written |
| TerminalProperties.HandleStep | src/drivers/character/usart/usart_driver.cpp:49-77 | one typed byte keeps screen, reader and counter in step iff it is neither zero nor a raw backspace |
| TerminalProperties.EditorsAgree | src/drivers/character/usart/usart_driver.cpp:49-77 | screen, reader and counter agree after every prefix of a stream iff it has no zero byte and no raw backspace |
| TerminalProperties.RawBackspace | src/drivers/character/usart/usart_driver.cpp:70-76 | after a letter and a raw backspace the letter is on the screen, the reader has nothing and the counter is two |
| TerminalProperties.ZeroByte | src/drivers/character/usart/usart_driver.cpp:70-76 | after a zero byte the screen is empty, but the reader has a byte and the counter is one |
| TerminalProperties.FgetsEdits | src/libc/printf.cpp:55-78 | for every input and count from 2 to one above the buffer: the stored text is the edited line before the newline, or before the byte that uses up the count; no store misses the buffer |
| TerminalProperties.FgetsStaysInside | src/libc/printf.cpp:55-78 | no input makes a store miss the buffer iff the count is at least 2 and at most one above the buffer's size |
| TerminalProperties.CountOfOne | src/libc/printf.cpp:71-73 | two letters with a count of one for a buffer of one are stored past it |
| TerminalProperties.FgetsReadsLinesIff | src/libc/printf.cpp:49-82 | successive calls return exactly the lines the editor hands over iff every line fits; else they return too many |
| TerminalProperties.OverlongLine | src/libc/printf.cpp:71-78 | three letters for a buffer of four: the third is lost and an empty line follows |
| TerminalProperties.WhatYouSeeIsWhatYouRead | src/libc/printf.cpp:49-82 | for any harmless stream the lines read are the rows on the screen iff every line fits, and the counter is the current line's length |
| TerminalProperties.EchoOnlyShows | src/drivers/character/usart/usart_driver.cpp:49-77 | echo decides what is written to the line and nothing else |
| TerminalProperties.EchoOff | src/drivers/character/usart/usart_driver.cpp:49-77 | with echo off every byte is queued and counted as with echo on, and nothing is written |
| TerminalProperties.QueueIsMeant | src/drivers/character/usart/usart_driver.cpp:49-77 | what a reader makes of the queue is what was meant: 8 and 127 erase, 10 and 13 end the line, anything else is text |
| TerminalProperties.MeantLinesRead | src/libc/printf.cpp:49-82 | echoed or not, calls return the lines that were meant iff every line fits |
| TerminalProperties.InterleavingIsTyping | src/drivers/character/usart/usart_file.cpp:38-51 | under any interleaving of typing and polling the reader is where it would be on the queued bytes, less those still queued |
| TerminalProperties.DrainedAgrees | src/drivers/character/usart/usart_file.cpp:38-51 | whenever the queue is drained, screen, reader and counter agree |
| Numbers.ParseText | include/msos/utils/string.hpp:61-65 | reading a number's canonical text gives the number back |
| Numbers.ParseSignedText | include/msos/utils/string.hpp:57-70 | the same for signed numbers |
| Numbers.TextDigits | include/msos/utils/string.hpp:61-65 | the text is digits of the base only, and starts with a zero only for zero |
| Numbers.DigitsAre | include/msos/utils/string.hpp:61-65 | digits are 0 to 9 and then the letters from a on |
| Numbers.SignIsMinus | include/msos/utils/string.hpp:61-65 | exactly negative numbers have a sign, a minus in front of the text of their amount |
| Numbers.WrappedIsReversal | include/msos/usart_printer.hpp:152-165 | the reversal loop on a w-bit type computes the reversal modulo 2^w |
| Numbers.ReversalRestored | include/msos/usart_printer.hpp:139-167 | digits of the reversal, lowest first, and the counted zeros are the number's digits |
| Numbers.ReversalIsTextBackwards | include/msos/usart_printer.hpp:139-167 | the reversal of a number is what its text reads from back to front |
| Numbers.PrintedIsCanonicalIff | include/msos/usart_printer.hpp:105-167 | the unsigned printer writes the canonical text iff the digit reversal fits the type |
| Numbers.ShortNumbersPrint | include/msos/usart_printer.hpp:105-167 | every n < b^k prints right, and reads back, when b^k is at most 2^w |
| Numbers.ThirtyTwoBits | include/msos/usart_printer.hpp:105-167 | on 32 bits: all values in hexadecimal and binary, below 10^9 in decimal, below 2^30 in octal |
| Numbers.DecimalGarbled | include/msos/usart_printer.hpp:105-167 | 1000000009 does not print right on 32 bits |
| Printer.TableDigit | include/msos/usart_printer.hpp:121 | the writer's table has the digits that `int_to_char` computes |
| Printer.UsartWriter.ReverseNumber | include/msos/usart_printer.hpp:138-167 | reversed number and zero count together describe what the printer writes |
| Printer.UsartWriter.WriteNumberAsText | include/msos/usart_printer.hpp:116-134 | writes the digits lowest first and then the zeros |
| Printer.UsartWriter.WriteUnsigned | include/msos/usart_printer.hpp:105-111 | appends exactly the printed text |
| Printer.UsartWriter.WriteSigned | include/msos/usart_printer.hpp:87-101 | appends the number's signed text, with all arithmetic defined iff neither negation nor reversal overflows |
| Printer.FitsIff | include/msos/usart_printer.hpp:87-101 | a signed number has a defined text iff it has a negation on the type and its text read from back to front is a number of the type |
| Printer.NineDigitsFit | include/msos/usart_printer.hpp:87-101 | on 32 bits every decimal number of up to nine digits has one, with either sign |
| Printer.Reverse | include/msos/utils/string.hpp:27-39 | the C string is reversed in place and nothing behind it changes |
| Printer.Itoa | include/msos/utils/string.hpp:54-71 | the buffer holds the signed text and a zero, nothing behind changes, the length is returned; the one value without a negation and a buffer too small for the text are told apart |
| Format.VfPrintf | include/msos/libc/printf.hpp:33-83 | the loop writes what the recursive interpreter says and returns the specified count, or stops at an argument it cannot print |
| Format.WriteArgument | include/msos/libc/printf.hpp:59-73 | %c, %s and %d write and consume one argument, any other specifier neither |
| Format.DirectiveWrites | include/msos/libc/printf.hpp:59-73 | %c writes its character, %s its string, %d a text without leading zeros that parses back to its number; each takes one argument, any other specifier none and writes nothing |
| Format.PrintedText | include/msos/libc/printf.hpp:33-83 | printf is defined iff every argument suits its directive, and then writes the format with each directive's text in its place |
| Format.StringPrinted | include/msos/libc/printf.hpp:33-83 | a string and a line end |
| Format.PieceFirst | include/msos/libc/printf.hpp:40-80 | a format means its first literal, then the directive, then what follows |
| Format.LiteralFront | include/msos/libc/printf.hpp:43-52 | literal text stands for itself |
| Format.CountIsLiteralsIff | include/msos/libc/printf.hpp:43-77 | the value returned is the number of literal characters iff the format does not end in a directive |
| Format.DirectiveAtTheEnd | include/msos/libc/printf.hpp:74-77 | for "x=%c" three characters are written and six returned |
| Format.WrittenCharacters | include/msos/libc/printf.hpp:43-73 | the characters written are the literal ones and those of the converted arguments |
| Format.CountMeans | include/msos/libc/printf.hpp:43-77 | the value returned is the literal characters, plus the last piece once more when a directive ends it |
| Format.CountIsWrittenIff | include/msos/libc/printf.hpp:43-77 | the value returned is the number of characters written iff what is counted twice makes up for the conversions |
| Tokens.TokensAreMaximalRuns | src/apps/shell/splitter.cpp:40-74 | the tokens are exactly the maximal delimiter-free runs, each once and in order |
| Tokens.PartsAreTokens | src/apps/shell/splitter.cpp:40-74 | repeated calls return exactly the tokens, and each leaves a view that is empty or ends in a non-delimiter |
| Tokens.FailsIff | src/apps/shell/splitter.cpp:47 | the splitter fails iff its text is not empty and has no token |
| Tokens.OnlyBlanks | src/apps/shell/splitter.cpp:47 | two blanks make it fail |
| Tokens.NamesAreTokens | src/posix/dirent_utils.cpp:26-49 | the path tokenizer returns the same tokens for the slash, and nothing iff none are left |
| Tokenizers.Splitter.constructor | src/apps/shell/splitter.cpp:26-33 | the view is the C string in the buffer |
| Tokenizers.Splitter.GetNextPart | src/apps/shell/splitter.cpp:40-74 | part and view as specified; the buffer changes at most at the delimiter just behind a part that is not the last |
| CommandLine.PartIsRun | src/apps/shell/splitter.cpp:40-74 | the part cut off a view is the next maximal run of the whole text, and what is left has the runs behind it |
| CommandLine.GetCommand | src/apps/shell/command_parser.cpp:26-30 | the command is the first part; a line of blanks only fails unchanged |
| CommandLine.ParseCommand | src/apps/shell/main.cpp:117-124 | command and arguments are the tokens of the line, and afterwards the buffer is the line with a zero exactly behind every run but the last |
| CommandLine.ArgumentStrings | src/apps/shell/main.cpp:122 | read as a C string an argument is its token iff it is not the last or no blanks follow |
| Tokenizers.GetNextPart | src/posix/dirent_utils.cpp:26-49 | part and remaining path as specified |
| CommandLine.BlankBehind | src/apps/shell/main.cpp:122 | a letter and a blank: the token is the letter, the C string is both |
| Directory.LessPrecedes | src/fs/utils.cpp:36 | a name is less iff it is a shorter beginning of the other, or has the smaller character where they first differ |
| Directory.InsertKeepsAll | src/fs/utils.cpp:26-44 | insertion adds the entry and loses none |
| Directory.InsertSorts | src/fs/utils.cpp:26-44 | insertion keeps the order |
| Directory.InsertIsStable | src/fs/utils.cpp:34-43 | among equal names the new entry comes last |
| RamFs.FileList.InsertWithOrder | src/fs/utils.cpp:26-44 | the loop inserts in place as specified |
| Directory.ListedIffChild | src/fs/ramfs.cpp:121-161 | a file is listed in a directory under a name iff its path is the directory's, a slash and the slash-free name |
| Directory.ListingIsChildren | src/fs/ramfs.cpp:134-164 | a listing is sorted and has exactly one entry for each file directly in the directory |
| Directory.ListingIsStable | src/fs/ramfs.cpp:134-164 | entries of the same name keep the order of creation |
| Directory.ListingDistinctIff | src/fs/ramfs.cpp:134-164 | a listing has no name twice iff no two files directly in the directory have the same path |
| RamFs.RamFs.List | src/fs/ramfs.cpp:134-164 | the loop builds the specified listing |
| RamFs.RamFs.Mkdir | src/fs/ramfs.cpp:56-68 | refuses a path already there, so that distinct paths stay distinct, and otherwise adds an empty directory and keeps every file |
| RamFs.RamFs.Create | src/fs/ramfs.cpp:108-119 | always adds an empty file, which is no directory; paths stay distinct iff the path was free |
| RamFs.RamFs.Get | src/fs/ramfs.cpp:82-106 | a new handle at position 0 on the first file with the path, or none |
| RamFs.BaseNameOf | src/fs/ramfs.cpp:108-119 | a handle is named by the last slash of its path and what follows it |
| Readdir.EndsIff | src/posix/dirent.cpp:61-111 | some call finds the end iff no name comes twice, none but the first is empty, and all are short |
| Readdir.ReadsEachOnceIff | src/posix/dirent.cpp:61-111 | readdir returns every name once and in order and then null for ever under exactly that condition |
| Readdir.NoOverrunIff | src/posix/dirent.cpp:81-101 | no call writes past the entry iff every name the cursor gets to is shorter than 128 |
| Readdir.DirectoryReadsOnceIff | src/posix/dirent.cpp:61-111 | readdir on a listing returns exactly the files directly in the directory, each once, sorted, then null for ever, iff no two of them have the same path and their names are short; otherwise it never ends |
| Readdir.SamePathTwice | src/posix/dirent.cpp:94-108 | after mkdir and create of the same path every call returns that name |
| RamFs.Dir.ReadDir | src/posix/dirent.cpp:61-111 | the scan with its flag refines the specified cursor step, the entry's buffer included |
| RamFs.RamfsFile.Read | src/fs/ramfs_file.cpp:36-47 | copies from the handle's position what is there and fits, and advances by as much |
| RamFs.BytesAre | src/fs/ramfs_file.cpp:36-47 | a read yields the smaller of what is left and what was asked for, from the position on; asked for something, it yields nothing iff the position is at the end |
| RamFs.RamfsFile.Write | src/fs/ramfs_file.cpp:49-53 | appends to the shared data |
| RamFs.SharedFile | src/fs/ramfs_file.cpp:36-53 | over any interleaving the file is all writes in order, and each handle has read exactly the first bytes up to its position |
| RamFs.ReadToTheEnd | src/fs/ramfs_file.cpp:36-53 | a handle that reads nothing has received all that was written, and one that has not reads more |
| Descriptors.MaskIsShift | src/kernel/process/process.cpp:67-79 | eight descriptors, and the mask of one is 1 shifted left that far |
| Descriptors.FileTable.AddFile | src/kernel/process/process.cpp:67-79 | the lowest free descriptor gets the file; none iff all eight are open |
| Descriptors.FileTable.RemoveFile | src/kernel/process/process.cpp:81-90 | the descriptor leaves the map of open files, or -1 |
| Descriptors.FileTable.GetFile | src/kernel/process/process.cpp:92-100 | the file the map has for the descriptor, or none |

## Left out

- Generator.GenerateModule: does not model data relocations, because the loader walks the wrong table for them, by its own comment (src/dynamic_linker/dynamic_linker.cpp:122-123); the loader's loop itself is modelled, and `Linkable` and `LinkLimits.LocalsCorruptIff` ask for files without them.
- Loader.DynamicLinker.LoadModule: a store outside the LOT or the data block ends in an outcome of its own instead of corrupting memory; table addresses are not reduced modulo 2^32, and pointers into the vector of modules are not invalidated when it grows.
- Loader.DynamicLinker.UnloadModule: modules are objects here; in the original `erase` moves the later ones down, under the pointers that were handed out for them.
- Generator.GenerateModule: ELF parsing and the objcopy call that changes visibility are not modelled; sections, symbols and relocations are its input, and symbol names are distinct where the parser keys them by name.
- Scheduler.NormalScheduler.ScheduleNext: is called with a ready or running process in the list, since the loop has no end otherwise; `LoopEndsIff` states that condition exactly. The switches, waits and exits built on it ask for the same; that some process is always ready is an assumption: the kernel's own process only yields at the end (src/main.cpp:111-114), but before that it runs the shell (src/main.cpp:109), and nothing keeps that from waiting.
- Scheduler.NormalScheduler.GetNext: start-up, when the cursor is the end iterator of an empty list and `std::next` of it has no meaning, is not modelled; a scheduler is made for a list with a process in it.
- Boot.BootEstablishes: begins with the cursor on the root process; the first call of `schedule_next` on the end iterator is the case just named.
- Processes.ArmProcess.constructor: stacks of at most 68 bytes, for which the source leaves a place for an assertion (src/arch/armv7-m/arm_process.cpp:76-80), and sizes that are no multiple of four, which would put words at unaligned addresses, are not modelled.
- Processes.ProcessManager.CreateProcess: the same stack sizes.
- Armv7m.Machine.Spawn: the same stack sizes; the original asks for 728 and 4096 bytes (src/arch/armv7-m/spawn.cpp:52, src/main.cpp:128).
- Semaphores are known by address in a map beside the stacks; creating one during a run is not a step, so a run begins when the semaphores it is about exist. Process identifiers do not wrap.
- A process in execution may change its registers and any memory but other stacks and its own canary, and is assumed to leave room for a context; the processor has no protection that would enforce it, and `current_stack_pointer` returns null otherwise.
- Armv7m.Machine.SemaphoreWait: that a blocked caller waits again is an assumption. After `perform_block` the source does not branch to `wait_loop`; it subtracts and stores (src/arch/armv7-m/semaphore.s:34-39), and the retry rests on that exclusive store failing. The exclusive monitor, and entry to and return from the system call, are not modelled.
- TerminalDriver.Fgets: waits in the original while no byte is there; the model takes the bytes that successful reads deliver and reports when they run out.
- TerminalDriver.UsartDriver.OnData: the queue of the model has no limit; the original's holds 64 bytes, and what a push into a full one does belongs to a library that is not part of this model.
- TerminalProperties.InterleavingIsTyping: for the same reason, is about typing that never fills the queue.
- TerminalProperties.DrainedAgrees: likewise.
- The screen shows every byte but backspace, newline and zero in one cell; tabs and escape sequences are not interpreted.
- Printer.UsartWriter.WriteSigned: covers types of at least 32 bits, where overflow is undefined; narrower types convert instead.
- Printer.Itoa: bases above 169, whose digits are no longer characters of eight bits.
- Format.VfPrintf: string arguments hold no zero byte.
- Tokenizers.Splitter.GetNextPart: the returned view is modelled by its text at the time of the call.
- RamFs.RamFs.Get: `open`, mount points and path normalisation, which route to the file system, are not modelled.
- Descriptors.FileTable.RemoveFile: descriptors from 32 up shift by more than the width, which has no meaning.
- HAL, GPIO, I2C, display, the x86 port, VFS routing, RomFs, the malloc wrappers, the RAM block device and `_IOC` packing are left out: the devices and the x86 port are hardware access, and the rest is a layer over the eul and romfs libraries, which are not part of this model.
