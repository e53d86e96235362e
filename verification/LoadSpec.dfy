// What the dynamic loader computes from an image in memory, an environment of
// kernel symbols and the blocks the heap hands out.

module LoadSpec {
  import opened Results
  import opened Words
  import opened ModuleFormat

  datatype LoadError =
    | CookieValidationFailure
    | TextAllocationFailure
    | DataAllocationFailure
    | LotAllocationFailure
    | ExternalRelocationFailure

  /** A kernel symbol that modules may refer to. */
  datatype SymbolAddress = SymbolAddress(code: Word, address: Word)

  /** Addresses of the blocks the heap hands out; None when it has none left. */
  datatype Heap = Heap(
    text: Option<Word>,
    data: Option<Word>,
    lot: Option<Word>,
    junk: nat -> Word)  // what a fresh block of words happens to contain

  /** A module in memory: where its parts are and what they contain. */
  datatype Loaded = Loaded(
    text: Word,
    textBytes: seq<Byte>,
    data: Word,
    dataBytes: seq<Byte>,
    lotAddress: Word,
    lot: seq<Word>,
    start: Option<Word>)

  /** Corruption: a store outside the block it was meant for. */
  datatype Outcome = Success(loaded: Loaded) | Failure(error: LoadError) | Corruption

  // ---------- Layout. Tables are addressed without wrap-around: an image
  // that ran past the end of the address space could not be stored.

  function RelocationsAddress(base: Word): int {
    base + HEADER_SIZE
  }

  function NumberOfRelocations(h: Header): nat {
    h.externalRelocations + h.localRelocations + h.dataRelocations
  }

  function SymbolsAddress(base: Word, h: Header): int {
    RelocationsAddress(base) + ENTRY_SIZE * NumberOfRelocations(h)
  }

  /** The loader takes one exported symbol for granted. */
  function NumberOfSymbols(h: Header): nat {
    h.externalSymbols + 1
  }

  function CodeAddress(base: Word, h: Header): int {
    Align16(SymbolsAddress(base, h) + SYMBOL_SIZE * NumberOfSymbols(h))
  }

  function DataAddress(base: Word, h: Header): int {
    CodeAddress(base, h) + h.codeSize
  }

  function LocalRelocationsAddress(base: Word, h: Header): int {
    RelocationsAddress(base) + ENTRY_SIZE * h.externalRelocations
  }

  function LotSize(h: Header): nat {
    h.externalRelocations + h.localRelocations
  }

  /** A LOT as the heap hands it out. */
  function FreshLot(h: Header, junk: nat -> Word): (lot: seq<Word>)
    ensures |lot| == LotSize(h)
    ensures forall i :: 0 <= i < |lot| ==> lot[i] == junk(i)
  {
    seq(LotSize(h), i requires i >= 0 => junk(i))
  }

  // ---------- Searching

  ghost predicate SymbolHasCode(mem: Memory, address: int, code: Word, k: nat) {
    ReadSymbol(mem, address + SYMBOL_SIZE * k).code == code
  }

  ghost predicate FirstSymbol(mem: Memory, address: int, code: Word, k: nat) {
    SymbolHasCode(mem, address, code, k) && forall j :: 0 <= j < k ==> !SymbolHasCode(mem, address, code, j)
  }

  /** Address of the first of `count` symbols at `address` that has this code. */
  function FindSymbol(mem: Memory, address: int, count: nat, code: Word): Option<int>
    decreases count
  {
    if count == 0 then None
    else if ReadSymbol(mem, address).code == code then Some(address)
    else FindSymbol(mem, address + SYMBOL_SIZE, count - 1, code)
  }

  /** The search ends at the first symbol that has the code, or with nothing if none of them has it. */
  lemma {:induction false} FindSymbolFirst(mem: Memory, address: int, count: nat, code: Word)
    ensures forall k :: 0 <= k < count && FirstSymbol(mem, address, code, k) ==>
      FindSymbol(mem, address, count, code) == Some(address + SYMBOL_SIZE * k)
    ensures FindSymbol(mem, address, count, code).None? <==> forall k :: 0 <= k < count ==> !SymbolHasCode(mem, address, code, k)
    decreases count
  {
    hide ReadSymbol;
    if count > 0 {
      var next := address + SYMBOL_SIZE;
      FindSymbolFirst(mem, next, count - 1, code);
      assert SymbolHasCode(mem, address, code, 0) <==> ReadSymbol(mem, address).code == code;
      assert forall k :: 0 <= k < count - 1 ==> (SymbolHasCode(mem, next, code, k) <==> SymbolHasCode(mem, address, code, k + 1));
      forall k | 0 <= k < count && FirstSymbol(mem, address, code, k)
        ensures FindSymbol(mem, address, count, code) == Some(address + SYMBOL_SIZE * k)
      {
        if k > 0 {
          assert FirstSymbol(mem, next, code, k - 1);
        }
      }
      if forall k :: 0 <= k < count ==> !SymbolHasCode(mem, address, code, k) {
        assert forall k :: 0 <= k < count - 1 ==> !SymbolHasCode(mem, next, code, k);
      }
      if k :| 0 <= k < count && SymbolHasCode(mem, address, code, k) {
        assert k > 0 ==> SymbolHasCode(mem, next, code, k - 1);
      }
    }
  }

  /** The environment gives the code this address: the first entry with the code has it. */
  ghost predicate Gives(entries: seq<SymbolAddress>, code: Word, address: Word) {
    exists k :: 0 <= k < |entries| && entries[k].code == code && entries[k].address == address
      && forall j :: 0 <= j < k ==> entries[j].code != code
  }

  /** Some entry of the environment has the code. */
  predicate Lists(entries: seq<SymbolAddress>, code: Word) {
    exists k :: 0 <= k < |entries| && entries[k].code == code
  }

  lemma GivesOne(entries: seq<SymbolAddress>, code: Word, a: Word, b: Word)
    requires Gives(entries, code, a) && Gives(entries, code, b)
    ensures a == b
  {
  }

  /** Address of the first kernel symbol that has this code. */
  function FindAddress(entries: seq<SymbolAddress>, code: Word): (r: Option<Word>)
    ensures r.Some? ==> Gives(entries, code, r.value)
    ensures r.Some? <==> Lists(entries, code)
  {
    if entries == [] then None
    else if entries[0].code == code then Some(entries[0].address)
    else FindAddress(entries[1..], code)
  }

  // ---------- Relocations

  datatype Fill = Filled(lot: seq<Word>, complete: bool) | OutOfRange

  function FillExternal(mem: Memory, at: int, entries: seq<SymbolAddress>, fill: Fill): Fill {
    if fill.OutOfRange? then OutOfRange
    else
      var entry := ReadEntry(mem, at);
      var symbol := ReadSymbol(mem, Wrap(at + entry.offset));
      var address := FindAddress(entries, symbol.code);
      if address.None? then Filled(fill.lot, false)
      else if entry.index < |fill.lot| then Filled(fill.lot[entry.index := address.value], fill.complete)
      else OutOfRange
  }

  /** The LOT after the first `n` external relocations. */
  function FillExternals(mem: Memory, address: int, n: nat, entries: seq<SymbolAddress>, lot: seq<Word>): Fill {
    if n == 0 then Filled(lot, true)
    else FillExternal(mem, address + ENTRY_SIZE * (n - 1), entries, FillExternals(mem, address, n - 1, entries, lot))
  }

  function FillLocal(mem: Memory, at: int, text: Word, data: Word, fill: Fill): Fill {
    if fill.OutOfRange? then OutOfRange
    else
      var entry := ReadEntry(mem, at);
      var base := if entry.index % 2 == 0 then text else data;
      if entry.index / 2 < |fill.lot| then
        Filled(fill.lot[entry.index / 2 := Wrap(base + entry.offset)], fill.complete)
      else OutOfRange
  }

  /** The LOT after the first `n` local relocations. */
  function FillLocals(mem: Memory, address: int, n: nat, text: Word, data: Word, lot: seq<Word>): Fill {
    if n == 0 then Filled(lot, true)
    else FillLocal(mem, address + ENTRY_SIZE * (n - 1), text, data, FillLocals(mem, address, n - 1, text, data, lot))
  }

  /** The data block after the first `n` data relocations; None for a store outside it. */
  function RelocateData(mem: Memory, address: int, n: nat, data: Word, bytes: seq<Byte>): (r: Option<seq<Byte>>)
    ensures r.Some? ==> |r.value| == |bytes|
  {
    if n == 0 then Some(bytes)
    else
      var before := RelocateData(mem, address, n - 1, data, bytes);
      if before.None? then None
      else
        var entry := ReadEntry(mem, address + ENTRY_SIZE * (n - 1));
        var at := 4 * entry.index;
        if at + 4 > |bytes| then None
        else Some(before.value[..at] + Pack32(Wrap(data + entry.offset)) + before.value[at + 4..])
  }

  // ---------- Loading

  function InitialData(mem: Memory, base: Word, h: Header): (bytes: seq<Byte>)
    ensures |bytes| == h.dataSize + h.bssSize
  {
    Slice(mem, DataAddress(base, h), h.dataSize) + seq(h.bssSize, _ => 0)
  }

  function StartAddress(mem: Memory, base: Word, h: Header, text: Word): Option<Word> {
    var main := FindSymbol(mem, SymbolsAddress(base, h), NumberOfSymbols(h), 1);
    if main.None? then None else Some(Wrap(text + ReadSymbol(mem, main.value).offset))
  }

  /** The relocation phases, once text, data and LOT have their places. */
  function Relocate(mem: Memory, base: Word, h: Header, text: Word, textFrom: int, data: Word, lotAddress: Word,
                    entries: seq<SymbolAddress>, lot: seq<Word>): Outcome
  {
    var external := FillExternals(mem, RelocationsAddress(base), h.externalRelocations, entries, lot);
    if external.OutOfRange? then Corruption
    else if !external.complete then Failure(ExternalRelocationFailure)
    else
      var local := FillLocals(mem, LocalRelocationsAddress(base, h), h.localRelocations, text, data, external.lot);
      if local.OutOfRange? then Corruption
      else
        var bytes := RelocateData(mem, LocalRelocationsAddress(base, h), h.dataRelocations, data, InitialData(mem, base, h));
        if bytes.None? then Corruption
        else Success(Loaded(text, Slice(mem, textFrom, h.codeSize), data, bytes.value, lotAddress,
                            local.lot, StartAddress(mem, base, h, text)))
  }

  /** Everything after the cookie check. */
  function LoadBody(mem: Memory, base: Word, h: Header, copyText: bool, entries: seq<SymbolAddress>, heap: Heap): Outcome {
    if copyText && heap.text.None? then Failure(TextAllocationFailure)
    else if heap.data.None? then Failure(DataAllocationFailure)
    else if heap.lot.None? then Failure(LotAllocationFailure)
    else
      var text := if copyText then heap.text.value else Wrap(CodeAddress(base, h));
      var textFrom := if copyText then CodeAddress(base, h) else text;
      Relocate(mem, base, h, text, textFrom, heap.data.value, heap.lot.value, entries, FreshLot(h, heap.junk))
  }

  function Load(mem: Memory, base: Word, copyText: bool, entries: seq<SymbolAddress>, heap: Heap): Outcome {
    if !HasCookie(mem, base) then Failure(CookieValidationFailure)
    else LoadBody(mem, base, ReadHeader(mem, base), copyText, entries, heap)
  }

  // ---------- Whose LOT belongs to a program counter

  /** Text range and LOT of a module the loader knows. */
  datatype Range = Range(text: Word, size: Word, lot: Word)

  /** The range a module claims from the moment it is in the list, whatever becomes of its loading. */
  function RangeLeft(base: Word, h: Header, copyText: bool, heap: Heap): Range {
    var text := if !copyText then Wrap(CodeAddress(base, h)) else if heap.text.Some? then heap.text.value else 0;
    var reached := (copyText ==> heap.text.Some?) && heap.data.Some? && heap.lot.Some?;
    Range(text, h.codeSize, if reached then heap.lot.value else 0)
  }

  predicate InRange(r: Range, address: Word) {
    r.text <= address < Wrap(r.text + r.size)
  }

  /** LOT of the first module whose text contains the address. */
  function LotAt(ranges: seq<Range>, address: Word): Word {
    if ranges == [] then 0xffff_ffff
    else if InRange(ranges[0], address) then ranges[0].lot
    else LotAt(ranges[1..], address)
  }

  lemma {:induction false} LotOfOwnModule(ranges: seq<Range>, i: nat, address: Word)
    requires i < |ranges| && InRange(ranges[i], address)
    requires forall j :: 0 <= j < |ranges| && j != i ==> !InRange(ranges[j], address)
    ensures LotAt(ranges, address) == ranges[i].lot
  {
    if i > 0 {
      assert !InRange(ranges[0], address);
      LotOfOwnModule(ranges[1..], i - 1, address);
    }
  }

  /** The first listed module whose text contains the address. */
  ghost predicate FirstToHold(ranges: seq<Range>, j: nat, address: Word) {
    j < |ranges| && InRange(ranges[j], address) && forall k :: 0 <= k < j ==> !InRange(ranges[k], address)
  }

  lemma {:induction false} LotOfFirst(ranges: seq<Range>, address: Word, i: nat) returns (j: nat)
    requires i < |ranges| && InRange(ranges[i], address)
    ensures j <= i && FirstToHold(ranges, j, address) && LotAt(ranges, address) == ranges[j].lot
  {
    if InRange(ranges[0], address) {
      j := 0;
    } else {
      var rest := LotOfFirst(ranges[1..], address, i - 1);
      j := rest + 1;
      assert forall k :: 1 <= k < j ==> ranges[k] == ranges[1..][k - 1];
    }
  }

  /** In its own text a module gets its own LOT iff no module listed before it is the first to hold the address with another. */
  lemma OwnLotIff(ranges: seq<Range>, i: nat, address: Word)
    requires i < |ranges| && InRange(ranges[i], address)
    ensures LotAt(ranges, address) == ranges[i].lot <==>
      forall j :: 0 <= j < i && FirstToHold(ranges, j, address) ==> ranges[j].lot == ranges[i].lot
  {
    hide InRange;
    var first := LotOfFirst(ranges, address, i);
    assert forall j :: 0 <= j < i && FirstToHold(ranges, j, address) ==> j == first;
  }

  // ---------- Loading again after a failure

  /**
   * An image that failed to load in place stays in the list. Loaded again, successfully, it gets the
   * LOT of the failed module, so its own iff that is the very same.
   */
  lemma RetriedInPlace(mem: Memory, base: Word, entries: seq<SymbolAddress>, failing: Heap, heap: Heap,
                       earlier: seq<Range>, address: Word)
    requires HasCookie(mem, base) && Load(mem, base, false, entries, heap).Success?
    requires InRange(RangeLeft(base, ReadHeader(mem, base), false, heap), address)
    requires forall r :: r in earlier ==> !InRange(r, address)
    ensures var h := ReadHeader(mem, base);
      var failed := RangeLeft(base, h, false, failing);
      var lot := LotAt(earlier + [failed, RangeLeft(base, h, false, heap)], address);
      && lot == failed.lot
      && (lot == Load(mem, base, false, entries, heap).loaded.lotAddress <==> failed.lot == heap.lot.value)
  {
    hide ReadHeader, HasCookie, CodeAddress, FillExternals, FillLocals, RelocateData, InitialData, Slice, StartAddress;
    var h := ReadHeader(mem, base);
    var all := earlier + [RangeLeft(base, h, false, failing), RangeLeft(base, h, false, heap)];
    assert InRange(all[|earlier|], address);
    assert forall k :: 0 <= k < |earlier| ==> all[k] == earlier[k];
    var first := LotOfFirst(all, address, |earlier|);
  }

  /** Eight bytes of code and main, nothing to relocate. */
  const TINY := Module(Header(8, 0, 0, 0, 0, 0, 0), [], [SymbolEntry(0, 0, 1)], [0, 0, 0, 0, 0, 0, 0, 0], [])

  /** A first load of it finds no room for data, a second one succeeds: its code is told that its LOT is at address 0. */
  lemma StaleLot(mem: Memory, entries: seq<SymbolAddress>, junk: nat -> Word)
    requires Holds(mem, 0, Serialise(TINY))
    ensures var failing, heap := Heap(None, None, Some(0x2000_2000), junk), Heap(None, Some(0x2000_1000), Some(0x2000_2000), junk);
      var h, second := ReadHeader(mem, 0), Load(mem, 0, false, entries, heap);
      && Load(mem, 0, false, entries, failing) == Failure(DataAllocationFailure)
      && second.Success? && second.loaded.lotAddress == 0x2000_2000
      && LotAt([RangeLeft(0, h, false, failing), RangeLeft(0, h, false, heap)], 48) == 0
  {
    hide Serialise, ReadHeader, HasCookie, LoadBody, LotAt, CodeAddress, Holds;
    var failing, heap := Heap(None, None, Some(0x2000_2000), junk), Heap(None, Some(0x2000_1000), Some(0x2000_2000), junk);
    HeaderFound(TINY, mem, 0);
    FirstCode(TINY.header);
    NothingToRelocate(mem, 0, TINY.header, entries, failing);
    NothingToRelocate(mem, 0, TINY.header, entries, heap);
    RetriedInPlace(mem, 0, entries, failing, heap, [], 48);
    assert [] + [RangeLeft(0, TINY.header, false, failing), RangeLeft(0, TINY.header, false, heap)]
        == [RangeLeft(0, TINY.header, false, failing), RangeLeft(0, TINY.header, false, heap)];
  }

  lemma HeaderFound(m: Module, mem: Memory, base: int)
    requires Holds(mem, base, Serialise(m))
    ensures HasCookie(mem, base) && ReadHeader(mem, base) == m.header
  {
    hide Holds, Serialise, ReadHeader, HasCookie, Slice, EntriesParsed, SymbolsParsed;
    ImageRoundTrip(m, mem, base);
  }

  lemma FirstCode(h: Header)
    requires h.externalRelocations == h.localRelocations == h.dataRelocations == h.externalSymbols == 0
    ensures CodeAddress(0, h) == 48
  {
  }

  lemma NothingToRelocate(mem: Memory, base: Word, h: Header, entries: seq<SymbolAddress>, heap: Heap)
    requires h.externalRelocations == h.localRelocations == h.dataRelocations == 0
    ensures heap.data.None? ==> LoadBody(mem, base, h, false, entries, heap) == Failure(DataAllocationFailure)
    ensures heap.data.Some? && heap.lot.Some? ==>
      var o := LoadBody(mem, base, h, false, entries, heap);
      o.Success? && o.loaded.lotAddress == heap.lot.value
  {
    hide CodeAddress, InitialData, Slice, StartAddress, FreshLot, Wrap, RelocationsAddress, LocalRelocationsAddress;
  }
}
