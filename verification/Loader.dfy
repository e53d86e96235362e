// The dynamic loader: the module list, and the loops that fill the offset
// table (LOT) of a module, as src/dynamic_linker/dynamic_linker.cpp runs them.

module Loader {
  import opened Results
  import opened Words
  import opened ModuleFormat
  import opened LoadSpec

  class LoadedModule {
    const header: Header
    var text: Word
    var ownText: array<Byte>
    var data: Word
    var dataBytes: array<Byte>
    var lotAddress: Word
    var lot: array<Word>
    var start: Option<Word>

    /** A module knows its header; nothing is placed yet. */
    constructor (header: Header)
      ensures this.header == header && fresh(ownText) && fresh(dataBytes) && fresh(lot)
      ensures start == None && lotAddress == 0
    {
      this.header := header;
      text, data, lotAddress, start := 0, 0, 0, None;
      ownText := new Byte[0];
      dataBytes := new Byte[0];
      lot := new Word[0];
    }

    /** The module as a value. */
    ghost function View(mem: Memory, copied: bool): Loaded
      reads this, ownText, dataBytes, lot
    {
      Loaded(text, if copied then ownText[..] else Slice(mem, text, header.codeSize), data, dataBytes[..],
             lotAddress, lot[..], start)
    }

    function TextRange(): Range
      reads this
    {
      Range(text, header.codeSize, lotAddress)
    }

    method AllocateText(block: Option<Word>) returns (ok: bool)
      modifies this`text, this`ownText
      ensures ok == block.Some? && fresh(ownText) && ownText.Length == header.codeSize
      ensures text == if ok then block.value else 0
    {
      ownText := new Byte[header.codeSize];
      ok := block.Some?;
      text := if ok then block.value else 0;
    }

    method AllocateData(block: Option<Word>) returns (ok: bool)
      modifies this`data, this`dataBytes
      ensures ok == block.Some? && fresh(dataBytes) && dataBytes.Length == header.dataSize + header.bssSize
      ensures data == if ok then block.value else 0
    {
      dataBytes := new Byte[header.dataSize + header.bssSize];
      ok := block.Some?;
      data := if ok then block.value else 0;
    }

    method AllocateLot(block: Option<Word>, junk: nat -> Word) returns (ok: bool)
      modifies this`lotAddress, this`lot
      ensures ok == block.Some? && fresh(lot) && lot[..] == FreshLot(header, junk)
      ensures lotAddress == if ok then block.value else 0
    {
      var contents := FreshLot(header, junk);
      lot := new Word[|contents|](i requires 0 <= i < |contents| => contents[i]);
      assert lot[..] == contents;
      ok := block.Some?;
      lotAddress := if ok then block.value else 0;
    }
  }

  // ---------- Loops over tables in memory

  method FindSymbolAt(mem: Memory, address: int, count: nat, code: Word) returns (r: Option<int>)
    ensures r == FindSymbol(mem, address, count, code)
  {
    hide ReadSymbol;
    var symbol := address;
    for i := 0 to count
      invariant FindSymbol(mem, address, count, code) == FindSymbol(mem, symbol, count - i, code)
    {
      if ReadSymbol(mem, symbol).code == code {
        return Some(symbol);
      }
      symbol := symbol + SYMBOL_SIZE;
    }
    r := None;
  }

  method FindEnvironmentSymbol(entries: seq<SymbolAddress>, code: Word) returns (r: Option<Word>)
    ensures r == FindAddress(entries, code)
  {
    assert entries[0..] == entries;
    for i := 0 to |entries|
      invariant FindAddress(entries, code) == FindAddress(entries[i..], code)
    {
      if entries[i].code == code {
        return Some(entries[i].address);
      }
    }
    r := None;
  }

  lemma {:induction false} ExternalsStayOutOfRange(mem: Memory, address: int, i: nat, n: nat,
                                                   entries: seq<SymbolAddress>, lot: seq<Word>)
    requires i <= n && FillExternals(mem, address, i, entries, lot).OutOfRange?
    ensures FillExternals(mem, address, n, entries, lot).OutOfRange?
  {
    hide ReadEntry, ReadSymbol, Wrap;
    if i < n {
      ExternalsStayOutOfRange(mem, address, i, n - 1, entries, lot);
    }
  }

  lemma {:induction false} LocalsStayOutOfRange(mem: Memory, address: int, i: nat, n: nat,
                                                text: Word, data: Word, lot: seq<Word>)
    requires i <= n && FillLocals(mem, address, i, text, data, lot).OutOfRange?
    ensures FillLocals(mem, address, n, text, data, lot).OutOfRange?
  {
    if i < n {
      LocalsStayOutOfRange(mem, address, i, n - 1, text, data, lot);
    }
  }

  lemma {:induction false} DataStaysOutOfRange(mem: Memory, address: int, i: nat, n: nat, data: Word, bytes: seq<Byte>)
    requires i <= n && RelocateData(mem, address, i, data, bytes).None?
    ensures RelocateData(mem, address, n, data, bytes).None?
  {
    if i < n {
      DataStaysOutOfRange(mem, address, i, n - 1, data, bytes);
    }
  }

  /** `inside` tells that every store hit the LOT. */
  method ProcessExternalRelocations(mem: Memory, address: int, n: nat, entries: seq<SymbolAddress>, lot: array<Word>)
    returns (status: bool, inside: bool)
    modifies lot
    ensures var fill := FillExternals(mem, address, n, entries, old(lot[..]));
      inside == fill.Filled? && (inside ==> fill == Filled(lot[..], status))
  {
    hide ReadEntry, ReadSymbol, Wrap;
    status, inside := true, true;
    var at := address;
    for i := 0 to n
      invariant at == address + ENTRY_SIZE * i
      invariant FillExternals(mem, address, i, entries, old(lot[..])) == Filled(lot[..], status)
    {
      var entry := ReadEntry(mem, at);
      var symbol := ReadSymbol(mem, Wrap(at + entry.offset));
      var found := FindEnvironmentSymbol(entries, symbol.code);
      if found.None? {
        status := false;
      } else if entry.index < lot.Length {
        lot[entry.index] := found.value;
      } else {
        ExternalsStayOutOfRange(mem, address, i + 1, n, entries, old(lot[..]));
        return status, false;
      }
      at := at + ENTRY_SIZE;
    }
  }

  method ProcessLocalRelocations(mem: Memory, address: int, n: nat, text: Word, data: Word, lot: array<Word>)
    returns (inside: bool)
    modifies lot
    ensures var fill := FillLocals(mem, address, n, text, data, old(lot[..]));
      inside == fill.Filled? && (inside ==> fill == Filled(lot[..], true))
  {
    hide ReadEntry, Wrap;
    inside := true;
    var at := address;
    for i := 0 to n
      invariant at == address + ENTRY_SIZE * i
      invariant FillLocals(mem, address, i, text, data, old(lot[..])) == Filled(lot[..], true)
    {
      var entry := ReadEntry(mem, at);
      var index := entry.index / 2;
      if index >= lot.Length {
        LocalsStayOutOfRange(mem, address, i + 1, n, text, data, old(lot[..]));
        return false;
      }
      if entry.index % 2 == 0 {
        lot[index] := Wrap(text + entry.offset);
      } else {
        lot[index] := Wrap(data + entry.offset);
      }
      at := at + ENTRY_SIZE;
    }
  }

  /** Stores a word in place. */
  method StoreWord(bytes: array<Byte>, at: nat, value: Word)
    requires at + 4 <= bytes.Length
    modifies bytes
    ensures bytes[..] == old(bytes[..at]) + Pack32(value) + old(bytes[at + 4..])
  {
    var word := Pack32(value);
    bytes[at], bytes[at + 1], bytes[at + 2], bytes[at + 3] := word[0], word[1], word[2], word[3];
  }

  lemma NoDataRelocated(mem: Memory, address: int, data: Word, bytes: seq<Byte>)
    ensures RelocateData(mem, address, 0, data, bytes) == Some(bytes)
  {
  }

  /** One more data relocation, from the bytes `before`. */
  lemma DataRelocatedOnce(mem: Memory, address: int, i: nat, data: Word, bytes: seq<Byte>, before: seq<Byte>)
    requires RelocateData(mem, address, i, data, bytes) == Some(before)
    ensures var entry := ReadEntry(mem, address + ENTRY_SIZE * i); var at := 4 * entry.index;
      RelocateData(mem, address, i + 1, data, bytes) ==
      if at + 4 > |bytes| then None
      else Some(before[..at] + Pack32(Wrap(data + entry.offset)) + before[at + 4..])
  {
    hide ReadEntry, Wrap, Pack32;
  }

  method ProcessDataRelocations(mem: Memory, address: int, n: nat, data: Word, bytes: array<Byte>) returns (inside: bool)
    modifies bytes
    ensures var relocated := RelocateData(mem, address, n, data, old(bytes[..]));
      inside == relocated.Some? && (inside ==> relocated.value == bytes[..])
  {
    hide ReadEntry, Wrap, Pack32, RelocateData;
    inside := true;
    var at := address;
    ghost var was := bytes[..];
    NoDataRelocated(mem, address, data, was);
    for i := 0 to n
      invariant at == address + ENTRY_SIZE * i
      invariant RelocateData(mem, address, i, data, was) == Some(bytes[..])
    {
      var entry := ReadEntry(mem, at);
      ghost var before := bytes[..];
      DataRelocatedOnce(mem, address, i, data, was, before);
      if 4 * entry.index + 4 > bytes.Length {
        DataStaysOutOfRange(mem, address, i + 1, n, data, was);
        return false;
      }
      StoreWord(bytes, 4 * entry.index, Wrap(data + entry.offset));
      assert bytes[..] == before[..4 * entry.index] + Pack32(Wrap(data + entry.offset)) + before[4 * entry.index + 4..];
      at := at + ENTRY_SIZE;
    }
  }

  /** memcpy from memory into the start of a block. */
  method CopyIn(mem: Memory, from: int, n: nat, to: array<Byte>)
    requires n <= to.Length
    modifies to
    ensures to[..] == Slice(mem, from, n) + old(to[n..])
  {
    for i := 0 to n
      invariant to[..i] == Slice(mem, from, i)
      invariant to[n..] == old(to[n..])
    {
      to[i] := mem(from + i);
    }
  }

  /** memset of the rest of a block. */
  method ClearRest(from: nat, block: array<Byte>)
    requires from <= block.Length
    modifies block
    ensures block[..] == old(block[..from]) + seq(block.Length - from, _ => 0)
  {
    for i := from to block.Length
      invariant block[..from] == old(block[..from])
      invariant forall k :: from <= k < i ==> block[k] == 0
    {
      block[i] := 0;
    }
  }

  // ---------- Loading a module

  /** Text: copied into a block of its own, or run where it lies in the image. */
  method PlaceText(mem: Memory, base: Word, copyText: bool, block: Option<Word>, m: LoadedModule) returns (ok: bool)
    modifies m`text, m`ownText
    ensures ok == (copyText ==> block.Some?)
    ensures m.text == if !copyText then Wrap(CodeAddress(base, m.header)) else if ok then block.value else 0
    ensures copyText ==> fresh(m.ownText)
    ensures ok && copyText ==> m.ownText[..] == Slice(mem, CodeAddress(base, m.header), m.header.codeSize)
  {
    if copyText {
      ok := m.AllocateText(block);
      if ok {
        CopyIn(mem, CodeAddress(base, m.header), m.header.codeSize, m.ownText);
      }
    } else {
      m.text := Wrap(CodeAddress(base, m.header));
      ok := true;
    }
  }

  /** Data: a block with a copy of the initialised data, zeros behind it. */
  method PlaceData(mem: Memory, base: Word, block: Option<Word>, m: LoadedModule) returns (ok: bool)
    modifies m`data, m`dataBytes
    ensures ok == block.Some? && fresh(m.dataBytes)
    ensures ok ==> m.data == block.value && m.dataBytes[..] == InitialData(mem, base, m.header)
  {
    ok := m.AllocateData(block);
    if ok {
      CopyIn(mem, DataAddress(base, m.header), m.header.dataSize, m.dataBytes);
      ClearRest(m.header.dataSize, m.dataBytes);
    }
  }

  method SetStart(mem: Memory, base: Word, m: LoadedModule)
    modifies m`start
    ensures m.start == if StartAddress(mem, base, m.header, m.text).Some?
                       then StartAddress(mem, base, m.header, m.text) else old(m.start)
  {
    hide FindSymbol, ReadSymbol, Wrap, SymbolsAddress, NumberOfSymbols;
    var main := FindSymbolAt(mem, SymbolsAddress(base, m.header), NumberOfSymbols(m.header), 1);
    if main.Some? {
      m.start := Some(Wrap(m.text + ReadSymbol(mem, main.value).offset));
    }
  }

  datatype Verdict = Relocated | Rejected(error: LoadError) | Corrupted

  /** The three relocation loops. */
  method RelocateModule(mem: Memory, base: Word, entries: seq<SymbolAddress>, m: LoadedModule) returns (v: Verdict)
    modifies m.lot, m.dataBytes
    ensures var h := m.header;
      var external := FillExternals(mem, RelocationsAddress(base), h.externalRelocations, entries, old(m.lot[..]));
      if external.OutOfRange? then v == Corrupted
      else if !external.complete then v == Rejected(ExternalRelocationFailure)
      else
        var local := FillLocals(mem, LocalRelocationsAddress(base, h), h.localRelocations, m.text, m.data, external.lot);
        if local.OutOfRange? then v == Corrupted
        else
          var bytes := RelocateData(mem, LocalRelocationsAddress(base, h), h.dataRelocations, m.data, old(m.dataBytes[..]));
          if bytes.None? then v == Corrupted
          else v == Relocated && m.lot[..] == local.lot && m.dataBytes[..] == bytes.value
  {
    hide FillExternals, FillLocals, RelocateData;
    var h := m.header;
    var status, inside := ProcessExternalRelocations(mem, RelocationsAddress(base), h.externalRelocations, entries, m.lot);
    if !inside {
      return Corrupted;
    }
    if !status {
      return Rejected(ExternalRelocationFailure);
    }
    inside := ProcessLocalRelocations(mem, LocalRelocationsAddress(base, h), h.localRelocations, m.text, m.data, m.lot);
    if !inside {
      return Corrupted;
    }
    inside := ProcessDataRelocations(mem, LocalRelocationsAddress(base, h), h.dataRelocations, m.data, m.dataBytes);
    v := if inside then Relocated else Corrupted;
  }

  /** Places and relocates a module that has just joined the list. */
  method PlaceAndRelocate(mem: Memory, base: Word, copyText: bool, entries: seq<SymbolAddress>, heap: Heap, m: LoadedModule)
    returns (v: Verdict)
    requires m.start == None && m.lotAddress == 0
    modifies m
    ensures m.TextRange() == RangeLeft(base, m.header, copyText, heap)
    ensures match LoadBody(mem, base, m.header, copyText, entries, heap)
      case Failure(e) => v == Rejected(e)
      case Corruption => v == Corrupted
      case Success(loaded) => v == Relocated && m.View(mem, copyText) == loaded
  {
    hide FillExternals, FillLocals, RelocateData, Slice, InitialData, StartAddress, CodeAddress, FreshLot, Wrap,
      RelocationsAddress, LocalRelocationsAddress;
    var ok := PlaceText(mem, base, copyText, heap.text, m);
    if !ok {
      return Rejected(TextAllocationFailure);
    }
    ok := PlaceData(mem, base, heap.data, m);
    if !ok {
      return Rejected(DataAllocationFailure);
    }
    SetStart(mem, base, m);
    ok := m.AllocateLot(heap.lot, heap.junk);
    if !ok {
      return Rejected(LotAllocationFailure);
    }
    v := RelocateModule(mem, base, entries, m);
  }

  class DynamicLinker {
    var modules: seq<LoadedModule>

    constructor ()
      ensures modules == []
    {
      modules := [];
    }

    /**
     * Loads the image at `base`. Whatever happens after the cookie check, the
     * module joins the list: a failed one is never taken out again.
     */
    method LoadModule(mem: Memory, base: Word, copyText: bool, entries: seq<SymbolAddress>, heap: Heap)
      returns (v: Verdict)
      modifies this`modules
      ensures var outcome := Load(mem, base, copyText, entries, heap);
        match outcome
        case Failure(e) => v == Rejected(e)
        case Corruption => v == Corrupted
        case Success(loaded) =>
          && v == Relocated
          && modules != []
          && modules[|modules| - 1].View(mem, copyText) == loaded
      ensures Ranges() == old(Ranges()) +
        if HasCookie(mem, base) then [RangeLeft(base, ReadHeader(mem, base), copyText, heap)] else []
      ensures if HasCookie(mem, base) then
                && |modules| == |old(modules)| + 1
                && modules[..|old(modules)|] == old(modules)
                && fresh(modules[|old(modules)|])
                && modules[|old(modules)|].header == ReadHeader(mem, base)
                && modules[|old(modules)|].TextRange() == RangeLeft(base, ReadHeader(mem, base), copyText, heap)
              else modules == old(modules)
    {
      hide LoadBody, ReadHeader, HasCookie;
      if !HasCookie(mem, base) {
        return Rejected(CookieValidationFailure);
      }
      var m := new LoadedModule(ReadHeader(mem, base));
      modules := modules + [m];
      v := PlaceAndRelocate(mem, base, copyText, entries, heap, m);
    }

    /** Takes the first module that is this very object out of the list. */
    method UnloadModule(m: LoadedModule)
      modifies this`modules
      ensures m !in old(modules) ==> modules == old(modules)
      ensures m in old(modules) ==>
        exists i :: 0 <= i < |old(modules)| && old(modules)[i] == m && m !in old(modules)[..i]
          && modules == old(modules)[..i] + old(modules)[i + 1..]
    {
      for i := 0 to |modules|
        invariant modules == old(modules) && m !in modules[..i]
      {
        if modules[i] == m {
          modules := modules[..i] + modules[i + 1..];
          return;
        }
      }
    }

    /** Text ranges of the modules in the list. */
    ghost function Ranges(): (ranges: seq<Range>)
      reads this, modules
      ensures |ranges| == |modules|
    {
      seq(|modules|, i requires 0 <= i < |modules| reads this, modules => modules[i].TextRange())
    }

    /** What a module's wrapper code asks for to set r9. */
    method GetLotForModuleAt(address: Word) returns (lot: Word)
      ensures lot == LotAt(Ranges(), address)
    {
      assert Ranges()[0..] == Ranges();
      for i := 0 to |modules|
        invariant LotAt(Ranges(), address) == LotAt(Ranges()[i..], address)
      {
        assert Ranges()[i..][1..] == Ranges()[i + 1..];
        var m := modules[i];
        if address >= m.text && address < Wrap(m.text + m.header.codeSize) {
          return m.lotAddress;
        }
      }
      lot := 0xffff_ffff;
    }
  }
}
