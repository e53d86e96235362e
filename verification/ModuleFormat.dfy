// The relocatable "MSDL" image: header, relocation entries, symbol table,
// padding to 16 bytes, code and initialised data. The generator writes it,
// the dynamic loader reads it out of memory.

module ModuleFormat {
  import opened Words

  const HEADER_SIZE := 24
  const ENTRY_SIZE := 8
  const SYMBOL_SIZE := 12

  const COOKIE: seq<Byte> := [77, 83, 68, 76]  // "MSDL"

  datatype Header = Header(
    codeSize: Word,
    dataSize: Word,
    bssSize: Word,
    externalRelocations: Half,
    localRelocations: Half,
    dataRelocations: Half,
    externalSymbols: Half)

  /** A relocation entry; what its two words mean depends on its table. */
  datatype Entry = Entry(index: Word, offset: Word)

  datatype SymbolEntry = SymbolEntry(section: Half, offset: Word, code: Word)

  datatype Module = Module(
    header: Header,
    entries: seq<Entry>,
    symbols: seq<SymbolEntry>,
    code: seq<Byte>,
    data: seq<Byte>)

  // ---------- Writing

  function EncodeHeader(h: Header): (bytes: seq<Byte>)
    ensures |bytes| == HEADER_SIZE
  {
    COOKIE + Pack32(h.codeSize) + Pack32(h.dataSize) + Pack32(h.bssSize)
    + Pack16(h.externalRelocations) + Pack16(h.localRelocations)
    + Pack16(h.dataRelocations) + Pack16(h.externalSymbols)
  }

  function EncodeEntry(e: Entry): (bytes: seq<Byte>)
    ensures |bytes| == ENTRY_SIZE
  {
    Pack32(e.index) + Pack32(e.offset)
  }

  function EncodeSymbol(s: SymbolEntry): (bytes: seq<Byte>)
    ensures |bytes| == SYMBOL_SIZE
  {
    Pack16(SYMBOL_SIZE) + Pack16(s.section) + Pack32(s.offset) + Pack32(s.code)
  }

  function EncodeEntries(es: seq<Entry>): (bytes: seq<Byte>)
    ensures |bytes| == ENTRY_SIZE * |es|
  {
    if es == [] then [] else EncodeEntries(es[..|es| - 1]) + EncodeEntry(es[|es| - 1])
  }

  function EncodeSymbols(ss: seq<SymbolEntry>): (bytes: seq<Byte>)
    ensures |bytes| == SYMBOL_SIZE * |ss|
  {
    if ss == [] then [] else EncodeSymbols(ss[..|ss| - 1]) + EncodeSymbol(ss[|ss| - 1])
  }

  function Padding(n: nat): (bytes: seq<Byte>)
    ensures |bytes| == Align16(n) - n
  {
    seq(Align16(n) - n, _ => 0)
  }

  function TablesSize(m: Module): nat {
    HEADER_SIZE + ENTRY_SIZE * |m.entries| + SYMBOL_SIZE * |m.symbols|
  }

  /** Where the code starts, from the beginning of the image. */
  function CodeOffset(m: Module): nat {
    Align16(TablesSize(m))
  }

  function Serialise(m: Module): (image: seq<Byte>)
    ensures |image| == CodeOffset(m) + |m.code| + |m.data|
  {
    EncodeHeader(m.header) + EncodeEntries(m.entries) + EncodeSymbols(m.symbols)
    + Padding(TablesSize(m)) + m.code + m.data
  }

  // ---------- Reading

  predicate HasCookie(mem: Memory, a: int) {
    Slice(mem, a, 4) == COOKIE
  }

  function ReadHeader(mem: Memory, a: int): Header {
    Header(Read32(mem, a + 4), Read32(mem, a + 8), Read32(mem, a + 12),
           Read16(mem, a + 16), Read16(mem, a + 18), Read16(mem, a + 20), Read16(mem, a + 22))
  }

  function ReadEntry(mem: Memory, a: int): Entry {
    Entry(Read32(mem, a), Read32(mem, a + 4))
  }

  /** The size field at offset 0 is never read by the loader. */
  function ReadSymbol(mem: Memory, a: int): SymbolEntry {
    SymbolEntry(Read16(mem, a + 2), Read32(mem, a + 4), Read32(mem, a + 8))
  }

  // ---------- What is written is what is read

  lemma HeaderRoundTrip(mem: Memory, a: int, h: Header)
    requires Holds(mem, a, EncodeHeader(h))
    ensures HasCookie(mem, a) && ReadHeader(mem, a) == h
  {
    var p0 := COOKIE;
    var p1 := p0 + Pack32(h.codeSize);
    var p2 := p1 + Pack32(h.dataSize);
    var p3 := p2 + Pack32(h.bssSize);
    var p4 := p3 + Pack16(h.externalRelocations);
    var p5 := p4 + Pack16(h.localRelocations);
    var p6 := p5 + Pack16(h.dataRelocations);
    HoldsConcat(mem, a, p6, Pack16(h.externalSymbols));
    HoldsPack16(mem, a + 22, h.externalSymbols);
    HoldsConcat(mem, a, p5, Pack16(h.dataRelocations));
    HoldsPack16(mem, a + 20, h.dataRelocations);
    HoldsConcat(mem, a, p4, Pack16(h.localRelocations));
    HoldsPack16(mem, a + 18, h.localRelocations);
    HoldsConcat(mem, a, p3, Pack16(h.externalRelocations));
    HoldsPack16(mem, a + 16, h.externalRelocations);
    HoldsConcat(mem, a, p2, Pack32(h.bssSize));
    HoldsPack32(mem, a + 12, h.bssSize);
    HoldsConcat(mem, a, p1, Pack32(h.dataSize));
    HoldsPack32(mem, a + 8, h.dataSize);
    HoldsConcat(mem, a, p0, Pack32(h.codeSize));
    HoldsPack32(mem, a + 4, h.codeSize);
    HoldsSlice(mem, a, COOKIE);
  }

  lemma EntryRoundTrip(mem: Memory, a: int, e: Entry)
    requires Holds(mem, a, EncodeEntry(e))
    ensures ReadEntry(mem, a) == e
  {
    HoldsConcat(mem, a, Pack32(e.index), Pack32(e.offset));
    HoldsPack32(mem, a, e.index);
    HoldsPack32(mem, a + 4, e.offset);
  }

  lemma SymbolRoundTrip(mem: Memory, a: int, s: SymbolEntry)
    requires Holds(mem, a, EncodeSymbol(s))
    ensures ReadSymbol(mem, a) == s
  {
    var p1 := Pack16(SYMBOL_SIZE) + Pack16(s.section);
    var p2 := p1 + Pack32(s.offset);
    HoldsConcat(mem, a, p2, Pack32(s.code));
    HoldsPack32(mem, a + 8, s.code);
    HoldsConcat(mem, a, p1, Pack32(s.offset));
    HoldsPack32(mem, a + 4, s.offset);
    HoldsConcat(mem, a, Pack16(SYMBOL_SIZE), Pack16(s.section));
    HoldsPack16(mem, a + 2, s.section);
  }

  /** A reader stepping through the table at `a` sees exactly these entries. */
  ghost predicate EntriesParsed(es: seq<Entry>, mem: Memory, a: int) {
    forall i :: 0 <= i < |es| ==> es[i] == ReadEntry(mem, a + ENTRY_SIZE * i)
  }

  /** A reader stepping through the table at `a` sees exactly these symbols. */
  ghost predicate SymbolsParsed(ss: seq<SymbolEntry>, mem: Memory, a: int) {
    forall j :: 0 <= j < |ss| ==> ss[j] == ReadSymbol(mem, a + SYMBOL_SIZE * j)
  }

  lemma {:induction false} EntriesRoundTrip(mem: Memory, a: int, es: seq<Entry>)
    requires Holds(mem, a, EncodeEntries(es))
    ensures EntriesParsed(es, mem, a)
  {
    hide EncodeEntry, ReadEntry, Holds;
    if es != [] {
      var before := es[..|es| - 1];
      HoldsConcat(mem, a, EncodeEntries(before), EncodeEntry(es[|es| - 1]));
      EntriesRoundTrip(mem, a, before);
      EntryRoundTrip(mem, a + ENTRY_SIZE * (|es| - 1), es[|es| - 1]);
      assert forall i :: 0 <= i < |before| ==> before[i] == es[i];
    }
  }

  lemma {:induction false} SymbolsRoundTrip(mem: Memory, a: int, ss: seq<SymbolEntry>)
    requires Holds(mem, a, EncodeSymbols(ss))
    ensures SymbolsParsed(ss, mem, a)
  {
    hide EncodeSymbol, ReadSymbol, Holds;
    if ss != [] {
      var before := ss[..|ss| - 1];
      HoldsConcat(mem, a, EncodeSymbols(before), EncodeSymbol(ss[|ss| - 1]));
      SymbolsRoundTrip(mem, a, before);
      SymbolRoundTrip(mem, a + SYMBOL_SIZE * (|ss| - 1), ss[|ss| - 1]);
      assert forall i :: 0 <= i < |before| ==> before[i] == ss[i];
    }
  }

  /** Where the parts of an image lie in memory. */
  lemma ImageParts(m: Module, mem: Memory, base: int)
    requires Holds(mem, base, Serialise(m))
    ensures Holds(mem, base, EncodeHeader(m.header))
    ensures Holds(mem, base + HEADER_SIZE, EncodeEntries(m.entries))
    ensures Holds(mem, base + HEADER_SIZE + ENTRY_SIZE * |m.entries|, EncodeSymbols(m.symbols))
    ensures Holds(mem, base + CodeOffset(m), m.code)
    ensures Holds(mem, base + CodeOffset(m) + |m.code|, m.data)
  {
    hide Holds, EncodeHeader, EncodeEntries, EncodeSymbols, Padding;
    var p1 := EncodeHeader(m.header);
    var p2 := p1 + EncodeEntries(m.entries);
    var p3 := p2 + EncodeSymbols(m.symbols);
    var p4 := p3 + Padding(TablesSize(m));
    HoldsConcat(mem, base, p4 + m.code, m.data);
    HoldsConcat(mem, base, p4, m.code);
    HoldsConcat(mem, base, p3, Padding(TablesSize(m)));
    HoldsConcat(mem, base, p2, EncodeSymbols(m.symbols));
    HoldsConcat(mem, base, p1, EncodeEntries(m.entries));
  }

  /** What a reader that follows the layout gets out of memory. */
  ghost predicate Parsed(m: Module, mem: Memory, base: int) {
    && HasCookie(mem, base)
    && ReadHeader(mem, base) == m.header
    && EntriesParsed(m.entries, mem, base + HEADER_SIZE)
    && SymbolsParsed(m.symbols, mem, base + HEADER_SIZE + ENTRY_SIZE * |m.entries|)
    && Slice(mem, base + CodeOffset(m), |m.code|) == m.code
    && Slice(mem, base + CodeOffset(m) + |m.code|, |m.data|) == m.data
  }

  /** Every part of a module is found again where the layout puts it. */
  lemma ImageRoundTrip(m: Module, mem: Memory, base: int)
    requires Holds(mem, base, Serialise(m))
    ensures Parsed(m, mem, base)
  {
    hide Holds, Serialise, EncodeHeader, EncodeEntries, EncodeSymbols, CodeOffset, HasCookie, ReadHeader, EntriesParsed,
      SymbolsParsed, Slice;
    ImageParts(m, mem, base);
    HeaderRoundTrip(mem, base, m.header);
    EntriesRoundTrip(mem, base + HEADER_SIZE, m.entries);
    SymbolsRoundTrip(mem, base + HEADER_SIZE + ENTRY_SIZE * |m.entries|, m.symbols);
    HoldsSlice(mem, base + CodeOffset(m), m.code);
    HoldsSlice(mem, base + CodeOffset(m) + |m.code|, m.data);
  }
}
