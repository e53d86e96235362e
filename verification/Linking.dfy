// The generator and the loader together: what compiled code reads through r9
// after loading is the run-time address of the symbol its relocation named.

module Linking {
  import opened Results
  import opened Words
  import opened Elf
  import opened ModuleFormat
  import opened LinkSpec
  import opened LotProperties
  import opened PatchProperties
  import opened LoadSpec

  /**
   * What generator and loader tacitly rely on: main is the one exported symbol,
   * it lies in .text and is not reached through the LOT, no two GOT words
   * overlap, and no data need relocating.
   */
  ghost predicate Linkable(elf: ElfFile) {
    && (exists main :: WithLocalization(elf.symbols, Exported) == [main] && main.name == "main"
          && ".text" in elf.sections && main.section == At(elf.sections[".text"].index))
    && (forall k :: 0 <= k < |elf.relocations| ==> !NamesMain(elf.relocations[k], Visibility(elf.symbols)))
    && SitesApart(elf.relocations, Visibility(elf.symbols))
    && NoDataRelocations(elf)
  }

  // ---------- Tables element by element

  lemma {:induction false} ExternalEntriesAt(sites: seq<NamedSite>, total: nat, exportedCount: nat,
                                             externals: seq<ElfSymbol>, j: nat)
    requires ExternalEntries(sites, total, exportedCount, externals).Ok? && j < |sites|
    ensures ExternalEntry(sites[j], j, total, exportedCount, externals)
         == Ok(ExternalEntries(sites, total, exportedCount, externals).value[j])
  {
    if j < |sites| - 1 {
      ExternalEntriesAt(sites[..|sites| - 1], total, exportedCount, externals, j);
    }
  }

  lemma {:induction false} LocalEntriesAt(sites: seq<LocalSite>, place: Placement, j: nat)
    requires LocalEntries(sites, place).Ok? && j < |sites|
    ensures LocalEntry(sites[j], place) == Ok(LocalEntries(sites, place).value[j])
  {
    if j < |sites| - 1 {
      LocalEntriesAt(sites[..|sites| - 1], place, j);
    }
  }

  lemma {:induction false} SymbolEntriesAt(symbols: seq<ElfSymbol>, exported: bool, place: Placement, api: Api, j: nat)
    requires SymbolEntries(symbols, exported, place, api).Ok? && j < |symbols|
    ensures SymbolEntryOf(symbols[j], exported, place, api) == Ok(SymbolEntries(symbols, exported, place, api).value[j])
  {
    if j < |symbols| - 1 {
      SymbolEntriesAt(symbols[..|symbols| - 1], exported, place, api, j);
    }
  }

  lemma {:induction false} PositionFound(symbols: seq<ElfSymbol>, name: string)
    requires exists s :: s in symbols && s.name == name
    ensures PositionOf(symbols, name) < |symbols| && symbols[PositionOf(symbols, name)].name == name
  {
    if symbols[0].name != name {
      assert symbols == [symbols[0]] + symbols[1..];
      PositionFound(symbols[1..], name);
    }
  }

  /** Every external site names one of the external symbols. */
  lemma {:induction false} SitesNameExternals(rs: seq<ElfRelocation>, symbols: seq<ElfSymbol>, i: nat)
    requires Extract(rs, Visibility(symbols)).Ok? && i < |Extract(rs, Visibility(symbols)).value.externals|
    ensures var name := Extract(rs, Visibility(symbols)).value.externals[i].name;
      exists s :: s in WithLocalization(symbols, External) && s.name == name
  {
    var visibility := Visibility(symbols);
    var before := Extract(rs[..|rs| - 1], visibility).value;
    var r := rs[|rs| - 1];
    if i < |before.externals| {
      SitesNameExternals(rs[..|rs| - 1], symbols, i);
    } else {
      VisibilityFrom(symbols, r.symbolName);
    }
  }

  lemma {:induction false} FirstSitesSubset(sites: seq<NamedSite>, j: nat)
    requires j < |FirstSites(sites)|
    ensures FirstSites(sites)[j] in sites
  {
    var before := sites[..|sites| - 1];
    if j < |FirstSites(before)| {
      FirstSitesSubset(before, j);
    }
  }

  // ---------- The loader's relocation loops on a list of sites

  /** A loader walking the external table finds each site's slot and symbol code. */
  ghost predicate ExternalsRead(mem: Memory, address: int, first: seq<NamedSite>, api: Api, slots: nat) {
    forall j :: 0 <= j < |first| ==>
      && first[j].name in api
      && 0 <= first[j].index < slots
      && ReadEntry(mem, address + ENTRY_SIZE * j).index == first[j].index
      && ReadSymbol(mem, Wrap(address + ENTRY_SIZE * j + ReadEntry(mem, address + ENTRY_SIZE * j).offset)).code
         == api[first[j].name]
  }

  /** A loader walking the local table finds each site's slot, section and offset. */
  ghost predicate LocalsRead(mem: Memory, address: int, locals: seq<LocalSite>, place: Placement, slots: nat) {
    forall j :: 0 <= j < |locals| ==>
      && locals[j].index < slots
      && LocalEntry(locals[j], place) == Ok(ReadEntry(mem, address + ENTRY_SIZE * j))
  }

  /** The environment has the symbol, under the code the API file gives it. */
  predicate Known(name: string, api: Api, entries: seq<SymbolAddress>) {
    name in api && Lists(entries, api[name])
  }

  predicate Found(site: NamedSite, api: Api, entries: seq<SymbolAddress>) {
    Known(site.name, api, entries)
  }

  /** The slots of the first `n` sites hold the addresses of their symbols. */
  ghost predicate ExternalsWritten(first: seq<NamedSite>, n: nat, api: Api, entries: seq<SymbolAddress>, lot: seq<Word>) {
    forall j :: 0 <= j < n && j < |first| && Found(first[j], api, entries) ==>
      && 0 <= first[j].index < |lot|
      && Gives(entries, api[first[j].name], lot[first[j].index])
  }

  ghost predicate AllFound(first: seq<NamedSite>, n: nat, api: Api, entries: seq<SymbolAddress>) {
    forall j :: 0 <= j < n && j < |first| ==> Found(first[j], api, entries)
  }

  ghost predicate Ascending(first: seq<NamedSite>, locals: seq<LocalSite>) {
    && (forall i, j :: 0 <= i < j < |first| ==> first[i].index < first[j].index)
    && (forall i, j :: 0 <= i < j < |locals| ==> locals[i].index < locals[j].index)
  }

  lemma {:induction false} ExternalsFilled(mem: Memory, address: int, first: seq<NamedSite>, api: Api,
                                           entries: seq<SymbolAddress>, lot: seq<Word>, n: nat)
    requires ExternalsRead(mem, address, first, api, |lot|) && n <= |first|
    requires Ascending(first, [])
    ensures var fill := FillExternals(mem, address, n, entries, lot);
      && fill.Filled? && |fill.lot| == |lot|
      && (fill.complete <==> AllFound(first, n, api, entries))
      && ExternalsWritten(first, n, api, entries, fill.lot)
  {
    hide ReadEntry, ReadSymbol, Wrap, Gives, Lists;
    if n > 0 {
      ExternalsFilled(mem, address, first, api, entries, lot, n - 1);
      var site := first[n - 1];
      var before := FillExternals(mem, address, n - 1, entries, lot);
      var fill := FillExternals(mem, address, n, entries, lot);
      assert fill == FillExternal(mem, address + ENTRY_SIZE * (n - 1), entries, before);
      if Found(site, api, entries) {
        assert fill.lot == before.lot[site.index := FindAddress(entries, api[site.name]).value];
      }
    }
  }

  function LocalAddress(site: LocalSite, place: Placement, text: Word, data: Word): Word {
    if site.section == At(place.text) then Wrap(text + site.value) else Wrap(data + site.value - place.codeSize)
  }

  /** The slots of the first `n` sites hold the addresses of their symbols. */
  ghost predicate LocalsWritten(locals: seq<LocalSite>, n: nat, place: Placement, text: Word, data: Word, lot: seq<Word>) {
    forall j :: 0 <= j < n && j < |locals| ==>
      locals[j].index < |lot| && lot[locals[j].index] == LocalAddress(locals[j], place, text, data)
  }

  ghost predicate OthersKept(locals: seq<LocalSite>, n: nat, before: seq<Word>, after: seq<Word>) {
    && |before| == |after|
    && (forall i :: 0 <= i < |after| && (forall j :: 0 <= j < n && j < |locals| ==> locals[j].index != i) ==>
          after[i] == before[i])
  }

  lemma LocalFilled(mem: Memory, at: int, site: LocalSite, place: Placement, text: Word, data: Word, fill: Fill)
    requires fill.Filled? && site.index < |fill.lot| && LocalEntry(site, place) == Ok(ReadEntry(mem, at))
    ensures FillLocal(mem, at, text, data, fill)
         == Filled(fill.lot[site.index := LocalAddress(site, place, text, data)], fill.complete)
  {
    hide ReadEntry, Wrap;
    var entry := ReadEntry(mem, at);
    if site.section == At(place.text) {
      assert entry.index == 2 * site.index && entry.index / 2 == site.index;
    } else {
      assert entry.index == 2 * site.index + 1 && entry.index / 2 == site.index;
      assert data + entry.offset == data + site.value - place.codeSize;
    }
  }

  lemma {:induction false} LocalsFilled(mem: Memory, address: int, locals: seq<LocalSite>, place: Placement,
                                        text: Word, data: Word, lot: seq<Word>, n: nat)
    requires LocalsRead(mem, address, locals, place, |lot|) && n <= |locals|
    requires Ascending([], locals)
    ensures var fill := FillLocals(mem, address, n, text, data, lot);
      && fill.Filled? && |fill.lot| == |lot|
      && LocalsWritten(locals, n, place, text, data, fill.lot)
      && OthersKept(locals, n, lot, fill.lot)
  {
    hide ReadEntry, Wrap, LocalAddress, LocalEntry, FillLocal;
    if n > 0 {
      LocalsFilled(mem, address, locals, place, text, data, lot, n - 1);
      LocalFilled(mem, address + ENTRY_SIZE * (n - 1), locals[n - 1], place, text, data,
                  FillLocals(mem, address, n - 1, text, data, lot));
    }
  }

  // ---------- A linked module's tables in memory

  /** The intermediate results behind a linked module. */
  datatype Linked = Linked(layout: Layout, sites: Sites, exported: seq<ElfSymbol>, externals: seq<ElfSymbol>, m: Module)
  {
    function Place(): Placement {
      PlacementOf(layout)
    }

    function First(): seq<NamedSite> {
      FirstSites(sites.externals)
    }
  }

  ghost predicate LinkedFrom(l: Linked, elf: ElfFile, api: Api) {
    && SectionsOf(elf.sections) == Ok(l.layout)
    && Extract(elf.relocations, Visibility(elf.symbols)) == Ok(l.sites)
    && l.exported == WithLocalization(elf.symbols, Exported)
    && l.externals == WithLocalization(elf.symbols, External)
    && PatchAll(l.layout.text.bytes, Patches(l.sites)) == Ok(l.m.code)
    && HeaderOf(l.layout, |l.First()|, |l.sites.locals|, |l.externals|) == Ok(l.m.header)
    && EntriesOf(l.sites, |l.exported|, l.externals, l.Place()) == Ok(l.m.entries)
    && SymbolsOf(l.exported, l.externals, l.Place(), api) == Ok(l.m.symbols)
    && l.m.data == l.layout.data.bytes
  }

  lemma LinkedModule(elf: ElfFile, api: Api) returns (l: Linked)
    requires LinkModule(elf, api).Ok?
    ensures LinkedFrom(l, elf, api) && l.m == LinkModule(elf, api).value
  {
    hide Visibility, PatchAll, HeaderOf, EntriesOf, SymbolsOf, SectionsOf, Extract, WithLocalization;
    var layout := SectionsOf(elf.sections).value;
    var sites := Extract(elf.relocations, Visibility(elf.symbols)).value;
    l := Linked(layout, sites, WithLocalization(elf.symbols, Exported), WithLocalization(elf.symbols, External),
                LinkModule(elf, api).value);
  }

  lemma EntryContents(l: Linked, elf: ElfFile, api: Api)
    requires LinkedFrom(l, elf, api)
    ensures |l.m.entries| == |l.First()| + |l.sites.locals|
    ensures forall j :: 0 <= j < |l.First()| ==>
      ExternalEntry(l.First()[j], j, TotalRelocations(l.sites), |l.exported|, l.externals) == Ok(l.m.entries[j])
    ensures forall j :: 0 <= j < |l.sites.locals| ==>
      LocalEntry(l.sites.locals[j], l.Place()) == Ok(l.m.entries[|l.First()| + j])
  {
    hide ExternalEntries, LocalEntries, ExternalEntry, LocalEntry, FirstSites, Extract, SectionsOf, HeaderOf, SymbolsOf,
      PatchAll, Visibility, WithLocalization;
    var total := TotalRelocations(l.sites);
    forall j | 0 <= j < |l.First()|
      ensures ExternalEntry(l.First()[j], j, total, |l.exported|, l.externals) == Ok(l.m.entries[j])
    {
      ExternalEntriesAt(l.First(), total, |l.exported|, l.externals, j);
    }
    forall j | 0 <= j < |l.sites.locals|
      ensures LocalEntry(l.sites.locals[j], l.Place()) == Ok(l.m.entries[|l.First()| + j])
    {
      LocalEntriesAt(l.sites.locals, l.Place(), j);
    }
  }

  lemma SymbolContents(l: Linked, elf: ElfFile, api: Api)
    requires LinkedFrom(l, elf, api)
    ensures |l.m.symbols| == |l.exported| + |l.externals|
    ensures forall j :: 0 <= j < |l.exported| ==>
      SymbolEntryOf(l.exported[j], true, l.Place(), api) == Ok(l.m.symbols[j])
    ensures forall j :: 0 <= j < |l.externals| ==>
      SymbolEntryOf(l.externals[j], false, l.Place(), api) == Ok(l.m.symbols[|l.exported| + j])
  {
    hide SymbolEntries, SymbolEntryOf, FirstSites, Extract, SectionsOf, HeaderOf, EntriesOf, PatchAll, Visibility,
      WithLocalization;
    forall j | 0 <= j < |l.exported|
      ensures SymbolEntryOf(l.exported[j], true, l.Place(), api) == Ok(l.m.symbols[j])
    {
      SymbolEntriesAt(l.exported, true, l.Place(), api, j);
    }
    forall j | 0 <= j < |l.externals|
      ensures SymbolEntryOf(l.externals[j], false, l.Place(), api) == Ok(l.m.symbols[|l.exported| + j])
    {
      SymbolEntriesAt(l.externals, false, l.Place(), api, j);
    }
  }

  /** Address of an entry of the symbol table. */
  function SymbolTableAddress(base: nat, entries: nat, place: nat): nat {
    base + HEADER_SIZE + ENTRY_SIZE * entries + SYMBOL_SIZE * place
  }

  /**
   * A relocation entry's self-relative offset reaches its own symbol exactly
   * when the generator counted no more relocations than it wrote.
   */
  lemma OffsetReachesSymbol(base: nat, position: nat, total: nat, entries: nat, exportedCount: nat, place: nat)
    ensures base + HEADER_SIZE + ENTRY_SIZE * position + OffsetToSymbol(position, total, exportedCount, place)
         == SymbolTableAddress(base, entries, exportedCount + place)
       <==> total == entries
  {
  }

  /** Place of the j-th external relocation's symbol among the external symbols. */
  function PlaceOf(l: Linked, j: nat): nat
    requires j < |l.First()|
  {
    PositionOf(l.externals, l.First()[j].name)
  }

  lemma ExternalEntryIs(l: Linked, elf: ElfFile, api: Api, j: nat)
    requires LinkedFrom(l, elf, api) && j < |l.First()|
    ensures j < |l.m.entries|
    ensures l.m.entries[j].index == l.First()[j].index
    ensures l.m.entries[j].offset == OffsetToSymbol(j, TotalRelocations(l.sites), |l.exported|, PlaceOf(l, j))
  {
    hide LinkedFrom, TotalRelocations, OffsetToSymbol, PositionOf, FirstSites;
    EntryContents(l, elf, api);
    assert ExternalEntry(l.First()[j], j, TotalRelocations(l.sites), |l.exported|, l.externals) == Ok(l.m.entries[j]);
  }

  lemma ExternalSymbolIs(l: Linked, elf: ElfFile, api: Api, j: nat)
    requires LinkedFrom(l, elf, api) && j < |l.First()|
    ensures l.First()[j].name in api
    ensures |l.exported| + PlaceOf(l, j) < |l.m.symbols|
    ensures l.m.symbols[|l.exported| + PlaceOf(l, j)].code == api[l.First()[j].name]
  {
    hide LinkedFrom, PositionOf, FirstSites;
    SymbolContents(l, elf, api);
    ExternalNameKnown(l, elf, api, j);
    PositionFound(l.externals, l.First()[j].name);
    var p := PlaceOf(l, j);
    assert SymbolEntryOf(l.externals[p], false, l.Place(), api) == Ok(l.m.symbols[|l.exported| + p]);
  }

  lemma EntryAt(m: Module, mem: Memory, base: Word, j: nat)
    requires Parsed(m, mem, base) && j < |m.entries|
    ensures ReadEntry(mem, base + HEADER_SIZE + ENTRY_SIZE * j) == m.entries[j]
  {
    hide ReadSymbol, ReadEntry, ReadHeader, HasCookie, Slice, SymbolsParsed;
    assert EntriesParsed(m.entries, mem, base + HEADER_SIZE);
  }

  lemma ExternalRead(l: Linked, elf: ElfFile, api: Api, mem: Memory, base: Word, j: nat)
    requires LinkedFrom(l, elf, api) && Parsed(l.m, mem, base) && j < |l.First()|
    requires l.sites.exported == [] && base + |Serialise(l.m)| <= WORD_LIMIT
    ensures var at := base + HEADER_SIZE + ENTRY_SIZE * j;
      && l.First()[j].name in api
      && ReadEntry(mem, at).index == l.First()[j].index
      && ReadSymbol(mem, Wrap(at + ReadEntry(mem, at).offset)).code == api[l.First()[j].name]
  {
    hide *;
    var k := |l.exported| + PlaceOf(l, j);
    var at := base + HEADER_SIZE + ENTRY_SIZE * j;
    EntryCount(l, elf, api);
    ExternalEntryIs(l, elf, api, j);
    ExternalSymbolIs(l, elf, api, j);
    EntryAt(l.m, mem, base, j);
    SymbolAt(l.m, mem, base, k);
    OffsetReachesSymbol(base, j, TotalRelocations(l.sites), |l.m.entries|, |l.exported|, PlaceOf(l, j));
    assert at + ReadEntry(mem, at).offset == SymbolTableAddress(base, |l.m.entries|, k);
    WrapSmall(SymbolTableAddress(base, |l.m.entries|, k));
  }

  /** The generator writes every relocation it counts, except those of main. */
  lemma EntryCount(l: Linked, elf: ElfFile, api: Api)
    requires LinkedFrom(l, elf, api)
    ensures TotalRelocations(l.sites) == |l.m.entries| + |FirstSites(l.sites.exported)|
    ensures l.sites.exported == [] ==> TotalRelocations(l.sites) == |l.m.entries|
  {
    hide LinkedFrom;
    EntryContents(l, elf, api);
  }

  lemma WrapSmall(x: nat)
    requires x < WORD_LIMIT
    ensures Wrap(x) == x
  {
  }

  lemma ExternalNameKnown(l: Linked, elf: ElfFile, api: Api, j: nat)
    requires LinkedFrom(l, elf, api) && j < |l.First()|
    ensures exists s :: s in l.externals && s.name == l.First()[j].name
  {
    FirstSitesSubset(l.sites.externals, j);
    var i :| 0 <= i < |l.sites.externals| && l.sites.externals[i] == l.First()[j];
    SitesNameExternals(elf.relocations, elf.symbols, i);
  }

  lemma SymbolAt(m: Module, mem: Memory, base: Word, k: nat)
    requires Parsed(m, mem, base) && k < |m.symbols| && base + |Serialise(m)| <= WORD_LIMIT
    ensures SymbolTableAddress(base, |m.entries|, k) < WORD_LIMIT
    ensures ReadSymbol(mem, SymbolTableAddress(base, |m.entries|, k)) == m.symbols[k]
  {
    hide ReadSymbol, ReadEntry, ReadHeader, HasCookie, Slice;
  }

  lemma HeaderIs(l: Linked, elf: ElfFile, api: Api)
    requires LinkedFrom(l, elf, api)
    ensures var h := l.m.header;
      && h.codeSize == |l.layout.text.bytes| == |l.m.code|
      && h.dataSize == |l.layout.data.bytes| == |l.m.data|
      && h.bssSize == |l.layout.bss.bytes|
      && h.externalRelocations == |l.First()|
      && h.localRelocations == |l.sites.locals|
      && h.dataRelocations == 0
      && h.externalSymbols == |l.externals|
  {
    hide EntriesOf, SymbolsOf, Extract, SectionsOf, FirstSites, Visibility, WithLocalization, Patches;
  }

  /** Both sides round the same number of bytes up; they agree iff the image starts on a boundary. */
  lemma AlignShift(base: nat, n: nat)
    ensures Align16(base + n) == base + Align16(n) <==> base % 16 == 0
  {
    hide Align16;
    SameRest(base, Align16(n));
    if base % 16 == 0 {
      Rounded(n / 16, n % 16);
      Rounded(base / 16 + n / 16, n % 16);
    }
  }

  lemma SameRest(x: nat, y: nat)
    requires y % 16 == 0
    ensures (x + y) % 16 == x % 16
  {
  }

  /** The loader counts one exported symbol, whatever the generator wrote. */
  lemma CodeLookedFor(l: Linked, elf: ElfFile, api: Api, base: Word)
    requires LinkedFrom(l, elf, api)
    ensures |l.exported| <= |l.m.symbols|
    ensures CodeAddress(base, l.m.header) == Align16(base + TablesSize(l.m) + SYMBOL_SIZE * (1 - |l.exported|))
  {
    hide LinkedFrom, FirstSites, Align16;
    HeaderIs(l, elf, api);
    EntryContents(l, elf, api);
    SymbolContents(l, elf, api);
  }

  /** With one exported symbol the loader finds the code where it was put iff the image is 16-byte aligned. */
  lemma CodeFound(l: Linked, elf: ElfFile, api: Api, base: Word)
    requires LinkedFrom(l, elf, api) && |l.exported| == 1
    ensures CodeAddress(base, l.m.header) == base + CodeOffset(l.m) <==> base % 16 == 0
  {
    hide LinkedFrom, Align16, CodeAddress, TablesSize;
    CodeLookedFor(l, elf, api, base);
    AlignShift(base, TablesSize(l.m));
  }

  /**
   * In an aligned image the code is found iff one symbol is exported, or the padding happens to
   * hide the difference: none, or two, with tables that end four bytes behind, or on, a boundary.
   */
  lemma CodeFoundIff(l: Linked, elf: ElfFile, api: Api, base: Word)
    requires LinkedFrom(l, elf, api) && base % 16 == 0
    ensures CodeAddress(base, l.m.header) == base + CodeOffset(l.m) <==>
      || |l.exported| == 1
      || (|l.exported| == 0 && TablesSize(l.m) % 16 == 4)
      || (|l.exported| == 2 && TablesSize(l.m) % 16 == 0)
  {
    hide LinkedFrom, CodeAddress, Align16;
    CodeLookedFor(l, elf, api, base);
    AlignedAlike(base, |l.m.entries|, |l.m.symbols|, |l.exported|);
  }

  lemma AlignedAlike(base: nat, entries: nat, symbols: nat, exported: nat)
    requires base % 16 == 0 && exported <= symbols
    ensures var n := HEADER_SIZE + ENTRY_SIZE * entries + SYMBOL_SIZE * symbols;
      Align16(base + n + SYMBOL_SIZE * (1 - exported)) == base + Align16(n) <==>
      exported == 1 || (exported == 0 && n % 16 == 4) || (exported == 2 && n % 16 == 0)
  {
    hide Align16;
    var n := HEADER_SIZE + ENTRY_SIZE * entries + SYMBOL_SIZE * symbols;
    Quarters(6 + 2 * entries + 3 * symbols);
    assert base == 16 * (base / 16);
    AlignedIff(base / 16, n / 16, n % 16, exported);
  }

  lemma Quarters(q: nat)
    ensures 4 * q == 16 * (4 * q / 16) + 4 * q % 16 && 4 * q % 16 in {0, 4, 8, 12}
  {
  }

  lemma AlignedIff(b: nat, k: nat, r: nat, exported: nat)
    requires r in {0, 4, 8, 12} && 16 * k + r >= SYMBOL_SIZE * exported && k > 0
    ensures Align16(16 * b + 16 * k + r + SYMBOL_SIZE * (1 - exported)) == 16 * b + Align16(16 * k + r) <==>
      exported == 1 || (exported == 0 && r == 4) || (exported == 2 && r == 0)
  {
    hide Align16;
    if exported >= 3 {
      assert SYMBOL_SIZE * (1 - exported) <= -24;
    } else if exported == 2 {
      OneLess(b, k, r);
    } else if exported == 1 {
      Rounded(k, r);
      Rounded(b + k, r);
    } else {
      OneMore(b, k, r);
    }
  }

  lemma Rounded(k: nat, r: nat)
    requires r < 16
    ensures Align16(16 * k + r) == 16 * k + if r == 0 then 0 else 16
  {
  }

  lemma OneLess(b: nat, k: nat, r: nat)
    requires r in {0, 4, 8, 12} && k > 0
    ensures Align16(16 * b + 16 * k + r - 12) == 16 * b + Align16(16 * k + r) <==> r == 0
  {
    Rounded(k, r);
    if r == 12 {
      Rounded(b + k, 0);
    } else {
      Rounded(b + k - 1, r + 4);
    }
  }

  lemma OneMore(b: nat, k: nat, r: nat)
    requires r in {0, 4, 8, 12}
    ensures Align16(16 * b + 16 * k + r + 12) == 16 * b + Align16(16 * k + r) <==> r == 4
  {
    Rounded(k, r);
    if r == 0 {
      Rounded(b + k, 12);
    } else {
      Rounded(b + k + 1, r - 4);
    }
  }

  lemma SlotBounds(l: Linked, slots: seq<Target>)
    requires SlotInvariant(l.sites, slots)
    ensures l.sites.exported == []
    ensures FillsEverySlotOnce(l.First(), l.sites.locals, |slots|)
    ensures |l.First()| + |l.sites.locals| == |slots|
    ensures forall j :: 0 <= j < |l.First()| ==> 0 <= l.First()[j].index < |slots|
    ensures forall j :: 0 <= j < |l.sites.locals| ==> l.sites.locals[j].index < |slots|
  {
    hide FirstSites, NamedSitesAgree, LocalSitesAgree, NamesAgree, SlotFilled;
  }

  lemma ExternalTableRead(l: Linked, elf: ElfFile, api: Api, mem: Memory, base: Word, slots: seq<Target>)
    requires LinkedFrom(l, elf, api) && Parsed(l.m, mem, base)
    requires SlotInvariant(l.sites, slots) && base + |Serialise(l.m)| <= WORD_LIMIT
    ensures ExternalsRead(mem, base + HEADER_SIZE, l.First(), api, |slots|)
  {
    hide LinkedFrom, Parsed, SlotInvariant, Serialise, FirstSites, Wrap, ReadEntry, ReadSymbol, FillsEverySlotOnce;
    SlotBounds(l, slots);
    forall j | 0 <= j < |l.First()|
      ensures var at := base + HEADER_SIZE + ENTRY_SIZE * j;
        && l.First()[j].name in api
        && ReadEntry(mem, at).index == l.First()[j].index
        && ReadSymbol(mem, Wrap(at + ReadEntry(mem, at).offset)).code == api[l.First()[j].name]
    {
      ExternalRead(l, elf, api, mem, base, j);
    }
  }

  lemma LocalRead(l: Linked, elf: ElfFile, api: Api, mem: Memory, base: Word, j: nat)
    requires LinkedFrom(l, elf, api) && Parsed(l.m, mem, base) && j < |l.sites.locals|
    ensures LocalEntry(l.sites.locals[j], l.Place())
         == Ok(ReadEntry(mem, base + HEADER_SIZE + ENTRY_SIZE * |l.First()| + ENTRY_SIZE * j))
  {
    hide *;
    EntryContents(l, elf, api);
    EntryAt(l.m, mem, base, |l.First()| + j);
    assert base + HEADER_SIZE + ENTRY_SIZE * |l.First()| + ENTRY_SIZE * j
        == base + HEADER_SIZE + ENTRY_SIZE * (|l.First()| + j);
  }

  lemma LocalTableRead(l: Linked, elf: ElfFile, api: Api, mem: Memory, base: Word, slots: seq<Target>)
    requires LinkedFrom(l, elf, api) && Parsed(l.m, mem, base) && SlotInvariant(l.sites, slots)
    ensures LocalsRead(mem, base + HEADER_SIZE + ENTRY_SIZE * |l.First()|, l.sites.locals, l.Place(), |slots|)
  {
    hide LinkedFrom, Parsed, SlotInvariant, FirstSites, ReadEntry, LocalEntry, FillsEverySlotOnce;
    SlotBounds(l, slots);
    forall j | 0 <= j < |l.sites.locals|
      ensures LocalEntry(l.sites.locals[j], l.Place())
           == Ok(ReadEntry(mem, base + HEADER_SIZE + ENTRY_SIZE * |l.First()| + ENTRY_SIZE * j))
    {
      LocalRead(l, elf, api, mem, base, j);
    }
  }

  // ---------- The filled LOT

  /**
   * The word is where a LOT target is at run time: for an external symbol the address of the first
   * environment entry with its API code, for a local one an address in the text or the data block.
   */
  ghost predicate Denotes(t: Target, place: Placement, api: Api, entries: seq<SymbolAddress>,
                          text: Word, data: Word, word: Word)
  {
    match t
    case ExternalTarget(name) => name in api && Gives(entries, api[name], word)
    case LocalTarget(section, value) =>
      word == if section == At(place.text) then Wrap(text + value) else Wrap(data + value - place.codeSize)
  }

  ghost predicate LotResolved(lot: seq<Word>, slots: seq<Target>, place: Placement, api: Api,
                              entries: seq<SymbolAddress>, text: Word, data: Word) {
    && |lot| == |slots|
    && forall i :: 0 <= i < |slots| ==> Denotes(slots[i], place, api, entries, text, data, lot[i])
  }

  lemma FirstSitesAgree(sites: seq<NamedSite>, slots: seq<Target>, j: nat)
    requires NamedSitesAgree(sites, slots) && j < |FirstSites(sites)|
    ensures var s := FirstSites(sites)[j]; 0 <= s.index < |slots| && slots[s.index] == ExternalTarget(s.name)
  {
    hide FirstSites;
    FirstSitesSubset(sites, j);
  }

  /** Every slot is written by an entry of its own target, so every slot is resolved. */
  lemma LotIsResolved(l: Linked, slots: seq<Target>, place: Placement, api: Api,
                                         entries: seq<SymbolAddress>, text: Word, data: Word,
                                         middle: seq<Word>, lot: seq<Word>)
    requires SlotInvariant(l.sites, slots) && |middle| == |lot| == |slots|
    requires AllFound(l.First(), |l.First()|, api, entries)
    requires ExternalsWritten(l.First(), |l.First()|, api, entries, middle)
    requires LocalsWritten(l.sites.locals, |l.sites.locals|, place, text, data, lot)
    requires OthersKept(l.sites.locals, |l.sites.locals|, middle, lot)
    ensures LotResolved(lot, slots, place, api, entries, text, data)
  {
    hide FirstSites, NamesAgree, Wrap;
    var first := l.First();
    forall i | 0 <= i < |slots|
      ensures Denotes(slots[i], place, api, entries, text, data, lot[i])
    {
      assert SlotFilled(i, first, l.sites.locals);
      if j :| 0 <= j < |first| && first[j].index == i {
        FirstSitesAgree(l.sites.externals, slots, j);
        assert lot[i] == middle[i];
      } else {
        var j :| 0 <= j < |l.sites.locals| && l.sites.locals[j].index == i;
        assert slots[i] == LocalTarget(l.sites.locals[j].section, l.sites.locals[j].value);
      }
    }
  }

  lemma SlotsAscend(l: Linked, slots: seq<Target>)
    requires SlotInvariant(l.sites, slots)
    ensures Ascending(l.First(), []) && Ascending([], l.sites.locals)
  {
    hide FirstSites, NamedSitesAgree, LocalSitesAgree, NamesAgree, SlotFilled;
  }

  /** The two loops over a linked module's tables resolve the whole LOT, or stop at a missing symbol. */
  lemma LotFilled(l: Linked, elf: ElfFile, api: Api, mem: Memory, base: Word,
                                     entries: seq<SymbolAddress>, slots: seq<Target>, text: Word, data: Word, lot: seq<Word>)
    requires LinkedFrom(l, elf, api) && Parsed(l.m, mem, base)
    requires SlotInvariant(l.sites, slots) && base + |Serialise(l.m)| <= WORD_LIMIT && |lot| == |slots|
    ensures var first := l.First();
      var external := FillExternals(mem, base + HEADER_SIZE, |first|, entries, lot);
      && external.Filled? && |external.lot| == |slots|
      && (external.complete <==> AllFound(first, |first|, api, entries))
      && (external.complete ==>
            var address := base + HEADER_SIZE + ENTRY_SIZE * |first|;
            var local := FillLocals(mem, address, |l.sites.locals|, text, data, external.lot);
            local.Filled? && LotResolved(local.lot, slots, l.Place(), api, entries, text, data))
  {
    hide *;
    var first := l.First();
    var start := base + HEADER_SIZE;
    var address := base + HEADER_SIZE + ENTRY_SIZE * |first|;
    ExternalTableRead(l, elf, api, mem, base, slots);
    LocalTableRead(l, elf, api, mem, base, slots);
    SlotsAscend(l, slots);
    ExternalsFilled(mem, start, first, api, entries, lot, |first|);
    var external := FillExternals(mem, start, |first|, entries, lot);
    if external.complete {
      LocalsFilled(mem, address, l.sites.locals, l.Place(), text, data, external.lot, |l.sites.locals|);
      LotIsResolved(l, slots, l.Place(), api, entries, text, data, external.lot,
                    FillLocals(mem, address, |l.sites.locals|, text, data, external.lot).lot);
    }
  }

  // ---------- The theorem

  predicate IsExternalSite(r: ElfRelocation, visibility: map<string, Localization>) {
    NeedsSlot(r, visibility) && TargetOf(r, visibility).ExternalTarget?
  }

  /** Every external symbol that the module reaches through the LOT is in the environment. */
  ghost predicate EnvironmentComplete(elf: ElfFile, api: Api, entries: seq<SymbolAddress>) {
    var visibility := Visibility(elf.symbols);
    forall k :: 0 <= k < |elf.relocations| && IsExternalSite(elf.relocations[k], visibility) ==>
      Known(elf.relocations[k].symbolName, api, entries)
  }

  /**
   * The word at a GOT site is the byte offset of a LOT slot, and the slot holds
   * the run-time address of the symbol the relocation names.
   */
  ghost predicate SiteReads(r: ElfRelocation, visibility: map<string, Localization>, place: Placement, api: Api,
                            entries: seq<SymbolAddress>, loaded: Loaded)
    requires NeedsSlot(r, visibility)
  {
    && r.offset + 4 <= |loaded.textBytes|
    && var word := WordAt(loaded.textBytes, r.offset);
       && word % 4 == 0 && word / 4 < |loaded.lot|
       && Denotes(TargetOf(r, visibility), place, api, entries, loaded.text, loaded.data, loaded.lot[word / 4])
  }

  /** No GOT site covers this byte of the code. */
  ghost predicate OffSites(elf: ElfFile, i: nat) {
    forall k :: 0 <= k < |elf.relocations| && NeedsSlot(elf.relocations[k], Visibility(elf.symbols)) ==>
      !(elf.relocations[k].offset <= i < elf.relocations[k].offset + 4)
  }

  ghost predicate MeaningPreserved(elf: ElfFile, layout: Layout, api: Api, entries: seq<SymbolAddress>, loaded: Loaded) {
    && (forall k :: 0 <= k < |elf.relocations| && NeedsSlot(elf.relocations[k], Visibility(elf.symbols)) ==>
          SiteReads(elf.relocations[k], Visibility(elf.symbols), PlacementOf(layout), api, entries, loaded))
    && |loaded.textBytes| == |layout.text.bytes|
    && (forall i :: 0 <= i < |layout.text.bytes| && OffSites(elf, i) ==> loaded.textBytes[i] == layout.text.bytes[i])
    && loaded.dataBytes == layout.data.bytes + seq(|layout.bss.bytes|, _ => 0)
  }

  /** The patch that was made for a site, as it stands in the code. */
  lemma PatchedSite(l: Linked, elf: ElfFile, api: Api, slots: seq<Target>, k: nat) returns (p: Patch)
    requires LinkedFrom(l, elf, api)
    requires PatchInvariant(elf.relocations, Visibility(elf.symbols), Patches(l.sites), slots) && Consistent(Patches(l.sites))
    requires k < |elf.relocations| && NeedsSlot(elf.relocations[k], Visibility(elf.symbols))
    ensures p.offset == elf.relocations[k].offset && p.offset + 4 <= |l.m.code|
    ensures WordAt(l.m.code, p.offset) == 4 * p.index
    ensures 0 <= p.index < |slots| && slots[p.index] == TargetOf(elf.relocations[k], Visibility(elf.symbols))
  {
    hide HeaderOf, EntriesOf, SymbolsOf, SectionsOf, Extract, Patches, Visibility, WithLocalization, WordAt, PatchAll,
      Consistent, OnlySitesPatched, TargetOf;
    var visibility := Visibility(elf.symbols);
    var r := elf.relocations[k];
    var ps := Patches(l.sites);
    assert PatchedFor(r, visibility, ps, slots);
    p :| p in ps && p.offset == r.offset && 0 <= p.index < |slots| && slots[p.index] == TargetOf(r, visibility);
    PatchedWords(l.layout.text.bytes, ps);
  }

  /** Patched code and a resolved LOT make every site read its own symbol. */
  lemma SitesRead(l: Linked, elf: ElfFile, api: Api, entries: seq<SymbolAddress>, loaded: Loaded,
                                     slots: seq<Target>, k: nat)
    requires LinkedFrom(l, elf, api) && loaded.textBytes == l.m.code
    requires PatchInvariant(elf.relocations, Visibility(elf.symbols), Patches(l.sites), slots) && Consistent(Patches(l.sites))
    requires LotResolved(loaded.lot, slots, l.Place(), api, entries, loaded.text, loaded.data)
    requires k < |elf.relocations| && NeedsSlot(elf.relocations[k], Visibility(elf.symbols))
    ensures SiteReads(elf.relocations[k], Visibility(elf.symbols), l.Place(), api, entries, loaded)
  {
    hide LinkedFrom, Patches, Visibility, Denotes, WordAt, Consistent, PatchInvariant, TargetOf;
    var p := PatchedSite(l, elf, api, slots, k);
    assert 4 * p.index % 4 == 0 && 4 * p.index / 4 == p.index;
  }

  lemma OtherBytesKept(l: Linked, elf: ElfFile, api: Api, slots: seq<Target>, i: nat)
    requires LinkedFrom(l, elf, api) && i < |l.layout.text.bytes| && OffSites(elf, i)
    requires PatchInvariant(elf.relocations, Visibility(elf.symbols), Patches(l.sites), slots) && Consistent(Patches(l.sites))
    ensures |l.m.code| == |l.layout.text.bytes| && l.m.code[i] == l.layout.text.bytes[i]
  {
    hide HeaderOf, EntriesOf, SymbolsOf, SectionsOf, Extract, Patches, Visibility, WithLocalization, WordAt, PatchAll,
      Consistent, AllPatched;
    var ps := Patches(l.sites);
    PatchedWords(l.layout.text.bytes, ps);
    forall p | p in ps ensures !(p.offset <= i < p.offset + 4) {
      assert PatchesSite(p, elf.relocations, Visibility(elf.symbols));
    }
    assert Untouched(i, ps);
  }

  /** All first sites are found iff every external relocation's symbol is in the environment. */
  lemma FoundIffComplete(l: Linked, elf: ElfFile, api: Api, entries: seq<SymbolAddress>, slots: seq<Target>)
    requires LinkedFrom(l, elf, api) && SlotInvariant(l.sites, slots)
    requires slots == SlotTargets(elf.relocations, Visibility(elf.symbols))
    ensures AllFound(l.First(), |l.First()|, api, entries) <==> EnvironmentComplete(elf, api, entries)
  {
    hide LinkedFrom, FirstSites, SlotTargets, Visibility, FillsEverySlotOnce, Lists;
    var visibility := Visibility(elf.symbols);
    var first := l.First();
    if AllFound(first, |first|, api, entries) {
      forall k | 0 <= k < |elf.relocations| && IsExternalSite(elf.relocations[k], visibility)
        ensures Known(elf.relocations[k].symbolName, api, entries)
      {
        var name := elf.relocations[k].symbolName;
        SlotsAreTargets(elf.relocations, visibility, ExternalTarget(name));
        FirstSitesNames(l.sites.externals, name);
        assert HasRelocation(l.sites.externals, name) && HasRelocation(first, name);
        var j :| 0 <= j < |first| && first[j].name == name;
        assert Found(first[j], api, entries);
      }
    }
    if EnvironmentComplete(elf, api, entries) {
      forall j | 0 <= j < |first| ensures Found(first[j], api, entries) {
        FirstSitesAgree(l.sites.externals, slots, j);
        SlotsAreTargets(elf.relocations, visibility, ExternalTarget(first[j].name));
      }
    }
  }

  lemma ParsedParts(m: Module, mem: Memory, base: Word)
    requires Parsed(m, mem, base)
    ensures HasCookie(mem, base) && ReadHeader(mem, base) == m.header
    ensures Slice(mem, base + CodeOffset(m), |m.code|) == m.code
    ensures Slice(mem, base + CodeOffset(m) + |m.code|, |m.data|) == m.data
  {
    hide HasCookie, ReadHeader, EntriesParsed, SymbolsParsed, CodeOffset, Slice;
  }

  lemma ImageLength(m: Module)
    ensures |Serialise(m)| == CodeOffset(m) + |m.code| + |m.data|
  {
    hide CodeOffset;
  }

  /** What the loader copies are the linked module's code and data, with zeros for .bss. */
  lemma BodyFound(l: Linked, elf: ElfFile, api: Api, mem: Memory, base: Word)
    requires LinkedFrom(l, elf, api) && Parsed(l.m, mem, base) && |l.exported| == 1 && base % 16 == 0
    requires base + |Serialise(l.m)| < WORD_LIMIT
    ensures var h := l.m.header;
      && CodeAddress(base, h) == base + CodeOffset(l.m) < WORD_LIMIT
      && Slice(mem, CodeAddress(base, h), h.codeSize) == l.m.code
      && InitialData(mem, base, h) == l.layout.data.bytes + seq(|l.layout.bss.bytes|, _ => 0)
  {
    hide LinkedFrom, Parsed, Serialise, CodeAddress, CodeOffset, Slice, FirstSites, HasCookie, ReadHeader;
    HeaderIs(l, elf, api);
    CodeFound(l, elf, api, base);
    ParsedParts(l.m, mem, base);
    ImageLength(l.m);
    DataIs(l, elf, api);
  }

  lemma DataIs(l: Linked, elf: ElfFile, api: Api)
    requires LinkedFrom(l, elf, api)
    ensures l.m.data == l.layout.data.bytes
  {
    hide HeaderOf, EntriesOf, SymbolsOf, SectionsOf, Extract, PatchAll, Patches, Visibility, WithLocalization, FirstSites;
  }

  lemma MainSymbolIs(l: Linked, elf: ElfFile, api: Api, main: ElfSymbol)
    requires LinkedFrom(l, elf, api) && l.exported == [main] && main.name == "main"
    requires main.section == At(l.layout.text.index)
    ensures l.m.symbols != [] && "main" in api
    ensures l.m.symbols[0].code == api["main"] && l.m.symbols[0].offset == main.value
  {
    hide LinkedFrom;
    SymbolContents(l, elf, api);
    assert SymbolEntryOf(l.exported[0], true, l.Place(), api) == Ok(l.m.symbols[0]);
  }

  /** The loader's search for code 1 stops at main, so the module starts there. */
  lemma StartIsMain(l: Linked, elf: ElfFile, api: Api, mem: Memory, base: Word, main: ElfSymbol, text: Word)
    requires LinkedFrom(l, elf, api) && Parsed(l.m, mem, base) && base + |Serialise(l.m)| < WORD_LIMIT
    requires l.exported == [main] && main.name == "main" && main.section == At(l.layout.text.index)
    requires "main" in api && api["main"] == 1
    ensures StartAddress(mem, base, l.m.header, text) == Some(Wrap(text + main.value))
  {
    hide LinkedFrom, Parsed, Serialise, ReadSymbol, Wrap, FirstSites, FindSymbol, SymbolsAddress, NumberOfSymbols,
      SymbolTableAddress;
    MainSymbolIs(l, elf, api, main);
    SymbolAt(l.m, mem, base, 0);
    SymbolsStart(l, elf, api, base);
    FindFirst(mem, SymbolsAddress(base, l.m.header), NumberOfSymbols(l.m.header), 1);
  }

  lemma FindFirst(mem: Memory, address: int, count: nat, code: Word)
    requires count > 0 && ReadSymbol(mem, address).code == code
    ensures FindSymbol(mem, address, count, code) == Some(address)
  {
    hide ReadSymbol;
  }

  /** The loader looks for symbols where the generator wrote the first one. */
  lemma SymbolsStart(l: Linked, elf: ElfFile, api: Api, base: Word)
    requires LinkedFrom(l, elf, api)
    ensures SymbolsAddress(base, l.m.header) == SymbolTableAddress(base, |l.m.entries|, 0)
    ensures NumberOfSymbols(l.m.header) > 0
  {
    hide LinkedFrom, FirstSites;
    HeaderIs(l, elf, api);
    EntryContents(l, elf, api);
  }

  /** The relocation phases on a linked module. */
  lemma RelocateLinked(l: Linked, elf: ElfFile, api: Api, mem: Memory, base: Word, entries: seq<SymbolAddress>,
                                          slots: seq<Target>, text: Word, textFrom: int, data: Word, lotAddress: Word, lot: seq<Word>)
    requires LinkedFrom(l, elf, api) && Parsed(l.m, mem, base) && SlotInvariant(l.sites, slots)
    requires base + |Serialise(l.m)| < WORD_LIMIT && |lot| == |slots|
    ensures var o := Relocate(mem, base, l.m.header, text, textFrom, data, lotAddress, entries, lot);
      if AllFound(l.First(), |l.First()|, api, entries) then
        && o.Success?
        && o.loaded.text == text && o.loaded.data == data && o.loaded.lotAddress == lotAddress
        && o.loaded.textBytes == Slice(mem, textFrom, l.m.header.codeSize)
        && o.loaded.dataBytes == InitialData(mem, base, l.m.header)
        && LotResolved(o.loaded.lot, slots, l.Place(), api, entries, text, data)
        && o.loaded.start == StartAddress(mem, base, l.m.header, text)
      else o == Failure(ExternalRelocationFailure)
  {
    hide LinkedFrom, Parsed, SlotInvariant, Serialise, FillExternals, FillLocals, FirstSites, LotResolved, AllFound,
      InitialData, StartAddress;
    HeaderIs(l, elf, api);
    LotFilled(l, elf, api, mem, base, entries, slots, text, data, lot);
  }

  ghost predicate HeapSuffices(copyText: bool, heap: Heap) {
    (copyText ==> heap.text.Some?) && heap.data.Some? && heap.lot.Some?
  }

  /** Everything about a generated image that the theorem needs, in one place. */
  lemma LoadLinked(l: Linked, elf: ElfFile, api: Api, mem: Memory, base: Word, copyText: bool,
                                      entries: seq<SymbolAddress>, heap: Heap, slots: seq<Target>)
    requires LinkedFrom(l, elf, api) && Parsed(l.m, mem, base) && SlotInvariant(l.sites, slots)
    requires |l.exported| == 1 && base % 16 == 0 && base + |Serialise(l.m)| < WORD_LIMIT && HeapSuffices(copyText, heap)
    ensures var o := Load(mem, base, copyText, entries, heap);
      if AllFound(l.First(), |l.First()|, api, entries) then
        && o.Success?
        && o.loaded.text == (if copyText then heap.text.value else base + CodeOffset(l.m))
        && o.loaded.data == heap.data.value && o.loaded.lotAddress == heap.lot.value
        && o.loaded.textBytes == l.m.code
        && o.loaded.dataBytes == l.layout.data.bytes + seq(|l.layout.bss.bytes|, _ => 0)
        && LotResolved(o.loaded.lot, slots, l.Place(), api, entries, o.loaded.text, o.loaded.data)
        && o.loaded.start == StartAddress(mem, base, l.m.header, o.loaded.text)
      else o == Failure(ExternalRelocationFailure)
  {
    hide LinkedFrom, Parsed, SlotInvariant, Serialise, Relocate, CodeAddress, CodeOffset, InitialData, StartAddress,
      FirstSites, LotResolved, AllFound, Slice, FillsEverySlotOnce, HasCookie, ReadHeader;
    ParsedParts(l.m, mem, base);
    BodyFound(l, elf, api, mem, base);
    HeaderIs(l, elf, api);
    SlotBounds(l, slots);
    var h := l.m.header;
    var code := base + CodeOffset(l.m);
    assert Wrap(code) == code;
    var text: Word := if copyText then heap.text.value else code;
    RelocateLinked(l, elf, api, mem, base, entries, slots, text, code, heap.data.value, heap.lot.value, FreshLot(h, heap.junk));
  }

  /**
   * Generating an image and loading it preserves meaning. Loading succeeds iff
   * the environment has every symbol the module needs; then every GOT site
   * reads the run-time address of the symbol its relocation names, the rest of
   * the code is as compiled, and data and .bss are as the ELF file describes.
   */
  lemma LinkingPreservesMeaning(elf: ElfFile, api: Api, image: seq<Byte>, mem: Memory, base: Word, copyText: bool,
                                                   entries: seq<SymbolAddress>, heap: Heap)
    requires Image(LinkModule(elf, api)) == Ok(image) && Linkable(elf)
    requires Holds(mem, base, image) && base % 16 == 0 && base + |image| < WORD_LIMIT
    requires HeapSuffices(copyText, heap)
    ensures SectionsOf(elf.sections).Ok?
    ensures var o := Load(mem, base, copyText, entries, heap);
      if EnvironmentComplete(elf, api, entries) then
        o.Success? && MeaningPreserved(elf, SectionsOf(elf.sections).value, api, entries, o.loaded)
      else o == Failure(ExternalRelocationFailure)
  {
    hide LinkModule, Serialise, Load, EnvironmentComplete, Holds, Parsed, PatchInvariant, SlotInvariant, LotResolved,
      SectionsOf, Extract, Visibility, WithLocalization, PatchAll, HeaderOf, EntriesOf, SymbolsOf, HeapSuffices, AllFound,
      FirstSites, SitesApart, NamesMain, SlotTargets, SiteReads, OffSites, Patches, NeedsSlot, Consistent, CodeOffset;
    var visibility := Visibility(elf.symbols);
    var l := LinkedModule(elf, api);
    var slots := SlotTargets(elf.relocations, visibility);
    ImageRoundTrip(l.m, mem, base);
    IndicesNameSlots(elf.relocations, visibility);
    PatchesOfRelocations(elf.relocations, visibility);
    ConsistentPatches(l, elf, slots);
    FoundIffComplete(l, elf, api, entries, slots);
    LoadLinked(l, elf, api, mem, base, copyText, entries, heap, slots);
    if EnvironmentComplete(elf, api, entries) {
      var loaded := Load(mem, base, copyText, entries, heap).loaded;
      CodeLength(l, elf, api);
      forall k | 0 <= k < |elf.relocations| && NeedsSlot(elf.relocations[k], visibility)
        ensures SiteReads(elf.relocations[k], visibility, l.Place(), api, entries, loaded)
      {
        SitesRead(l, elf, api, entries, loaded, slots, k);
      }
      forall i | 0 <= i < |l.layout.text.bytes| && OffSites(elf, i)
        ensures loaded.textBytes[i] == l.layout.text.bytes[i]
      {
        OtherBytesKept(l, elf, api, slots, i);
      }
    }
  }

  lemma {:induction false} ExtractKnows(rs: seq<ElfRelocation>, visibility: map<string, Localization>, k: nat)
    requires Extract(rs, visibility).Ok? && k < |rs| && rs[k].kind == GotBrel
    ensures rs[k].symbolName in visibility
  {
    if k < |rs| - 1 {
      ExtractKnows(rs[..|rs| - 1], visibility, k);
    }
  }

  /** In a linkable file every GOT relocation names an external or a local symbol. */
  lemma EveryGotSiteNeedsSlot(elf: ElfFile, api: Api, k: nat)
    requires LinkModule(elf, api).Ok? && Linkable(elf)
    requires k < |elf.relocations| && elf.relocations[k].kind == GotBrel
    ensures NeedsSlot(elf.relocations[k], Visibility(elf.symbols))
  {
    hide SectionsOf, AssembleModule, SitesApart, Extract, Visibility, WithLocalization;
    var r, visibility := elf.relocations[k], Visibility(elf.symbols);
    ExtractKnows(elf.relocations, visibility, k);
    VisibilityFrom(elf.symbols, r.symbolName);
    var s :| s in elf.symbols && Listed(s) && s.name == r.symbolName && visibility[s.name] == Localize(s);
    var exported, named := s in WithLocalization(elf.symbols, Exported), NamesMain(r, visibility);
  }

  /** With a complete environment every GOT site of a loaded module reads its own symbol's address. */
  lemma EveryGotSiteReads(elf: ElfFile, api: Api, image: seq<Byte>, mem: Memory, base: Word, copyText: bool,
                          entries: seq<SymbolAddress>, heap: Heap, k: nat)
    requires Image(LinkModule(elf, api)) == Ok(image) && Linkable(elf)
    requires Holds(mem, base, image) && base % 16 == 0 && base + |image| < WORD_LIMIT
    requires HeapSuffices(copyText, heap) && EnvironmentComplete(elf, api, entries)
    requires k < |elf.relocations| && elf.relocations[k].kind == GotBrel
    ensures SectionsOf(elf.sections).Ok? && NeedsSlot(elf.relocations[k], Visibility(elf.symbols))
    ensures var o := Load(mem, base, copyText, entries, heap); var place := PlacementOf(SectionsOf(elf.sections).value);
      o.Success? && SiteReads(elf.relocations[k], Visibility(elf.symbols), place, api, entries, o.loaded)
  {
    hide LinkModule, Serialise, Load, EnvironmentComplete, Holds, SectionsOf, Visibility, HeapSuffices, Linkable, SiteReads,
      NeedsSlot;
    LinkingPreservesMeaning(elf, api, image, mem, base, copyText, entries, heap);
    EveryGotSiteNeedsSlot(elf, api, k);
  }

  lemma ConsistentPatches(l: Linked, elf: ElfFile, slots: seq<Target>)
    requires PatchInvariant(elf.relocations, Visibility(elf.symbols), Patches(l.sites), slots)
    requires SitesApart(elf.relocations, Visibility(elf.symbols))
    ensures Consistent(Patches(l.sites))
  {
    hide Visibility, Patches, SitesApart, Consistent, AllPatched, OnlySitesPatched;
  }

  lemma CodeLength(l: Linked, elf: ElfFile, api: Api)
    requires LinkedFrom(l, elf, api)
    ensures |l.m.code| == |l.layout.text.bytes|
  {
    hide LinkedFrom;
    HeaderIs(l, elf, api);
  }

  /** A loaded module starts at its own main. */
  lemma ModuleStartsAtMain(elf: ElfFile, api: Api, image: seq<Byte>, mem: Memory, base: Word, copyText: bool,
                                              entries: seq<SymbolAddress>, heap: Heap, main: ElfSymbol)
    requires Image(LinkModule(elf, api)) == Ok(image) && Linkable(elf)
    requires WithLocalization(elf.symbols, Exported) == [main] && "main" in api && api["main"] == 1
    requires Holds(mem, base, image) && base % 16 == 0 && base + |image| < WORD_LIMIT
    requires HeapSuffices(copyText, heap) && EnvironmentComplete(elf, api, entries)
    ensures var o := Load(mem, base, copyText, entries, heap);
      o.Success? && o.loaded.start == Some(Wrap(o.loaded.text + main.value))
  {
    hide LinkModule, Serialise, Load, EnvironmentComplete, Holds, Parsed, SlotInvariant, LotResolved,
      Extract, Visibility, WithLocalization, PatchAll, HeaderOf, EntriesOf, SymbolsOf, HeapSuffices, AllFound,
      FirstSites, SitesApart, NamesMain, SlotTargets, Patches, StartAddress, CodeOffset;
    var visibility := Visibility(elf.symbols);
    var l := LinkedModule(elf, api);
    var slots := SlotTargets(elf.relocations, visibility);
    ImageRoundTrip(l.m, mem, base);
    IndicesNameSlots(elf.relocations, visibility);
    FoundIffComplete(l, elf, api, entries, slots);
    LoadLinked(l, elf, api, mem, base, copyText, entries, heap, slots);
    StartIsMain(l, elf, api, mem, base, main, Load(mem, base, copyText, entries, heap).loaded.text);
  }

  // ---------- Where symbols of .data and .bss end up

  lemma DataAddresses(layout: Layout, api: Api, entries: seq<SymbolAddress>, loaded: Loaded, section: SectionRef, value: Word,
                      address: Word)
    requires Denotes(LocalTarget(section, value), PlacementOf(layout), api, entries, loaded.text, loaded.data, address)
    requires loaded.dataBytes == layout.data.bytes + seq(|layout.bss.bytes|, _ => 0)
    requires layout.data.address == |layout.text.bytes|
    requires layout.bss.address == |layout.text.bytes| + |layout.data.bytes|
    requires layout.data.index != layout.text.index && layout.bss.index != layout.text.index
    requires loaded.data + |loaded.dataBytes| < WORD_LIMIT
    ensures
      && (section == At(layout.data.index) && layout.data.address <= value < layout.bss.address ==>
            var k := value - layout.data.address;
            address == loaded.data + k && loaded.dataBytes[k] == layout.data.bytes[k])
      && (section == At(layout.bss.index) && layout.bss.address <= value < layout.bss.address + |layout.bss.bytes| ==>
            var k := value - layout.bss.address;
            address == loaded.data + |layout.data.bytes| + k && loaded.dataBytes[|layout.data.bytes| + k] == 0)
  {
  }

  /** .data and .bss have section numbers other than .text's. */
  predicate SectionsNumbered(layout: Layout) {
    layout.data.index != layout.text.index && layout.bss.index != layout.text.index
  }

  /** The addresses that were checked when the sections were read. */
  lemma SectionsFollow(sections: map<string, Section>)
    requires SectionsOf(sections).Ok?
    ensures var layout := SectionsOf(sections).value;
      && layout.data.address == |layout.text.bytes|
      && layout.bss.address == |layout.text.bytes| + |layout.data.bytes|
  {
  }

  /**
   * The word that compiled code loads through the GOT site is the address, inside the data block, of
   * the symbol's own initial bytes, or for a .bss symbol of its zeros.
   */
  ghost predicate SiteLands(r: ElfRelocation, layout: Layout, loaded: Loaded) {
    && r.offset + 4 <= |loaded.textBytes| && WordAt(loaded.textBytes, r.offset) / 4 < |loaded.lot|
    && var word := loaded.lot[WordAt(loaded.textBytes, r.offset) / 4];
       && (r.section == At(layout.data.index) && layout.data.address <= r.symbolValue < layout.bss.address ==>
             LandsOn(layout.data, r.symbolValue, word, loaded.data, loaded.dataBytes))
       && (r.section == At(layout.bss.index) && layout.bss.address <= r.symbolValue < layout.bss.address + |layout.bss.bytes| ==>
             var i := |layout.data.bytes| + r.symbolValue - layout.bss.address;
             word == loaded.data + i && i < |loaded.dataBytes| && loaded.dataBytes[i] == 0)
  }

  /** The word is the address of the value's own byte in a block that begins with the section. */
  ghost predicate LandsOn(section: Section, value: Word, word: Word, data: Word, block: seq<Byte>) {
    && section.address <= value && word == data + (value - section.address) && |section.bytes| <= |block|
    && block[..|section.bytes|] == section.bytes
  }

  /** In a loaded module every GOT site of a .data or .bss symbol lands on that symbol. */
  lemma DataSymbolsLand(elf: ElfFile, api: Api, image: seq<Byte>, mem: Memory, base: Word, copyText: bool,
                        entries: seq<SymbolAddress>, heap: Heap, layout: Layout, k: nat)
    requires Image(LinkModule(elf, api)) == Ok(image) && Linkable(elf)
    requires Holds(mem, base, image) && base % 16 == 0 && base + |image| < WORD_LIMIT
    requires HeapSuffices(copyText, heap) && EnvironmentComplete(elf, api, entries)
    requires SectionsOf(elf.sections) == Ok(layout) && SectionsNumbered(layout)
    requires heap.data.value + |layout.data.bytes| + |layout.bss.bytes| < WORD_LIMIT
    requires k < |elf.relocations| && NeedsSlot(elf.relocations[k], Visibility(elf.symbols))
    requires TargetOf(elf.relocations[k], Visibility(elf.symbols)).LocalTarget?
    ensures var o := Load(mem, base, copyText, entries, heap);
      o.Success? && SiteLands(elf.relocations[k], layout, o.loaded)
  {
    hide LinkModule, Serialise, Load, EnvironmentComplete, Holds, SectionsOf, Visibility, Linkable, SiteLands, SiteReads,
      NeedsSlot, TargetOf, SectionsNumbered;
    LinkingPreservesMeaning(elf, api, image, mem, base, copyText, entries, heap);
    var loaded := Load(mem, base, copyText, entries, heap).loaded;
    SectionsFollow(elf.sections);
    DataBlockIs(mem, base, copyText, entries, heap);
    SiteLandsThere(elf.relocations[k], Visibility(elf.symbols), layout, api, entries, loaded);
  }

  lemma SiteLandsThere(r: ElfRelocation, visibility: map<string, Localization>, layout: Layout, api: Api,
                       entries: seq<SymbolAddress>, loaded: Loaded)
    requires NeedsSlot(r, visibility) && TargetOf(r, visibility).LocalTarget?
    requires SiteReads(r, visibility, PlacementOf(layout), api, entries, loaded)
    requires loaded.dataBytes == layout.data.bytes + seq(|layout.bss.bytes|, _ => 0)
    requires layout.data.address == |layout.text.bytes|
    requires layout.bss.address == |layout.text.bytes| + |layout.data.bytes|
    requires SectionsNumbered(layout) && loaded.data + |loaded.dataBytes| < WORD_LIMIT
    ensures SiteLands(r, layout, loaded)
  {
    hide Denotes, WordAt;
    DataAddresses(layout, api, entries, loaded, r.section, r.symbolValue, loaded.lot[WordAt(loaded.textBytes, r.offset) / 4]);
  }

  /** A loaded module's data block is the one the heap handed out. */
  lemma DataBlockIs(mem: Memory, base: Word, copyText: bool, entries: seq<SymbolAddress>, heap: Heap)
    requires Load(mem, base, copyText, entries, heap).Success?
    ensures heap.data.Some? && Load(mem, base, copyText, entries, heap).loaded.data == heap.data.value
  {
    hide FillExternals, FillLocals, RelocateData, InitialData, Slice, StartAddress, CodeAddress, FreshLot, HasCookie, ReadHeader;
  }

  // ---------- When the tacit assumptions fail

  lemma {:induction false} ExportedSitesAreOfMain(rs: seq<ElfRelocation>, visibility: map<string, Localization>)
    requires Extract(rs, visibility).Ok?
    ensures Extract(rs, visibility).value.exported == [] <==>
      forall k :: 0 <= k < |rs| ==> !NamesMain(rs[k], visibility)
  {
    if rs != [] {
      var n := |rs| - 1;
      ExportedSitesAreOfMain(rs[..n], visibility);
      assert (forall k :: 0 <= k < |rs| ==> !NamesMain(rs[k], visibility)) <==>
        (forall k :: 0 <= k < n ==> !NamesMain(rs[..n][k], visibility)) && !NamesMain(rs[n], visibility);
    }
  }

  /**
   * The self-relative offset of an external relocation lands on its own symbol
   * iff no GOT relocation names main: those are counted, but never written.
   */
  lemma OffsetsReachIffMainUnreferenced(l: Linked, elf: ElfFile, api: Api, base: Word, j: nat)
    requires LinkedFrom(l, elf, api) && j < |l.First()|
    ensures j < |l.m.entries|
    ensures base + HEADER_SIZE + ENTRY_SIZE * j + l.m.entries[j].offset
         == SymbolTableAddress(base, |l.m.entries|, |l.exported| + PlaceOf(l, j))
       <==> forall k :: 0 <= k < |elf.relocations| ==> !NamesMain(elf.relocations[k], Visibility(elf.symbols))
  {
    hide Visibility, WithLocalization, PatchAll, HeaderOf, EntriesOf, SymbolsOf, SectionsOf, Extract, NamesMain,
      OffsetToSymbol, SymbolTableAddress, PlaceOf;
    ExternalEntryIs(l, elf, api, j);
    EntryCount(l, elf, api);
    OffsetReachesSymbol(base, j, TotalRelocations(l.sites), |l.m.entries|, |l.exported|, PlaceOf(l, j));
    ExportedSitesAreOfMain(elf.relocations, Visibility(elf.symbols));
    FirstSitesNonempty(l.sites.exported);
  }

  lemma FirstSitesNonempty(sites: seq<NamedSite>)
    ensures FirstSites(sites) == [] <==> sites == []
  {
    if sites != [] {
      FirstSitesNames(sites, sites[0].name);
      assert HasRelocation(sites, sites[0].name);
    }
  }

  /** Without a code for "undefined", as in the project's own API file, only main can be exported. */
  lemma OnlyMainCanBeExported(elf: ElfFile, api: Api, s: ElfSymbol)
    requires LinkModule(elf, api).Ok? && "undefined" !in api
    requires s in WithLocalization(elf.symbols, Exported)
    ensures s.name == "main"
  {
    hide Visibility, WithLocalization, PatchAll, HeaderOf, EntriesOf, SymbolsOf, SectionsOf, Extract, LinkModule;
    var l := LinkedModule(elf, api);
    SymbolContents(l, elf, api);
    var j :| 0 <= j < |l.exported| && l.exported[j] == s;
    assert SymbolEntryOf(l.exported[j], true, l.Place(), api).Ok?;
  }
}
