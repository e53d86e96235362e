// What becomes of an image when GOT relocations name main: they are counted, but nothing is
// written for them, neither an entry nor room in the LOT.

module LinkLimits {
  import opened Results
  import opened Words
  import opened Elf
  import opened ModuleFormat
  import opened LinkSpec
  import opened LotProperties
  import opened LoadSpec
  import opened Linking

  // ---------- Indices and the LOT

  /** Every index that was handed out belongs to a first external site, a local site, or main. */
  ghost predicate IndicesCounted(s: Sites) {
    && s.next == |FirstSites(s.externals)| + |s.locals| + (if s.exported == [] then 0 else 1)
    && forall i :: 0 <= i < |s.exported| ==> s.exported[i].name == "main"
  }

  lemma ExternalCounted(s: Sites, site: NamedSite)
    requires IndicesCounted(s)
    ensures IndicesCounted(s.(externals := s.externals + [site],
                              next := if HasRelocation(s.externals, site.name) then s.next else s.next + 1))
  {
    hide FirstSites;
    FirstSitesMore(s.externals, site);
    FirstSitesNames(s.externals, site.name);
  }

  lemma CountedStep(s: Sites, r: ElfRelocation, visibility: map<string, Localization>)
    requires IndicesCounted(s) && ExtractOne(s, r, visibility).Ok?
    ensures IndicesCounted(ExtractOne(s, r, visibility).value)
  {
    hide FirstSites;
    if r.kind == GotBrel {
      if visibility[r.symbolName] == External {
        var index := if HasRelocation(s.externals, r.symbolName) then IndexOfRelocation(s.externals, r.symbolName) else s.next;
        ExternalCounted(s, NamedSite(r.symbolName, r.offset, index));
      } else if visibility[r.symbolName] == Exported && r.symbolName == "main" && s.exported != [] {
        assert s.exported[0].name == r.symbolName;
        assert HasRelocation(s.exported, r.symbolName);
      }
    }
  }

  lemma {:induction false} AllCounted(rs: seq<ElfRelocation>, visibility: map<string, Localization>)
    requires Extract(rs, visibility).Ok?
    ensures IndicesCounted(Extract(rs, visibility).value)
  {
    hide ExtractOne, IndicesCounted;
    if rs == [] {
      NothingCounted();
    } else {
      AllCounted(rs[..|rs| - 1], visibility);
      CountedStep(Extract(rs[..|rs| - 1], visibility).value, rs[|rs| - 1], visibility);
    }
  }

  lemma NothingCounted()
    ensures IndicesCounted(Sites([], [], [], 0))
  {
  }

  /** The indices fit the LOT the loader allocates, one slot per written entry, iff no GOT relocation names main. */
  lemma IndicesFitIff(rs: seq<ElfRelocation>, visibility: map<string, Localization>)
    requires Extract(rs, visibility).Ok?
    ensures var s := Extract(rs, visibility).value;
      s.next <= |FirstSites(s.externals)| + |s.locals| <==> forall k :: 0 <= k < |rs| ==> !NamesMain(rs[k], visibility)
  {
    hide Extract, FirstSites, NamesMain;
    AllCounted(rs, visibility);
    ExportedSitesAreOfMain(rs, visibility);
  }

  // ---------- Modules with local sites only

  ghost predicate LocalsOnly(rs: seq<ElfRelocation>, visibility: map<string, Localization>) {
    forall k :: 0 <= k < |rs| ==> !IsExternalSite(rs[k], visibility)
  }

  /** A reference to main stands before one to a local symbol. */
  ghost predicate MainBeforeLocal(rs: seq<ElfRelocation>, visibility: map<string, Localization>) {
    exists a, b :: 0 <= a < b < |rs| && NamesMain(rs[a], visibility) && NeedsSlot(rs[b], visibility)
  }

  ghost predicate MentionsMain(rs: seq<ElfRelocation>, visibility: map<string, Localization>) {
    exists a :: 0 <= a < |rs| && NamesMain(rs[a], visibility)
  }

  /** Local indices count the locals, and main once it has been mentioned. */
  ghost predicate LocalIndices(rs: seq<ElfRelocation>, visibility: map<string, Localization>, s: Sites) {
    && s.externals == []
    && (s.exported == [] <==> !MentionsMain(rs, visibility))
    && (forall i :: 0 <= i < |s.exported| ==> s.exported[i].name == "main")
    && s.next == |s.locals| + (if MentionsMain(rs, visibility) then 1 else 0)
    && (forall j :: 0 <= j < |s.locals| ==> s.locals[j].index <= j + 1)
    && (s.locals == [] ==> !MainBeforeLocal(rs, visibility))
    && (s.locals != [] ==>
          s.locals[|s.locals| - 1].index == |s.locals| - 1 + (if MainBeforeLocal(rs, visibility) then 1 else 0))
  }

  lemma MainStep(rs: seq<ElfRelocation>, r: ElfRelocation, visibility: map<string, Localization>)
    ensures MentionsMain(rs + [r], visibility) <==> MentionsMain(rs, visibility) || NamesMain(r, visibility)
    ensures MainBeforeLocal(rs + [r], visibility) <==>
      MainBeforeLocal(rs, visibility) || (MentionsMain(rs, visibility) && NeedsSlot(r, visibility))
    ensures MainBeforeLocal(rs, visibility) ==> MentionsMain(rs, visibility)
  {
    hide NamesMain, NeedsSlot;
    var all := rs + [r];
    assert all[|rs|] == r && forall k :: 0 <= k < |rs| ==> all[k] == rs[k];
    if MentionsMain(rs, visibility) {
      var a :| 0 <= a < |rs| && NamesMain(rs[a], visibility);
      assert NamesMain(all[a], visibility);
    }
    if MainBeforeLocal(rs, visibility) {
      var a, b :| 0 <= a < b < |rs| && NamesMain(rs[a], visibility) && NeedsSlot(rs[b], visibility);
      assert NamesMain(all[a], visibility) && NeedsSlot(all[b], visibility);
    }
  }

  lemma LocalStep(rs: seq<ElfRelocation>, r: ElfRelocation, visibility: map<string, Localization>, s: Sites)
    requires LocalIndices(rs, visibility, s) && ExtractOne(s, r, visibility).Ok? && !IsExternalSite(r, visibility)
    ensures LocalIndices(rs + [r], visibility, ExtractOne(s, r, visibility).value)
  {
    hide MentionsMain, MainBeforeLocal;
    MainStep(rs, r, visibility);
    if NamesMain(r, visibility) && s.exported != [] {
      assert s.exported[0].name == r.symbolName;
      assert HasRelocation(s.exported, r.symbolName);
    }
  }

  lemma {:induction false} AllLocal(rs: seq<ElfRelocation>, visibility: map<string, Localization>)
    requires Extract(rs, visibility).Ok? && LocalsOnly(rs, visibility)
    ensures LocalIndices(rs, visibility, Extract(rs, visibility).value)
  {
    hide ExtractOne, LocalIndices, IsExternalSite;
    if rs == [] {
      NothingLocal(visibility);
    } else {
      var before := rs[..|rs| - 1];
      assert rs == before + [rs[|rs| - 1]];
      AllLocal(before, visibility);
      LocalStep(before, rs[|rs| - 1], visibility, Extract(before, visibility).value);
    }
  }

  lemma NothingLocal(visibility: map<string, Localization>)
    ensures LocalIndices([], visibility, Sites([], [], [], 0))
  {
  }

  /** Some local site has an index the LOT has no slot for. */
  ghost predicate SomeOutside(locals: seq<LocalSite>, slots: nat, n: nat) {
    exists j :: 0 <= j < n && j < |locals| && locals[j].index >= slots
  }

  lemma OutsideIff(rs: seq<ElfRelocation>, visibility: map<string, Localization>, s: Sites)
    requires LocalIndices(rs, visibility, s)
    ensures SomeOutside(s.locals, |s.locals|, |s.locals|) <==> MainBeforeLocal(rs, visibility)
  {
    hide MentionsMain, MainBeforeLocal;
    if s.locals != [] {
      var last := s.locals[|s.locals| - 1].index;
    }
  }

  // ---------- Loading them

  /** A loader walking the local table finds each site's index and section. */
  ghost predicate LocalTable(mem: Memory, address: int, locals: seq<LocalSite>, place: Placement) {
    forall j :: 0 <= j < |locals| ==> LocalEntry(locals[j], place) == Ok(ReadEntry(mem, address + ENTRY_SIZE * j))
  }

  lemma OneLocal(mem: Memory, at: int, site: LocalSite, place: Placement, text: Word, data: Word, fill: Fill)
    requires LocalEntry(site, place) == Ok(ReadEntry(mem, at)) && fill.Filled?
    ensures var next := FillLocal(mem, at, text, data, fill);
      && (next.OutOfRange? <==> site.index >= |fill.lot|)
      && (next.Filled? ==> |next.lot| == |fill.lot|)
  {
    hide ReadEntry, Wrap;
    var entry := ReadEntry(mem, at);
    assert entry.index / 2 == site.index;
  }

  lemma {:induction false} LocalPhase(mem: Memory, address: int, locals: seq<LocalSite>, place: Placement,
                                      text: Word, data: Word, lot: seq<Word>, n: nat)
    requires LocalTable(mem, address, locals, place) && n <= |locals|
    ensures var fill := FillLocals(mem, address, n, text, data, lot);
      && (fill.OutOfRange? <==> SomeOutside(locals, |lot|, n))
      && (fill.Filled? ==> |fill.lot| == |lot|)
  {
    hide ReadEntry, Wrap, LocalEntry, FillLocal;
    if n > 0 {
      LocalPhase(mem, address, locals, place, text, data, lot, n - 1);
      var before := FillLocals(mem, address, n - 1, text, data, lot);
      if before.Filled? {
        OneLocal(mem, address + ENTRY_SIZE * (n - 1), locals[n - 1], place, text, data, before);
      } else {
        StaysOutside(mem, address + ENTRY_SIZE * (n - 1), text, data);
      }
      assert SomeOutside(locals, |lot|, n) <==> SomeOutside(locals, |lot|, n - 1) || locals[n - 1].index >= |lot|;
    }
  }

  lemma StaysOutside(mem: Memory, at: int, text: Word, data: Word)
    ensures FillLocal(mem, at, text, data, OutOfRange) == OutOfRange
  {
  }

  lemma LocalTableOf(l: Linked, elf: ElfFile, api: Api, mem: Memory, base: Word)
    requires LinkedFrom(l, elf, api) && Parsed(l.m, mem, base)
    ensures LocalTable(mem, base + HEADER_SIZE + ENTRY_SIZE * |l.First()|, l.sites.locals, l.Place())
  {
    hide LinkedFrom, Parsed, FirstSites, ReadEntry, LocalEntry;
    forall j | 0 <= j < |l.sites.locals|
      ensures LocalEntry(l.sites.locals[j], l.Place())
           == Ok(ReadEntry(mem, base + HEADER_SIZE + ENTRY_SIZE * |l.First()| + ENTRY_SIZE * j))
    {
      LocalRead(l, elf, api, mem, base, j);
    }
  }

  /** Without external sites the outcome of loading depends on the local phase alone. */
  lemma LoadLocals(l: Linked, elf: ElfFile, api: Api, mem: Memory, base: Word, copyText: bool,
                   entries: seq<SymbolAddress>, heap: Heap)
    requires LinkedFrom(l, elf, api) && Parsed(l.m, mem, base) && l.First() == [] && HeapSuffices(copyText, heap)
    ensures Load(mem, base, copyText, entries, heap) == Corruption <==>
      SomeOutside(l.sites.locals, |l.sites.locals|, |l.sites.locals|)
  {
    hide LinkedFrom, Parsed, FirstSites, CodeAddress, InitialData, StartAddress, Slice, HasCookie, ReadHeader, FillLocals,
      SomeOutside, LocalTable;
    ParsedParts(l.m, mem, base);
    HeaderIs(l, elf, api);
    LocalTableOf(l, elf, api, mem, base);
    var h := l.m.header;
    var text := if copyText then heap.text.value else Wrap(CodeAddress(base, h));
    LocalPhase(mem, base + HEADER_SIZE, l.sites.locals, l.Place(), text, heap.data.value, FreshLot(h, heap.junk),
               |l.sites.locals|);
  }

  /**
   * A module that reaches local symbols only loads into a store outside the LOT iff a GOT relocation
   * of main stands before one of a local symbol.
   */
  lemma LocalsCorruptIff(elf: ElfFile, api: Api, image: seq<Byte>, mem: Memory, base: Word, copyText: bool,
                         entries: seq<SymbolAddress>, heap: Heap)
    requires Image(LinkModule(elf, api)) == Ok(image) && Holds(mem, base, image) && HeapSuffices(copyText, heap)
    requires LocalsOnly(elf.relocations, Visibility(elf.symbols)) && NoDataRelocations(elf)
    ensures Load(mem, base, copyText, entries, heap) == Corruption <==>
      MainBeforeLocal(elf.relocations, Visibility(elf.symbols))
  {
    hide LinkModule, Serialise, Load, Holds, Parsed, Extract, Visibility, WithLocalization, PatchAll, HeaderOf, EntriesOf,
      SymbolsOf, SectionsOf, HeapSuffices, MainBeforeLocal, LocalsOnly, SomeOutside, MentionsMain;
    var l := LinkedModule(elf, api);
    ImageRoundTrip(l.m, mem, base);
    AllLocal(elf.relocations, Visibility(elf.symbols));
    OutsideIff(elf.relocations, Visibility(elf.symbols), l.sites);
    LoadLocals(l, elf, api, mem, base, copyText, entries, heap);
  }

  // ---------- Two files with a reference to main

  const MAIN := ElfSymbol("main", Func, true, false, At(1), 0)
  const COUNTER := ElfSymbol("counter", Object, false, false, At(2), 8)
  const PUTS := ElfSymbol("puts", Func, true, false, Undefined, 0)

  const TO_MAIN := ElfRelocation(0, GotBrel, "main", 0, At(1))
  const TO_COUNTER := ElfRelocation(4, GotBrel, "counter", 8, At(2))
  const TO_PUTS := ElfRelocation(4, GotBrel, "puts", 0, Undefined)

  /** Two words of code, one of data. */
  function SmallSections(): map<string, Section> {
    map[".text" := Section(0, [0, 0, 0, 0, 0, 0, 0, 0], 1),
        ".data" := Section(8, [0, 0, 0, 0], 2),
        ".bss" := Section(12, [], 3)]
  }

  /** The code takes the addresses of main and of a variable of its own. */
  function WithVariable(): ElfFile {
    ElfFile(SmallSections(), [MAIN, COUNTER], [TO_MAIN, TO_COUNTER])
  }

  /** The code takes the addresses of main and of a kernel function. */
  function WithImport(): ElfFile {
    ElfFile(SmallSections(), [MAIN, PUTS], [TO_MAIN, TO_PUTS])
  }

  function Picked(s: ElfSymbol, l: Localization): seq<ElfSymbol> {
    if Localize(s) == l then [s] else []
  }

  lemma TwoSymbols(a: ElfSymbol, b: ElfSymbol, l: Localization)
    requires Listed(a) && Listed(b) && a.name != b.name
    ensures Visibility([a, b]) == map[a.name := Localize(a), b.name := Localize(b)]
    ensures WithLocalization([a, b], l) == Picked(a, l) + Picked(b, l)
  {
    assert [a, b][..1] == [a] && [a][..0] == [];
    assert Visibility([a]) == map[a.name := Localize(a)];
    assert WithLocalization([a], l) == Picked(a, l);
  }

  lemma TwoRelocations(a: ElfRelocation, b: ElfRelocation, visibility: map<string, Localization>, s: Sites, t: Sites)
    requires ExtractOne(Sites([], [], [], 0), a, visibility) == Ok(s) && ExtractOne(s, b, visibility) == Ok(t)
    ensures Extract([a, b], visibility) == Ok(t)
  {
    hide ExtractOne;
    assert [a, b][..1] == [a] && [a][..0] == [];
    assert Extract([a], visibility) == Ok(s);
  }

  lemma TwoPatches(code: seq<Byte>, p: Patch, q: Patch)
    requires p.offset + 4 <= |code| && q.offset + 4 <= |code| && 0 <= p.index < 8 && 0 <= q.index < 8
    ensures PatchAll(code, [p, q]).Ok?
  {
    hide Pack32;
    assert [p, q][..1] == [p] && [p][..0] == [];
    assert PatchAll(code, [p]).Ok?;
  }

  function SmallLayout(): Layout {
    Layout(Section(0, [0, 0, 0, 0, 0, 0, 0, 0], 1), Section(8, [0, 0, 0, 0], 2), Section(12, [], 3))
  }

  lemma SmallSectionsFit()
    ensures SectionsOf(SmallSections()) == Ok(SmallLayout())
  {
  }

  lemma MainFirst(visibility: map<string, Localization>)
    requires "main" in visibility && visibility["main"] == Exported
    ensures ExtractOne(Sites([], [], [], 0), TO_MAIN, visibility) == Ok(Sites([], [], [NamedSite("main", 0, 0)], 1))
  {
    assert [] + [NamedSite("main", 0, 0)] == [NamedSite("main", 0, 0)];
  }

  const VARIABLE_SITES := Sites([LocalSite(8, 4, 1, At(2))], [], [NamedSite("main", 0, 0)], 2)
  const IMPORT_SITES := Sites([], [NamedSite("puts", 4, 1)], [NamedSite("main", 0, 0)], 2)

  lemma VariableSymbols()
    ensures Visibility(WithVariable().symbols) == map["main" := Exported, "counter" := Internal]
    ensures WithLocalization(WithVariable().symbols, Exported) == [MAIN]
    ensures WithLocalization(WithVariable().symbols, External) == []
  {
    TwoSymbols(MAIN, COUNTER, Exported);
    TwoSymbols(MAIN, COUNTER, External);
  }

  lemma VariableSites()
    ensures Extract(WithVariable().relocations, map["main" := Exported, "counter" := Internal]) == Ok(VARIABLE_SITES)
  {
    var v := map["main" := Exported, "counter" := Internal];
    var s := Sites([], [], [NamedSite("main", 0, 0)], 1);
    MainFirst(v);
    assert [] + [LocalSite(8, 4, 1, At(2))] == [LocalSite(8, 4, 1, At(2))];
    assert ExtractOne(s, TO_COUNTER, v) == Ok(VARIABLE_SITES);
    TwoRelocations(TO_MAIN, TO_COUNTER, v, s, VARIABLE_SITES);
  }

  /** The generator takes the file. */
  lemma VariableLinks()
    ensures LinkModule(WithVariable(), map["main" := 1]).Ok?
  {
    hide Pack32, Extract, SectionsOf, PatchAll, Visibility, WithLocalization, HeaderOf, EntriesOf, SymbolsOf;
    SmallSectionsFit();
    VariableSymbols();
    VariableSites();
    assert Patches(VARIABLE_SITES) == [Patch(4, 1), Patch(0, 0)];
    TwoPatches([0, 0, 0, 0, 0, 0, 0, 0], Patch(4, 1), Patch(0, 0));
    SmallHeader(0, 1, 0);
    VariableEntries();
    MainTable([], map["main" := 1]);
    assert FirstSites(VARIABLE_SITES.externals) == [];
  }

  lemma SmallHeader(external: Half, local: Half, symbols: Half)
    ensures HeaderOf(SmallLayout(), external, local, symbols).Ok?
  {
  }

  lemma VariableEntries()
    ensures EntriesOf(VARIABLE_SITES, 1, [], PlacementOf(SmallLayout())).Ok?
  {
    hide FirstSites;
    var site, place := LocalSite(8, 4, 1, At(2)), PlacementOf(SmallLayout());
    assert FirstSites([]) == [] by { NoFirstSites(); }
    assert [site][..0] == [];
    assert LocalEntries([], place) == Ok([]);
    assert LocalEntry(site, place) == Ok(Entry(3, 0));
    assert LocalEntries([site], place).Ok?;
  }

  lemma NoFirstSites()
    ensures FirstSites([]) == []
  {
  }

  lemma MainTable(externals: seq<ElfSymbol>, api: Api)
    requires "main" in api && SymbolEntries(externals, false, PlacementOf(SmallLayout()), api).Ok?
    ensures SymbolsOf([MAIN], externals, PlacementOf(SmallLayout()), api).Ok?
  {
    var place := PlacementOf(SmallLayout());
    assert [MAIN][..0] == [];
    assert SymbolEntries([], true, place, api) == Ok([]);
    assert SymbolEntryOf(MAIN, true, place, api).Ok?;
  }

  lemma VariableOrder()
    ensures NoDataRelocations(WithVariable())
    ensures LocalsOnly(WithVariable().relocations, Visibility(WithVariable().symbols))
    ensures MainBeforeLocal(WithVariable().relocations, Visibility(WithVariable().symbols))
  {
    hide Visibility;
    VariableSymbols();
    var rs, v := WithVariable().relocations, Visibility(WithVariable().symbols);
    assert NamesMain(rs[0], v) && NeedsSlot(rs[1], v);
  }

  /** The variable's index is one, but the LOT has one slot: loading the image stores outside it. */
  lemma VariableCorrupts(mem: Memory, base: Word, copyText: bool, entries: seq<SymbolAddress>, heap: Heap)
    returns (image: seq<Byte>)
    ensures Image(LinkModule(WithVariable(), map["main" := 1])) == Ok(image)
    ensures Holds(mem, base, image) && HeapSuffices(copyText, heap) ==>
      Load(mem, base, copyText, entries, heap) == Corruption
  {
    hide LinkModule, Serialise, Load, Holds, HeapSuffices, Visibility, LocalsOnly, MainBeforeLocal, WithVariable;
    var elf, api := WithVariable(), map["main" := 1];
    VariableLinks();
    image := Serialise(LinkModule(elf, api).value);
    if Holds(mem, base, image) && HeapSuffices(copyText, heap) {
      VariableOrder();
      LocalsCorruptIff(elf, api, image, mem, base, copyText, entries, heap);
    }
  }

  lemma ImportSymbols()
    ensures Visibility(WithImport().symbols) == map["main" := Exported, "puts" := External]
    ensures WithLocalization(WithImport().symbols, Exported) == [MAIN]
    ensures WithLocalization(WithImport().symbols, External) == [PUTS]
  {
    TwoSymbols(MAIN, PUTS, Exported);
    TwoSymbols(MAIN, PUTS, External);
  }

  lemma ImportSites()
    ensures Extract(WithImport().relocations, map["main" := Exported, "puts" := External]) == Ok(IMPORT_SITES)
  {
    var v := map["main" := Exported, "puts" := External];
    var s := Sites([], [], [NamedSite("main", 0, 0)], 1);
    MainFirst(v);
    assert [] + [NamedSite("puts", 4, 1)] == [NamedSite("puts", 4, 1)];
    assert ExtractOne(s, TO_PUTS, v) == Ok(IMPORT_SITES);
    TwoRelocations(TO_MAIN, TO_PUTS, v, s, IMPORT_SITES);
  }

  lemma OneFirstSite(site: NamedSite)
    ensures FirstSites([site]) == [site]
  {
    assert [site][..0] == [];
    assert !HasRelocation([], site.name);
    assert FirstSites([]) == [];
  }

  lemma ImportEntries()
    ensures EntriesOf(IMPORT_SITES, 1, [PUTS], PlacementOf(SmallLayout())).Ok?
  {
    hide FirstSites;
    var site := NamedSite("puts", 4, 1);
    OneFirstSite(site);
    OneFirstSite(NamedSite("main", 0, 0));
    assert [site][..0] == [];
    assert ExternalEntries([], 2, 1, [PUTS]) == Ok([]);
    assert ExternalEntry(site, 0, 2, 1, [PUTS]) == Ok(Entry(1, 28));
    assert ExternalEntries([site], 2, 1, [PUTS]).Ok?;
    assert LocalEntries([], PlacementOf(SmallLayout())) == Ok([]);
  }

  /** The generator takes the file. */
  lemma ImportLinks()
    ensures LinkModule(WithImport(), map["main" := 1, "puts" := 7]).Ok?
  {
    hide Pack32, Extract, SectionsOf, PatchAll, Visibility, WithLocalization, HeaderOf, EntriesOf, SymbolsOf, FirstSites;
    SmallSectionsFit();
    ImportSymbols();
    ImportSites();
    assert Patches(IMPORT_SITES) == [Patch(4, 1), Patch(0, 0)];
    TwoPatches([0, 0, 0, 0, 0, 0, 0, 0], Patch(4, 1), Patch(0, 0));
    OneFirstSite(NamedSite("puts", 4, 1));
    SmallHeader(1, 0, 1);
    ImportEntries();
    var api := map["main" := 1, "puts" := 7];
    assert [PUTS][..0] == [];
    assert SymbolEntries([], false, PlacementOf(SmallLayout()), api) == Ok([]);
    assert SymbolEntryOf(PUTS, false, PlacementOf(SmallLayout()), api).Ok?;
    MainTable([PUTS], api);
  }

  /** The symbol stands twenty bytes behind its relocation, the offset says twenty-eight; slot one is outside the LOT. */
  lemma ImportMisses()
    ensures LinkModule(WithImport(), map["main" := 1, "puts" := 7]).Ok?
    ensures var m := LinkModule(WithImport(), map["main" := 1, "puts" := 7]).value;
      && m.entries == [Entry(1, 28)] && LotSize(m.header) == 1
      && SymbolTableAddress(0, 1, 1) - HEADER_SIZE == 20 && |m.symbols| == 2 && m.symbols[1].code == 7
  {
    hide LinkModule, Extract, SectionsOf, PatchAll, Visibility, WithLocalization, FirstSites, HeaderOf, EntriesOf, SymbolsOf,
      Patches;
    ImportLinks();
    var elf, api := WithImport(), map["main" := 1, "puts" := 7];
    var l := LinkedModule(elf, api);
    ImportSymbols();
    ImportSites();
    OneFirstSite(NamedSite("puts", 4, 1));
    OneFirstSite(NamedSite("main", 0, 0));
    EntryContents(l, elf, api);
    ExternalEntryIs(l, elf, api, 0);
    SymbolContents(l, elf, api);
    HeaderIs(l, elf, api);
    assert SymbolEntryOf(PUTS, false, l.Place(), api) == Ok(l.m.symbols[1]);
  }
}
