// The module generator: loops over symbols and relocations, patches the code
// in place and grows the image, as scripts/generate_binary.py does.

module Generator {
  import opened Results
  import opened Words
  import opened Elf
  import opened ModuleFormat
  import opened LinkSpec

  // ---------- A step that failed stays failed

  lemma {:induction false} ExtractStaysFailed(rs: seq<ElfRelocation>, visibility: map<string, Localization>, i: nat)
    requires i <= |rs| && Extract(rs[..i], visibility).Err?
    ensures Extract(rs, visibility) == Extract(rs[..i], visibility)
    decreases |rs|
  {
    if i < |rs| {
      assert rs[..|rs| - 1][..i] == rs[..i];
      ExtractStaysFailed(rs[..|rs| - 1], visibility, i);
    } else {
      assert rs[..i] == rs;
    }
  }

  lemma {:induction false} PatchStaysFailed(code: seq<Byte>, ps: seq<Patch>, i: nat)
    requires i <= |ps| && PatchAll(code, ps[..i]).Err?
    ensures PatchAll(code, ps).Err?
    decreases |ps|
  {
    if i < |ps| {
      assert ps[..|ps| - 1][..i] == ps[..i];
      PatchStaysFailed(code, ps[..|ps| - 1], i);
    } else {
      assert ps[..i] == ps;
    }
  }

  lemma {:induction false} ExternalEntriesStayFailed(sites: seq<NamedSite>, total: nat, exportedCount: nat,
                                                     externals: seq<ElfSymbol>, i: nat)
    requires i <= |sites| && ExternalEntries(sites[..i], total, exportedCount, externals).Err?
    ensures ExternalEntries(sites, total, exportedCount, externals)
         == ExternalEntries(sites[..i], total, exportedCount, externals)
    decreases |sites|
  {
    if i < |sites| {
      assert sites[..|sites| - 1][..i] == sites[..i];
      ExternalEntriesStayFailed(sites[..|sites| - 1], total, exportedCount, externals, i);
    } else {
      assert sites[..i] == sites;
    }
  }

  lemma {:induction false} LocalEntriesStayFailed(sites: seq<LocalSite>, place: Placement, i: nat)
    requires i <= |sites| && LocalEntries(sites[..i], place).Err?
    ensures LocalEntries(sites, place) == LocalEntries(sites[..i], place)
    decreases |sites|
  {
    if i < |sites| {
      assert sites[..|sites| - 1][..i] == sites[..i];
      LocalEntriesStayFailed(sites[..|sites| - 1], place, i);
    } else {
      assert sites[..i] == sites;
    }
  }

  lemma {:induction false} SymbolEntriesStayFailed(symbols: seq<ElfSymbol>, exported: bool, place: Placement,
                                                   api: Api, i: nat)
    requires i <= |symbols| && SymbolEntries(symbols[..i], exported, place, api).Err?
    ensures SymbolEntries(symbols, exported, place, api) == SymbolEntries(symbols[..i], exported, place, api)
    decreases |symbols|
  {
    if i < |symbols| {
      assert symbols[..|symbols| - 1][..i] == symbols[..i];
      SymbolEntriesStayFailed(symbols[..|symbols| - 1], exported, place, api, i);
    } else {
      assert symbols[..i] == symbols;
    }
  }

  lemma NoSymbolEntries(exported: bool, place: Placement, api: Api)
    ensures SymbolEntries([], exported, place, api) == Ok([]) && EncodeSymbols([]) == []
  {
  }

  lemma SymbolEntriesOneMore(symbols: seq<ElfSymbol>, exported: bool, place: Placement,
                                                api: Api, i: nat, done: seq<SymbolEntry>)
    requires i < |symbols| && SymbolEntries(symbols[..i], exported, place, api) == Ok(done)
    ensures SymbolEntries(symbols[..i + 1], exported, place, api) ==
      var entry := SymbolEntryOf(symbols[i], exported, place, api);
      if entry.Err? then Err(entry.error) else Ok(done + [entry.value])
  {
    hide SymbolEntryOf;
    assert symbols[..i + 1][..i] == symbols[..i];
  }

  // ---------- Symbols and relocations

  method ProcessSymbolsVisibility(symbols: seq<ElfSymbol>) returns (processed: map<string, Localization>)
    ensures processed == Visibility(symbols)
  {
    processed := map[];
    for i := 0 to |symbols|
      invariant processed == Visibility(symbols[..i])
    {
      assert symbols[..i + 1][..i] == symbols[..i];
      var s := symbols[i];
      if s.name == "" || s.name == "$t" || s.name == "$d" {
        continue;
      }
      if s.kind == File {
        continue;
      }
      if s.name == "main" || (s.global && !s.hidden) {
        if s.section == Undefined {
          processed := processed[s.name := External];
        } else {
          processed := processed[s.name := Exported];
        }
      } else {
        processed := processed[s.name := Internal];
      }
    }
    assert symbols[..|symbols|] == symbols;
  }

  method SearchRelocation(sites: seq<NamedSite>, name: string) returns (found: bool)
    ensures found <==> HasRelocation(sites, name)
  {
    for i := 0 to |sites|
      invariant forall j :: 0 <= j < i ==> sites[j].name != name
    {
      if name == sites[i].name {
        return true;
      }
    }
    return false;
  }

  method GetIndexOfRelocation(sites: seq<NamedSite>, name: string) returns (index: int)
    ensures index == IndexOfRelocation(sites, name)
  {
    assert sites[0..] == sites;
    for i := 0 to |sites|
      invariant IndexOfRelocation(sites, name) == IndexOfRelocation(sites[i..], name)
    {
      if name == sites[i].name {
        return sites[i].index;
      }
    }
    return -1;
  }

  method ExtractRelocations(relocations: seq<ElfRelocation>, processed: map<string, Localization>)
    returns (r: Result<Sites, LinkError>)
    ensures r == Extract(relocations, processed)
  {
    var locals: seq<LocalSite> := [];
    var externals: seq<NamedSite> := [];
    var exported: seq<NamedSite> := [];
    var index := 0;
    for i := 0 to |relocations|
      invariant Extract(relocations[..i], processed) == Ok(Sites(locals, externals, exported, index))
    {
      var relocation := relocations[i];
      assert relocations[..i + 1][..i] == relocations[..i];
      if relocation.kind == GotBrel {
        if relocation.symbolName !in processed {
          ExtractStaysFailed(relocations, processed, i + 1);
          return Err(UnknownSymbol);
        }
        match processed[relocation.symbolName] {
          case External =>
            var lotIndex := index;
            var known := SearchRelocation(externals, relocation.symbolName);
            if known {
              lotIndex := GetIndexOfRelocation(externals, relocation.symbolName);
            } else {
              index := index + 1;
            }
            externals := externals + [NamedSite(relocation.symbolName, relocation.offset, lotIndex)];
          case Exported =>
            if relocation.symbolName == "main" {
              var lotIndex := index;
              var known := SearchRelocation(exported, relocation.symbolName);
              if known {
                lotIndex := GetIndexOfRelocation(externals, relocation.symbolName);
              } else {
                index := index + 1;
              }
              exported := exported + [NamedSite(relocation.symbolName, relocation.offset, lotIndex)];
            }
          case Internal =>
            locals := locals + [LocalSite(relocation.symbolValue, relocation.offset, index, relocation.section)];
            index := index + 1;
        }
      } else if relocation.kind == Unsupported {
        ExtractStaysFailed(relocations, processed, i + 1);
        return Err(UnknownRelocation);
      }
    }
    assert relocations[..|relocations|] == relocations;
    r := Ok(Sites(locals, externals, exported, index));
  }

  /** Keeps the first site of every symbol, remembering the names already seen. */
  method CollectFirstSites(sites: seq<NamedSite>) returns (first: seq<NamedSite>)
    ensures first == FirstSites(sites)
  {
    var processed: set<string> := {};
    first := [];
    for i := 0 to |sites|
      invariant first == FirstSites(sites[..i])
      invariant forall name :: name in processed <==> HasRelocation(first, name)
    {
      assert sites[..i + 1][..i] == sites[..i];
      var site := sites[i];
      if site.name in processed {
        continue;
      }
      ghost var before := first;
      first := first + [site];
      processed := processed + {site.name};
      forall name ensures name in processed <==> HasRelocation(first, name) {
        assert first[|before|] == site;
        assert forall j :: 0 <= j < |before| ==> first[j] == before[j];
      }
    }
    assert sites[..|sites|] == sites;
  }

  // ---------- Patching in place

  lemma NothingPatched(code: seq<Byte>, ps: seq<Patch>)
    ensures PatchAll(code, ps[..0]) == Ok(code)
  {
  }

  lemma PatchStep(code: seq<Byte>, ps: seq<Patch>, i: nat)
    requires i < |ps| && PatchAll(code, ps[..i]).Ok?
    ensures PatchAll(code, ps[..i + 1]) == PatchOne(PatchAll(code, ps[..i]).value, ps[i])
  {
    assert ps[..i + 1][..i] == ps[..i];
  }

  method StoreWord(code: array<Byte>, offset: nat, value: Word)
    requires offset + 4 <= code.Length
    modifies code
    ensures code[..] == old(code[..offset]) + Pack32(value) + old(code[offset + 4..])
  {
    var word := Pack32(value);
    code[offset], code[offset + 1], code[offset + 2], code[offset + 3] := word[0], word[1], word[2], word[3];
  }

  method PatchOffsets(code: array<Byte>, patches: seq<Patch>) returns (ok: bool)
    modifies code
    ensures ok <==> PatchAll(old(code[..]), patches).Ok?
    ensures ok ==> code[..] == PatchAll(old(code[..]), patches).value
  {
    hide PatchAll, Pack32;
    NothingPatched(code[..], patches);
    for i := 0 to |patches|
      invariant PatchAll(old(code[..]), patches[..i]) == Ok(code[..])
    {
      PatchStep(old(code[..]), patches, i);
      var offset := patches[i].offset;
      if offset + 4 > code.Length || !(0 <= patches[i].index * 4 < WORD_LIMIT) {
        PatchStaysFailed(old(code[..]), patches, i + 1);
        return false;
      }
      StoreWord(code, offset, patches[i].index * 4);
    }
    assert patches[..|patches|] == patches;
    ok := true;
  }

  // ---------- Serialisation

  /** Walks the external symbols up to `name`, counting the entries passed. */
  method CountSymbolsBefore(externals: seq<ElfSymbol>, name: string) returns (place: nat)
    ensures place == PositionOf(externals, name)
  {
    place := 0;
    while place < |externals| && externals[place].name != name
      invariant 0 <= place <= |externals|
      invariant PositionOf(externals, name) == place + PositionOf(externals[place..], name)
    {
      place := place + 1;
    }
  }

  method MakeExternalEntry(site: NamedSite, position: nat, total: nat, exportedCount: nat, externals: seq<ElfSymbol>)
    returns (r: Result<Entry, LinkError>)
    ensures r == ExternalEntry(site, position, total, exportedCount, externals)
  {
    var place := CountSymbolsBefore(externals, site.name);
    var offset := OffsetToSymbol(position, total, exportedCount, place);
    if !(0 <= site.index < WORD_LIMIT) || !(0 <= offset < WORD_LIMIT) {
      return Err(PackFailure);
    }
    r := Ok(Entry(site.index, offset));
  }

  method MakeLocalEntry(site: LocalSite, place: Placement) returns (r: Result<Entry, LinkError>)
    ensures r == LocalEntry(site, place)
  {
    var value: int := site.value;
    var section := 0;
    if site.section == At(place.text) {
      section := 0;
    } else if site.section == At(place.data) || site.section == At(place.bss) {
      section := 1;
      value := value - place.codeSize;
    } else {
      return Err(UnsupportedSection);
    }
    var indexAndSection := 2 * site.index + section;
    if indexAndSection >= WORD_LIMIT || value < 0 {
      return Err(PackFailure);
    }
    r := Ok(Entry(indexAndSection, value));
  }

  method MakeSymbolEntry(s: ElfSymbol, exported: bool, place: Placement, api: Api)
    returns (r: Result<SymbolEntry, LinkError>)
    ensures r == SymbolEntryOf(s, exported, place, api)
  {
    var section: Half := SectionCode(s.section, place);
    var value: int := s.value;
    if section == 1 {
      value := value - place.codeSize;
    }
    var name := if exported && s.name != "main" then "undefined" else s.name;
    if name !in api {
      return Err(MissingApiCode);
    }
    if value < 0 {
      return Err(PackFailure);
    }
    r := Ok(SymbolEntry(section, value, api[name]));
  }

  method WriteExternalRelocations(first: seq<NamedSite>, total: nat, exportedCount: nat, externals: seq<ElfSymbol>)
    returns (r: Result<seq<Byte>, LinkError>)
    ensures r == Encoded(ExternalEntries(first, total, exportedCount, externals))
  {
    var image: seq<Byte> := [];
    ghost var done: seq<Entry> := [];
    for i := 0 to |first|
      invariant ExternalEntries(first[..i], total, exportedCount, externals) == Ok(done)
      invariant image == EncodeEntries(done)
    {
      assert first[..i + 1][..i] == first[..i];
      var entry := MakeExternalEntry(first[i], i, total, exportedCount, externals);
      if entry.Err? {
        ExternalEntriesStayFailed(first, total, exportedCount, externals, i + 1);
        return Err(entry.error);
      }
      EncodeEntriesOneMore(done, entry.value);
      image := image + EncodeEntry(entry.value);
      done := done + [entry.value];
    }
    assert first[..|first|] == first;
    r := Ok(image);
  }

  method WriteLocalRelocations(locals: seq<LocalSite>, place: Placement) returns (r: Result<seq<Byte>, LinkError>)
    ensures r == Encoded(LocalEntries(locals, place))
  {
    var image: seq<Byte> := [];
    ghost var done: seq<Entry> := [];
    for i := 0 to |locals|
      invariant LocalEntries(locals[..i], place) == Ok(done)
      invariant image == EncodeEntries(done)
    {
      assert locals[..i + 1][..i] == locals[..i];
      var entry := MakeLocalEntry(locals[i], place);
      if entry.Err? {
        LocalEntriesStayFailed(locals, place, i + 1);
        return Err(entry.error);
      }
      EncodeEntriesOneMore(done, entry.value);
      image := image + EncodeEntry(entry.value);
      done := done + [entry.value];
    }
    assert locals[..|locals|] == locals;
    r := Ok(image);
  }

  method WriteSymbols(symbols: seq<ElfSymbol>, exported: bool, place: Placement, api: Api)
    returns (r: Result<seq<Byte>, LinkError>)
    ensures r == EncodedTable(SymbolEntries(symbols, exported, place, api))
  {
    hide SymbolEntries, SymbolEntryOf, EncodeSymbol, EncodeSymbols;
    var image: seq<Byte> := [];
    ghost var done: seq<SymbolEntry> := [];
    NoSymbolEntries(exported, place, api);
    for i := 0 to |symbols|
      invariant SymbolEntries(symbols[..i], exported, place, api) == Ok(done)
      invariant image == EncodeSymbols(done)
    {
      SymbolEntriesOneMore(symbols, exported, place, api, i, done);
      var entry := MakeSymbolEntry(symbols[i], exported, place, api);
      if entry.Err? {
        SymbolEntriesStayFailed(symbols, exported, place, api, i + 1);
        return Err(entry.error);
      }
      EncodeSymbolsOneMore(done, entry.value);
      image := image + EncodeSymbol(entry.value);
      done := done + [entry.value];
    }
    assert symbols[..|symbols|] == symbols;
    r := Ok(image);
  }

  /** The bytes of entries that could all be made. */
  function Encoded(entries: Result<seq<Entry>, LinkError>): Result<seq<Byte>, LinkError> {
    if entries.Ok? then Ok(EncodeEntries(entries.value)) else Err(entries.error)
  }

  function EncodedTable(symbols: Result<seq<SymbolEntry>, LinkError>): Result<seq<Byte>, LinkError> {
    if symbols.Ok? then Ok(EncodeSymbols(symbols.value)) else Err(symbols.error)
  }

  lemma EncodeEntriesOneMore(es: seq<Entry>, e: Entry)
    ensures EncodeEntries(es + [e]) == EncodeEntries(es) + EncodeEntry(e)
  {
    assert (es + [e])[..|es|] == es;
  }

  lemma EncodeSymbolsOneMore(ss: seq<SymbolEntry>, s: SymbolEntry)
    ensures EncodeSymbols(ss + [s]) == EncodeSymbols(ss) + EncodeSymbol(s)
  {
    assert (ss + [s])[..|ss|] == ss;
  }

  lemma {:induction false} EncodeEntriesConcat(a: seq<Entry>, b: seq<Entry>)
    ensures EncodeEntries(a + b) == EncodeEntries(a) + EncodeEntries(b)
  {
    hide EncodeEntry;
    if b == [] {
      assert a + b == a;
    } else {
      EncodeEntriesConcat(a, b[..|b| - 1]);
      assert (a + b)[..|a + b| - 1] == a + b[..|b| - 1];
    }
  }

  lemma {:induction false} EncodeSymbolsConcat(a: seq<SymbolEntry>, b: seq<SymbolEntry>)
    ensures EncodeSymbols(a + b) == EncodeSymbols(a) + EncodeSymbols(b)
  {
    hide EncodeSymbol;
    if b == [] {
      assert a + b == a;
    } else {
      EncodeSymbolsConcat(a, b[..|b| - 1]);
      assert (a + b)[..|a + b| - 1] == a + b[..|b| - 1];
      assert (a + b)[|a + b| - 1] == b[|b| - 1];
    }
  }

  lemma EncodedAppend(a: Result<seq<Entry>, LinkError>, b: Result<seq<Entry>, LinkError>)
    ensures Encoded(Append(a, b)) == Append(Encoded(a), Encoded(b))
  {
    if a.Ok? && b.Ok? {
      EncodeEntriesConcat(a.value, b.value);
    }
  }

  lemma EncodedTableAppend(a: Result<seq<SymbolEntry>, LinkError>, b: Result<seq<SymbolEntry>, LinkError>)
    ensures EncodedTable(Append(a, b)) == Append(EncodedTable(a), EncodedTable(b))
  {
    if a.Ok? && b.Ok? {
      EncodeSymbolsConcat(a.value, b.value);
    }
  }

  /** The symbols of one localization, in the order of the processed dictionary. */
  method SelectSymbols(symbols: SymbolTable, processed: map<string, Localization>, l: Localization)
    returns (picked: seq<ElfSymbol>)
    requires processed == Visibility(symbols)
    ensures picked == WithLocalization(symbols, l)
  {
    picked := [];
    for i := 0 to |symbols|
      invariant picked == WithLocalization(symbols[..i], l)
    {
      assert symbols[..i + 1][..i] == symbols[..i];
      var s := symbols[i];
      if Listed(s) {
        VisibilityAt(symbols, i);
        if processed[s.name] == l {
          picked := picked + [s];
        }
      }
    }
    assert symbols[..|symbols|] == symbols;
  }

  // ---------- The whole generator

  /** Header and tables, padded up to where the code may start. */
  method WriteTables(header: Header, entries: seq<Byte>, symbols: seq<Byte>) returns (image: seq<Byte>)
    ensures var tables := EncodeHeader(header) + entries + symbols;
      image == tables + Padding(|tables|)
  {
    image := COOKIE + Pack32(header.codeSize) + Pack32(header.dataSize) + Pack32(header.bssSize)
    + Pack16(header.externalRelocations) + Pack16(header.localRelocations)
    + Pack16(header.dataRelocations) + Pack16(header.externalSymbols);
    image := image + entries + symbols;
    if |image| % 16 != 0 {
      image := image + seq(16 - |image| % 16, _ => 0);
    }
  }

  method CountRelocations(sites: Sites) returns (first: seq<NamedSite>, total: nat)
    ensures first == FirstSites(sites.externals) && total == TotalRelocations(sites)
  {
    first := CollectFirstSites(sites.externals);
    var firstExported := CollectFirstSites(sites.exported);
    total := |sites.locals| + |first| + |firstExported|;
  }

  method WriteEntries(first: seq<NamedSite>, locals: seq<LocalSite>, total: nat, exportedCount: nat,
                      externals: seq<ElfSymbol>, place: Placement)
    returns (r: Result<seq<Byte>, LinkError>)
    ensures r == Encoded(Append(ExternalEntries(first, total, exportedCount, externals), LocalEntries(locals, place)))
  {
    EncodedAppend(ExternalEntries(first, total, exportedCount, externals), LocalEntries(locals, place));
    var external :- WriteExternalRelocations(first, total, exportedCount, externals);
    var local :- WriteLocalRelocations(locals, place);
    r := Ok(external + local);
  }

  method WriteRelocations(sites: Sites, exportedCount: nat, externals: seq<ElfSymbol>, place: Placement)
    returns (r: Result<seq<Byte>, LinkError>)
    ensures r == Encoded(EntriesOf(sites, exportedCount, externals, place))
  {
    var first, total := CountRelocations(sites);
    r := WriteEntries(first, sites.locals, total, exportedCount, externals, place);
  }

  method WriteSymbolTable(exported: seq<ElfSymbol>, externals: seq<ElfSymbol>, place: Placement, api: Api)
    returns (r: Result<seq<Byte>, LinkError>)
    ensures r == EncodedTable(SymbolsOf(exported, externals, place, api))
  {
    EncodedTableAppend(SymbolEntries(exported, true, place, api), SymbolEntries(externals, false, place, api));
    var first :- WriteSymbols(exported, true, place, api);
    var second :- WriteSymbols(externals, false, place, api);
    r := Ok(first + second);
  }

  function EncodedTables(t: Result<Tables, LinkError>): Result<seq<Byte>, LinkError> {
    if t.Err? then Err(t.error)
    else
      var bytes := EncodeHeader(t.value.header) + EncodeEntries(t.value.entries) + EncodeSymbols(t.value.symbols);
      Ok(bytes + Padding(|bytes|))
  }

  method WriteAllTables(layout: Layout, sites: Sites, exported: seq<ElfSymbol>, externals: seq<ElfSymbol>, api: Api)
    returns (r: Result<seq<Byte>, LinkError>)
    ensures r == EncodedTables(TablesOf(layout, sites, exported, externals, api))
  {
    var place := PlacementOf(layout);
    var first := CollectFirstSites(sites.externals);
    var header :- HeaderOf(layout, |first|, |sites.locals|, |externals|);
    var entries :- WriteRelocations(sites, |exported|, externals, place);
    var symbols :- WriteSymbolTable(exported, externals, place, api);
    var image := WriteTables(header, entries, symbols);
    r := Ok(image);
  }

  /** Copies the code into a buffer and patches the copy. */
  method PatchedCode(text: seq<Byte>, patches: seq<Patch>) returns (r: Result<seq<Byte>, LinkError>)
    ensures r == PatchAll(text, patches)
  {
    var code := new Byte[|text|](i requires 0 <= i < |text| => text[i]);
    assert code[..] == text;
    var patched := PatchOffsets(code, patches);
    if !patched {
      return Err(PackFailure);
    }
    r := Ok(code[..]);
  }

  lemma SerialiseParts(t: Tables, code: seq<Byte>, data: seq<Byte>)
    ensures Serialise(Module(t.header, t.entries, t.symbols, code, data))
         == EncodedTables(Ok(t)).value + code + data
  {
  }

  /** The image: tables, the patched code and the initialised data. */
  method AssembleImage(layout: Layout, sites: Sites, exported: seq<ElfSymbol>, externals: seq<ElfSymbol>, api: Api)
    returns (r: Result<seq<Byte>, LinkError>)
    ensures r == Image(AssembleModule(layout, sites, exported, externals, api))
  {
    var code :- PatchedCode(layout.text.bytes, Patches(sites));
    var image :- WriteAllTables(layout, sites, exported, externals, api);
    SerialiseParts(TablesOf(layout, sites, exported, externals, api).value, code, layout.data.bytes);
    r := Ok(image + code + layout.data.bytes);
  }

  method GenerateModule(elf: ElfFile, api: Api) returns (r: Result<seq<Byte>, LinkError>)
    requires NoDataRelocations(elf)
    ensures r == Image(LinkModule(elf, api))
  {
    var layout :- SectionsOf(elf.sections);
    var processed := ProcessSymbolsVisibility(elf.symbols);
    var sites :- ExtractRelocations(elf.relocations, processed);
    var externals := SelectSymbols(elf.symbols, processed, External);
    var exported := SelectSymbols(elf.symbols, processed, Exported);
    r := AssembleImage(layout, sites, exported, externals, api);
  }
}
