// What the module generator computes: offset-table (LOT) index assignment,
// code patching and the contents of the image, as functions of the ELF file.

module LinkSpec {
  import opened Results
  import opened Words
  import opened Elf
  import opened ModuleFormat

  datatype LinkError =
    | BadSection          // a section is missing or misplaced
    | UnknownSymbol       // a relocation names a symbol without localization
    | UnknownRelocation   // a relocation kind the generator does not know
    | PackFailure         // a value does not fit the field it is packed into
    | UnsupportedSection  // a local symbol lies outside .text, .data and .bss
    | MissingApiCode      // the API file has no code for a symbol

  /** Symbol codes shared between modules and the kernel. */
  type Api = map<string, Word>

  // ---------- LOT index assignment

  /** A GOT relocation of a named symbol and the LOT slot it got. */
  datatype NamedSite = NamedSite(name: string, offset: nat, index: int)

  /** A GOT relocation of a symbol inside the module. */
  datatype LocalSite = LocalSite(value: Word, offset: nat, index: nat, section: SectionRef)

  datatype Sites = Sites(
    locals: seq<LocalSite>,
    externals: seq<NamedSite>,
    exported: seq<NamedSite>,
    next: nat)

  /** Slot of the first site for `name`, -1 without one. */
  function IndexOfRelocation(sites: seq<NamedSite>, name: string): int {
    if sites == [] then -1
    else if sites[0].name == name then sites[0].index
    else IndexOfRelocation(sites[1..], name)
  }

  predicate HasRelocation(sites: seq<NamedSite>, name: string) {
    exists i :: 0 <= i < |sites| && sites[i].name == name
  }

  function ExtractOne(s: Sites, r: ElfRelocation, visibility: map<string, Localization>): Result<Sites, LinkError> {
    match r.kind
    case GotBrel =>
      if r.symbolName !in visibility then Err(UnknownSymbol)
      else (match visibility[r.symbolName]
            case External =>
              if HasRelocation(s.externals, r.symbolName) then
                var index := IndexOfRelocation(s.externals, r.symbolName);
                Ok(s.(externals := s.externals + [NamedSite(r.symbolName, r.offset, index)]))
              else
                Ok(s.(externals := s.externals + [NamedSite(r.symbolName, r.offset, s.next)], next := s.next + 1))
            case Exported =>
              if r.symbolName != "main" then Ok(s)
              else if HasRelocation(s.exported, r.symbolName) then
                // the source looks the index up among the external sites
                var index := IndexOfRelocation(s.externals, r.symbolName);
                Ok(s.(exported := s.exported + [NamedSite(r.symbolName, r.offset, index)]))
              else
                Ok(s.(exported := s.exported + [NamedSite(r.symbolName, r.offset, s.next)], next := s.next + 1))
            case Internal =>
              Ok(s.(locals := s.locals + [LocalSite(r.symbolValue, r.offset, s.next, r.section)], next := s.next + 1)))
    case Unsupported => Err(UnknownRelocation)
    case _ => Ok(s)
  }

  function Extract(rs: seq<ElfRelocation>, visibility: map<string, Localization>): Result<Sites, LinkError> {
    if rs == [] then Ok(Sites([], [], [], 0))
    else
      var before :- Extract(rs[..|rs| - 1], visibility);
      ExtractOne(before, rs[|rs| - 1], visibility)
  }

  /** The sites that get a relocation entry: the first one of every symbol. */
  function FirstSites(sites: seq<NamedSite>): seq<NamedSite> {
    if sites == [] then []
    else
      var before := FirstSites(sites[..|sites| - 1]);
      var last := sites[|sites| - 1];
      if HasRelocation(before, last.name) then before else before + [last]
  }

  // ---------- Code patching

  /** The code word at `offset` is to hold the byte offset of LOT slot `index`. */
  datatype Patch = Patch(offset: nat, index: int)

  function Patches(s: Sites): seq<Patch> {
    seq(|s.locals|, i requires 0 <= i < |s.locals| => Patch(s.locals[i].offset, s.locals[i].index))
    + seq(|s.externals|, i requires 0 <= i < |s.externals| => Patch(s.externals[i].offset, s.externals[i].index))
    + seq(|s.exported|, i requires 0 <= i < |s.exported| => Patch(s.exported[i].offset, s.exported[i].index))
  }

  function PatchOne(code: seq<Byte>, p: Patch): (r: Result<seq<Byte>, LinkError>)
    ensures r.Ok? ==> |r.value| == |code|
    ensures r.Err? ==> r.error == PackFailure
  {
    if p.offset + 4 > |code| || !(0 <= 4 * p.index < WORD_LIMIT) then Err(PackFailure)
    else Ok(code[..p.offset] + Pack32(4 * p.index) + code[p.offset + 4..])
  }

  function PatchAll(code: seq<Byte>, ps: seq<Patch>): (r: Result<seq<Byte>, LinkError>)
    ensures r.Ok? ==> |r.value| == |code|
    ensures r.Err? ==> r.error == PackFailure
  {
    if ps == [] then Ok(code)
    else
      var before :- PatchAll(code, ps[..|ps| - 1]);
      PatchOne(before, ps[|ps| - 1])
  }

  // ---------- Contents of the image

  /** Section indices and the code size, which relocation entries refer to. */
  datatype Placement = Placement(text: nat, data: nat, bss: nat, codeSize: nat)

  function ToWord(x: int): Result<Word, LinkError> {
    if 0 <= x < WORD_LIMIT then Ok(x) else Err(PackFailure)
  }

  function ToHalf(x: int): Result<Half, LinkError> {
    if 0 <= x < HALF_LIMIT then Ok(x) else Err(PackFailure)
  }

  /** How many symbols precede `name`; all of them if it is absent. */
  function PositionOf(symbols: seq<ElfSymbol>, name: string): (p: nat)
    ensures p <= |symbols|
  {
    if symbols == [] || symbols[0].name == name then 0
    else 1 + PositionOf(symbols[1..], name)
  }

  /**
   * Distance from the entry at `position` to the symbol's own entry, as the
   * generator counts it: over the remaining relocations and the symbols before.
   */
  function OffsetToSymbol(position: nat, total: nat, exportedCount: nat, place: nat): int {
    (total - position) * ENTRY_SIZE + exportedCount * SYMBOL_SIZE + place * SYMBOL_SIZE
  }

  function ExternalEntry(site: NamedSite, position: nat, total: nat, exportedCount: nat,
                         externals: seq<ElfSymbol>): Result<Entry, LinkError> {
    var index :- ToWord(site.index);
    var offset :- ToWord(OffsetToSymbol(position, total, exportedCount, PositionOf(externals, site.name)));
    Ok(Entry(index, offset))
  }

  function ExternalEntries(sites: seq<NamedSite>, total: nat, exportedCount: nat,
                           externals: seq<ElfSymbol>): (r: Result<seq<Entry>, LinkError>)
    ensures r.Ok? ==> |r.value| == |sites|
  {
    if sites == [] then Ok([])
    else
      var n := |sites| - 1;
      var before :- ExternalEntries(sites[..n], total, exportedCount, externals);
      var last :- ExternalEntry(sites[n], n, total, exportedCount, externals);
      Ok(before + [last])
  }

  function LocalEntry(site: LocalSite, place: Placement): Result<Entry, LinkError> {
    if site.section == At(place.text) then
      var index :- ToWord(2 * site.index);
      Ok(Entry(index, site.value))
    else if site.section == At(place.data) || site.section == At(place.bss) then
      var index :- ToWord(2 * site.index + 1);
      var offset :- ToWord(site.value - place.codeSize);
      Ok(Entry(index, offset))
    else
      Err(UnsupportedSection)
  }

  function LocalEntries(sites: seq<LocalSite>, place: Placement): (r: Result<seq<Entry>, LinkError>)
    ensures r.Ok? ==> |r.value| == |sites|
  {
    if sites == [] then Ok([])
    else
      var n := |sites| - 1;
      var before :- LocalEntries(sites[..n], place);
      var last :- LocalEntry(sites[n], place);
      Ok(before + [last])
  }

  function SectionCode(section: SectionRef, place: Placement): Half {
    if section == At(place.text) then 0
    else if section == At(place.data) || section == At(place.bss) then 1
    else 2
  }

  /** The API code of a symbol; exported symbols other than main have none of their own. */
  function ApiName(s: ElfSymbol, exported: bool): string {
    if exported && s.name != "main" then "undefined" else s.name
  }

  function SymbolEntryOf(s: ElfSymbol, exported: bool, place: Placement, api: Api): Result<SymbolEntry, LinkError> {
    var name := ApiName(s, exported);
    if name !in api then Err(MissingApiCode)
    else
      var section := SectionCode(s.section, place);
      var offset :- ToWord(if section == 1 then s.value - place.codeSize else s.value);
      Ok(SymbolEntry(section, offset, api[name]))
  }

  function SymbolEntries(symbols: seq<ElfSymbol>, exported: bool, place: Placement, api: Api):
    (r: Result<seq<SymbolEntry>, LinkError>)
    ensures r.Ok? ==> |r.value| == |symbols|
  {
    if symbols == [] then Ok([])
    else
      var n := |symbols| - 1;
      var before :- SymbolEntries(symbols[..n], exported, place, api);
      var last :- SymbolEntryOf(symbols[n], exported, place, api);
      Ok(before + [last])
  }

  /** A section that must exist and start at `position`. */
  function ProcessSection(sections: map<string, Section>, name: string, position: nat): Result<Section, LinkError> {
    if name !in sections || sections[name].address != position then Err(BadSection)
    else Ok(sections[name])
  }

  datatype Layout = Layout(text: Section, data: Section, bss: Section)

  function SectionsOf(sections: map<string, Section>): Result<Layout, LinkError> {
    var text :- ProcessSection(sections, ".text", 0);
    var data :- ProcessSection(sections, ".data", |text.bytes|);
    var bss :- ProcessSection(sections, ".bss", data.address + |data.bytes|);
    Ok(Layout(text, data, bss))
  }

  function PlacementOf(l: Layout): Placement {
    Placement(l.text.index, l.data.index, l.bss.index, |l.text.bytes|)
  }

  /** Header fields, each of which must fit its width. */
  function HeaderOf(l: Layout, external: nat, local: nat, symbols: nat): Result<Header, LinkError> {
    var codeSize :- ToWord(|l.text.bytes|);
    var dataSize :- ToWord(|l.data.bytes|);
    var bssSize :- ToWord(|l.bss.bytes|);
    var externalRelocations :- ToHalf(external);
    var localRelocations :- ToHalf(local);
    var externalSymbols :- ToHalf(symbols);
    Ok(Header(codeSize, dataSize, bssSize, externalRelocations, localRelocations, 0, externalSymbols))
  }

  /** Two tables one after the other, if both could be made. */
  function Append<T>(first: Result<seq<T>, LinkError>, second: Result<seq<T>, LinkError>): Result<seq<T>, LinkError> {
    var left :- first;
    var right :- second;
    Ok(left + right)
  }

  /** Every relocation the generator counts; those of main are counted, but get no entry. */
  function TotalRelocations(sites: Sites): nat {
    |sites.locals| + |FirstSites(sites.externals)| + |FirstSites(sites.exported)|
  }

  /** Relocation entries of a module: those of external symbols, then the local ones. */
  function EntriesOf(sites: Sites, exportedCount: nat, externals: seq<ElfSymbol>, place: Placement):
    Result<seq<Entry>, LinkError>
  {
    Append(ExternalEntries(FirstSites(sites.externals), TotalRelocations(sites), exportedCount, externals),
           LocalEntries(sites.locals, place))
  }

  /** The symbol table of a module: exported symbols, then external ones. */
  function SymbolsOf(exported: seq<ElfSymbol>, externals: seq<ElfSymbol>, place: Placement, api: Api):
    Result<seq<SymbolEntry>, LinkError>
  {
    Append(SymbolEntries(exported, true, place, api), SymbolEntries(externals, false, place, api))
  }

  /** Everything in front of the code. */
  datatype Tables = Tables(header: Header, entries: seq<Entry>, symbols: seq<SymbolEntry>)

  function TablesOf(layout: Layout, sites: Sites, exported: seq<ElfSymbol>, externals: seq<ElfSymbol>, api: Api):
    Result<Tables, LinkError>
  {
    var place := PlacementOf(layout);
    var header :- HeaderOf(layout, |FirstSites(sites.externals)|, |sites.locals|, |externals|);
    var entries :- EntriesOf(sites, |exported|, externals, place);
    var symbols :- SymbolsOf(exported, externals, place, api);
    Ok(Tables(header, entries, symbols))
  }

  function AssembleModule(layout: Layout, sites: Sites, exported: seq<ElfSymbol>, externals: seq<ElfSymbol>, api: Api):
    Result<Module, LinkError>
  {
    var code :- PatchAll(layout.text.bytes, Patches(sites));
    var tables :- TablesOf(layout, sites, exported, externals, api);
    Ok(Module(tables.header, tables.entries, tables.symbols, code, layout.data.bytes))
  }

  /** The module an ELF file turns into. */
  function LinkModule(elf: ElfFile, api: Api): Result<Module, LinkError> {
    var layout :- SectionsOf(elf.sections);
    var sites :- Extract(elf.relocations, Visibility(elf.symbols));
    AssembleModule(layout, sites, WithLocalization(elf.symbols, Exported), WithLocalization(elf.symbols, External), api)
  }

  /** The bytes of a module that could be linked. */
  function Image(m: Result<Module, LinkError>): Result<seq<Byte>, LinkError> {
    if m.Ok? then Ok(Serialise(m.value)) else Err(m.error)
  }
}
