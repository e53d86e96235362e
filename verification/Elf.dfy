// The part of an ELF file that the module generator looks at: sections by
// name, the symbol table as a dictionary in file order, and the relocations.

module Elf {
  import opened Words

  /** st_shndx: SHN_UNDEF, an ordinary section, or another reserved value. */
  datatype SectionRef = Undefined | At(index: nat) | Reserved

  datatype SymbolKind = Object | Func | File | OtherKind

  datatype ElfSymbol = ElfSymbol(
    name: string,
    kind: SymbolKind,
    global: bool,      // binding is STB_GLOBAL
    hidden: bool,      // visibility is STV_HIDDEN
    section: SectionRef,
    value: Word)

  /** Symbols are keyed by name, so no name occurs twice. */
  type SymbolTable = symbols: seq<ElfSymbol>
    | forall i, j :: 0 <= i < j < |symbols| ==> symbols[i].name != symbols[j].name

  datatype RelocationKind = ThmCall | GotBrel | Abs32 | ThmJump24 | ThmJump11 | Unsupported

  /** A relocation with the value and section of the symbol it refers to. */
  datatype ElfRelocation = ElfRelocation(
    offset: nat,
    kind: RelocationKind,
    symbolName: string,
    symbolValue: Word,
    section: SectionRef)

  datatype Section = Section(address: nat, bytes: seq<Byte>, index: nat)

  datatype ElfFile = ElfFile(
    sections: map<string, Section>,
    symbols: SymbolTable,
    relocations: seq<ElfRelocation>)

  datatype Localization = External | Exported | Internal

  /** Mapping symbols and file names take no part in linking. */
  predicate Listed(s: ElfSymbol) {
    s.name != "" && s.name != "$t" && s.name != "$d" && s.kind != File
  }

  function Localize(s: ElfSymbol): Localization {
    if s.name == "main" || (s.global && !s.hidden) then
      if s.section == Undefined then External else Exported
    else
      Internal
  }

  /** Localization of every listed symbol, by name. */
  function Visibility(symbols: seq<ElfSymbol>): map<string, Localization> {
    if symbols == [] then map[]
    else
      var last := symbols[|symbols| - 1];
      var before := Visibility(symbols[..|symbols| - 1]);
      if Listed(last) then before[last.name := Localize(last)] else before
  }

  /** The listed symbols of one localization, in symbol table order. */
  function WithLocalization(symbols: seq<ElfSymbol>, l: Localization): (picked: seq<ElfSymbol>)
    ensures forall s :: s in picked <==> s in symbols && Listed(s) && Localize(s) == l
  {
    if symbols == [] then []
    else
      var last := symbols[|symbols| - 1];
      var before := WithLocalization(symbols[..|symbols| - 1], l);
      assert symbols == symbols[..|symbols| - 1] + [last];
      if Listed(last) && Localize(last) == l then before + [last] else before
  }

  /** Relocations against initialised data that need an entry of their own. */
  predicate IsDataRelocation(r: ElfRelocation, symbols: seq<ElfSymbol>) {
    r.kind == Abs32 && exists s :: s in symbols && s.name == r.symbolName && s.kind in {Object, Func}
  }

  predicate NoDataRelocations(elf: ElfFile) {
    forall k :: 0 <= k < |elf.relocations| ==> !IsDataRelocation(elf.relocations[k], elf.symbols)
  }

  lemma {:induction false} VisibilityFrom(symbols: seq<ElfSymbol>, name: string)
    requires name in Visibility(symbols)
    ensures exists s :: s in symbols && Listed(s) && s.name == name && Visibility(symbols)[name] == Localize(s)
  {
    var last := symbols[|symbols| - 1];
    var before := symbols[..|symbols| - 1];
    assert symbols == before + [last];
    if Listed(last) && last.name == name {
      assert last in symbols;
    } else {
      VisibilityFrom(before, name);
    }
  }

  lemma {:induction false} VisibilityAt(symbols: SymbolTable, i: nat)
    requires i < |symbols| && Listed(symbols[i])
    ensures symbols[i].name in Visibility(symbols)
    ensures Visibility(symbols)[symbols[i].name] == Localize(symbols[i])
  {
    if i < |symbols| - 1 {
      VisibilityAt(symbols[..|symbols| - 1], i);
    }
  }

  /** Mapping symbols, nameless ones and file names have no localization; every other name in the table has. */
  lemma LocalizedIff(symbols: SymbolTable, name: string)
    ensures name in Visibility(symbols) <==>
      name !in {"", "$t", "$d"} && exists i :: 0 <= i < |symbols| && symbols[i].name == name && symbols[i].kind != File
  {
    hide Visibility, Localize;
    if name in Visibility(symbols) {
      VisibilityFrom(symbols, name);
      var s :| s in symbols && Listed(s) && s.name == name;
      var i :| 0 <= i < |symbols| && symbols[i] == s;
    }
    if name !in {"", "$t", "$d"} {
      if i :| 0 <= i < |symbols| && symbols[i].name == name && symbols[i].kind != File {
        VisibilityAt(symbols, i);
      }
    }
  }

  /**
   * Main, and global symbols that are not hidden, are external where undefined and exported where
   * defined; the rest is internal.
   */
  lemma LocalizedAs(symbols: SymbolTable, s: ElfSymbol)
    requires s in symbols && s.name !in {"", "$t", "$d"} && s.kind != File
    ensures s in WithLocalization(symbols, External) <==>
      (s.name == "main" || (s.global && !s.hidden)) && s.section.Undefined?
    ensures s in WithLocalization(symbols, Exported) <==>
      (s.name == "main" || (s.global && !s.hidden)) && !s.section.Undefined?
    ensures s in WithLocalization(symbols, Internal) <==> s.name != "main" && (s.global ==> s.hidden)
    ensures s.name in Visibility(symbols)
    ensures forall l :: Visibility(symbols)[s.name] == l <==> s in WithLocalization(symbols, l)
  {
    hide Visibility;
    var i :| 0 <= i < |symbols| && symbols[i] == s;
    VisibilityAt(symbols, i);
  }
}
