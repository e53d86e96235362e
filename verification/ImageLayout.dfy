// An image byte by byte: what stands at which offset, lowest byte first.

module ImageLayout {
  import opened Words
  import opened Elf
  import opened ModuleFormat
  import opened LinkSpec

  // ---------- Words in a byte string

  /** A packed word is its four bytes in the order of their weights. */
  lemma LowestByteFirst(v: Word)
    ensures var p := Pack32(v); v == p[0] as int + 0x100 * p[1] as int + 0x1_0000 * p[2] as int + 0x100_0000 * p[3] as int
  {
    assert v / 0x100 / 0x100 == v / 0x1_0000;
    assert v / 0x1_0000 / 0x100 == v / 0x100_0000;
  }

  lemma LowestByteFirst16(v: Half)
    ensures var p := Pack16(v); v == p[0] as int + 0x100 * p[1] as int
  {
  }

  /** Reduced to 32 bits a number differs by a multiple of 2^32. */
  lemma WrapMeans(x: int)
    ensures 0 <= Wrap(x) < 0x1_0000_0000 && exists k :: x == Wrap(x) + 0x1_0000_0000 * k
  {
    assert x == Wrap(x) + 0x1_0000_0000 * (x / 0x1_0000_0000);
  }

  /** The bytes from `at` on are those of the packed word, or half-word. */
  ghost predicate HasWord(bytes: seq<Byte>, at: nat, v: Word) {
    && at + 4 <= |bytes|
    && v == bytes[at] as int + 0x100 * bytes[at + 1] as int + 0x1_0000 * bytes[at + 2] as int
            + 0x100_0000 * bytes[at + 3] as int
  }

  ghost predicate HasHalf(bytes: seq<Byte>, at: nat, v: Half) {
    at + 2 <= |bytes| && v == bytes[at] as int + 0x100 * bytes[at + 1] as int
  }

  lemma WordIn(front: seq<Byte>, v: Word, back: seq<Byte>)
    ensures HasWord(front + Pack32(v) + back, |front|, v)
  {
    hide Pack32;
    LowestByteFirst(v);
    var all, p := front + Pack32(v) + back, Pack32(v);
    assert forall i :: 0 <= i < 4 ==> all[|front| + i] == p[i];
  }

  lemma HalfIn(front: seq<Byte>, v: Half, back: seq<Byte>)
    ensures HasHalf(front + Pack16(v) + back, |front|, v)
  {
    hide Pack16;
    LowestByteFirst16(v);
    var all, p := front + Pack16(v) + back, Pack16(v);
    assert forall i :: 0 <= i < 2 ==> all[|front| + i] == p[i];
  }

  /** What `WordAt` reads is the word with those bytes. */
  lemma WordAtHas(bytes: seq<Byte>, at: nat)
    requires at + 4 <= |bytes|
    ensures HasWord(bytes, at, WordAt(bytes, at))
  {
  }

  // ---------- The records

  /** The cookie, three sizes and four counts. */
  lemma HeaderBytes(h: Header)
    ensures var b := EncodeHeader(h);
      && |b| == 24 && b[..4] == [0x4d, 0x53, 0x44, 0x4c]
      && HasWord(b, 4, h.codeSize) && HasWord(b, 8, h.dataSize) && HasWord(b, 12, h.bssSize)
      && HasHalf(b, 16, h.externalRelocations) && HasHalf(b, 18, h.localRelocations)
      && HasHalf(b, 20, h.dataRelocations) && HasHalf(b, 22, h.externalSymbols)
  {
    hide Pack32, Pack16, HasWord, HasHalf;
    var b := EncodeHeader(h);
    var cs, ds, bs := Pack32(h.codeSize), Pack32(h.dataSize), Pack32(h.bssSize);
    var er, lr, dr, es :=
      Pack16(h.externalRelocations), Pack16(h.localRelocations), Pack16(h.dataRelocations), Pack16(h.externalSymbols);
    var p0 := COOKIE;
    var p1 := p0 + cs;
    var p2 := p1 + ds;
    var p3 := p2 + bs;
    var p4 := p3 + er;
    var p5 := p4 + lr;
    var p6 := p5 + dr;
    WordIn(p0, h.codeSize, ds + bs + er + lr + dr + es);
    assert b == p0 + cs + (ds + bs + er + lr + dr + es);
    WordIn(p1, h.dataSize, bs + er + lr + dr + es);
    assert b == p1 + ds + (bs + er + lr + dr + es);
    WordIn(p2, h.bssSize, er + lr + dr + es);
    assert b == p2 + bs + (er + lr + dr + es);
    HalfIn(p3, h.externalRelocations, lr + dr + es);
    assert b == p3 + er + (lr + dr + es);
    HalfIn(p4, h.localRelocations, dr + es);
    assert b == p4 + lr + (dr + es);
    HalfIn(p5, h.dataRelocations, es);
    assert b == p5 + dr + es;
    HalfIn(p6, h.externalSymbols, []);
    assert b == p6 + es + [];
  }

  /** Two words. */
  lemma EntryBytes(e: Entry)
    ensures var b := EncodeEntry(e); |b| == 8 && HasWord(b, 0, e.index) && HasWord(b, 4, e.offset)
  {
    hide Pack32, HasWord;
    WordIn([], e.index, Pack32(e.offset));
    assert [] + Pack32(e.index) == Pack32(e.index);
    WordIn(Pack32(e.index), e.offset, []);
    assert EncodeEntry(e) + [] == EncodeEntry(e);
  }

  /** Its own size, the section, the offset and the code. */
  lemma SymbolBytes(s: SymbolEntry)
    ensures var b := EncodeSymbol(s);
      |b| == 12 && HasHalf(b, 0, 12) && HasHalf(b, 2, s.section) && HasWord(b, 4, s.offset) && HasWord(b, 8, s.code)
  {
    hide Pack32, Pack16, HasWord, HasHalf;
    var b := EncodeSymbol(s);
    var z, n, o, c := Pack16(12), Pack16(s.section), Pack32(s.offset), Pack32(s.code);
    HalfIn([], 12, n + o + c);
    assert b == [] + z + (n + o + c);
    HalfIn(z, s.section, o + c);
    assert b == z + n + (o + c);
    WordIn(z + n, s.offset, c);
    WordIn(z + n + o, s.code, []);
    assert b == z + n + o + c + [];
  }

  // ---------- The image

  lemma {:induction false} EntryInTable(es: seq<Entry>, j: nat)
    requires j < |es|
    ensures EncodeEntries(es)[8 * j..8 * j + 8] == EncodeEntry(es[j])
  {
    hide EncodeEntry;
    if j < |es| - 1 {
      EntryInTable(es[..|es| - 1], j);
      var before, last := EncodeEntries(es[..|es| - 1]), EncodeEntry(es[|es| - 1]);
      assert (before + last)[8 * j..8 * j + 8] == before[8 * j..8 * j + 8];
    }
  }

  lemma {:induction false} SymbolInTable(ss: seq<SymbolEntry>, j: nat)
    requires j < |ss|
    ensures EncodeSymbols(ss)[12 * j..12 * j + 12] == EncodeSymbol(ss[j])
  {
    hide EncodeSymbol;
    if j < |ss| - 1 {
      SymbolInTable(ss[..|ss| - 1], j);
      var before, last := EncodeSymbols(ss[..|ss| - 1]), EncodeSymbol(ss[|ss| - 1]);
      assert (before + last)[12 * j..12 * j + 12] == before[12 * j..12 * j + 12];
    }
  }

  lemma PaddingIsZero(n: nat)
    ensures forall i :: 0 <= i < |Padding(n)| ==> Padding(n)[i] == 0
    ensures |Padding(n)| < 16 && (n + |Padding(n)|) % 16 == 0
  {
  }

  lemma SixParts(a: seq<Byte>, b: seq<Byte>, c: seq<Byte>, d: seq<Byte>, e: seq<Byte>, f: seq<Byte>)
    ensures var all := a + b + c + d + e + f;
      var i, j, k, l := |a| + |b|, |a| + |b| + |c|, |a| + |b| + |c| + |d|, |a| + |b| + |c| + |d| + |e|;
      all[..|a|] == a && all[|a|..i] == b && all[i..j] == c && all[j..k] == d && all[k..l] == e && all[l..] == f
  {
  }

  /** How many zeros are between the tables and the code. */
  function Gap(m: Module): nat {
    |Padding(24 + 8 * |m.entries| + 12 * |m.symbols|)|
  }

  /** Header, entries, symbols, zeros up to a multiple of 16, code, data; nothing else. */
  lemma ImageInOrder(m: Module)
    ensures var b := Serialise(m); var s := 24 + 8 * |m.entries|; var t := s + 12 * |m.symbols|; var c := t + Gap(m);
      && |b| == c + |m.code| + |m.data|
      && b[..24] == EncodeHeader(m.header) && b[24..s] == EncodeEntries(m.entries) && b[s..t] == EncodeSymbols(m.symbols)
      && b[t..c] == Padding(t)
      && b[c..c + |m.code|] == m.code && b[c + |m.code|..] == m.data
  {
    hide EncodeHeader, EncodeEntries, EncodeSymbols, Padding;
    SixParts(EncodeHeader(m.header), EncodeEntries(m.entries), EncodeSymbols(m.symbols), Padding(TablesSize(m)),
             m.code, m.data);
  }

  // ---------- What the records say

  /** A local entry has twice its slot, and one more for .data and .bss; its value counts from its section's block. */
  lemma LocalEntryMeans(site: LocalSite, place: Placement)
    requires LocalEntry(site, place).Ok?
    ensures var e := LocalEntry(site, place).value;
      && e.index / 2 == site.index
      && (site.section == At(place.text) ==> e.index % 2 == 0 && e.offset == site.value)
      && (site.section != At(place.text) ==>
            e.index % 2 == 1 && e.offset + place.codeSize == site.value
            && (site.section == At(place.data) || site.section == At(place.bss)))
  {
  }

  /** A symbol has its API code, its section's number and, in .data and .bss, its place in the data block. */
  lemma SymbolEntryMeans(s: ElfSymbol, exported: bool, place: Placement, api: Api)
    requires SymbolEntryOf(s, exported, place, api).Ok?
    ensures var e := SymbolEntryOf(s, exported, place, api).value;
      var own := !exported || s.name == "main";
      && (own ==> s.name in api && e.code == api[s.name])
      && (!own ==> "undefined" in api && e.code == api["undefined"])
      && (s.section == At(place.text) ==> e.section == 0 && e.offset == s.value)
      && (s.section != At(place.text) && (s.section == At(place.data) || s.section == At(place.bss)) ==>
            e.section == 1 && e.offset + place.codeSize == s.value)
      && (s.section !in {At(place.text), At(place.data), At(place.bss)} ==> e.section == 2 && e.offset == s.value)
  {
  }
}
