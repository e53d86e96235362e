// Which ELF files the generator takes, and what it says of the others.

module Acceptance {
  import opened Results
  import opened Words
  import opened Elf
  import opened LinkSpec
  import opened LotProperties
  import opened Linking
  import opened LinkLimits

  // ---------- Relocations

  /** A kind the generator knows, and for the offset table a symbol it knows. */
  predicate KnownRelocation(r: ElfRelocation, visibility: map<string, Localization>) {
    r.kind != Unsupported && (r.kind == GotBrel ==> r.symbolName in visibility)
  }

  lemma ExtractsOneIff(s: Sites, r: ElfRelocation, visibility: map<string, Localization>)
    ensures ExtractOne(s, r, visibility).Ok? <==> KnownRelocation(r, visibility)
    ensures !KnownRelocation(r, visibility) ==>
      ExtractOne(s, r, visibility) == Err(if r.kind == Unsupported then UnknownRelocation else UnknownSymbol)
  {
  }

  /** Extraction succeeds iff every relocation is known; calls and jumps, in particular, are skipped. */
  lemma {:induction false} ExtractsIff(rs: seq<ElfRelocation>, visibility: map<string, Localization>)
    ensures Extract(rs, visibility).Ok? <==> forall k :: 0 <= k < |rs| ==> KnownRelocation(rs[k], visibility)
  {
    hide ExtractOne, KnownRelocation;
    if rs != [] {
      var n := |rs| - 1;
      var before := rs[..n];
      ExtractsIff(before, visibility);
      assert forall k :: 0 <= k < n ==> before[k] == rs[k];
      if Extract(before, visibility).Ok? {
        ExtractsOneIff(Extract(before, visibility).value, rs[n], visibility);
      }
    }
  }

  /** Otherwise the first unknown relocation decides the error. */
  lemma {:induction false} FirstUnknown(rs: seq<ElfRelocation>, visibility: map<string, Localization>, k: nat)
    requires k < |rs| && !KnownRelocation(rs[k], visibility)
    requires forall j :: 0 <= j < k ==> KnownRelocation(rs[j], visibility)
    ensures Extract(rs, visibility) == Err(if rs[k].kind == Unsupported then UnknownRelocation else UnknownSymbol)
  {
    hide ExtractOne, KnownRelocation;
    var n := |rs| - 1;
    if k < n {
      FirstUnknown(rs[..n], visibility, k);
    } else {
      ExtractsIff(rs[..n], visibility);
      ExtractsOneIff(Extract(rs[..n], visibility).value, rs[n], visibility);
    }
  }

  // ---------- The relocations behind the sites

  predicate IsLocal(r: ElfRelocation, visibility: map<string, Localization>) {
    r.kind == GotBrel && r.symbolName in visibility && visibility[r.symbolName] == Internal
  }

  predicate IsExternal(r: ElfRelocation, visibility: map<string, Localization>) {
    r.kind == GotBrel && r.symbolName in visibility && visibility[r.symbolName] == External
  }

  predicate IsPatched(r: ElfRelocation, visibility: map<string, Localization>) {
    IsLocal(r, visibility) || IsExternal(r, visibility) || NamesMain(r, visibility)
  }

  /** The code words of all sites lie in the first `n` bytes. */
  ghost predicate SitesInside(s: Sites, n: nat) {
    && (forall i :: 0 <= i < |s.locals| ==> s.locals[i].offset + 4 <= n)
    && (forall i :: 0 <= i < |s.externals| ==> s.externals[i].offset + 4 <= n)
    && (forall i :: 0 <= i < |s.exported| ==> s.exported[i].offset + 4 <= n)
  }

  ghost predicate WordsInside(rs: seq<ElfRelocation>, visibility: map<string, Localization>, n: nat) {
    forall k :: 0 <= k < |rs| && IsPatched(rs[k], visibility) ==> rs[k].offset + 4 <= n
  }

  lemma OneMoreInside(s: Sites, r: ElfRelocation, visibility: map<string, Localization>, n: nat)
    requires ExtractOne(s, r, visibility).Ok?
    ensures SitesInside(ExtractOne(s, r, visibility).value, n) <==>
      SitesInside(s, n) && (IsPatched(r, visibility) ==> r.offset + 4 <= n)
  {
    var t := ExtractOne(s, r, visibility).value;
    if SitesInside(t, n) {
      assert forall i :: 0 <= i < |s.locals| ==> t.locals[i] == s.locals[i];
      assert forall i :: 0 <= i < |s.externals| ==> t.externals[i] == s.externals[i];
      assert forall i :: 0 <= i < |s.exported| ==> t.exported[i] == s.exported[i];
      assert |t.locals| > |s.locals| ==> t.locals[|s.locals|].offset == r.offset;
      assert |t.externals| > |s.externals| ==> t.externals[|s.externals|].offset == r.offset;
      assert |t.exported| > |s.exported| ==> t.exported[|s.exported|].offset == r.offset;
    }
  }

  lemma {:induction false} SitesInsideIff(rs: seq<ElfRelocation>, visibility: map<string, Localization>, n: nat)
    requires Extract(rs, visibility).Ok?
    ensures SitesInside(Extract(rs, visibility).value, n) <==> WordsInside(rs, visibility, n)
  {
    hide ExtractOne, IsPatched, SitesInside;
    if rs == [] {
      NoSites(n);
    } else {
      var m := |rs| - 1;
      SitesInsideIff(rs[..m], visibility, n);
      OneMoreInside(Extract(rs[..m], visibility).value, rs[m], visibility, n);
      assert forall k :: 0 <= k < m ==> rs[..m][k] == rs[k];
    }
  }

  lemma NoSites(n: nat)
    ensures SitesInside(Sites([], [], [], 0), n)
  {
  }

  // ---------- Indices

  /** At most one relocation of the offset table names main. */
  ghost predicate MainOnce(rs: seq<ElfRelocation>, visibility: map<string, Localization>) {
    forall i, j :: 0 <= i < j < |rs| ==> !(NamesMain(rs[i], visibility) && NamesMain(rs[j], visibility))
  }

  lemma MainOnceMore(rs: seq<ElfRelocation>, r: ElfRelocation, visibility: map<string, Localization>)
    ensures MainOnce(rs + [r], visibility) <==>
      MainOnce(rs, visibility) && !(MentionsMain(rs, visibility) && NamesMain(r, visibility))
    ensures MentionsMain(rs + [r], visibility) <==> MentionsMain(rs, visibility) || NamesMain(r, visibility)
  {
    hide NamesMain;
    var all := rs + [r];
    assert all[|rs|] == r && forall k :: 0 <= k < |rs| ==> all[k] == rs[k];
    if MentionsMain(rs, visibility) {
      var a :| 0 <= a < |rs| && NamesMain(rs[a], visibility);
      assert NamesMain(all[a], visibility);
    }
  }

  /** Every index names a slot handed out, but that of a further reference to main is -1. */
  ghost predicate IndicesOf(rs: seq<ElfRelocation>, visibility: map<string, Localization>, s: Sites) {
    && (forall i :: 0 <= i < |s.externals| ==>
          && 0 <= s.externals[i].index < s.next
          && s.externals[i].name in visibility && visibility[s.externals[i].name] == External)
    && (forall i :: 0 <= i < |s.locals| ==> s.locals[i].index < s.next)
    && (forall i :: 0 <= i < |s.exported| ==> s.exported[i].index < s.next && s.exported[i].name == "main")
    && (s.exported != [] <==> MentionsMain(rs, visibility))
    && ((forall i :: 0 <= i < |s.exported| ==> s.exported[i].index >= 0) <==> MainOnce(rs, visibility))
  }

  lemma {:induction false} IndexOfAbsent(sites: seq<NamedSite>, name: string)
    requires !HasRelocation(sites, name)
    ensures IndexOfRelocation(sites, name) == -1
  {
    if sites != [] {
      assert sites[0].name != name;
      forall i | 0 <= i < |sites| - 1 ensures sites[1..][i].name != name {
        assert sites[i + 1].name != name;
      }
      IndexOfAbsent(sites[1..], name);
    }
  }

  lemma MainStep(rs: seq<ElfRelocation>, r: ElfRelocation, visibility: map<string, Localization>, s: Sites)
    requires IndicesOf(rs, visibility, s) && ExtractOne(s, r, visibility).Ok? && NamesMain(r, visibility)
    ensures IndicesOf(rs + [r], visibility, ExtractOne(s, r, visibility).value)
  {
    hide MentionsMain, MainOnce;
    MainOnceMore(rs, r, visibility);
    assert !HasRelocation(s.externals, "main");
    IndexOfAbsent(s.externals, "main");
    var t := ExtractOne(s, r, visibility).value;
    assert s.exported != [] ==> HasRelocation(s.exported, "main") by {
      assert s.exported != [] ==> s.exported[0].name == "main";
    }
    assert t.exported[..|s.exported|] == s.exported;
    assert t.exported[|s.exported|].index == if s.exported == [] then s.next else -1;
    assert forall i :: 0 <= i < |s.exported| ==> t.exported[i] == s.exported[i];
  }

  lemma OtherStep(rs: seq<ElfRelocation>, r: ElfRelocation, visibility: map<string, Localization>, s: Sites)
    requires IndicesOf(rs, visibility, s) && ExtractOne(s, r, visibility).Ok? && !NamesMain(r, visibility)
    ensures IndicesOf(rs + [r], visibility, ExtractOne(s, r, visibility).value)
  {
    hide MentionsMain, MainOnce;
    MainOnceMore(rs, r, visibility);
    if IsExternal(r, visibility) && HasRelocation(s.externals, r.symbolName) {
      var i := IndexOfFound(s.externals, r.symbolName);
    }
  }

  lemma {:induction false} AllIndices(rs: seq<ElfRelocation>, visibility: map<string, Localization>)
    requires Extract(rs, visibility).Ok?
    ensures IndicesOf(rs, visibility, Extract(rs, visibility).value)
  {
    hide ExtractOne, IndicesOf, NamesMain;
    if rs == [] {
      NoIndices(visibility);
    } else {
      var before := rs[..|rs| - 1];
      var r, s := rs[|rs| - 1], Extract(before, visibility).value;
      assert rs == before + [r];
      AllIndices(before, visibility);
      if NamesMain(r, visibility) {
        MainStep(before, r, visibility, s);
      } else {
        OtherStep(before, r, visibility, s);
      }
    }
  }

  lemma NoIndices(visibility: map<string, Localization>)
    ensures IndicesOf([], visibility, Sites([], [], [], 0))
  {
  }

  // ---------- Counts

  /** The relocations of local symbols, and the external names relocations mention. */
  function LocalPositions(rs: seq<ElfRelocation>, visibility: map<string, Localization>): set<nat> {
    set k: nat | k < |rs| && IsLocal(rs[k], visibility)
  }

  function ExternalNames(rs: seq<ElfRelocation>, visibility: map<string, Localization>): set<string> {
    set k: nat | k < |rs| && IsExternal(rs[k], visibility) :: rs[k].symbolName
  }

  /** Relocation `k` is the first to mention its external symbol. */
  ghost predicate FirstMention(rs: seq<ElfRelocation>, visibility: map<string, Localization>, k: nat) {
    k < |rs| && IsExternal(rs[k], visibility) && rs[k].symbolName !in ExternalNames(rs[..k], visibility)
  }

  lemma NamesMore(rs: seq<ElfRelocation>, r: ElfRelocation, visibility: map<string, Localization>)
    ensures ExternalNames(rs + [r], visibility) ==
      ExternalNames(rs, visibility) + if IsExternal(r, visibility) then {r.symbolName} else {}
    ensures LocalPositions(rs + [r], visibility) ==
      LocalPositions(rs, visibility) + if IsLocal(r, visibility) then {|rs|} else {}
  {
    hide IsExternal, IsLocal;
    var all := rs + [r];
    assert all[|rs|] == r && forall k :: 0 <= k < |rs| ==> all[k] == rs[k];
    forall name | name in ExternalNames(rs, visibility) ensures name in ExternalNames(all, visibility) {
      var k: nat :| k < |rs| && IsExternal(rs[k], visibility) && rs[k].symbolName == name;
      assert all[k].symbolName == name;
    }
  }

  ghost predicate Counted(rs: seq<ElfRelocation>, visibility: map<string, Localization>, s: Sites) {
    && |s.locals| == |LocalPositions(rs, visibility)|
    && |FirstSites(s.externals)| == |ExternalNames(rs, visibility)|
    && SitesNamed(s.externals, ExternalNames(rs, visibility))
  }

  ghost predicate SitesNamed(sites: seq<NamedSite>, names: set<string>) {
    forall name :: HasRelocation(sites, name) <==> name in names
  }

  lemma OneMoreNamed(sites: seq<NamedSite>, site: NamedSite, names: set<string>)
    requires SitesNamed(sites, names)
    ensures SitesNamed(sites + [site], names + {site.name})
    ensures HasRelocation(FirstSites(sites), site.name) <==> site.name in names
  {
    hide HasRelocation, FirstSites;
    FirstSitesNames(sites, site.name);
    forall name ensures HasRelocation(sites + [site], name) <==> name in names + {site.name} {
      HasRelocationMore(sites, site, name);
    }
  }

  lemma CountStep(rs: seq<ElfRelocation>, r: ElfRelocation, visibility: map<string, Localization>, s: Sites)
    requires Counted(rs, visibility, s) && ExtractOne(s, r, visibility).Ok?
    ensures Counted(rs + [r], visibility, ExtractOne(s, r, visibility).value)
  {
    hide FirstSites, ExternalNames, LocalPositions, HasRelocation, ExtractOne, SitesNamed;
    NamesMore(rs, r, visibility);
    PositionsBelow(rs, visibility);
    Extracted(s, r, visibility);
    if IsExternal(r, visibility) {
      var site := ExtractOne(s, r, visibility).value.externals[|s.externals|];
      FirstSitesMore(s.externals, site);
      OneMoreNamed(s.externals, site, ExternalNames(rs, visibility));
    }
  }

  /** Which list of sites a relocation makes longer. */
  lemma Extracted(s: Sites, r: ElfRelocation, visibility: map<string, Localization>)
    requires ExtractOne(s, r, visibility).Ok?
    ensures var t := ExtractOne(s, r, visibility).value;
      && |t.locals| == |s.locals| + (if IsLocal(r, visibility) then 1 else 0)
      && (!IsExternal(r, visibility) ==> t.externals == s.externals)
      && (IsExternal(r, visibility) ==>
            && |t.externals| == |s.externals| + 1 && t.externals[|s.externals|].name == r.symbolName
            && t.externals == s.externals + [t.externals[|s.externals|]])
  {
    hide HasRelocation;
  }

  lemma PositionsBelow(rs: seq<ElfRelocation>, visibility: map<string, Localization>)
    ensures |rs| !in LocalPositions(rs, visibility)
  {
  }

  lemma {:induction false} AllCounts(rs: seq<ElfRelocation>, visibility: map<string, Localization>)
    requires Extract(rs, visibility).Ok?
    ensures Counted(rs, visibility, Extract(rs, visibility).value)
  {
    hide ExtractOne, Counted;
    if rs == [] {
      NoCounts(visibility);
    } else {
      var before := rs[..|rs| - 1];
      assert rs == before + [rs[|rs| - 1]];
      AllCounts(before, visibility);
      CountStep(before, rs[|rs| - 1], visibility, Extract(before, visibility).value);
    }
  }

  lemma NoCounts(visibility: map<string, Localization>)
    ensures Counted([], visibility, Sites([], [], [], 0))
  {
    assert LocalPositions([], visibility) == {} && ExternalNames([], visibility) == {};
  }

  // ---------- The order of the external entries

  /** A first mention's entry stands behind those of the names mentioned before. */
  ghost predicate Ranked(rs: seq<ElfRelocation>, visibility: map<string, Localization>, first: seq<NamedSite>) {
    && (forall k: nat :: FirstMention(rs, visibility, k) ==>
          var rank := |ExternalNames(rs[..k], visibility)|;
          rank < |first| && first[rank].name == rs[k].symbolName)
    && (forall j :: 0 <= j < |first| ==> SomeMention(rs, visibility, j))
  }

  /** Some name is mentioned first when exactly `j` others have been. */
  ghost predicate SomeMention(rs: seq<ElfRelocation>, visibility: map<string, Localization>, j: nat) {
    exists k: nat :: FirstMention(rs, visibility, k) && |ExternalNames(rs[..k], visibility)| == j
  }

  lemma MentionsKept(rs: seq<ElfRelocation>, r: ElfRelocation, visibility: map<string, Localization>, k: nat)
    requires k < |rs|
    ensures (rs + [r])[..k] == rs[..k]
    ensures FirstMention(rs + [r], visibility, k) <==> FirstMention(rs, visibility, k)
  {
    hide ExternalNames, IsExternal;
    assert (rs + [r])[..k] == rs[..k] && (rs + [r])[k] == rs[k];
  }

  lemma RankStep(rs: seq<ElfRelocation>, r: ElfRelocation, visibility: map<string, Localization>,
                 first: seq<NamedSite>, after: seq<NamedSite>)
    requires Ranked(rs, visibility, first) && |first| == |ExternalNames(rs, visibility)|
    requires if IsExternal(r, visibility) && r.symbolName !in ExternalNames(rs, visibility)
             then |after| == |first| + 1 && after[..|first|] == first && after[|first|].name == r.symbolName
             else after == first
    ensures Ranked(rs + [r], visibility, after)
  {
    hide ExternalNames, IsExternal;
    var all := rs + [r];
    assert all[..|rs|] == rs && all[|rs|] == r;
    forall k: nat | FirstMention(all, visibility, k)
      ensures var rank := |ExternalNames(all[..k], visibility)|; rank < |after| && after[rank].name == all[k].symbolName
    {
      if k < |rs| {
        MentionsKept(rs, r, visibility, k);
        assert after[..|first|] == first;
      }
    }
    forall j | 0 <= j < |after| ensures SomeMention(all, visibility, j) {
      if j < |first| {
        assert SomeMention(rs, visibility, j);
        var k: nat :| FirstMention(rs, visibility, k) && |ExternalNames(rs[..k], visibility)| == j;
        MentionsKept(rs, r, visibility, k);
      } else {
        assert FirstMention(all, visibility, |rs|);
      }
    }
  }

  lemma {:induction false} AllRanked(rs: seq<ElfRelocation>, visibility: map<string, Localization>)
    requires Extract(rs, visibility).Ok?
    ensures Ranked(rs, visibility, FirstSites(Extract(rs, visibility).value.externals))
  {
    hide ExtractOne, Ranked, FirstSites, Counted;
    if rs == [] {
      NoRanks(visibility);
    } else {
      var before := rs[..|rs| - 1];
      var r, s := rs[|rs| - 1], Extract(before, visibility).value;
      assert rs == before + [r];
      AllRanked(before, visibility);
      AllCounts(before, visibility);
      FirstAfter(before, r, visibility, s);
      RankStep(before, r, visibility, FirstSites(s.externals), FirstSites(Extract(rs, visibility).value.externals));
    }
  }

  lemma NoRanks(visibility: map<string, Localization>)
    ensures Ranked([], visibility, FirstSites([]))
  {
  }

  lemma FirstAfter(rs: seq<ElfRelocation>, r: ElfRelocation, visibility: map<string, Localization>, s: Sites)
    requires Counted(rs, visibility, s) && ExtractOne(s, r, visibility).Ok?
    ensures |FirstSites(s.externals)| == |ExternalNames(rs, visibility)|
    ensures var first, after := FirstSites(s.externals), FirstSites(ExtractOne(s, r, visibility).value.externals);
      if IsExternal(r, visibility) && r.symbolName !in ExternalNames(rs, visibility)
      then |after| == |first| + 1 && after[..|first|] == first && after[|first|].name == r.symbolName
      else after == first
  {
    hide FirstSites, ExternalNames, LocalPositions, HasRelocation, SitesNamed;
    if IsExternal(r, visibility) {
      var site := ExtractOne(s, r, visibility).value.externals[|s.externals|];
      FirstSitesMore(s.externals, site);
      OneMoreNamed(s.externals, site, ExternalNames(rs, visibility));
    }
  }

  // ---------- Patching

  ghost predicate PatchFits(p: Patch, n: nat) {
    p.offset + 4 <= n && 0 <= 4 * p.index < WORD_LIMIT
  }

  lemma {:induction false} PatchesIff(code: seq<Byte>, ps: seq<Patch>)
    ensures PatchAll(code, ps).Ok? <==> forall i :: 0 <= i < |ps| ==> PatchFits(ps[i], |code|)
  {
    hide Pack32;
    if ps != [] {
      var n := |ps| - 1;
      PatchesIff(code, ps[..n]);
      assert forall i :: 0 <= i < n ==> ps[..n][i] == ps[i];
    }
  }

  lemma PatchesAre(s: Sites)
    ensures var ps := Patches(s); var a := |s.locals|; var b := a + |s.externals|;
      && |ps| == b + |s.exported|
      && (forall i :: 0 <= i < a ==> ps[i] == Patch(s.locals[i].offset, s.locals[i].index))
      && (forall i :: 0 <= i < |s.externals| ==> ps[a + i] == Patch(s.externals[i].offset, s.externals[i].index))
      && (forall i :: 0 <= i < |s.exported| ==> ps[b + i] == Patch(s.exported[i].offset, s.exported[i].index))
  {
  }

  /** While the counts fit the header, patching succeeds iff all words lie in the code and main is named once at most. */
  lemma PatchingIff(rs: seq<ElfRelocation>, visibility: map<string, Localization>, code: seq<Byte>)
    requires Extract(rs, visibility).Ok?
    requires |LocalPositions(rs, visibility)| < HALF_LIMIT && |ExternalNames(rs, visibility)| < HALF_LIMIT
    ensures PatchAll(code, Patches(Extract(rs, visibility).value)).Ok? <==>
      WordsInside(rs, visibility, |code|) && MainOnce(rs, visibility)
  {
    hide Extract, Patches, PatchAll, LocalPositions, ExternalNames, FirstSites, MainOnce, WordsInside, MentionsMain, SitesNamed;
    var s := Extract(rs, visibility).value;
    var ps := Patches(s);
    PatchesIff(code, ps);
    SitesInsideIff(rs, visibility, |code|);
    AllIndices(rs, visibility);
    AllCounts(rs, visibility);
    AllCounted(rs, visibility);
    PatchesAre(s);
    assert s.next < 0x2_0000;
    FitIff(s, |code|);
  }

  lemma FitIff(s: Sites, n: nat)
    requires s.next < 0x2_0000
    requires forall i :: 0 <= i < |s.externals| ==> 0 <= s.externals[i].index < s.next
    requires forall i :: 0 <= i < |s.locals| ==> s.locals[i].index < s.next
    requires forall i :: 0 <= i < |s.exported| ==> s.exported[i].index < s.next
    ensures (forall i :: 0 <= i < |Patches(s)| ==> PatchFits(Patches(s)[i], n)) <==>
      SitesInside(s, n) && forall i :: 0 <= i < |s.exported| ==> s.exported[i].index >= 0
  {
    hide Patches;
    PatchesAre(s);
    var ps := Patches(s);
    var a := |s.locals|;
    var b := a + |s.externals|;
    if forall i :: 0 <= i < |ps| ==> PatchFits(ps[i], n) {
      forall i | 0 <= i < |s.locals| ensures s.locals[i].offset + 4 <= n {
        assert PatchFits(ps[i], n);
      }
      forall i | 0 <= i < |s.externals| ensures s.externals[i].offset + 4 <= n {
        assert PatchFits(ps[a + i], n);
      }
      forall i | 0 <= i < |s.exported| ensures s.exported[i].offset + 4 <= n && s.exported[i].index >= 0 {
        assert PatchFits(ps[b + i], n);
      }
    }
    if SitesInside(s, n) && forall i :: 0 <= i < |s.exported| ==> s.exported[i].index >= 0 {
      forall i | 0 <= i < |ps| ensures PatchFits(ps[i], n) {
        if i < a {
          assert ps[i] == Patch(s.locals[i].offset, s.locals[i].index);
        } else if i < b {
          assert ps[a + (i - a)] == Patch(s.externals[i - a].offset, s.externals[i - a].index);
        } else {
          assert ps[b + (i - b)] == Patch(s.exported[i - b].offset, s.exported[i - b].index);
        }
      }
    }
  }

  // ---------- Local entries

  /** Where a local symbol must lie: in .text, or in .data or .bss and behind the code. */
  predicate Placed(section: SectionRef, value: Word, place: Placement) {
    || section == At(place.text)
    || ((section == At(place.data) || section == At(place.bss)) && value >= place.codeSize)
  }

  ghost predicate LocalsPlaced(rs: seq<ElfRelocation>, visibility: map<string, Localization>, place: Placement) {
    forall k :: 0 <= k < |rs| && IsLocal(rs[k], visibility) ==> Placed(rs[k].section, rs[k].symbolValue, place)
  }

  ghost predicate SitesPlaced(sites: seq<LocalSite>, place: Placement) {
    forall i :: 0 <= i < |sites| ==> Placed(sites[i].section, sites[i].value, place)
  }

  lemma LocalsMore(s: Sites, r: ElfRelocation, visibility: map<string, Localization>)
    requires ExtractOne(s, r, visibility).Ok?
    ensures var t := ExtractOne(s, r, visibility).value;
      if IsLocal(r, visibility) then t.locals == s.locals + [LocalSite(r.symbolValue, r.offset, s.next, r.section)]
      else t.locals == s.locals
  {
    hide HasRelocation;
  }

  lemma {:induction false} PlacedIff(rs: seq<ElfRelocation>, visibility: map<string, Localization>, place: Placement)
    requires Extract(rs, visibility).Ok?
    ensures SitesPlaced(Extract(rs, visibility).value.locals, place) <==> LocalsPlaced(rs, visibility, place)
  {
    hide ExtractOne, IsLocal, Placed;
    if rs != [] {
      var m := |rs| - 1;
      var s := Extract(rs[..m], visibility).value;
      PlacedIff(rs[..m], visibility, place);
      LocalsMore(s, rs[m], visibility);
      var sites := Extract(rs, visibility).value.locals;
      assert forall k :: 0 <= k < m ==> rs[..m][k] == rs[k];
      assert forall i :: 0 <= i < |s.locals| ==> sites[i] == s.locals[i];
      assert IsLocal(rs[m], visibility) ==>
        sites[|s.locals|].section == rs[m].section && sites[|s.locals|].value == rs[m].symbolValue;
    }
  }

  lemma {:induction false} LocalEntriesIff(sites: seq<LocalSite>, place: Placement)
    requires forall i :: 0 <= i < |sites| ==> sites[i].index < 0x2_0000
    ensures LocalEntries(sites, place).Ok? <==> SitesPlaced(sites, place)
  {
    if sites != [] {
      var n := |sites| - 1;
      LocalEntriesIff(sites[..n], place);
      assert forall i :: 0 <= i < n ==> sites[..n][i] == sites[i];
    }
  }

  // ---------- External entries

  /** How many relocation entries the generator counts. */
  function Total(rs: seq<ElfRelocation>, visibility: map<string, Localization>): nat {
    |ExternalNames(rs, visibility)| + |LocalPositions(rs, visibility)| +
    if exists k :: 0 <= k < |rs| && NamesMain(rs[k], visibility) then 1 else 0
  }

  /** From every external entry its symbol is less than 2^32 bytes away, as the generator counts them. */
  ghost predicate OffsetsFit(rs: seq<ElfRelocation>, visibility: map<string, Localization>, exported: nat,
                             externals: seq<ElfSymbol>) {
    forall k: nat :: FirstMention(rs, visibility, k) ==>
      8 * (Total(rs, visibility) - |ExternalNames(rs[..k], visibility)|)
      + 12 * (exported + PositionOf(externals, rs[k].symbolName)) < 0x1_0000_0000
  }

  lemma {:induction false} ExternalEntriesIff(sites: seq<NamedSite>, total: nat, exported: nat, externals: seq<ElfSymbol>)
    requires |sites| <= total && forall i :: 0 <= i < |sites| ==> 0 <= sites[i].index < 0x2_0000
    ensures ExternalEntries(sites, total, exported, externals).Ok? <==>
      forall j :: 0 <= j < |sites| ==>
        8 * (total - j) + 12 * (exported + PositionOf(externals, sites[j].name)) < 0x1_0000_0000
  {
    hide PositionOf;
    if sites != [] {
      var n := |sites| - 1;
      ExternalEntriesIff(sites[..n], total, exported, externals);
      assert forall i :: 0 <= i < n ==> sites[..n][i] == sites[i];
    }
  }

  lemma {:induction false} FirstSitesOfMain(sites: seq<NamedSite>)
    requires forall i :: 0 <= i < |sites| ==> sites[i].name == "main"
    ensures |FirstSites(sites)| == if sites == [] then 0 else 1
    ensures forall i :: 0 <= i < |FirstSites(sites)| ==> FirstSites(sites)[i].name == "main"
  {
    if sites != [] {
      FirstSitesOfMain(sites[..|sites| - 1]);
      if |sites| > 1 {
        assert FirstSites(sites[..|sites| - 1])[0].name == sites[|sites| - 1].name;
      }
    }
  }

  lemma TotalIs(rs: seq<ElfRelocation>, visibility: map<string, Localization>)
    requires Extract(rs, visibility).Ok?
    ensures TotalRelocations(Extract(rs, visibility).value) == Total(rs, visibility)
  {
    hide Extract, FirstSites, LocalPositions, ExternalNames, MainOnce, SitesNamed, NamesMain;
    var s := Extract(rs, visibility).value;
    AllIndices(rs, visibility);
    AllCounts(rs, visibility);
    FirstSitesOfMain(s.exported);
  }

  lemma OffsetsIff(rs: seq<ElfRelocation>, visibility: map<string, Localization>, exported: nat, externals: seq<ElfSymbol>)
    requires Extract(rs, visibility).Ok?
    requires |LocalPositions(rs, visibility)| < HALF_LIMIT && |ExternalNames(rs, visibility)| < HALF_LIMIT
    ensures var s := Extract(rs, visibility).value;
      ExternalEntries(FirstSites(s.externals), TotalRelocations(s), exported, externals).Ok? <==>
      OffsetsFit(rs, visibility, exported, externals)
  {
    hide Extract, FirstSites, LocalPositions, ExternalNames, MainOnce, SitesNamed, NamesMain, PositionOf, FirstMention,
      ExternalEntries, Total, MentionsMain;
    var s := Extract(rs, visibility).value;
    var first, total := FirstSites(s.externals), Total(rs, visibility);
    AllIndices(rs, visibility);
    AllCounts(rs, visibility);
    AllCounted(rs, visibility);
    AllRanked(rs, visibility);
    TotalIs(rs, visibility);
    FirstIndices(s);
    ExternalEntriesIff(first, total, exported, externals);
    if OffsetsFit(rs, visibility, exported, externals) {
      forall j | 0 <= j < |first|
        ensures 8 * (total - j) + 12 * (exported + PositionOf(externals, first[j].name)) < 0x1_0000_0000
      {
        assert SomeMention(rs, visibility, j);
      }
    }
  }

  lemma FirstIndices(s: Sites)
    requires forall i :: 0 <= i < |s.externals| ==> 0 <= s.externals[i].index < s.next
    ensures forall j :: 0 <= j < |FirstSites(s.externals)| ==> 0 <= FirstSites(s.externals)[j].index < s.next
  {
    hide FirstSites;
    forall j | 0 <= j < |FirstSites(s.externals)| ensures 0 <= FirstSites(s.externals)[j].index < s.next {
      FirstSitesSubset(s.externals, j);
    }
  }

  // ---------- Symbols

  /** The API file has a code for the symbol, and a symbol in the data block lies behind the code. */
  predicate Coded(s: ElfSymbol, exported: bool, place: Placement, api: Api) {
    && (if exported && s.name != "main" then "undefined" else s.name) in api
    && (s.section != At(place.text) && (s.section == At(place.data) || s.section == At(place.bss)) ==>
          s.value >= place.codeSize)
  }

  lemma {:induction false} SymbolEntriesIff(symbols: seq<ElfSymbol>, exported: bool, place: Placement, api: Api)
    ensures SymbolEntries(symbols, exported, place, api).Ok? <==>
      forall i :: 0 <= i < |symbols| ==> Coded(symbols[i], exported, place, api)
  {
    if symbols != [] {
      var n := |symbols| - 1;
      SymbolEntriesIff(symbols[..n], exported, place, api);
      assert forall i :: 0 <= i < n ==> symbols[..n][i] == symbols[i];
    }
  }

  ghost predicate AllCoded(symbols: SymbolTable, place: Placement, api: Api) {
    && (forall s :: s in WithLocalization(symbols, Exported) ==> Coded(s, true, place, api))
    && (forall s :: s in WithLocalization(symbols, External) ==> s.name in api)
  }

  lemma ExternalsUndefined(symbols: SymbolTable, place: Placement, api: Api, s: ElfSymbol)
    requires s in WithLocalization(symbols, External)
    ensures Coded(s, false, place, api) <==> s.name in api
  {
  }

  lemma SymbolTablesIff(symbols: SymbolTable, place: Placement, api: Api)
    ensures SymbolsOf(WithLocalization(symbols, Exported), WithLocalization(symbols, External), place, api).Ok? <==>
      AllCoded(symbols, place, api)
  {
    hide WithLocalization, SymbolEntries, Coded;
    var exported, externals := WithLocalization(symbols, Exported), WithLocalization(symbols, External);
    SymbolEntriesIff(exported, true, place, api);
    SymbolEntriesIff(externals, false, place, api);
    forall s | s in externals ensures Coded(s, false, place, api) <==> s.name in api {
      ExternalsUndefined(symbols, place, api, s);
    }
  }

  // ---------- Files

  /** .text at 0, .data behind it, .bss behind that. */
  predicate SectionsPlaced(sections: map<string, Section>) {
    && ".text" in sections && ".data" in sections && ".bss" in sections
    && sections[".text"].address == 0
    && sections[".data"].address == |sections[".text"].bytes|
    && sections[".bss"].address == |sections[".text"].bytes| + |sections[".data"].bytes|
  }

  lemma SectionsIff(sections: map<string, Section>)
    ensures SectionsOf(sections).Ok? <==> SectionsPlaced(sections)
    ensures SectionsPlaced(sections) ==>
      SectionsOf(sections) == Ok(Layout(sections[".text"], sections[".data"], sections[".bss"]))
    ensures !SectionsPlaced(sections) ==> SectionsOf(sections) == Err(BadSection)
  {
  }

  /** Three sizes below 2^32 and three counts below 2^16. */
  ghost predicate FitsHeader(elf: ElfFile) {
    var v := Visibility(elf.symbols);
    && (forall name :: name in [".text", ".data", ".bss"] && name in elf.sections ==>
          |elf.sections[name].bytes| < 0x1_0000_0000)
    && |ExternalNames(elf.relocations, v)| < 0x1_0000
    && |LocalPositions(elf.relocations, v)| < 0x1_0000
    && |WithLocalization(elf.symbols, External)| < 0x1_0000
  }

  lemma HeaderIff(layout: Layout, external: nat, local: nat, symbols: nat)
    ensures HeaderOf(layout, external, local, symbols).Ok? <==>
      && |layout.text.bytes| < 0x1_0000_0000 && |layout.data.bytes| < 0x1_0000_0000 && |layout.bss.bytes| < 0x1_0000_0000
      && external < 0x1_0000 && local < 0x1_0000 && symbols < 0x1_0000
  {
  }

  /** What the generator asks of a file whose sections are in place and whose relocations are known. */
  ghost predicate Fitting(elf: ElfFile, layout: Layout, api: Api) {
    var rs, v, place := elf.relocations, Visibility(elf.symbols), PlacementOf(layout);
    && FitsHeader(elf)
    && WordsInside(rs, v, |layout.text.bytes|) && MainOnce(rs, v)
    && LocalsPlaced(rs, v, place)
    && OffsetsFit(rs, v, |WithLocalization(elf.symbols, Exported)|, WithLocalization(elf.symbols, External))
    && AllCoded(elf.symbols, place, api)
  }

  lemma FitsHeaderIff(elf: ElfFile, layout: Layout)
    requires SectionsPlaced(elf.sections) && SectionsOf(elf.sections) == Ok(layout)
    requires Extract(elf.relocations, Visibility(elf.symbols)).Ok?
    ensures var s := Extract(elf.relocations, Visibility(elf.symbols)).value;
      HeaderOf(layout, |FirstSites(s.externals)|, |s.locals|, |WithLocalization(elf.symbols, External)|).Ok? <==>
      FitsHeader(elf)
  {
    hide Extract, FirstSites, LocalPositions, ExternalNames, SitesNamed, Visibility, WithLocalization, HeaderOf;
    AllCounts(elf.relocations, Visibility(elf.symbols));
    SectionsIff(elf.sections);
    var s := Extract(elf.relocations, Visibility(elf.symbols)).value;
    HeaderIff(layout, |FirstSites(s.externals)|, |s.locals|, |WithLocalization(elf.symbols, External)|);
  }

  lemma LocalIndicesSmall(rs: seq<ElfRelocation>, visibility: map<string, Localization>)
    requires Extract(rs, visibility).Ok?
    requires |LocalPositions(rs, visibility)| < HALF_LIMIT && |ExternalNames(rs, visibility)| < HALF_LIMIT
    ensures var s := Extract(rs, visibility).value; forall i :: 0 <= i < |s.locals| ==> s.locals[i].index < 0x2_0000
  {
    hide Extract, FirstSites, LocalPositions, ExternalNames, SitesNamed, MainOnce, MentionsMain;
    AllIndices(rs, visibility);
    AllCounts(rs, visibility);
    AllCounted(rs, visibility);
  }

  lemma AssembledIff(elf: ElfFile, layout: Layout, api: Api)
    requires SectionsPlaced(elf.sections) && SectionsOf(elf.sections) == Ok(layout)
    requires Extract(elf.relocations, Visibility(elf.symbols)).Ok?
    ensures var s := Extract(elf.relocations, Visibility(elf.symbols)).value;
      AssembleModule(layout, s, WithLocalization(elf.symbols, Exported), WithLocalization(elf.symbols, External), api).Ok? <==>
      Fitting(elf, layout, api)
  {
    hide Extract, FirstSites, LocalPositions, ExternalNames, Visibility, WithLocalization, HeaderOf, PatchAll, Patches, SymbolsOf,
      ExternalEntries, LocalEntries, TotalRelocations, WordsInside, MainOnce, LocalsPlaced, OffsetsFit, AllCoded, SitesPlaced;
    var rs, v, place := elf.relocations, Visibility(elf.symbols), PlacementOf(layout);
    var s := Extract(rs, v).value;
    FitsHeaderIff(elf, layout);
    SymbolTablesIff(elf.symbols, place, api);
    if FitsHeader(elf) {
      PatchingIff(rs, v, layout.text.bytes);
      OffsetsIff(rs, v, |WithLocalization(elf.symbols, Exported)|, WithLocalization(elf.symbols, External));
      LocalIndicesSmall(rs, v);
      LocalEntriesIff(s.locals, place);
      PlacedIff(rs, v, place);
    }
  }

  /**
   * The generator takes a file iff its sections are in place, every relocation is known, the words it
   * patches lie in the code, main is named once at most, local symbols lie in the module, sizes,
   * counts and offsets fit their fields, and the API file has every code that is asked for.
   */
  lemma LinksIff(elf: ElfFile, api: Api)
    ensures LinkModule(elf, api).Ok? <==>
      && SectionsPlaced(elf.sections)
      && (forall k :: 0 <= k < |elf.relocations| ==> KnownRelocation(elf.relocations[k], Visibility(elf.symbols)))
      && Fitting(elf, Layout(elf.sections[".text"], elf.sections[".data"], elf.sections[".bss"]), api)
    ensures !SectionsPlaced(elf.sections) ==> LinkModule(elf, api) == Err(BadSection)
  {
    hide Extract, Visibility, WithLocalization, SectionsOf, SectionsPlaced, AssembleModule, Fitting, KnownRelocation;
    SectionsIff(elf.sections);
    ExtractsIff(elf.relocations, Visibility(elf.symbols));
    if SectionsPlaced(elf.sections) && Extract(elf.relocations, Visibility(elf.symbols)).Ok? {
      AssembledIff(elf, SectionsOf(elf.sections).value, api);
    }
  }

  /** The code takes the address of main twice. */
  function WithMainTwice(): ElfFile {
    ElfFile(SmallSections(), [MAIN], [TO_MAIN, ElfRelocation(4, GotBrel, "main", 0, At(1))])
  }

  /** The second site's index is looked up among the external ones and is -1: nothing is generated. */
  lemma MainTwice(api: Api)
    ensures LinkModule(WithMainTwice(), api).Err?
  {
    hide Visibility, LinkModule, Fitting, LocalsPlaced, OffsetsFit, AllCoded, WordsInside, FitsHeader;
    var elf := WithMainTwice();
    LinksIff(elf, api);
    LocalizedAs(elf.symbols, MAIN);
    var v := Visibility(elf.symbols);
    assert NamesMain(elf.relocations[0], v) && NamesMain(elf.relocations[1], v);
    NotFitting(elf, Layout(elf.sections[".text"], elf.sections[".data"], elf.sections[".bss"]), api);
  }

  lemma NotFitting(elf: ElfFile, layout: Layout, api: Api)
    requires !MainOnce(elf.relocations, Visibility(elf.symbols))
    ensures !Fitting(elf, layout, api)
  {
  }

  /** With the sections in place the first unknown relocation is reported. */
  lemma LinkFails(elf: ElfFile, api: Api, k: nat)
    requires SectionsPlaced(elf.sections) && k < |elf.relocations|
    requires !KnownRelocation(elf.relocations[k], Visibility(elf.symbols))
    requires forall j :: 0 <= j < k ==> KnownRelocation(elf.relocations[j], Visibility(elf.symbols))
    ensures LinkModule(elf, api) == Err(if elf.relocations[k].kind == Unsupported then UnknownRelocation else UnknownSymbol)
  {
    hide Extract, Visibility, WithLocalization, SectionsOf, SectionsPlaced, AssembleModule, KnownRelocation;
    SectionsIff(elf.sections);
    FirstUnknown(elf.relocations, Visibility(elf.symbols), k);
  }
}
