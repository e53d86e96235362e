// What the generator's index bookkeeping amounts to: a table that names, for
// every LOT slot, the symbol whose address belongs there.

module LotProperties {
  import opened Words
  import opened Elf
  import opened LinkSpec

  /** What a LOT slot stands for. */
  datatype Target = ExternalTarget(name: string) | LocalTarget(section: SectionRef, value: Word)

  /** A GOT relocation against main, which the module itself exports. */
  predicate NamesMain(r: ElfRelocation, visibility: map<string, Localization>) {
    r.kind == GotBrel && r.symbolName == "main" && r.symbolName in visibility && visibility[r.symbolName] == Exported
  }

  /** A GOT relocation of an external or a local symbol. */
  predicate NeedsSlot(r: ElfRelocation, visibility: map<string, Localization>) {
    r.kind == GotBrel && r.symbolName in visibility && visibility[r.symbolName] != Exported
  }

  function TargetOf(r: ElfRelocation, visibility: map<string, Localization>): Target
    requires NeedsSlot(r, visibility)
  {
    if visibility[r.symbolName] == External then ExternalTarget(r.symbolName)
    else LocalTarget(r.section, r.symbolValue)
  }

  /** An external symbol gets one slot, a local relocation one of its own. */
  function AddTarget(slots: seq<Target>, r: ElfRelocation, visibility: map<string, Localization>): seq<Target> {
    if !NeedsSlot(r, visibility) then slots
    else
      var t := TargetOf(r, visibility);
      if t.ExternalTarget? && t in slots then slots else slots + [t]
  }

  /** The slot table of a list of relocations. */
  function SlotTargets(rs: seq<ElfRelocation>, visibility: map<string, Localization>): seq<Target> {
    if rs == [] then []
    else AddTarget(SlotTargets(rs[..|rs| - 1], visibility), rs[|rs| - 1], visibility)
  }

  // ---------- The invariant of index assignment

  ghost predicate NamedSitesAgree(sites: seq<NamedSite>, slots: seq<Target>) {
    forall i :: 0 <= i < |sites| ==>
      0 <= sites[i].index < |slots| && slots[sites[i].index] == ExternalTarget(sites[i].name)
  }

  ghost predicate LocalSitesAgree(sites: seq<LocalSite>, slots: seq<Target>) {
    forall i :: 0 <= i < |sites| ==>
      sites[i].index < |slots| && slots[sites[i].index] == LocalTarget(sites[i].section, sites[i].value)
  }

  /** Some relocation entry of the image fills slot `i`. */
  ghost predicate SlotFilled(i: nat, first: seq<NamedSite>, locals: seq<LocalSite>) {
    (exists j :: 0 <= j < |first| && first[j].index == i) || (exists j :: 0 <= j < |locals| && locals[j].index == i)
  }

  /** The entries of the image are a permutation of the slots. */
  ghost predicate FillsEverySlotOnce(first: seq<NamedSite>, locals: seq<LocalSite>, n: nat) {
    && |first| + |locals| == n
    && (forall i :: 0 <= i < |first| ==> 0 <= first[i].index < n)
    && (forall i :: 0 <= i < |locals| ==> locals[i].index < n)
    && (forall i, j :: 0 <= i < j < |first| ==> first[i].index < first[j].index)
    && (forall i, j :: 0 <= i < j < |locals| ==> locals[i].index < locals[j].index)
    && (forall i, j :: 0 <= i < |first| && 0 <= j < |locals| ==> first[i].index != locals[j].index)
    && (forall i :: 0 <= i < n ==> SlotFilled(i, first, locals))
  }

  /** An external symbol has a site iff it has a slot. */
  ghost predicate NamesAgree(sites: seq<NamedSite>, slots: seq<Target>) {
    forall name :: HasRelocation(sites, name) <==> ExternalTarget(name) in slots
  }

  ghost predicate SlotInvariant(s: Sites, slots: seq<Target>) {
    && s.exported == []
    && s.next == |slots|
    && NamedSitesAgree(s.externals, slots)
    && LocalSitesAgree(s.locals, slots)
    && NamesAgree(s.externals, slots)
    && FillsEverySlotOnce(FirstSites(s.externals), s.locals, |slots|)
  }

  // ---------- Searching sites

  lemma {:induction false} IndexOfFound(sites: seq<NamedSite>, name: string) returns (i: nat)
    requires HasRelocation(sites, name)
    ensures i < |sites| && sites[i].name == name && IndexOfRelocation(sites, name) == sites[i].index
  {
    if sites[0].name == name {
      i := 0;
    } else {
      var k :| 0 <= k < |sites| && sites[k].name == name;
      assert sites[1..][k - 1].name == name;
      var rest := IndexOfFound(sites[1..], name);
      i := rest + 1;
    }
  }

  lemma HasRelocationMore(sites: seq<NamedSite>, more: NamedSite, name: string)
    ensures HasRelocation(sites + [more], name) <==> HasRelocation(sites, name) || more.name == name
  {
    var all := sites + [more];
    assert all[|sites|] == more;
    if HasRelocation(sites, name) {
      var i :| 0 <= i < |sites| && sites[i].name == name;
      assert all[i].name == name;
    }
    if HasRelocation(all, name) && more.name != name {
      var i :| 0 <= i < |all| && all[i].name == name;
      assert sites[i].name == name;
    }
  }

  lemma FirstSitesMore(sites: seq<NamedSite>, more: NamedSite)
    ensures FirstSites(sites + [more])
         == if HasRelocation(FirstSites(sites), more.name) then FirstSites(sites) else FirstSites(sites) + [more]
  {
    assert (sites + [more])[..|sites|] == sites;
  }

  lemma {:induction false} FirstSitesNames(sites: seq<NamedSite>, name: string)
    ensures HasRelocation(FirstSites(sites), name) <==> HasRelocation(sites, name)
  {
    if sites != [] {
      var before := sites[..|sites| - 1];
      var last := sites[|sites| - 1];
      assert sites == before + [last];
      FirstSitesNames(before, name);
      FirstSitesNames(before, last.name);
      HasRelocationMore(before, last, name);
      HasRelocationMore(FirstSites(before), last, name);
    }
  }

  // ---------- One relocation keeps the invariant

  lemma FillsOneMore(first: seq<NamedSite>, locals: seq<LocalSite>, slots: seq<Target>, site: NamedSite)
    requires FillsEverySlotOnce(first, locals, |slots|) && site.index == |slots|
    ensures FillsEverySlotOnce(first + [site], locals, |slots| + 1)
  {
    forall i | 0 <= i < |slots| + 1 ensures SlotFilled(i, first + [site], locals) {
      FilledMore(i, first, locals, site, slots);
    }
  }

  lemma NamesOneMore(sites: seq<NamedSite>, slots: seq<Target>, site: NamedSite)
    requires NamesAgree(sites, slots)
    ensures NamesAgree(sites + [site], slots + [ExternalTarget(site.name)])
    ensures HasRelocation(sites, site.name) ==> NamesAgree(sites + [site], slots)
  {
    forall name ensures HasRelocation(sites + [site], name) <==> HasRelocation(sites, name) || site.name == name {
      HasRelocationMore(sites, site, name);
    }
  }

  lemma NamedSitesOneMore(sites: seq<NamedSite>, slots: seq<Target>, site: NamedSite)
    requires NamedSitesAgree(sites, slots) && site.index == |slots|
    ensures NamedSitesAgree(sites + [site], slots + [ExternalTarget(site.name)])
  {
    var more := slots + [ExternalTarget(site.name)];
    forall i | 0 <= i < |sites| + 1
      ensures var s := (sites + [site])[i]; 0 <= s.index < |more| && more[s.index] == ExternalTarget(s.name)
    {
      if i < |sites| {
        assert slots[sites[i].index] == ExternalTarget(sites[i].name);
      }
    }
  }

  lemma NewExternalStep(s: Sites, slots: seq<Target>, site: NamedSite)
    requires SlotInvariant(s, slots)
    requires !HasRelocation(s.externals, site.name) && site.index == s.next
    ensures SlotInvariant(s.(externals := s.externals + [site], next := s.next + 1), slots + [ExternalTarget(site.name)])
  {
    hide FirstSites, FillsEverySlotOnce;
    FirstSitesMore(s.externals, site);
    FirstSitesNames(s.externals, site.name);
    FillsOneMore(FirstSites(s.externals), s.locals, slots, site);
    NamesOneMore(s.externals, slots, site);
    NamedSitesOneMore(s.externals, slots, site);
  }

  lemma FilledMore(i: nat, first: seq<NamedSite>, locals: seq<LocalSite>, site: NamedSite, slots: seq<Target>)
    requires FillsEverySlotOnce(first, locals, |slots|) && i <= |slots| && site.index == |slots|
    ensures SlotFilled(i, first + [site], locals)
  {
    var first' := first + [site];
    if i == |slots| {
      assert first'[|first|].index == i;
    } else {
      assert SlotFilled(i, first, locals);
      if j :| 0 <= j < |first| && first[j].index == i {
        assert first'[j].index == i;
      }
    }
  }

  lemma KnownExternalStep(s: Sites, slots: seq<Target>, site: NamedSite)
    requires SlotInvariant(s, slots)
    requires HasRelocation(s.externals, site.name) && site.index == IndexOfRelocation(s.externals, site.name)
    ensures SlotInvariant(s.(externals := s.externals + [site]), slots)
  {
    KnownSiteAgrees(s, slots, site);
    hide FirstSites, NamedSitesAgree, NamesAgree, LocalSitesAgree, FillsEverySlotOnce;
    FirstSitesMore(s.externals, site);
    FirstSitesNames(s.externals, site.name);
    NamesOneMore(s.externals, slots, site);
  }

  lemma KnownSiteAgrees(s: Sites, slots: seq<Target>, site: NamedSite)
    requires SlotInvariant(s, slots)
    requires HasRelocation(s.externals, site.name) && site.index == IndexOfRelocation(s.externals, site.name)
    ensures NamedSitesAgree(s.externals + [site], slots)
  {
    hide FirstSites, NamesAgree, LocalSitesAgree, FillsEverySlotOnce;
    var k := IndexOfFound(s.externals, site.name);
  }

  lemma LocalStep(s: Sites, slots: seq<Target>, site: LocalSite)
    requires SlotInvariant(s, slots) && site.index == s.next
    ensures SlotInvariant(s.(locals := s.locals + [site], next := s.next + 1),
                          slots + [LocalTarget(site.section, site.value)])
  {
    hide FirstSites, FillsEverySlotOnce, NamesAgree;
    FillsOneMoreLocal(FirstSites(s.externals), s.locals, |slots|, site);
    NamesStillAgree(s.externals, slots, LocalTarget(site.section, site.value));
  }

  lemma NamesStillAgree(sites: seq<NamedSite>, slots: seq<Target>, t: Target)
    requires NamesAgree(sites, slots) && t.LocalTarget?
    ensures NamesAgree(sites, slots + [t])
  {
    hide HasRelocation;
  }

  lemma FillsOneMoreLocal(first: seq<NamedSite>, locals: seq<LocalSite>, n: nat, site: LocalSite)
    requires FillsEverySlotOnce(first, locals, n) && site.index == n
    ensures FillsEverySlotOnce(first, locals + [site], n + 1)
  {
    hide SlotFilled;
    forall i | 0 <= i < n + 1 ensures SlotFilled(i, first, locals + [site]) {
      FilledMoreLocal(i, first, locals, n, site);
    }
  }

  lemma FilledMoreLocal(i: nat, first: seq<NamedSite>, locals: seq<LocalSite>, n: nat, site: LocalSite)
    requires FillsEverySlotOnce(first, locals, n) && i <= n && site.index == n
    ensures SlotFilled(i, first, locals + [site])
  {
    var more := locals + [site];
    if i == n {
      assert more[|locals|].index == i;
    } else {
      assert SlotFilled(i, first, locals);
      if j :| 0 <= j < |locals| && locals[j].index == i {
        assert more[j].index == i;
      }
    }
  }

  lemma SlotStep(s: Sites, slots: seq<Target>, r: ElfRelocation, visibility: map<string, Localization>)
    requires SlotInvariant(s, slots)
    requires ExtractOne(s, r, visibility).Ok? && !NamesMain(r, visibility)
    ensures SlotInvariant(ExtractOne(s, r, visibility).value, AddTarget(slots, r, visibility))
  {
    if NeedsSlot(r, visibility) {
      if visibility[r.symbolName] == Internal {
        LocalStep(s, slots, LocalSite(r.symbolValue, r.offset, s.next, r.section));
      } else if HasRelocation(s.externals, r.symbolName) {
        KnownExternalStep(s, slots, NamedSite(r.symbolName, r.offset, IndexOfRelocation(s.externals, r.symbolName)));
      } else {
        NewExternalStep(s, slots, NamedSite(r.symbolName, r.offset, s.next));
      }
    }
  }

  /**
   * Index assignment builds the slot table: every site got the slot of its own
   * symbol, and the entries of the image fill every slot exactly once.
   */
  lemma {:induction false} IndicesNameSlots(rs: seq<ElfRelocation>, visibility: map<string, Localization>)
    requires Extract(rs, visibility).Ok?
    requires forall k :: 0 <= k < |rs| ==> !NamesMain(rs[k], visibility)
    ensures SlotInvariant(Extract(rs, visibility).value, SlotTargets(rs, visibility))
  {
    if rs != [] {
      var before := rs[..|rs| - 1];
      IndicesNameSlots(before, visibility);
      SlotStep(Extract(before, visibility).value, SlotTargets(before, visibility), rs[|rs| - 1], visibility);
    }
  }

  /** The slot table holds the targets of the relocations, and nothing else. */
  lemma {:induction false} SlotsAreTargets(rs: seq<ElfRelocation>, visibility: map<string, Localization>, t: Target)
    ensures t in SlotTargets(rs, visibility) <==>
      exists k :: 0 <= k < |rs| && NeedsSlot(rs[k], visibility) && TargetOf(rs[k], visibility) == t
  {
    if rs != [] {
      var n := |rs| - 1;
      var before := rs[..n];
      SlotsAreTargets(before, visibility, t);
      if k :| 0 <= k < |rs| && NeedsSlot(rs[k], visibility) && TargetOf(rs[k], visibility) == t {
        assert k < n ==> before[k] == rs[k];
      }
      if k :| 0 <= k < n && NeedsSlot(before[k], visibility) && TargetOf(before[k], visibility) == t {
        assert rs[k] == before[k];
      }
    }
  }
}
