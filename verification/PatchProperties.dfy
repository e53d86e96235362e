// What code patching leaves in the code: at every site the byte offset of the
// site's own LOT slot, and everywhere else the bytes the compiler emitted.

module PatchProperties {
  import opened Words
  import opened Elf
  import opened LinkSpec
  import opened LotProperties

  predicate Apart(a: nat, b: nat) {
    a + 4 <= b || b + 4 <= a
  }

  /** Two patches either are the same one or touch different words. */
  ghost predicate Consistent(ps: seq<Patch>) {
    forall p, q :: p in ps && q in ps ==> p == q || Apart(p.offset, q.offset)
  }

  ghost predicate Untouched(i: nat, ps: seq<Patch>) {
    forall p :: p in ps ==> !(p.offset <= i < p.offset + 4)
  }

  lemma PatchOneWord(code: seq<Byte>, p: Patch)
    requires PatchOne(code, p).Ok?
    ensures p.offset + 4 <= |code| && WordAt(PatchOne(code, p).value, p.offset) == 4 * p.index
    ensures forall i :: 0 <= i < |code| && !(p.offset <= i < p.offset + 4) ==> PatchOne(code, p).value[i] == code[i]
  {
    var word := Pack32(4 * p.index);
    var patched := PatchOne(code, p).value;
    assert patched[p.offset] == word[0] && patched[p.offset + 1] == word[1];
    assert patched[p.offset + 2] == word[2] && patched[p.offset + 3] == word[3];
    UnpackPack32(4 * p.index);
  }

  /** A patch leaves the words apart from its own as they are. */
  lemma OtherWordKept(code: seq<Byte>, p: Patch, at: nat)
    requires PatchOne(code, p).Ok? && at + 4 <= |code| && Apart(at, p.offset)
    ensures WordAt(PatchOne(code, p).value, at) == WordAt(code, at)
  {
    hide PatchOne, Unpack32;
    PatchOneWord(code, p);
  }

  lemma {:induction false} PatchedWords(code: seq<Byte>, ps: seq<Patch>)
    requires PatchAll(code, ps).Ok? && Consistent(ps)
    ensures forall p :: p in ps ==>
      p.offset + 4 <= |code| && WordAt(PatchAll(code, ps).value, p.offset) == 4 * p.index
    ensures forall i: nat :: i < |code| && Untouched(i, ps) ==> PatchAll(code, ps).value[i] == code[i]
  {
    hide WordAt, PatchOne;
    if ps != [] {
      var before := ps[..|ps| - 1];
      var last := ps[|ps| - 1];
      assert ps == before + [last];
      assert forall p :: p in before ==> p in ps;
      PatchedWords(code, before);
      var c := PatchAll(code, before).value;
      var c' := PatchAll(code, ps).value;
      PatchOneWord(c, last);
      forall p | p in ps
        ensures p.offset + 4 <= |code| && WordAt(c', p.offset) == 4 * p.index
      {
        if p != last {
          assert p in before && Apart(p.offset, last.offset);
          OtherWordKept(c, last, p.offset);
        }
      }
      forall i: nat | i < |code| && Untouched(i, ps) ensures c'[i] == code[i] {
        assert last in ps && Untouched(i, before);
      }
    }
  }

  // ---------- The patches are those of the relocations that need a slot

  /** The patch that extracting `r` adds. */
  function NewPatch(s: Sites, r: ElfRelocation, visibility: map<string, Localization>): Patch
    requires NeedsSlot(r, visibility)
  {
    if visibility[r.symbolName] == External && HasRelocation(s.externals, r.symbolName) then
      Patch(r.offset, IndexOfRelocation(s.externals, r.symbolName))
    else Patch(r.offset, s.next)
  }

  lemma InPatches(s: Sites, p: Patch)
    requires s.exported == []
    ensures p in Patches(s) <==>
      || (exists i :: 0 <= i < |s.locals| && Patch(s.locals[i].offset, s.locals[i].index) == p)
      || (exists i :: 0 <= i < |s.externals| && Patch(s.externals[i].offset, s.externals[i].index) == p)
  {
    var all := Patches(s);
    if p in all {
      var i :| 0 <= i < |all| && all[i] == p;
      if i < |s.locals| {
        assert Patch(s.locals[i].offset, s.locals[i].index) == p;
      } else {
        assert Patch(s.externals[i - |s.locals|].offset, s.externals[i - |s.locals|].index) == p;
      }
    }
    if i :| 0 <= i < |s.locals| && Patch(s.locals[i].offset, s.locals[i].index) == p {
      assert all[i] == p;
    }
    if i :| 0 <= i < |s.externals| && Patch(s.externals[i].offset, s.externals[i].index) == p {
      assert all[|s.locals| + i] == p;
    }
  }

  lemma LocalPatchAdded(s: Sites, site: LocalSite, p: Patch)
    requires s.exported == []
    ensures p in Patches(s.(locals := s.locals + [site], next := s.next + 1))
       <==> p in Patches(s) || p == Patch(site.offset, site.index)
  {
    var s' := s.(locals := s.locals + [site], next := s.next + 1);
    InPatches(s, p);
    InPatches(s', p);
    assert s'.locals[|s.locals|] == site;
    if i :| 0 <= i < |s.locals| && Patch(s.locals[i].offset, s.locals[i].index) == p {
      assert s'.locals[i] == s.locals[i];
    }
  }

  lemma ExternalPatchAdded(s: Sites, site: NamedSite, next: nat, p: Patch)
    requires s.exported == []
    ensures p in Patches(s.(externals := s.externals + [site], next := next))
       <==> p in Patches(s) || p == Patch(site.offset, site.index)
  {
    var s' := s.(externals := s.externals + [site], next := next);
    InPatches(s, p);
    InPatches(s', p);
    assert s'.externals[|s.externals|] == site;
    if i :| 0 <= i < |s.externals| && Patch(s.externals[i].offset, s.externals[i].index) == p {
      assert s'.externals[i] == s.externals[i];
    }
  }

  lemma PatchesMore(s: Sites, r: ElfRelocation, visibility: map<string, Localization>, p: Patch)
    requires s.exported == [] && !NamesMain(r, visibility)
    requires ExtractOne(s, r, visibility).Ok?
    ensures p in Patches(ExtractOne(s, r, visibility).value)
       <==> p in Patches(s) || (NeedsSlot(r, visibility) && p == NewPatch(s, r, visibility))
  {
    if NeedsSlot(r, visibility) {
      var new' := NewPatch(s, r, visibility);
      if visibility[r.symbolName] == Internal {
        LocalPatchAdded(s, LocalSite(r.symbolValue, r.offset, s.next, r.section), p);
      } else if HasRelocation(s.externals, r.symbolName) {
        ExternalPatchAdded(s, NamedSite(r.symbolName, r.offset, new'.index), s.next, p);
      } else {
        ExternalPatchAdded(s, NamedSite(r.symbolName, r.offset, s.next), s.next + 1, p);
      }
    }
  }

  // ---------- Linking the two

  /** The words that GOT relocations live in do not overlap. */
  ghost predicate SitesApart(rs: seq<ElfRelocation>, visibility: map<string, Localization>) {
    forall i, j :: 0 <= i < j < |rs| && NeedsSlot(rs[i], visibility) && NeedsSlot(rs[j], visibility) ==>
      Apart(rs[i].offset, rs[j].offset)
  }

  /** Some patch writes slot `TargetOf(r)` at the site of `r`. */
  ghost predicate PatchedFor(r: ElfRelocation, visibility: map<string, Localization>, ps: seq<Patch>, slots: seq<Target>)
    requires NeedsSlot(r, visibility)
  {
    exists p :: p in ps && p.offset == r.offset && 0 <= p.index < |slots| && slots[p.index] == TargetOf(r, visibility)
  }

  ghost predicate AllPatched(rs: seq<ElfRelocation>, visibility: map<string, Localization>,
                             ps: seq<Patch>, slots: seq<Target>) {
    forall k :: 0 <= k < |rs| && NeedsSlot(rs[k], visibility) ==> PatchedFor(rs[k], visibility, ps, slots)
  }

  /** The patch sits at the site of one of the relocations. */
  ghost predicate PatchesSite(p: Patch, rs: seq<ElfRelocation>, visibility: map<string, Localization>) {
    exists k :: 0 <= k < |rs| && NeedsSlot(rs[k], visibility) && rs[k].offset == p.offset
  }

  ghost predicate OnlySitesPatched(rs: seq<ElfRelocation>, visibility: map<string, Localization>, ps: seq<Patch>) {
    forall p :: p in ps ==> PatchesSite(p, rs, visibility)
  }

  lemma NewPatchNamesTarget(s: Sites, slots: seq<Target>, r: ElfRelocation, visibility: map<string, Localization>)
    requires SlotInvariant(s, slots) && NeedsSlot(r, visibility)
    ensures var p := NewPatch(s, r, visibility);
      var more := AddTarget(slots, r, visibility);
      p.offset == r.offset && 0 <= p.index < |more| && more[p.index] == TargetOf(r, visibility)
  {
    if visibility[r.symbolName] == External && HasRelocation(s.externals, r.symbolName) {
      var k := IndexOfFound(s.externals, r.symbolName);
    }
  }

  lemma PatchedForMore(r: ElfRelocation, visibility: map<string, Localization>,
                                          ps: seq<Patch>, slots: seq<Target>, ps': seq<Patch>, slots': seq<Target>)
    requires NeedsSlot(r, visibility) && PatchedFor(r, visibility, ps, slots)
    requires slots <= slots' && forall p :: p in ps ==> p in ps'
    ensures PatchedFor(r, visibility, ps', slots')
  {
    var p :| p in ps && p.offset == r.offset && 0 <= p.index < |slots| && slots[p.index] == TargetOf(r, visibility);
    assert p in ps' && slots'[p.index] == slots[p.index];
  }

  /** The patches after one more relocation. */
  ghost predicate OneMorePatch(s: Sites, r: ElfRelocation, visibility: map<string, Localization>, more: seq<Patch>) {
    forall p :: p in more <==> p in Patches(s) || (NeedsSlot(r, visibility) && p == NewPatch(s, r, visibility))
  }

  lemma StepPatchesMore(s: Sites, r: ElfRelocation, visibility: map<string, Localization>)
    requires s.exported == [] && !NamesMain(r, visibility)
    requires ExtractOne(s, r, visibility).Ok?
    ensures OneMorePatch(s, r, visibility, Patches(ExtractOne(s, r, visibility).value))
  {
    hide ExtractOne, Patches, NeedsSlot, NewPatch, NamesMain;
    forall p ensures p in Patches(ExtractOne(s, r, visibility).value) <==>
      p in Patches(s) || (NeedsSlot(r, visibility) && p == NewPatch(s, r, visibility))
    {
      PatchesMore(s, r, visibility, p);
    }
  }

  lemma AllPatchedStep(rs: seq<ElfRelocation>, visibility: map<string, Localization>, s: Sites,
                                          slots: seq<Target>, r: ElfRelocation, more: seq<Patch>)
    requires SlotInvariant(s, slots) && OneMorePatch(s, r, visibility, more)
    requires AllPatched(rs, visibility, Patches(s), slots)
    ensures AllPatched(rs + [r], visibility, more, AddTarget(slots, r, visibility))
  {
    hide SlotInvariant, Patches, NewPatch, TargetOf;
    var all := rs + [r];
    var slots' := AddTarget(slots, r, visibility);
    forall k | 0 <= k < |all| && NeedsSlot(all[k], visibility) ensures PatchedFor(all[k], visibility, more, slots') {
      if k < |rs| {
        assert all[k] == rs[k];
        PatchedForMore(rs[k], visibility, Patches(s), slots, more, slots');
      } else {
        NewPatchNamesTarget(s, slots, r, visibility);
        assert NewPatch(s, r, visibility) in more;
      }
    }
  }

  lemma OnlySitesStep(rs: seq<ElfRelocation>, visibility: map<string, Localization>, s: Sites,
                                         r: ElfRelocation, more: seq<Patch>)
    requires OneMorePatch(s, r, visibility, more) && OnlySitesPatched(rs, visibility, Patches(s))
    ensures OnlySitesPatched(rs + [r], visibility, more)
  {
    hide Patches;
    var all := rs + [r];
    forall p | p in more ensures PatchesSite(p, all, visibility) {
      if p in Patches(s) {
        var k :| 0 <= k < |rs| && NeedsSlot(rs[k], visibility) && rs[k].offset == p.offset;
        assert all[k] == rs[k];
      } else {
        assert all[|rs|].offset == p.offset;
      }
    }
  }

  /** One more relocation: at most one more patch, at its own site. */
  lemma PatchesStep(rs: seq<ElfRelocation>, visibility: map<string, Localization>,
                                       s: Sites, slots: seq<Target>, r: ElfRelocation)
    requires SlotInvariant(s, slots) && ExtractOne(s, r, visibility).Ok? && !NamesMain(r, visibility)
    requires AllPatched(rs, visibility, Patches(s), slots) && OnlySitesPatched(rs, visibility, Patches(s))
    ensures var ps := Patches(ExtractOne(s, r, visibility).value);
      && AllPatched(rs + [r], visibility, ps, AddTarget(slots, r, visibility))
      && OnlySitesPatched(rs + [r], visibility, ps)
  {
    hide ExtractOne, Patches, NamesMain, AllPatched, OnlySitesPatched, OneMorePatch, AddTarget;
    NothingExported(s, slots);
    StepPatchesMore(s, r, visibility);
    var more := Patches(ExtractOne(s, r, visibility).value);
    AllPatchedStep(rs, visibility, s, slots, r, more);
    OnlySitesStep(rs, visibility, s, r, more);
  }

  lemma NothingExported(s: Sites, slots: seq<Target>)
    requires SlotInvariant(s, slots)
    ensures s.exported == []
  {
  }

  lemma ConsistentStep(rs: seq<ElfRelocation>, visibility: map<string, Localization>, s: Sites, r: ElfRelocation)
    requires s.exported == [] && ExtractOne(s, r, visibility).Ok? && !NamesMain(r, visibility)
    requires OnlySitesPatched(rs, visibility, Patches(s)) && Consistent(Patches(s))
    requires SitesApart(rs + [r], visibility)
    ensures Consistent(Patches(ExtractOne(s, r, visibility).value))
  {
    var all := rs + [r];
    var ps, ps' := Patches(s), Patches(ExtractOne(s, r, visibility).value);
    forall p ensures p in ps' <==> p in ps || (NeedsSlot(r, visibility) && p == NewPatch(s, r, visibility)) {
      PatchesMore(s, r, visibility, p);
    }
    forall p | p in ps && NeedsSlot(r, visibility) ensures Apart(p.offset, r.offset) {
      assert PatchesSite(p, rs, visibility);
      var k :| 0 <= k < |rs| && NeedsSlot(rs[k], visibility) && rs[k].offset == p.offset;
      assert all[k] == rs[k] && all[|rs|] == r;
    }
  }

  /** Every site that needs a slot is patched for its own symbol, and nothing else is. */
  ghost predicate PatchInvariant(rs: seq<ElfRelocation>, visibility: map<string, Localization>,
                                 ps: seq<Patch>, slots: seq<Target>) {
    && AllPatched(rs, visibility, ps, slots)
    && OnlySitesPatched(rs, visibility, ps)
    && (SitesApart(rs, visibility) ==> Consistent(ps))
  }

  lemma SitesApartBefore(rs: seq<ElfRelocation>, visibility: map<string, Localization>, r: ElfRelocation)
    requires SitesApart(rs + [r], visibility)
    ensures SitesApart(rs, visibility)
  {
    var all := rs + [r];
    forall i, j | 0 <= i < j < |rs| && NeedsSlot(rs[i], visibility) && NeedsSlot(rs[j], visibility)
      ensures Apart(rs[i].offset, rs[j].offset)
    {
      assert all[i] == rs[i] && all[j] == rs[j];
    }
  }

  lemma InvariantStep(rs: seq<ElfRelocation>, visibility: map<string, Localization>,
                                         s: Sites, slots: seq<Target>, r: ElfRelocation)
    requires SlotInvariant(s, slots) && ExtractOne(s, r, visibility).Ok? && !NamesMain(r, visibility)
    requires PatchInvariant(rs, visibility, Patches(s), slots)
    ensures PatchInvariant(rs + [r], visibility, Patches(ExtractOne(s, r, visibility).value), AddTarget(slots, r, visibility))
  {
    PatchesStep(rs, visibility, s, slots, r);
    if SitesApart(rs + [r], visibility) {
      SitesApartBefore(rs, visibility, r);
      ConsistentStep(rs, visibility, s, r);
    }
  }

  lemma NoPatches(visibility: map<string, Localization>)
    ensures PatchInvariant([], visibility, Patches(Sites([], [], [], 0)), [])
  {
  }

  lemma {:induction false} PatchesOfRelocations(rs: seq<ElfRelocation>, visibility: map<string, Localization>)
    requires Extract(rs, visibility).Ok?
    requires forall k :: 0 <= k < |rs| ==> !NamesMain(rs[k], visibility)
    ensures PatchInvariant(rs, visibility, Patches(Extract(rs, visibility).value), SlotTargets(rs, visibility))
  {
    hide PatchInvariant, Patches, NamesMain, SlotInvariant, ExtractOne, AddTarget;
    if rs == [] {
      NoPatches(visibility);
    } else {
      var before := rs[..|rs| - 1];
      PatchesOfRelocations(before, visibility);
      IndicesNameSlots(before, visibility);
      InvariantStep(before, visibility, Extract(before, visibility).value, SlotTargets(before, visibility), rs[|rs| - 1]);
      assert before + [rs[|rs| - 1]] == rs;
    }
  }
}
