// The readdir cursor, which finds its place in a listing by the name it returned before.

module Readdir {
  import opened Directory
  import opened Results
  import opened Sequences

  const NAME_LIMIT := 128

  /** The length and the name in the directory entry; a length of zero stands for the start. */
  datatype Dirent = Dirent(namlen: nat, name: string)

  datatype Step = Returned(ent: Dirent) | AtEnd | Overrun

  function Copied(name: string): Step {
    if |name| >= NAME_LIMIT then Overrun else Returned(Dirent(|name|, name))
  }

  /** The cursor is the name last returned; an empty name in front is returned, and looked for, as a slash. */
  function ReadEntry(names: seq<string>, ent: Dirent): Step {
    if names == [] then AtEnd
    else if ent.namlen == 0 then
      if names[0] == "" then Returned(Dirent(1, "/")) else Copied(names[0])
    else
      var i := IndexOf(names, if ent.name == "/" then "" else ent.name);
      if i + 1 >= |names| then AtEnd else Copied(names[i + 1])
  }

  /** The entry after `k` calls. */
  function EntAfter(names: seq<string>, k: nat): Dirent {
    if k == 0 then Dirent(0, "")
    else
      var ent := EntAfter(names, k - 1);
      var step := ReadEntry(names, ent);
      if step.Returned? then step.ent else ent
  }

  /** What call number `k`, counted from zero, comes to. */
  function StepOf(names: seq<string>, k: nat): Step {
    ReadEntry(names, EntAfter(names, k))
  }

  /** What call number `k` returns. */
  function Call(names: seq<string>, k: nat): Option<string> {
    if StepOf(names, k).Returned? then Some(StepOf(names, k).ent.name) else None
  }

  function ShownAs(name: string): string {
    if name == "" then "/" else name
  }

  /** Every name once and in order, then null for ever. */
  ghost predicate ReadsEachOnce(names: seq<string>) {
    forall k: nat :: Call(names, k) == if k < |names| then Some(ShownAs(names[k])) else None
  }

  /** Some call finds the end. */
  ghost predicate Ends(names: seq<string>) {
    exists k: nat :: StepOf(names, k) == AtEnd
  }

  ghost predicate WithoutSlashes(names: seq<string>) {
    forall i :: 0 <= i < |names| ==> '/' !in names[i]
  }

  /** Names the cursor can tell apart: none twice, and none empty but the first. */
  ghost predicate Telling(names: seq<string>) {
    Distinct(names) && forall i :: 0 < i < |names| ==> names[i] != ""
  }

  /** At most 127 characters and a terminator fit the entry. */
  predicate Short(name: string) {
    |name| <= 127
  }

  ghost predicate AllShort(names: seq<string>) {
    forall i :: 0 <= i < |names| ==> Short(names[i])
  }

  // ---------- Where the cursor gets to

  /** The cursor stands on position `i`, and everything up to there can be told apart and is short. */
  ghost predicate At(names: seq<string>, ent: Dirent, i: nat) {
    && i < |names| && ent.namlen > 0 && ent.name == ShownAs(names[i])
    && Telling(names[..i]) && AllShort(names[..i + 1])
    && (i > 0 ==> names[i] != "")
  }

  ghost predicate Somewhere(names: seq<string>, ent: Dirent) {
    ent.namlen == 0 || exists i :: At(names, ent, i)
  }

  lemma TellingBefore(names: seq<string>, i: nat)
    requires i < |names| && Telling(names[..i]) && (i > 0 ==> names[i] != "")
    ensures var f := IndexOf(names, names[i]);
      && f <= i && (f == i ==> Telling(names[..i + 1])) && (f < i ==> Telling(names[..f + 1]))
  {
    hide IndexOf;
    var f := IndexOf(names, names[i]);
    if f == i {
      var longer := names[..i + 1];
      forall a, b | 0 <= a < b < |longer| ensures longer[a] != longer[b] {
        if b < i {
          assert names[..i][a] != names[..i][b];
        }
      }
      forall a | 0 < a < |longer| ensures longer[a] != "" {
        if a < i {
          assert names[..i][a] != "";
        }
      }
    } else {
      TellingShorter(names[..i], f + 1);
      assert names[..i][..f + 1] == names[..f + 1];
    }
  }

  lemma TellingShorter(names: seq<string>, n: nat)
    requires n <= |names| && Telling(names)
    ensures Telling(names[..n])
  {
  }

  /** One call from position `i`: the end, or the name behind the first one that equals this. */
  lemma ReadFrom(names: seq<string>, ent: Dirent, i: nat)
    requires WithoutSlashes(names) && At(names, ent, i)
    ensures var f := IndexOf(names, names[i]);
      && f <= i
      && ReadEntry(names, ent) == if f + 1 >= |names| then AtEnd else Copied(names[f + 1])
  {
    assert '/' !in names[i];
  }

  lemma StepFrom(names: seq<string>, ent: Dirent, i: nat)
    requires WithoutSlashes(names) && At(names, ent, i)
    ensures var step := ReadEntry(names, ent); var f := IndexOf(names, names[i]);
      && (step == AtEnd ==> Telling(names) && AllShort(names))
      && (step == Overrun ==> f + 1 < |names| && Telling(names[..f + 1]) && !Short(names[f + 1]))
      && (step.Returned? ==> f + 1 < |names| && (step.ent.namlen == 0 || At(names, step.ent, f + 1)))
      && (f == i && i + 1 < |names| && Short(names[i + 1]) && names[i + 1] != "" ==> step.Returned? && At(names, step.ent, i + 1))
  {
    hide IndexOf, ReadEntry, Telling, At, WithoutSlashes;
    AtMeans(names, ent, i);
    TellingBefore(names, i);
    ReadFrom(names, ent, i);
    var f := IndexOf(names, names[i]);
    if f + 1 == |names| {
      assert names[..i + 1] == names;
    } else {
      CopiedAt(names, i, f);
    }
  }

  lemma AtMeans(names: seq<string>, ent: Dirent, i: nat)
    requires At(names, ent, i)
    ensures i < |names| && Telling(names[..i]) && AllShort(names[..i + 1]) && (i > 0 ==> names[i] != "")
  {
  }

  lemma CopiedAt(names: seq<string>, i: nat, f: nat)
    requires f <= i < |names| && f + 1 < |names| && AllShort(names[..i + 1]) && Telling(names[..f + 1])
    ensures var step := Copied(names[f + 1]);
      && (step == Overrun <==> !Short(names[f + 1]))
      && step != AtEnd
      && (step.Returned? && names[f + 1] != "" ==> At(names, step.ent, f + 1))
      && (step.Returned? && names[f + 1] == "" ==> step.ent.namlen == 0)
  {
    hide Telling;
    ShortFurther(names, i, f);
  }

  lemma ShortFurther(names: seq<string>, i: nat, f: nat)
    requires f <= i < |names| && f + 1 < |names| && AllShort(names[..i + 1])
    ensures Short(names[f + 1]) ==> AllShort(names[..f + 2])
  {
    forall a | 0 <= a <= f ensures Short(names[a]) {
      assert names[..i + 1][a] == names[a];
    }
  }

  /** One call from the start. */
  lemma StepFromStart(names: seq<string>, ent: Dirent)
    requires ent.namlen == 0
    ensures names == [] ==> ReadEntry(names, ent) == AtEnd
    ensures names != [] && !Short(names[0]) ==> ReadEntry(names, ent) == Overrun
    ensures names != [] && Short(names[0]) ==> ReadEntry(names, ent).Returned? && At(names, ReadEntry(names, ent).ent, 0)
  {
  }

  lemma EntNext(names: seq<string>, k: nat)
    ensures EntAfter(names, k + 1) == if StepOf(names, k).Returned? then StepOf(names, k).ent else EntAfter(names, k)
  {
    hide ReadEntry;
  }

  lemma {:induction false} AlwaysSomewhere(names: seq<string>, k: nat)
    requires WithoutSlashes(names)
    ensures Somewhere(names, EntAfter(names, k))
  {
    hide ReadEntry, At, WithoutSlashes, EntAfter, IndexOf;
    if k == 0 {
      Start(names);
    } else {
      AlwaysSomewhere(names, k - 1);
      EntNext(names, k - 1);
      var ent := EntAfter(names, k - 1);
      if ent.namlen == 0 {
        StepFromStart(names, ent);
      } else {
        var i :| At(names, ent, i);
        StepFrom(names, ent, i);
      }
    }
  }

  lemma Start(names: seq<string>)
    ensures EntAfter(names, 0) == Dirent(0, "")
  {
  }

  /** As long as names can be told apart and are short, the cursor goes from each to the next. */
  lemma {:induction false} GoesOn(names: seq<string>, k: nat)
    requires WithoutSlashes(names) && k < |names| && Telling(names[..k + 1]) && AllShort(names[..k + 1])
    ensures At(names, EntAfter(names, k + 1), k)
    ensures StepOf(names, k).Returned?
  {
    hide ReadEntry, EntAfter, IndexOf, WithoutSlashes, Telling, At;
    EntNext(names, k);
    assert names[..k + 1][k] == names[k];
    if k == 0 {
      Start(names);
      StepFromStart(names, EntAfter(names, 0));
    } else {
      TellingShorter(names[..k + 1], k);
      assert names[..k + 1][..k] == names[..k];
      ShorterShort(names, k);
      GoesOn(names, k - 1);
      StepFrom(names, EntAfter(names, k), k - 1);
      FirstOfTold(names, k + 1, k - 1);
      NotEmpty(names, k);
    }
  }

  lemma ShorterShort(names: seq<string>, k: nat)
    requires k < |names| && AllShort(names[..k + 1])
    ensures AllShort(names[..k])
  {
    forall i | 0 <= i < k ensures Short(names[..k][i]) {
      assert names[..k + 1][i] == names[i];
    }
  }

  lemma NotEmpty(names: seq<string>, k: nat)
    requires 0 < k < |names| && Telling(names[..k + 1])
    ensures names[k] != ""
  {
    assert names[..k + 1][k] == names[k];
  }

  lemma FirstOfTold(names: seq<string>, n: nat, i: nat)
    requires i < n <= |names| && Telling(names[..n])
    ensures IndexOf(names, names[i]) == i
  {
    hide IndexOf;
    var f := IndexOf(names, names[i]);
    assert names[..n][i] == names[i] && f <= i;
    assert names[..n][f] == names[f];
  }

  // ---------- What the calls come to

  lemma EndMeans(names: seq<string>, k: nat)
    requires WithoutSlashes(names) && StepOf(names, k) == AtEnd
    ensures Telling(names) && AllShort(names)
  {
    hide ReadEntry, EntAfter, IndexOf;
    AlwaysSomewhere(names, k);
    var ent := EntAfter(names, k);
    if ent.namlen == 0 {
      StepFromStart(names, ent);
    } else {
      var i :| At(names, ent, i);
      StepFrom(names, ent, i);
    }
  }

  lemma AllRead(names: seq<string>, k: nat)
    requires WithoutSlashes(names) && Telling(names) && AllShort(names)
    ensures k < |names| ==> Call(names, k) == Some(ShownAs(names[k]))
    ensures k == |names| ==> StepOf(names, k) == AtEnd
  {
    hide ReadEntry, EntAfter, IndexOf;
    if k < |names| {
      TellingShorter(names, k + 1);
      GoesOn(names, k);
      EntNext(names, k);
    } else if k == |names| {
      if k == 0 {
        Start(names);
        StepFromStart(names, EntAfter(names, 0));
      } else {
        assert names[..k] == names;
        GoesOn(names, k - 1);
        ReadFrom(names, EntAfter(names, k), k - 1);
        FirstOfTold(names, k, k - 1);
      }
    }
  }

  lemma {:induction false} EndStays(names: seq<string>, n: nat, k: nat)
    requires StepOf(names, n) == AtEnd && n <= k
    ensures StepOf(names, k) == AtEnd && EntAfter(names, k) == EntAfter(names, n)
  {
    hide ReadEntry;
    if k > n {
      EndStays(names, n, k - 1);
    }
  }

  /** Reading comes to an end iff no name comes twice, none but the first is empty, and all are short. */
  lemma EndsIff(names: seq<string>)
    requires WithoutSlashes(names)
    ensures Ends(names) <==> Telling(names) && AllShort(names)
  {
    hide StepOf, Telling, AllShort, WithoutSlashes;
    if Ends(names) {
      var k: nat :| StepOf(names, k) == AtEnd;
      EndMeans(names, k);
    }
    if Telling(names) && AllShort(names) {
      AllRead(names, |names|);
    }
  }

  lemma ReturnedIsShort(names: seq<string>, k: nat)
    requires k < |names| && Call(names, k) == Some(ShownAs(names[k]))
    ensures Short(names[k])
  {
    hide EntAfter, IndexOf;
  }

  /** `readdir` returns each name once and in order, then null for ever, iff its reading comes to an end. */
  lemma ReadsEachOnceIff(names: seq<string>)
    requires WithoutSlashes(names)
    ensures ReadsEachOnce(names) <==> Telling(names) && AllShort(names)
  {
    hide StepOf, Telling, Call, WithoutSlashes;
    if Telling(names) && AllShort(names) {
      forall k: nat ensures Call(names, k) == if k < |names| then Some(ShownAs(names[k])) else None {
        AllRead(names, k);
        if k >= |names| {
          AllRead(names, |names|);
          EndStays(names, |names|, k);
          NoneAtEnd(names, k);
        }
      }
    }
    if ReadsEachOnce(names) {
      forall k | 0 <= k < |names| ensures Short(names[k]) {
        ReturnedIsShort(names, k);
      }
      NeverOverruns(names, |names|);
      NoneMeans(names, |names|);
      EndMeans(names, |names|);
    }
  }

  lemma NoneAtEnd(names: seq<string>, k: nat)
    requires StepOf(names, k) == AtEnd
    ensures Call(names, k) == None
  {
  }

  lemma NoneMeans(names: seq<string>, k: nat)
    requires Call(names, k) == None && StepOf(names, k) != Overrun
    ensures StepOf(names, k) == AtEnd
  {
  }

  // ---------- Names that do not fit

  /** Every name the cursor gets to, before names repeat or are empty, fits the entry. */
  ghost predicate ReachedShort(names: seq<string>) {
    forall i :: 0 <= i < |names| && Telling(names[..i]) ==> Short(names[i])
  }

  lemma NeverOverruns(names: seq<string>, k: nat)
    requires WithoutSlashes(names) && ReachedShort(names)
    ensures StepOf(names, k) != Overrun
  {
    hide ReadEntry, EntAfter, IndexOf;
    AlwaysSomewhere(names, k);
    var ent := EntAfter(names, k);
    if ent.namlen == 0 {
      StepFromStart(names, ent);
      assert names != [] ==> Telling(names[..0]);
    } else {
      var i :| At(names, ent, i);
      StepFrom(names, ent, i);
    }
  }

  lemma {:induction false} FirstLong(names: seq<string>, i: nat) returns (j: nat)
    requires i < |names| && !Short(names[i])
    ensures j <= i && !Short(names[j]) && AllShort(names[..j])
  {
    j := i;
    if !AllShort(names[..i]) {
      var m :| 0 <= m < i && !Short(names[..i][m]);
      j := FirstLong(names, m);
    }
  }

  lemma LongOverruns(names: seq<string>, i: nat)
    requires WithoutSlashes(names) && i < |names| && Telling(names[..i]) && !Short(names[i]) && AllShort(names[..i])
    ensures StepOf(names, i) == Overrun
  {
    hide EntAfter, IndexOf, Telling;
    if i == 0 {
      Start(names);
      StepFromStart(names, EntAfter(names, 0));
    } else {
      GoesOn(names, i - 1);
      ReadFrom(names, EntAfter(names, i), i - 1);
      FirstOfTold(names, i, i - 1);
    }
  }

  /** No call writes past the entry iff every name the cursor gets to is short. */
  lemma NoOverrunIff(names: seq<string>)
    requires WithoutSlashes(names)
    ensures (forall k: nat :: StepOf(names, k) != Overrun) <==> ReachedShort(names)
  {
    hide StepOf, Telling, WithoutSlashes;
    if ReachedShort(names) {
      forall k: nat ensures StepOf(names, k) != Overrun {
        NeverOverruns(names, k);
      }
    } else {
      var i :| 0 <= i < |names| && Telling(names[..i]) && !Short(names[i]);
      var j := FirstLong(names, i);
      TellingShorter(names[..i], j);
      assert names[..i][..j] == names[..j];
      LongOverruns(names, j);
    }
  }

  // ---------- Listing, then reading

  lemma ListingWithoutSlashes(filenames: seq<string>, path: string)
    ensures WithoutSlashes(NamesOf(Listing(filenames, path)))
  {
    hide Listing;
    var es := Listing(filenames, path);
    ListingIsChildren(filenames, path);
    forall i | 0 <= i < |es| ensures '/' !in es[i].name {
      assert es[i] in multiset(es);
      assert Occurrences(filenames, path, es[i]) == 1;
    }
  }

  /** In a sorted listing only the first name can be empty, unless it comes twice. */
  lemma SortedTelling(es: seq<Entry>)
    requires Sorted(es)
    ensures Telling(NamesOf(es)) <==> Distinct(NamesOf(es))
  {
    hide Sorted;
    SortedMeans(es);
    if Distinct(NamesOf(es)) {
      forall i | 0 < i < |es| ensures es[i].name != "" {
        var first, other := NamesOf(es)[0], NamesOf(es)[i];
        assert first != other && !Less(other, first);
      }
    }
  }

  /** The names under which files directly in the directory are listed fit the entry. */
  ghost predicate ShortChildren(filenames: seq<string>, path: string) {
    forall e :: e in Listing(filenames, path) ==> Short(e.name)
  }

  /**
   * `readdir` on a listed directory returns the files directly in it, each once and in lexicographic
   * order, then null for ever, iff no two of them have the same path and their names are short.
   * Otherwise it never comes to an end.
   */
  lemma DirectoryReadsOnceIff(filenames: seq<string>, path: string)
    ensures ReadsEachOnce(NamesOf(Listing(filenames, path))) <==>
      DistinctChildren(filenames, path) && ShortChildren(filenames, path)
    ensures Ends(NamesOf(Listing(filenames, path))) <==>
      DistinctChildren(filenames, path) && ShortChildren(filenames, path)
    ensures Sorted(Listing(filenames, path))
    ensures forall e :: e in Listing(filenames, path) <==> e.file < |filenames| && IsChild(filenames[e.file], path, e.name)
  {
    hide ReadsEachOnce, Ends, Sorted, Telling, DistinctChildren, Listing, Short;
    var es := Listing(filenames, path);
    ListingIsChildren(filenames, path);
    ListingWithoutSlashes(filenames, path);
    SortedTelling(es);
    ListingDistinctIff(filenames, path);
    EndsIff(NamesOf(es));
    ReadsEachOnceIff(NamesOf(es));
    assert AllShort(NamesOf(es)) <==> ShortChildren(filenames, path) by {
      assert forall i :: 0 <= i < |es| ==> es[i] in es;
    }
    forall e ensures e in es <==> e.file < |filenames| && IsChild(filenames[e.file], path, e.name) {
      assert e in es <==> e in multiset(es);
    }
  }

  /** After `mkdir` and `create` of the same path the root directory is read for ever. */
  lemma SamePathTwice()
    ensures var names := NamesOf(Listing(["/", "a", "a"], ""));
      && !Ends(names) && !ReadsEachOnce(names)
      && forall k: nat :: Call(names, k) == Some("a")
  {
    hide Ends, ReadsEachOnce, Call;
    var filenames := ["/", "a", "a"];
    assert filenames[1] == filenames[2] && ListedName(filenames[1], "") == Some("a");
    DirectoryReadsOnceIff(filenames, "");
    TwoEntries();
    forall k: nat ensures Call(["a", "a"], k) == Some("a") {
      AlwaysTheSame(k);
    }
  }

  lemma TwoEntries()
    ensures NamesOf(Listing(["/", "a", "a"], "")) == ["a", "a"]
  {
    assert ["/", "a", "a"][..2] == ["/", "a"] && ["/", "a"][..1] == ["/"] && ["/"][..0] == [];
    assert Listing([], "") == [];
    assert Listing(["/"], "") == [];
    assert Listing(["/", "a"], "") == Insert([], Entry("a", 1));
    assert Listing(["/", "a", "a"], "") == Insert([Entry("a", 1)], Entry("a", 2));
  }

  lemma {:induction false} AlwaysTheSame(k: nat)
    ensures Call(["a", "a"], k) == Some("a")
    ensures StepOf(["a", "a"], k) == Returned(Dirent(1, "a"))
  {
    assert IndexOf(["a", "a"], "a") == 0;
    if k > 0 {
      AlwaysTheSame(k - 1);
    }
  }
}
