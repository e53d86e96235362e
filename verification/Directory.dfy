// Directory listings in order.

module Directory {
  import opened Results
  import opened Sequences

  // ---------- Lexicographic order

  predicate Less(a: string, b: string) {
    if a == "" then b != ""
    else if b == "" then false
    else a[0] < b[0] || (a[0] == b[0] && Less(a[1..], b[1..]))
  }

  lemma {:induction false} LessIrreflexive(a: string)
    ensures !Less(a, a)
  {
    if a != "" {
      LessIrreflexive(a[1..]);
    }
  }

  lemma {:induction false} LessTransitive(a: string, b: string, c: string)
    requires Less(a, b) && Less(b, c)
    ensures Less(a, c)
  {
    if a != "" && a[0] == b[0] == c[0] {
      LessTransitive(a[1..], b[1..], c[1..]);
    }
  }

  lemma {:induction false} LessTotal(a: string, b: string)
    ensures Less(a, b) || a == b || Less(b, a)
  {
    if a != "" && b != "" && a[0] == b[0] {
      LessTotal(a[1..], b[1..]);
      assert a == [a[0]] + a[1..] && b == [b[0]] + b[1..];
    }
  }

  /** A shorter beginning comes before the longer string, and otherwise the smaller character where two first differ. */
  ghost predicate Precedes(a: string, b: string) {
    exists k :: 0 <= k <= |a| && k <= |b| && PrecedesAt(a, b, k)
  }

  ghost predicate PrecedesAt(a: string, b: string, k: nat)
    requires k <= |a| && k <= |b|
  {
    a[..k] == b[..k] && k < |b| && (k == |a| || a[k] < b[k])
  }

  lemma {:induction false} LessPrecedes(a: string, b: string)
    ensures Less(a, b) <==> Precedes(a, b)
  {
    if a == "" || b == "" || a[0] != b[0] {
      FirstDiffers(a, b);
    } else {
      LessPrecedes(a[1..], b[1..]);
      if Precedes(a[1..], b[1..]) {
        var k: nat :| k <= |a| - 1 && k <= |b| - 1 && PrecedesAt(a[1..], b[1..], k);
        assert a[..k + 1] == [a[0]] + a[1..][..k] && b[..k + 1] == [b[0]] + b[1..][..k];
        assert PrecedesAt(a, b, k + 1);
      }
      if Precedes(a, b) {
        var k: nat :| k <= |a| && k <= |b| && PrecedesAt(a, b, k);
        assert a[1..][..k - 1] == a[..k][1..] && b[1..][..k - 1] == b[..k][1..];
        assert PrecedesAt(a[1..], b[1..], k - 1);
      }
    }
  }

  lemma PrecedesFirst(a: string, b: string)
    requires Precedes(a, b)
    ensures b != "" && (a == "" || a[0] <= b[0])
  {
    var k: nat :| k <= |a| && k <= |b| && PrecedesAt(a, b, k);
    if k > 0 {
      assert a[..k][0] == a[0] && b[..k][0] == b[0];
    }
  }

  lemma FirstDiffers(a: string, b: string)
    requires a == "" || b == "" || a[0] != b[0]
    ensures Precedes(a, b) <==> b != "" && (a == "" || a[0] < b[0])
  {
    assert a[..0] == b[..0];
    if Precedes(a, b) {
      PrecedesFirst(a, b);
    }
    if b != "" && (a == "" || a[0] < b[0]) {
      assert PrecedesAt(a, b, 0);
    }
  }

  /** The comparison is the lexicographic order. */
  lemma LessIsPrecedes()
    ensures forall a, b :: Less(a, b) <==> Precedes(a, b)
  {
    forall a, b ensures Less(a, b) <==> Precedes(a, b) {
      LessPrecedes(a, b);
    }
  }

  // ---------- Insertion

  /** A name in a listing, and which of the file system's files it stands for. */
  datatype Entry = Entry(name: string, file: nat)

  function Insert(es: seq<Entry>, e: Entry): (r: seq<Entry>)
    ensures |r| == |es| + 1
  {
    if es == [] || Less(e.name, es[0].name) then [e] + es else [es[0]] + Insert(es[1..], e)
  }

  ghost predicate Sorted(es: seq<Entry>) {
    forall i, j :: 0 <= i < j < |es| ==> es[i].name == es[j].name || Precedes(es[i].name, es[j].name)
  }

  ghost predicate Ascends(es: seq<Entry>) {
    forall i, j :: 0 <= i < j < |es| ==> !Less(es[j].name, es[i].name)
  }

  lemma SortedMeans(es: seq<Entry>)
    ensures Sorted(es) <==> Ascends(es)
  {
    hide Less, Precedes;
    LessIsPrecedes();
    forall i, j | 0 <= i < j < |es|
      ensures es[i].name == es[j].name || Precedes(es[i].name, es[j].name) <==> !Less(es[j].name, es[i].name)
    {
      LessTotal(es[i].name, es[j].name);
      LessIrreflexive(es[i].name);
      if Less(es[i].name, es[j].name) && Less(es[j].name, es[i].name) {
        LessTransitive(es[i].name, es[j].name, es[i].name);
      }
    }
  }

  lemma {:induction false} InsertKeepsAll(es: seq<Entry>, e: Entry)
    ensures multiset(Insert(es, e)) == multiset(es) + multiset{e}
  {
    if es != [] {
      assert es == [es[0]] + es[1..];
      if !Less(e.name, es[0].name) {
        InsertKeepsAll(es[1..], e);
      }
    }
  }

  lemma {:induction false} InsertAscends(es: seq<Entry>, e: Entry)
    requires Ascends(es)
    ensures Ascends(Insert(es, e))
  {
    hide Less;
    if es != [] {
      if Less(e.name, es[0].name) {
        forall j | 0 <= j < |es| ensures !Less(es[j].name, e.name) {
          if Less(es[j].name, e.name) {
            LessTransitive(es[j].name, e.name, es[0].name);
            if j == 0 {
              LessIrreflexive(es[0].name);
            }
            assert false;
          }
        }
      } else {
        InsertAscends(es[1..], e);
        forall j | 0 <= j < |es| ensures !Less(Insert(es[1..], e)[j].name, es[0].name) {
          InsertKeepsAll(es[1..], e);
          assert Insert(es[1..], e)[j] in multiset(es[1..]) + multiset{e};
        }
      }
    }
  }

  lemma InsertSorts(es: seq<Entry>, e: Entry)
    requires Sorted(es)
    ensures Sorted(Insert(es, e))
  {
    hide Sorted, Insert, Ascends;
    SortedMeans(es);
    SortedMeans(Insert(es, e));
    InsertAscends(es, e);
  }

  /** The entries with one name, in their order. */
  function WithName(es: seq<Entry>, name: string): seq<Entry> {
    if es == [] then []
    else (if es[0].name == name then [es[0]] else []) + WithName(es[1..], name)
  }

  lemma {:induction false} NoneWithName(es: seq<Entry>, name: string)
    requires forall i :: 0 <= i < |es| ==> es[i].name != name
    ensures WithName(es, name) == []
  {
    if es != [] {
      NoneWithName(es[1..], name);
    }
  }

  lemma {:induction false} InsertIsLast(es: seq<Entry>, e: Entry, name: string)
    requires Ascends(es)
    ensures WithName(Insert(es, e), name) == WithName(es, name) + if e.name == name then [e] else []
  {
    if es == [] || Less(e.name, es[0].name) {
      assert ([e] + es)[1..] == es;
      if e.name == name {
        forall i | 0 <= i < |es| ensures es[i].name != name {
          LessIrreflexive(name);
        }
        NoneWithName(es, name);
      }
    } else {
      InsertIsLast(es[1..], e, name);
      assert Insert(es, e)[1..] == Insert(es[1..], e);
    }
  }

  /** Among entries of the same name the new one comes last. */
  lemma InsertIsStable(es: seq<Entry>, e: Entry, name: string)
    requires Sorted(es)
    ensures WithName(Insert(es, e), name) == WithName(es, name) + if e.name == name then [e] else []
  {
    hide *;
    SortedMeans(es);
    InsertIsLast(es, e, name);
  }

  // ---------- Listings

  /** The position of the last slash, or the length. */
  function LastSlash(path: string): (i: nat)
    ensures i <= |path| && (i < |path| ==> path[i] == '/')
    ensures forall k :: 0 <= k < |path| && (i == |path| || k > i) ==> path[k] != '/'
  {
    if path == "" then 0
    else if path[|path| - 1] == '/' then |path| - 1
    else
      var i := LastSlash(path[..|path| - 1]);
      if i == |path| - 1 then |path| else i
  }

  function ParentPath(path: string): string {
    var i := LastSlash(path);
    if i == |path| then "" else path[..i]
  }

  predicate IsRoot(path: string) {
    path == "" || path == "/"
  }

  /** The name under which a file is listed in a directory, if it is. */
  function ListedName(filename: string, path: string): Option<string> {
    if IsRoot(path) then
      if '/' in filename then None else Some(filename)
    else if ParentPath(filename) == path then Some(filename[|path| + 1..])
    else None
  }

  /** The file lies directly in the directory. */
  ghost predicate IsChild(filename: string, path: string, name: string) {
    '/' !in name && filename == if path == "" || path == "/" then name else path + "/" + name
  }

  lemma LastSlashOf(path: string, name: string)
    requires '/' !in name
    ensures LastSlash(path + "/" + name) == |path|
  {
    hide LastSlash;
    var all := path + "/" + name;
    var i := LastSlash(all);
    assert all[|path|] == '/';
    assert all[|path| + 1..] == name;
  }

  lemma ListedIsChild(filename: string, path: string)
    requires !IsRoot(path) && ParentPath(filename) == path
    ensures IsChild(filename, path, filename[|path| + 1..])
  {
    hide LastSlash;
    var i := LastSlash(filename);
    var name := filename[i + 1..];
    assert filename == filename[..i] + [filename[i]] + name;
    assert filename[..i] + [filename[i]] + name == filename[..i] + "/" + name;
    assert forall k :: 0 <= k < |name| ==> name[k] == filename[i + 1 + k];
  }

  lemma ChildIsListed(path: string, name: string)
    requires !IsRoot(path) && '/' !in name
    ensures ListedName(path + "/" + name, path) == Some(name)
  {
    hide LastSlash;
    LastSlashOf(path, name);
    var filename := path + "/" + name;
    assert filename[..|path|] == path && filename[|path| + 1..] == name;
  }

  /** A file is listed in a directory, under a name, iff it lies directly in it. */
  lemma ListedIffChild(filename: string, path: string, name: string)
    ensures ListedName(filename, path) == Some(name) <==> IsChild(filename, path, name)
  {
    hide ParentPath;
    if !IsRoot(path) {
      if ParentPath(filename) == path {
        ListedIsChild(filename, path);
      }
      if IsChild(filename, path, name) {
        ChildIsListed(path, name);
      }
    }
  }

  /** The entries for the first `n` files, inserted one by one. */
  function Listing(filenames: seq<string>, path: string): seq<Entry> {
    if filenames == [] then []
    else
      var n := |filenames| - 1;
      var before := Listing(filenames[..n], path);
      match ListedName(filenames[n], path)
      case None => before
      case Some(name) => Insert(before, Entry(name, n))
  }

  /** How often a listing of the directory has an entry. */
  ghost function Occurrences(filenames: seq<string>, path: string, e: Entry): nat {
    if e.file < |filenames| && IsChild(filenames[e.file], path, e.name) then 1 else 0
  }

  lemma {:induction false} ListingCounts(filenames: seq<string>, path: string, e: Entry)
    ensures multiset(Listing(filenames, path))[e] == Occurrences(filenames, path, e)
  {
    hide ListedName, IsChild, Insert;
    if filenames != [] {
      var n := |filenames| - 1;
      ListingCounts(filenames[..n], path, e);
      ListedIffChild(filenames[n], path, e.name);
      if ListedName(filenames[n], path).Some? {
        InsertKeepsAll(Listing(filenames[..n], path), Entry(ListedName(filenames[n], path).value, n));
      }
    }
  }

  lemma {:induction false} ListingSorted(filenames: seq<string>, path: string)
    ensures Sorted(Listing(filenames, path))
  {
    hide ListedName, Sorted;
    if filenames != [] {
      var n := |filenames| - 1;
      ListingSorted(filenames[..n], path);
      if ListedName(filenames[n], path).Some? {
        InsertSorts(Listing(filenames[..n], path), Entry(ListedName(filenames[n], path).value, n));
      }
    } else {
      NothingSorted();
    }
  }

  lemma NothingSorted()
    ensures Sorted([])
  {
  }

  /** A listing is sorted and has exactly one entry for each file that lies directly in the directory. */
  lemma ListingIsChildren(filenames: seq<string>, path: string)
    ensures Sorted(Listing(filenames, path))
    ensures forall e :: multiset(Listing(filenames, path))[e] == Occurrences(filenames, path, e)
  {
    ListingSorted(filenames, path);
    forall e ensures multiset(Listing(filenames, path))[e] == Occurrences(filenames, path, e) {
      ListingCounts(filenames, path, e);
    }
  }

  function NamesOf(es: seq<Entry>): (names: seq<string>)
    ensures |names| == |es|
    ensures forall i :: 0 <= i < |es| ==> names[i] == es[i].name
  {
    seq(|es|, i requires 0 <= i < |es| => es[i].name)
  }

  lemma TwiceInMultiset(es: seq<Entry>, i: nat, j: nat)
    requires i < j < |es| && es[i] == es[j]
    ensures multiset(es)[es[i]] >= 2
  {
    assert es == es[..j] + [es[j]] + es[j + 1..];
    assert es[..j][i] == es[i];
    assert es[i] in multiset(es[..j]);
  }

  /** No two files directly in the directory have the same path. */
  ghost predicate DistinctChildren(filenames: seq<string>, path: string) {
    forall i, j :: 0 <= i < j < |filenames| && ListedName(filenames[i], path).Some? ==> filenames[i] != filenames[j]
  }

  lemma SameNameSamePath(filenames: seq<string>, path: string, es: seq<Entry>, i: nat, j: nat)
    requires es == Listing(filenames, path) && DistinctChildren(filenames, path) && i < j < |es|
    ensures es[i].name != es[j].name
  {
    hide Listing;
    ListingIsChildren(filenames, path);
    assert es[i] in multiset(es) && es[j] in multiset(es);
    assert Occurrences(filenames, path, es[i]) == 1 && Occurrences(filenames, path, es[j]) == 1;
    ListedIffChild(filenames[es[i].file], path, es[i].name);
    ListedIffChild(filenames[es[j].file], path, es[j].name);
    if es[i] == es[j] {
      TwiceInMultiset(es, i, j);
    }
  }

  lemma SamePathSameName(filenames: seq<string>, path: string, i: nat, j: nat)
    requires i < j < |filenames| && filenames[i] == filenames[j] && ListedName(filenames[i], path).Some?
    ensures !Distinct(NamesOf(Listing(filenames, path)))
  {
    hide Listing, ListedName, IsChild;
    var es := Listing(filenames, path);
    var name := ListedName(filenames[i], path).value;
    ListedIffChild(filenames[i], path, name);
    ListingIsChildren(filenames, path);
    var d, e := Entry(name, i), Entry(name, j);
    assert Occurrences(filenames, path, d) == 1 && Occurrences(filenames, path, e) == 1;
    assert d in multiset(es) && e in multiset(es);
    var a :| 0 <= a < |es| && es[a] == d;
    var b :| 0 <= b < |es| && es[b] == e;
    assert a != b && NamesOf(es)[a] == NamesOf(es)[b];
  }

  /** A listing has no name twice iff no two files directly in the directory have the same path. */
  lemma ListingDistinctIff(filenames: seq<string>, path: string)
    ensures Distinct(NamesOf(Listing(filenames, path))) <==> DistinctChildren(filenames, path)
  {
    hide Listing, ListedName;
    var es := Listing(filenames, path);
    if DistinctChildren(filenames, path) {
      forall i, j | 0 <= i < j < |es| ensures NamesOf(es)[i] != NamesOf(es)[j] {
        SameNameSamePath(filenames, path, es, i, j);
      }
    } else {
      var i, j :| 0 <= i < j < |filenames| && ListedName(filenames[i], path).Some? && filenames[i] == filenames[j];
      SamePathSameName(filenames, path, i, j);
    }
  }

  ghost predicate FilesAscend(es: seq<Entry>) {
    forall i, j :: 0 <= i < j < |es| ==> es[i].file < es[j].file
  }

  /** Files listed under the same name keep the order in which they were created. */
  lemma {:induction false} ListingIsStable(filenames: seq<string>, path: string, name: string)
    ensures FilesAscend(WithName(Listing(filenames, path), name))
    ensures forall e :: e in WithName(Listing(filenames, path), name) ==> e.file < |filenames|
  {
    hide ListedName, Insert, Sorted, WithName;
    if filenames == [] {
      NoneWithName([], name);
    } else {
      var n := |filenames| - 1;
      ListingIsStable(filenames[..n], path, name);
      ListingSorted(filenames[..n], path);
      if ListedName(filenames[n], path).Some? {
        InsertIsStable(Listing(filenames[..n], path), Entry(ListedName(filenames[n], path).value, n), name);
      }
    }
  }
}
