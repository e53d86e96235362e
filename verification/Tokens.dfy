// Splitting text at a delimiter: the tokens a text has, and what the two tokenizers return.

module Tokens {
  import opened Results

  // ---------- The tokens of a text

  /** The first position from `i` on that does not hold the delimiter, or the length. */
  function Skip(s: string, d: char, i: nat): (j: nat)
    requires i <= |s|
    ensures i <= j <= |s| && (j < |s| ==> s[j] != d)
    ensures forall k :: i <= k < j ==> s[k] == d
    decreases |s| - i
  {
    if i == |s| || s[i] != d then i else Skip(s, d, i + 1)
  }

  /** The first position from `i` on that holds the delimiter, or the length. */
  function End(s: string, d: char, i: nat): (j: nat)
    requires i <= |s|
    ensures i <= j <= |s| && (j < |s| ==> s[j] == d)
    ensures forall k :: i <= k < j ==> s[k] != d
    decreases |s| - i
  {
    if i == |s| || s[i] == d then i else End(s, d, i + 1)
  }

  /** The characters from position `from` up to, but not including, position `to`. */
  datatype Run = Run(from: nat, to: nat)

  /** A maximal run without delimiters. */
  predicate IsRun(s: string, d: char, r: Run) {
    && r.from < r.to <= |s|
    && (forall k :: r.from <= k < r.to ==> s[k] != d)
    && (r.from == 0 || s[r.from - 1] == d)
    && (r.to == |s| || s[r.to] == d)
  }

  function Runs(s: string, d: char, i: nat): seq<Run>
    requires i <= |s|
    decreases |s| - i
  {
    var from := Skip(s, d, i);
    if from == |s| then [] else [Run(from, End(s, d, from))] + Runs(s, d, End(s, d, from))
  }

  /** The texts of the runs in order. */
  function Tokens(s: string, d: char): seq<string>
    decreases |s|
  {
    var from := Skip(s, d, 0);
    if from == |s| then []
    else
      var to := End(s, d, from);
      [s[from..to]] + Tokens(s[to..], d)
  }

  ghost predicate InOrder(runs: seq<Run>) {
    forall m, n :: 0 <= m < n < |runs| ==> runs[m].to < runs[n].from
  }

  ghost predicate AllRuns(s: string, d: char, i: nat, runs: seq<Run>) {
    forall r :: r in runs <==> IsRun(s, d, r) && r.from >= i
  }

  lemma {:induction false} RunsFrom(s: string, d: char, i: nat)
    requires i <= |s| && (i == 0 || i == |s| || s[i] == d || s[i - 1] == d)
    ensures AllRuns(s, d, i, Runs(s, d, i)) && InOrder(Runs(s, d, i))
    decreases |s| - i
  {
    var from := Skip(s, d, i);
    if from < |s| {
      var to := End(s, d, from);
      RunsFrom(s, d, to);
      MoreRuns(s, d, i, from, to, Runs(s, d, to));
    } else {
      forall r: Run | r.from >= i ensures !IsRun(s, d, r) {
        var first := if r.from < |s| then s[r.from] else d;
      }
    }
  }

  lemma MoreRuns(s: string, d: char, i: nat, from: nat, to: nat, runs: seq<Run>)
    requires i <= from < to <= |s| && (i == 0 || s[i] == d || s[i - 1] == d)
    requires from == Skip(s, d, i) && to == End(s, d, from)
    requires AllRuns(s, d, to, runs) && InOrder(runs)
    ensures AllRuns(s, d, i, [Run(from, to)] + runs) && InOrder([Run(from, to)] + runs)
  {
    var all := [Run(from, to)] + runs;
    forall r ensures r in all <==> IsRun(s, d, r) && r.from >= i {
      OneRun(s, d, i, from, to, r);
      assert r in all <==> r == Run(from, to) || r in runs;
    }
    forall n | 0 <= n < |runs| ensures runs[n].from > to {
      assert runs[n] in runs;
      assert IsRun(s, d, runs[n]) && runs[n].from >= to;
      assert s[runs[n].from] != d;
    }
  }

  lemma OneRun(s: string, d: char, i: nat, from: nat, to: nat, r: Run)
    requires i <= from < to <= |s| && (i == 0 || s[i] == d || s[i - 1] == d)
    requires from == Skip(s, d, i) && to == End(s, d, from)
    ensures IsRun(s, d, r) && r.from >= i <==> r == Run(from, to) || (IsRun(s, d, r) && r.from >= to)
  {
    if IsRun(s, d, r) && i <= r.from < to {
      var first := s[r.from];
      var before := if r.from > 0 then s[r.from - 1] else d;
      var behind := if r.to < |s| then s[r.to] else d;
    }
  }

  /** Each token is the text of the run at its place. */
  ghost predicate TextsOf(tokens: seq<string>, s: string, runs: seq<Run>) {
    && |tokens| == |runs|
    && forall n :: 0 <= n < |runs| ==>
         runs[n].from <= runs[n].to <= |s| && tokens[n] == s[runs[n].from..runs[n].to]
  }

  lemma {:induction false} TokensAreTexts(s: string, d: char, i: nat)
    requires i <= |s|
    ensures TextsOf(Tokens(s[i..], d), s, Runs(s, d, i))
    decreases |s| - i
  {
    hide Tokens, Runs, Skip, End, TextsOf;
    TokensStep(s, d, i);
    var from := Skip(s, d, i);
    if from < |s| {
      var to := End(s, d, from);
      TokensAreTexts(s, d, to);
      RunsStep(s, d, i);
      OneMoreText(Tokens(s[to..], d), s, Runs(s, d, to), Run(from, to));
    } else {
      NoTexts(s, d, i);
    }
  }

  lemma NoTexts(s: string, d: char, i: nat)
    requires i <= |s| && Skip(s, d, i) == |s|
    ensures TextsOf([], s, Runs(s, d, i))
  {
    hide Skip;
  }

  lemma OneMoreText(tokens: seq<string>, s: string, runs: seq<Run>, run: Run)
    requires TextsOf(tokens, s, runs) && run.from <= run.to <= |s|
    ensures TextsOf([s[run.from..run.to]] + tokens, s, [run] + runs)
  {
  }

  lemma RunsStep(text: string, d: char, i: nat)
    requires i <= |text| && Skip(text, d, i) < |text|
    ensures var start := Skip(text, d, i); var end := End(text, d, start);
      Runs(text, d, i) == [Run(start, end)] + Runs(text, d, end)
  {
  }

  /** The tokens of what follows position `i`, by positions in the whole text. */
  lemma TokensStep(s: string, d: char, i: nat)
    requires i <= |s|
    ensures var from := Skip(s, d, i); var to := End(s, d, from);
      Tokens(s[i..], d) == if from == |s| then [] else [s[from..to]] + Tokens(s[to..], d)
  {
    hide Tokens, Skip, End;
    TokensDefinition(s[i..], d);
    SkipShift(s, d, i, 0);
    var from := Skip(s, d, i);
    if from < |s| {
      EndShift(s, d, i, from - i);
      Slices(s, i, from - i, End(s, d, from) - i);
    }
  }

  lemma TokensDefinition(s: string, d: char)
    ensures var from := Skip(s, d, 0); var to := End(s, d, from);
      Tokens(s, d) == if from == |s| then [] else [s[from..to]] + Tokens(s[to..], d)
  {
    hide Skip, End;
  }

  lemma Slices(s: string, i: nat, a: nat, b: nat)
    requires a <= b && i + b <= |s|
    ensures s[i..][a..b] == s[i + a..i + b] && s[i..][b..] == s[i + b..]
  {
  }

  lemma SkipShift(s: string, d: char, i: nat, k: nat)
    requires i + k <= |s|
    ensures Skip(s, d, i + k) == i + Skip(s[i..], d, k)
  {
  }

  lemma EndShift(s: string, d: char, i: nat, k: nat)
    requires i + k <= |s|
    ensures End(s, d, i + k) == i + End(s[i..], d, k)
  {
  }

  /** The tokens are exactly the maximal runs without delimiters, each once and in order. */
  lemma TokensAreMaximalRuns(s: string, d: char)
    ensures AllRuns(s, d, 0, Runs(s, d, 0)) && InOrder(Runs(s, d, 0))
    ensures TextsOf(Tokens(s, d), s, Runs(s, d, 0))
  {
    hide Tokens, Runs;
    RunsFrom(s, d, 0);
    TokensAreTexts(s, d, 0);
    assert s[0..] == s;
  }

  // ---------- The shell's splitter

  datatype SplitError = OutOfRange

  /** Where the last character that is not the delimiter stands; there is one. */
  function LastOther(s: string, d: char): (i: nat)
    requires exists k :: 0 <= k < |s| && s[k] != d
    ensures i < |s| && s[i] != d && forall k :: i < k < |s| ==> s[k] == d
  {
    if s[|s| - 1] != d then |s| - 1 else LastOther(s[..|s| - 1], d)
  }

  predicate OnlyDelimiters(s: string, d: char) {
    forall k :: 0 <= k < |s| ==> s[k] == d
  }

  /** The view without the delimiters around it. */
  function Trimmed(view: string, d: char): (t: string)
    requires !OnlyDelimiters(view, d)
    ensures t != "" && t[0] != d && t[|t| - 1] != d
  {
    view[Skip(view, d, 0)..LastOther(view, d) + 1]
  }

  /** The next part and the view left; a view of delimiters only makes `substr` fail. */
  function NextPart(view: string, d: char): Result<(string, string), SplitError> {
    if view == "" then Ok(("", ""))
    else if OnlyDelimiters(view, d) then Err(OutOfRange)
    else
      var t := Trimmed(view, d);
      var p := End(t, d, 0);
      if p == |t| then Ok((t, "")) else Ok((t[..p], t[p + 1..]))
  }

  lemma NextOfTrimmed(view: string, d: char)
    requires !OnlyDelimiters(view, d)
    ensures var t := Trimmed(view, d); var p := End(t, d, 0);
      NextPart(view, d) == Ok(if p == |t| then (t, "") else (t[..p], t[p + 1..]))
  {
  }

  lemma NextOfDelimiters(view: string, d: char)
    requires OnlyDelimiters(view, d)
    ensures NextPart(view, d) == if view == "" then Ok(("", "")) else Err(OutOfRange)
  {
  }

  lemma NextPartShrinks(view: string, d: char)
    ensures view != "" && NextPart(view, d).Ok? ==> |NextPart(view, d).value.1| < |view|
  {
  }

  /** What repeated calls return until the view is empty. */
  function Parts(view: string, d: char): seq<string>
    decreases |view|
  {
    NextPartShrinks(view, d);
    if view == "" || NextPart(view, d).Err? then []
    else [NextPart(view, d).value.0] + Parts(NextPart(view, d).value.1, d)
  }

  lemma OneDelimiterLess(s: string, d: char)
    requires s != "" && s[0] == d
    ensures Tokens(s, d) == Tokens(s[1..], d)
  {
    hide Tokens, End;
    TokensStep(s, d, 1);
    TokensDefinition(s, d);
    assert Skip(s, d, 0) == Skip(s, d, 1);
  }

  lemma {:induction false} LeadingDelimiters(s: string, d: char, i: nat)
    requires i <= |s| && OnlyDelimiters(s[..i], d)
    ensures Tokens(s, d) == Tokens(s[i..], d)
    decreases i
  {
    if i > 0 {
      assert s[..i][0] == d;
      OneDelimiterLess(s, d);
      assert s[1..][..i - 1] == s[..i][1..];
      LeadingDelimiters(s[1..], d, i - 1);
      assert s[1..][i - 1..] == s[i..];
    } else {
      assert s[0..] == s;
    }
  }

  lemma SkipEnd(s: string, d: char, i: nat)
    requires i < |s| && s[i] != d
    ensures Skip(s, d, i) == i && End(s, d, i) > i
  {
  }

  lemma SameSkipAndEnd(s: string, ds: string, d: char)
    requires OnlyDelimiters(ds, d)
    ensures Skip(s, d, 0) == |s| ==> Skip(s + ds, d, 0) == |s + ds|
    ensures Skip(s, d, 0) < |s| ==>
      Skip(s + ds, d, 0) == Skip(s, d, 0) && End(s + ds, d, Skip(s, d, 0)) == End(s, d, Skip(s, d, 0))
  {
    hide Skip, End;
    var all, from := s + ds, Skip(s, d, 0);
    assert forall k :: 0 <= k < |all| ==> all[k] == if k < |s| then s[k] else ds[k - |s|];
    var skip := Skip(all, d, 0);
    var c := if skip < |all| then all[skip] else d;
    if from < |s| {
      assert all[from] == s[from] != d;
      var to, end := End(s, d, from), End(all, d, from);
      assert to < |all| ==> all[to] == d;
      assert to < |s| ==> s[to] == d;
    }
  }

  lemma {:induction false} TrailingDelimiters(s: string, ds: string, d: char)
    requires OnlyDelimiters(ds, d)
    ensures Tokens(s + ds, d) == Tokens(s, d)
    decreases |s|
  {
    hide Tokens, Skip, End, OnlyDelimiters;
    TokensDefinition(s, d);
    TokensDefinition(s + ds, d);
    SameSkipAndEnd(s, ds, d);
    var from := Skip(s, d, 0);
    if from < |s| {
      var to := End(s, d, from);
      assert (s + ds)[to..] == s[to..] + ds && (s + ds)[from..to] == s[from..to];
      SkipEnd(s, d, from);
      TrailingDelimiters(s[to..], ds, d);
    }
  }

  lemma TrimmedTokens(view: string, d: char)
    requires !OnlyDelimiters(view, d)
    ensures Tokens(view, d) == Tokens(Trimmed(view, d), d)
  {
    hide Tokens, Skip, LastOther;
    var from, last := Skip(view, d, 0), LastOther(view, d);
    LeadingDelimiters(view, d, from);
    assert view[from..] == Trimmed(view, d) + view[last + 1..];
    TrailingDelimiters(Trimmed(view, d), view[last + 1..], d);
  }

  lemma FirstToken(t: string, d: char)
    requires t != "" && t[0] != d
    ensures var p := End(t, d, 0);
      Tokens(t, d) == if p == |t| then [t] else [t[..p]] + Tokens(t[p + 1..], d)
  {
    var p := End(t, d, 0);
    SkipEnd(t, d, 0);
    assert t[0..p] == t[..p];
    if p < |t| {
      OneDelimiterLess(t[p..], d);
      assert t[p..][1..] == t[p + 1..];
    } else {
      assert t[..p] == t && Tokens(t[p..], d) == [];
    }
  }

  /**
   * On every view that is empty or has something besides delimiters, repeated calls return exactly
   * the tokens, and after each call the view is empty or ends in something besides the delimiter.
   */
  lemma {:induction false} PartsAreTokens(view: string, d: char)
    requires view == "" || !OnlyDelimiters(view, d)
    ensures Parts(view, d) == Tokens(view, d)
    ensures NextPart(view, d).Ok?
    ensures var rest := NextPart(view, d).value.1; rest == "" || rest[|rest| - 1] != d
    decreases |view|
  {
    hide Tokens, Trimmed;
    if view == "" {
      NoTokens(d);
    } else {
      TrimmedTokens(view, d);
      FirstToken(Trimmed(view, d), d);
      NextPartShrinks(view, d);
      PartsAreTokens(NextPart(view, d).value.1, d);
      PartsOfNothing(d);
    }
  }

  lemma NoTokens(d: char)
    ensures Tokens("", d) == []
  {
  }

  lemma PartsOfNothing(d: char)
    ensures Parts("", d) == []
  {
  }

  /** The splitter fails iff its text is not empty and has nothing but delimiters. */
  lemma FailsIff(view: string, d: char)
    ensures NextPart(view, d).Err? <==> view != "" && Tokens(view, d) == []
  {
    if view != "" && !OnlyDelimiters(view, d) {
      assert Skip(view, d, 0) < |view|;
    }
  }

  /** Two blanks are neither empty nor a part. */
  lemma OnlyBlanks()
    ensures NextPart("  ", ' ') == Err(OutOfRange) && Tokens("  ", ' ') == []
  {
    FailsIff("  ", ' ');
  }

  // ---------- The path tokenizer

  /** The part in front and the path left, slash first. */
  function NextName(path: string): (r: (string, string))
    ensures r.0 != "" ==> |r.1| < |path|
  {
    var from := Skip(path, '/', 0);
    if from == |path| then ("", "")
    else
      var to := End(path, '/', from);
      (path[from..to], path[to..])
  }

  /** What repeated calls return until one returns nothing. */
  function Names(path: string): seq<string>
    decreases |path|
  {
    if NextName(path).0 == "" then [] else [NextName(path).0] + Names(NextName(path).1)
  }

  /** The path tokenizer returns the tokens between slashes, and nothing only when there are none left. */
  lemma {:induction false} NamesAreTokens(path: string)
    ensures Names(path) == Tokens(path, '/')
    ensures NextName(path).0 == "" <==> Tokens(path, '/') == []
    decreases |path|
  {
    var from := Skip(path, '/', 0);
    if from < |path| {
      SkipEnd(path, '/', from);
      NamesAreTokens(path[End(path, '/', from)..]);
    }
  }
}
