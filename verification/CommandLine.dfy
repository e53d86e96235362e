// The shell's command parser: a whole line split in place, and the C strings its arguments are.

module CommandLine {
  import opened CStrings
  import opened Results
  import opened Tokens
  import opened Tokenizers

  /** A run ends at the position, and it is not the last one. */
  ghost predicate EndsEarlierRun(runs: seq<Run>, i: nat) {
    exists k :: 0 <= k < |runs| - 1 && runs[k].to == i
  }

  /** The buffer holds the text, with a zero behind every run but the last. */
  ghost predicate ZeroedBehind(text: string, runs: seq<Run>, buffer: seq<char>) {
    && |text| <= |buffer|
    && forall i :: 0 <= i < |text| ==> buffer[i] == if EndsEarlierRun(runs, i) then '\0' else text[i]
  }

  // ---------- One part, by positions in the whole text

  /** The view from `from` to `to` is what is left of the text, but for delimiters at its end. */
  ghost predicate ViewOf(text: string, d: char, from: nat, to: nat, view: string) {
    from <= to <= |text| && view == text[from..to] && OnlyDelimiters(text[to..], d)
  }

  lemma SkipInView(text: string, d: char, from: nat, to: nat, view: string)
    requires ViewOf(text, d, from, to, view) && !OnlyDelimiters(view, d)
    ensures var start := from + Skip(view, d, 0);
      && start < to && start == Skip(text, d, from)
      && from + End(view, d, Skip(view, d, 0)) == End(text, d, start)
      && End(text, d, start) <= to
  {
    hide Skip, End;
    var skip := Skip(view, d, 0);
    assert skip < |view|;
    assert text[from..] == view + text[to..];
    SameSkipAndEnd(view, text[to..], d);
    SkipShift(text, d, from, 0);
    EndShift(text, d, from, skip);
  }

  /** Cutting the first part off the view is cutting the first run off the text. */
  lemma PartIsRun(text: string, d: char, from: nat, to: nat, view: string)
    requires ViewOf(text, d, from, to, view) && !OnlyDelimiters(view, d)
    ensures NextPart(view, d).Ok?
    ensures var start, part, rest := from + Skip(view, d, 0), NextPart(view, d).value.0, NextPart(view, d).value.1;
      var end := start + |part|;
      && start < end <= |text| && part == text[start..end]
      && Runs(text, d, from) == [Run(start, end)] + Runs(text, d, end)
      && (rest == "" ==> Runs(text, d, end) == [])
      && (rest != "" ==> ViewOf(text, d, end + 1, end + 1 + |rest|, rest) && !OnlyDelimiters(rest, d)
                         && Runs(text, d, end) == Runs(text, d, end + 1) != [])
  {
    hide Skip, End, LastOther, OnlyDelimiters, Runs, Trimmed, ViewOf, NextPart;
    TrimmedPlace(text, d, from, to, view);
    var start, last := from + Skip(view, d, 0), from + LastOther(view, d);
    FirstRun(text, d, from, to, view);
    CutTrimmed(text, d, start, last, Trimmed(view, d));
    NextOfTrimmed(view, d);
  }

  /** Where the trimmed view lies in the text. */
  lemma TrimmedPlace(text: string, d: char, from: nat, to: nat, view: string)
    requires ViewOf(text, d, from, to, view) && !OnlyDelimiters(view, d)
    ensures var start, last := from + Skip(view, d, 0), from + LastOther(view, d);
      && start <= last < |text| && text[start] != d && text[last] != d && OnlyDelimiters(text[last + 1..], d)
      && Trimmed(view, d) == text[start..last + 1]
  {
    hide Skip, LastOther, OnlyDelimiters, Trimmed;
    SkipInView(text, d, from, to, view);
    TrimmedIs(text, d, from, to, view);
    TrimmedEnd(text, d, from, to, view);
  }

  /** The text's first run from the view on starts where the view's does. */
  lemma FirstRun(text: string, d: char, from: nat, to: nat, view: string)
    requires ViewOf(text, d, from, to, view) && !OnlyDelimiters(view, d)
    ensures var start := from + Skip(view, d, 0);
      && start <= |text|
      && Runs(text, d, from) == [Run(start, End(text, d, start))] + Runs(text, d, End(text, d, start))
  {
    hide Skip, End, OnlyDelimiters, Runs;
    SkipInView(text, d, from, to, view);
    RunsStep(text, d, from);
  }

  /** The first run of a trimmed view, and what is behind it. */
  lemma CutTrimmed(text: string, d: char, start: nat, last: nat, t: string)
    requires start <= last < |text| && text[start] != d && text[last] != d && OnlyDelimiters(text[last + 1..], d)
    requires t == text[start..last + 1]
    ensures var p := End(t, d, 0); var end := start + p;
      && 0 < p && end <= |text| && t[..p] == text[start..end] && End(text, d, start) == end
      && (p == |t| ==> t == text[start..end] && Runs(text, d, end) == [])
      && (p < |t| ==>
            var rest := t[p + 1..];
            && rest != "" && ViewOf(text, d, end + 1, end + 1 + |rest|, rest) && !OnlyDelimiters(rest, d)
            && Runs(text, d, end) == Runs(text, d, end + 1) != [])
  {
    hide End, OnlyDelimiters, Runs;
    var p := End(t, d, 0);
    EndInTrimmed(text, d, start, last);
    var end := start + p;
    SliceFront(text, start, last + 1, p);
    if p < |t| {
      assert t[p + 1..] == text[end + 1..last + 1];
      assert text[end] == t[p] && t[|t| - 1] == text[last];
      RestTokens(t, d, p);
      RunsBehind(text, d, end);
      RunsExist(text, d, end + 1, last);
    } else {
      NoRunsBehind(text, d, end);
    }
  }

  lemma TrimmedIs(text: string, d: char, from: nat, to: nat, view: string)
    requires ViewOf(text, d, from, to, view) && !OnlyDelimiters(view, d)
    ensures from + Skip(view, d, 0) <= from + LastOther(view, d) < to
    ensures Trimmed(view, d) == text[from + Skip(view, d, 0)..from + LastOther(view, d) + 1]
  {
    hide Skip, LastOther;
    var a, b := Skip(view, d, 0), LastOther(view, d) + 1;
    assert view[b - 1] != d;
    SliceSlice(text, from, to, a, b);
  }

  lemma SliceSlice(text: string, from: nat, to: nat, a: nat, b: nat)
    requires from <= to <= |text| && a <= b <= to - from
    ensures text[from..to][a..b] == text[from + a..from + b]
  {
    var view := text[from..to];
    assert forall k :: 0 <= k < |view| ==> view[k] == text[from + k];
    assert view[a..b] == text[from + a..from + b];
  }

  lemma TrimmedEnd(text: string, d: char, from: nat, to: nat, view: string)
    requires ViewOf(text, d, from, to, view) && !OnlyDelimiters(view, d)
    ensures var last := from + LastOther(view, d);
      last < to && text[last] != d && OnlyDelimiters(text[last + 1..], d)
  {
    hide LastOther;
    var last := from + LastOther(view, d);
    var tail := text[last + 1..];
    forall k | 0 <= k < |tail| ensures tail[k] == d {
      if last + 1 + k < to {
        assert view[last + 1 + k - from] == d;
      } else {
        assert text[to..][last + 1 + k - to] == d;
      }
    }
  }

  lemma EndInTrimmed(text: string, d: char, start: nat, last: nat)
    requires start <= last < |text| && text[start] != d && text[last] != d && OnlyDelimiters(text[last + 1..], d)
    ensures var t := text[start..last + 1]; var p := End(t, d, 0);
      End(text, d, start) == start + p && p > 0
  {
    hide End;
    var t := text[start..last + 1];
    EndShift(text, d, start, 0);
    assert text[start..] == t + text[last + 1..];
    assert t[0] != d;
    SameSkipAndEnd(t, text[last + 1..], d);
    FirstIsOther(t, d);
  }

  lemma FirstIsOther(t: string, d: char)
    requires t != "" && t[0] != d
    ensures Skip(t, d, 0) == 0 && End(t, d, 0) > 0
  {
  }

  lemma RestTokens(t: string, d: char, p: nat)
    requires p < |t| && t[|t| - 1] != d && t[p] == d
    ensures t[p + 1..] != "" && !OnlyDelimiters(t[p + 1..], d)
  {
    assert t[p + 1..][|t| - p - 2] == t[|t| - 1];
  }

  lemma SliceFront(text: string, a: nat, b: nat, p: nat)
    requires a + p <= b <= |text|
    ensures text[a..b][..p] == text[a..a + p]
  {
  }

  lemma RunsBehind(text: string, d: char, i: nat)
    requires i < |text| && text[i] == d
    ensures Runs(text, d, i) == Runs(text, d, i + 1)
  {
    assert Skip(text, d, i) == Skip(text, d, i + 1);
  }

  lemma RunsExist(text: string, d: char, i: nat, k: nat)
    requires i <= k < |text| && text[k] != d
    ensures Runs(text, d, i) != []
  {
    assert Skip(text, d, i) <= k;
  }

  lemma NoRunsBehind(text: string, d: char, i: nat)
    requires i <= |text| && OnlyDelimiters(text[i..], d)
    ensures Runs(text, d, i) == []
  {
    forall k | i <= k < |text| ensures text[k] == d {
      assert text[i..][k - i] == text[k];
    }
  }

  // ---------- The whole line

  /** Where the split stands: the runs cut off so far, and the text and the view that are left. */
  ghost predicate SplitSoFar(text: string, d: char, done: seq<Run>, parts: seq<string>, from: nat, left: seq<Run>) {
    && from <= |text|
    && Runs(text, d, 0) == done + left
    && TextsOf(parts, text, done)
    && left == Runs(text, d, from)
  }

  /** Every run cut off while others were left is followed by a zero. */
  ghost predicate ZeroedSoFar(text: string, done: seq<Run>, more: bool, buffer: seq<char>) {
    && |text| <= |buffer|
    && forall i :: 0 <= i < |text| ==>
         buffer[i] == if EndsEarlierRun(if more then done + [Run(0, 0)] else done, i) then '\0' else text[i]
  }

  lemma MoreEnds(done: seq<Run>, run: Run, i: nat)
    ensures EndsEarlierRun(done + [run] + [Run(0, 0)], i) <==> EndsEarlierRun(done + [Run(0, 0)], i) || run.to == i
    ensures EndsEarlierRun(done + [run], i) <==> EndsEarlierRun(done + [Run(0, 0)], i)
  {
    var all, was, last := done + [run] + [Run(0, 0)], done + [Run(0, 0)], done + [run];
    assert all[|done|] == run;
    assert forall k :: 0 <= k < |done| ==> all[k] == done[k] && was[k] == done[k] && last[k] == done[k];
  }

  /** One more part: at most one more zero. */
  lemma OneMoreZero(text: string, d: char, done: seq<Run>, run: Run, more: bool, before: seq<char>, after: seq<char>)
    requires ZeroedSoFar(text, done, true, before) && run.to <= |text| && (more ==> run.to < |text|)
    requires Terminated(before, after, d, run.to, more)
    ensures ZeroedSoFar(text, done + [run], more, after)
  {
    hide EndsEarlierRun;
    forall i | 0 <= i < |text|
      ensures after[i] == if EndsEarlierRun(if more then done + [run] + [Run(0, 0)] else done + [run], i) then '\0' else text[i]
    {
      MoreEnds(done, run, i);
    }
  }

  lemma NothingZeroed(text: string, buffer: seq<char>)
    requires |text| <= |buffer| && buffer[..|text|] == text
    ensures ZeroedSoFar(text, [], true, buffer) && ZeroedSoFar(text, [], false, buffer)
  {
    assert forall i :: 0 <= i < |text| ==> buffer[i] == buffer[..|text|][i];
  }

  lemma AllZeroed(text: string, runs: seq<Run>, buffer: seq<char>)
    requires ZeroedSoFar(text, runs, false, buffer)
    ensures ZeroedBehind(text, runs, buffer)
  {
  }

  lemma OneMorePart(text: string, d: char, done: seq<Run>, parts: seq<string>, from: nat, left: seq<Run>, run: Run,
                    part: string, next: nat)
    requires SplitSoFar(text, d, done, parts, from, left) && run.from < run.to <= |text| && next <= |text|
    requires left == [run] + Runs(text, d, run.to) && Runs(text, d, run.to) == Runs(text, d, next)
    requires part == text[run.from..run.to]
    ensures SplitSoFar(text, d, done + [run], parts + [part], next, Runs(text, d, next))
  {
    hide Runs;
    assert done + left == done + [run] + Runs(text, d, next);
  }

  /** What is done, and the view that is left of the text. */
  ghost predicate Splitting(text: string, d: char, done: seq<Run>, parts: seq<string>, buffer: seq<char>,
                            from: nat, to: nat, view: string) {
    && ZeroedSoFar(text, done, view != "", buffer)
    && if view != "" then
         && !OnlyDelimiters(view, d) && ViewOf(text, d, from, to, view)
         && SplitSoFar(text, d, done, parts, from, Runs(text, d, from))
       else Runs(text, d, 0) == done && TextsOf(parts, text, done)
  }

  /** A call cuts one run off: its part and its view, and at most one zero. */
  lemma OneMoreRun(text: string, d: char, done: seq<Run>, parts: seq<string>, before: seq<char>, after: seq<char>,
                   from: nat, to: nat, view: string, part: string, rest: string, next: nat)
    requires view != "" && Splitting(text, d, done, parts, before, from, to, view)
    requires NextPart(view, d) == Ok((part, rest))
    requires Terminated(before, after, d, from + Skip(view, d, 0) + |part|, rest != "")
    requires rest != "" ==> next == from + Skip(view, d, 0) + |part| + 1
    ensures var run := Run(from + Skip(view, d, 0), from + Skip(view, d, 0) + |part|);
      Splitting(text, d, done + [run], parts + [part], after, next, next + |rest|, rest)
    ensures |text| <= |after| == |before| && after[|text|..] == before[|text|..]
  {
    hide Runs, Skip, OnlyDelimiters, ZeroedSoFar, TextsOf, SplitSoFar, NextPart;
    PartIsRun(text, d, from, to, view);
    var start := from + Skip(view, d, 0);
    var run := Run(start, start + |part|);
    SoFarFits(text, done, true, before);
    OneMoreZero(text, d, done, run, rest != "", before, after);
    OneMorePart(text, d, done, parts, from, Runs(text, d, from), run, part, if rest == "" then run.to else next);
    if rest == "" {
      LastPart(text, d, done + [run], parts + [part], run.to);
    }
  }

  lemma SoFarFits(text: string, done: seq<Run>, more: bool, buffer: seq<char>)
    requires ZeroedSoFar(text, done, more, buffer)
    ensures |text| <= |buffer|
  {
  }

  lemma LastPart(text: string, d: char, done: seq<Run>, parts: seq<string>, from: nat)
    requires SplitSoFar(text, d, done, parts, from, [])
    ensures Runs(text, d, 0) == done && TextsOf(parts, text, done)
  {
    assert done + [] == done;
  }

  lemma SplitStarts(text: string, d: char, buffer: seq<char>)
    requires |text| <= |buffer| && buffer[..|text|] == text && (text == "" || !OnlyDelimiters(text, d))
    ensures Splitting(text, d, [], [], buffer, 0, |text|, text)
  {
    NothingZeroed(text, buffer);
    assert text[0..|text|] == text;
    if text != "" {
      assert Runs(text, d, 0) == [] + Runs(text, d, 0);
    }
  }

  lemma SplitEnds(text: string, d: char, done: seq<Run>, parts: seq<string>, buffer: seq<char>, from: nat, to: nat)
    requires Splitting(text, d, done, parts, buffer, from, to, "")
    ensures parts == Tokens.Tokens(text, d) && ZeroedBehind(text, Runs(text, d, 0), buffer)
  {
    hide Runs, Tokens.Tokens;
    TokensAreMaximalRuns(text, d);
    AllZeroed(text, done, buffer);
    SameTexts(parts, Tokens.Tokens(text, d), text, done);
  }

  lemma SameTexts(a: seq<string>, b: seq<string>, text: string, runs: seq<Run>)
    requires TextsOf(a, text, runs) && TextsOf(b, text, runs)
    ensures a == b
  {
  }

  lemma NoTokensNoSplit(text: string, d: char, buffer: seq<char>)
    requires |text| <= |buffer| && buffer[..|text|] == text && OnlyDelimiters(text, d)
    ensures Tokens.Tokens(text, d) == [] && ZeroedBehind(text, Runs(text, d, 0), buffer)
  {
    assert text[0..] == text;
    NoRunsBehind(text, d, 0);
    TokensAreMaximalRuns(text, d);
    NothingZeroed(text, buffer);
    AllZeroed(text, [], buffer);
  }

  /** A parser in the middle of a line. */
  ghost predicate SplitBy(parser: Splitter, text: string, done: seq<Run>, parts: seq<string>, tail: seq<char>)
    reads parser, parser.input
  {
    && parser.delimiter == ' ' && parser.insertNullCharacter && parser.Valid() && |text| <= parser.input.Length
    && Splitting(text, ' ', done, parts, parser.input[..], parser.from, parser.to, parser.View())
    && parser.input[|text|..] == tail
  }

  /** The next part, while there is one. */
  method GetNextArgument(parser: Splitter, ghost text: string, ghost done: seq<Run>, ghost parts: seq<string>,
                         ghost tail: seq<char>)
    returns (argument: string, ghost run: Run)
    requires SplitBy(parser, text, done, parts, tail) && parser.View() != ""
    modifies parser`from, parser`to, parser.input
    ensures SplitBy(parser, text, done + [run], parts + [argument], tail)
    ensures |parser.View()| < |old(parser.View())|
  {
    hide Skip, Splitting, Terminated, NextPart;
    ghost var from, to, view, was := parser.from, parser.to, parser.View(), parser.input[..];
    SplitGoesOn(text, ' ', done, parts, was, from, to, view);
    NextPartShrinks(view, ' ');
    var r := parser.GetNextPart();
    argument := r.value;
    run := Run(from + Skip(view, ' ', 0), from + Skip(view, ' ', 0) + |argument|);
    OneMoreRun(text, ' ', done, parts, was, parser.input[..], from, to, view, argument, parser.View(), parser.from);
  }

  /** Before anything is cut off: a line of delimiters only fails, an empty one has an empty command. */
  method GetCommand(parser: Splitter, ghost text: string) returns (r: Result<string, SplitError>, ghost run: Run)
    requires parser.delimiter == ' ' && parser.insertNullCharacter && parser.Valid() && parser.from == 0
    requires parser.View() == text
    modifies parser`from, parser`to, parser.input
    ensures r.Err? <==> text != "" && Tokens.Tokens(text, ' ') == []
    ensures r.Err? || text == "" ==>
      parser.input[..] == old(parser.input[..]) && ZeroedBehind(text, Runs(text, ' ', 0), parser.input[..])
    ensures text == "" ==> r == Ok("") && parser.Valid() && parser.View() == ""
    ensures r.Ok? && text != "" ==> SplitBy(parser, text, [run], [r.value], old(parser.input[..])[|text|..])
  {
    hide Runs, Skip, OnlyDelimiters, Tokens.Tokens, Splitting, ZeroedBehind, Terminated, NextPart;
    ghost var before := parser.input[..];
    Outcomes(text, ' ', before);
    EmptyView(' ');
    Unchanged(before, ' ');
    if NextPart(text, ' ').Ok? && text != "" {
      assert SplitBy(parser, text, [], [], before[|text|..]);
    }
    ghost var whole := NextPart(text, ' ');
    run := Run(0, 0);
    r := parser.GetNextPart();
    if whole.Ok? && text != "" {
      run := Run(Skip(text, ' ', 0), Skip(text, ' ', 0) + |r.value|);
      OneMoreRun(text, ' ', [], [], before, parser.input[..], 0, |text|, text, r.value, parser.View(), parser.from);
      assert [] + [run] == [run] && [] + [r.value] == [r.value];
    }
  }

  /** The command and its arguments; the line is split in place. */
  method ParseCommand(input: array<char>) returns (r: Result<seq<string>, SplitError>)
    requires '\0' in input[..]
    modifies input
    ensures var text := CText(old(input[..]));
      r == if text != "" && Tokens.Tokens(text, ' ') == [] then Err(OutOfRange)
           else Ok(if text == "" then [""] else Tokens.Tokens(text, ' '))
    ensures var text := CText(old(input[..]));
      && ZeroedBehind(text, Runs(text, ' ', 0), input[..])
      && input[|text|..] == old(input[..])[|text|..]
  {
    hide Runs, Tokens.Tokens, Splitting, ZeroedBehind, CText;
    var parser := new Splitter(input, ' ', true);
    ghost var text, tail := parser.View(), input[..][|parser.View()|..];
    var command, run := GetCommand(parser, text);
    if command.Err? {
      return Err(OutOfRange);
    }
    var parts := [command.value];
    ghost var done := [run];
    var empty := parser.Empty();
    while !empty
      invariant parser.Valid() && (empty <==> parser.View() == "") && (text == "" ==> empty)
      invariant text != "" ==> SplitBy(parser, text, done, parts, tail)
      invariant text == "" ==> parts == [""] && input[..] == old(input[..])
      decreases |parser.View()|
    {
      var argument, next := GetNextArgument(parser, text, done, parts, tail);
      parts := parts + [argument];
      done := done + [next];
      empty := parser.Empty();
    }
    if text != "" {
      SplitEnds(text, ' ', done, parts, input[..], parser.from, parser.to);
    }
    return Ok(parts);
  }

  lemma Outcomes(text: string, d: char, buffer: seq<char>)
    requires |text| <= |buffer| && buffer[..|text|] == text
    ensures NextPart(text, d).Err? <==> text != "" && Tokens.Tokens(text, d) == []
    ensures NextPart(text, d).Err? || text == "" ==>
      ZeroedBehind(text, Runs(text, d, 0), buffer)
    ensures NextPart(text, d).Ok? ==> Splitting(text, d, [], [], buffer, 0, |text|, text)
  {
    hide Runs, Tokens.Tokens, Splitting, ZeroedBehind;
    FailsIff(text, d);
    if OnlyDelimiters(text, d) {
      NoTokensNoSplit(text, d, buffer);
    }
    if NextPart(text, d).Ok? {
      SplitStarts(text, d, buffer);
    }
  }

  lemma Unchanged(before: seq<char>, d: char)
    ensures forall after, end :: Terminated(before, after, d, end, false) ==> after == before
  {
  }

  lemma EmptyView(d: char)
    ensures NextPart("", d) == Ok(("", ""))
  {
  }

  lemma SplitGoesOn(text: string, d: char, done: seq<Run>, parts: seq<string>, buffer: seq<char>,
                    from: nat, to: nat, view: string)
    requires view != "" && Splitting(text, d, done, parts, buffer, from, to, view)
    ensures NextPart(view, d).Ok? && |text| <= |buffer|
  {
  }

  // ---------- The arguments as C strings

  lemma TextAt(text: string, d: char, runs: seq<Run>, k: nat)
    requires runs == Runs(text, d, 0) && k < |runs|
    ensures IsRun(text, d, runs[k]) && InOrder(runs)
  {
    hide Runs;
    TokensAreMaximalRuns(text, d);
    assert runs[k] in runs;
  }

  lemma NoEarlierEnd(runs: seq<Run>, k: nat, i: nat)
    requires InOrder(runs) && k < |runs| && runs[k].from <= i
    requires i < runs[k].to || k == |runs| - 1
    requires forall m :: 0 <= m < |runs| ==> runs[m].from < runs[m].to
    ensures !EndsEarlierRun(runs, i)
  {
    forall m | 0 <= m < |runs| - 1 ensures runs[m].to != i {
      if m < k {
        assert runs[m].to < runs[k].from;
      } else if k < m {
        assert runs[k].to < runs[m].from;
      }
    }
  }

  /**
   * Read from the line as a C string, a part is its token, but the last one keeps the delimiters
   * behind it.
   */
  lemma ArgumentStrings(text: string, d: char, buffer: seq<char>, k: nat)
    requires ZeroedBehind(text, Runs(text, d, 0), buffer) && k < |Runs(text, d, 0)|
    requires |text| < |buffer| && buffer[|text|] == '\0' && '\0' !in text && d != '\0'
    ensures var runs := Runs(text, d, 0); runs[k].from <= runs[k].to <= |text|
    ensures var runs := Runs(text, d, 0); var read := CText(buffer[runs[k].from..]);
      read == if k < |runs| - 1 then text[runs[k].from..runs[k].to] else text[runs[k].from..]
    ensures var runs := Runs(text, d, 0); var read := CText(buffer[runs[k].from..]);
      read == text[runs[k].from..runs[k].to] <==> k < |runs| - 1 || runs[k].to == |text|
  {
    hide Runs, IsRun, EndsEarlierRun;
    var runs := Runs(text, d, 0);
    AllProper(text, d);
    TextAt(text, d, runs, k);
    var from, to := runs[k].from, if k < |runs| - 1 then runs[k].to else |text|;
    var here := buffer[from..];
    forall i | from <= i < to ensures buffer[i] == text[i] {
      NoEarlierEnd(runs, k, i);
    }
    assert here[..to - from] == text[from..to];
    EndIsZero(runs, k);
    CTextIs(here, text[from..to]);
  }

  lemma EndIsZero(runs: seq<Run>, k: nat)
    requires k < |runs|
    ensures k < |runs| - 1 ==> EndsEarlierRun(runs, runs[k].to)
  {
  }

  lemma AllProper(text: string, d: char)
    ensures forall m :: 0 <= m < |Runs(text, d, 0)| ==> Runs(text, d, 0)[m].from < Runs(text, d, 0)[m].to <= |text|
    ensures forall m :: 0 <= m < |Runs(text, d, 0)| - 1 ==> Runs(text, d, 0)[m].to < |text|
  {
    hide Runs;
    var runs := Runs(text, d, 0);
    TokensAreMaximalRuns(text, d);
    forall m | 0 <= m < |runs| ensures runs[m].from < runs[m].to <= |text| {
      assert runs[m] in runs;
    }
    forall m | 0 <= m < |runs| - 1 ensures runs[m].to < |text| {
      assert runs[m].to < runs[m + 1].from;
      assert runs[m + 1] in runs;
    }
  }

  /** A letter and a blank: the token is the letter, the argument is both. */
  lemma BlankBehind(buffer: seq<char>)
    requires |buffer| == 3 && buffer[2] == '\0' && ZeroedBehind("a ", Runs("a ", ' ', 0), buffer)
    ensures Tokens.Tokens("a ", ' ') == ["a"] && CText(buffer) == "a "
  {
    hide ZeroedBehind, CText;
    var text := "a ";
    assert Skip(text, ' ', 0) == 0 && End(text, ' ', 0) == 1 && Skip(text, ' ', 1) == 2;
    assert Runs(text, ' ', 1) == [];
    assert Runs(text, ' ', 0) == [Run(0, 1)];
    assert text[1..] == " " && Skip(" ", ' ', 0) == 1;
    assert Tokens.Tokens(" ", ' ') == [];
    assert text[0..1] == "a";
    assert text[0..] == text && buffer[0..] == buffer;
    ArgumentStrings(text, ' ', buffer, 0);
  }
}
