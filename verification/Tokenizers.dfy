// The shell's splitter and the path tokenizer as they run.

module Tokenizers {
  import opened CStrings
  import opened Results
  import opened Tokens

  /** At most the delimiter at `end` has become a zero. */
  ghost predicate Terminated(before: seq<char>, after: seq<char>, d: char, end: int, changed: bool) {
    if changed then 0 <= end < |before| && before[end] == d && after == before[end := '\0'] else after == before
  }

  /** A view into the buffer it was made from; each part is cut off the front of the view. */
  class Splitter {
    const input: array<char>
    const delimiter: char
    const insertNullCharacter: bool
    var from: nat
    var to: nat

    ghost predicate Valid()
      reads this
    {
      from <= to <= input.Length
    }

    ghost function View(): string
      requires Valid()
      reads this, input
    {
      input[from..to]
    }

    constructor (input: array<char>, delimiter: char, insertNullCharacter: bool)
      requires '\0' in input[..]
      ensures this.input == input && this.delimiter == delimiter && this.insertNullCharacter == insertNullCharacter
      ensures Valid() && from == 0 && View() == CText(input[..])
    {
      this.input, this.delimiter, this.insertNullCharacter := input, delimiter, insertNullCharacter;
      var length := StrLen(input);
      from, to := 0, length;
    }

    method Empty() returns (r: bool)
      requires Valid()
      ensures r <==> View() == ""
    {
      r := from == to;
    }

    method FindFirstNotOf() returns (i: nat)
      requires Valid()
      ensures i == from + Skip(View(), delimiter, 0)
    {
      i := from;
      while i < to && input[i] == delimiter
        invariant from <= i <= to && Skip(View(), delimiter, 0) == Skip(View(), delimiter, i - from)
      {
        i := i + 1;
      }
    }

    method FindLastNotOf() returns (i: nat)
      requires Valid() && !OnlyDelimiters(View(), delimiter)
      ensures i == from + LastOther(View(), delimiter)
    {
      hide LastOther;
      ghost var last := LastOther(View(), delimiter);
      assert input[from + last] == View()[last];
      i := to - 1;
      while input[i] == delimiter
        invariant from + last <= i < to && forall k :: i < k < to ==> input[k] == delimiter
        decreases i
      {
        assert View()[i - from] == delimiter;
        i := i - 1;
      }
      assert View()[i - from] != delimiter;
    }

    method Find() returns (i: nat)
      requires Valid()
      ensures i == from + End(View(), delimiter, 0)
    {
      i := from;
      while i < to && input[i] != delimiter
        invariant from <= i <= to && End(View(), delimiter, 0) == End(View(), delimiter, i - from)
      {
        i := i + 1;
      }
    }

    /** Narrows the view to what lies between the delimiters around it. */
    method Trim() returns (ok: bool)
      requires Valid() && View() != ""
      modifies this`from, this`to
      ensures ok == !OnlyDelimiters(old(View()), delimiter)
      ensures Valid() && old(from) <= from && to <= old(to)
      ensures View() == if ok then Trimmed(old(View()), delimiter) else old(View())
      ensures ok ==> from == old(from) + Skip(old(View()), delimiter, 0)
    {
      hide Skip, LastOther, OnlyDelimiters, Trimmed;
      ghost var view := View();
      var first := FindFirstNotOf();
      SkipsAllIff(view, delimiter);
      if first == to {
        return false;
      }
      TrimmedSlice(view, delimiter);
      var suffix := FindLastNotOf();
      ghost var base := from;
      from, to := first, suffix + 1;
      SliceOf(input[..], base, view, from - base, to - base);
      ok := true;
    }

    /**
     * The next part. With `insertNullCharacter` the delimiter behind it becomes a zero, unless the
     * part is the last one; nothing else in the buffer changes, and nothing in the view left.
     */
    method GetNextPart() returns (r: Result<string, SplitError>)
      requires Valid()
      modifies this`from, this`to, input
      ensures Valid() && old(from) <= from && to <= old(to)
      ensures match NextPart(old(View()), delimiter)
              case Ok(next) => r == Ok(next.0) && View() == next.1
              case Err(e) => r == Err(e) && View() == old(View())
      ensures var end := old(from) + Skip(old(View()), delimiter, 0) + if r.Ok? then |r.value| else 0;
        Terminated(old(input[..]), input[..], delimiter, end, insertNullCharacter && r.Ok? && View() != "")
      ensures r.Ok? && View() != "" ==> from == old(from) + Skip(old(View()), delimiter, 0) + |r.value| + 1
    {
      hide Skip, Trimmed, End, OnlyDelimiters, Terminated, NextPart;
      ghost var view := View();
      if from == to {
        OnlyDelimitersInNothing(delimiter);
        NextOfDelimiters(view, delimiter);
        NothingTerminated(input[..], delimiter);
        return Ok("");
      }
      var ok := Trim();
      NothingTerminated(input[..], delimiter);
      if !ok {
        NextOfDelimiters(view, delimiter);
        return Err(OutOfRange);
      }
      NextOfTrimmed(view, delimiter);
      var part := CutPart();
      return Ok(part);
    }

    /** Cuts the first part off a view without delimiters around it. */
    method CutPart() returns (part: string)
      requires Valid() && View() != "" && View()[|View()| - 1] != delimiter
      modifies this`from, input
      ensures Valid() && old(from) <= from
      ensures var t := old(View()); var p := End(t, delimiter, 0);
        if p == |t| then part == t && View() == ""
        else part == t[..p] && View() == t[p + 1..] && from == old(from) + p + 1
      ensures var t := old(View()); var p := End(t, delimiter, 0);
        p < |t| ==> p < |t| - 1
      ensures var p := End(old(View()), delimiter, 0);
        Terminated(old(input[..]), input[..], delimiter, old(from) + p, insertNullCharacter && p < |old(View())|)
    {
      hide End;
      ghost var t := View();
      var space := Find();
      ghost var p := space - from;
      part := input[from..space];
      SliceOf(input[..], from, t, 0, p);
      assert part == t[..p];
      if space == to {
        assert part == t;
        from := to;
        return;
      }
      assert input[space] == t[p];
      from := space + 1;
      if insertNullCharacter {
        input[space] := '\0';
      }
    }
  }

  lemma SkipsAllIff(view: string, d: char)
    ensures Skip(view, d, 0) == |view| <==> OnlyDelimiters(view, d)
  {
  }

  lemma TrimmedSlice(view: string, d: char)
    requires !OnlyDelimiters(view, d)
    ensures Skip(view, d, 0) <= LastOther(view, d) && Trimmed(view, d) == view[Skip(view, d, 0)..LastOther(view, d) + 1]
  {
  }

  lemma OnlyDelimitersInNothing(d: char)
    ensures OnlyDelimiters("", d)
  {
  }

  lemma NothingTerminated(s: seq<char>, d: char)
    ensures forall end :: Terminated(s, s, d, end, false)
  {
  }

  lemma SliceOf(s: string, base: nat, view: string, a: nat, b: nat)
    requires a <= b <= |view| && base + |view| <= |s| && s[base..base + |view|] == view
    ensures s[base + a..base + b] == view[a..b]
  {
    forall k | 0 <= k < b - a ensures s[base + a..base + b][k] == view[a..b][k] {
      assert s[base..base + |view|][a + k] == s[base + a + k];
    }
  }

  /** The part of a path in front of its first slash, behind any slashes it starts with. */
  method GetNextPart(path: string) returns (part: string, rest: string)
    ensures (part, rest) == NextName(path)
  {
    var start := 0;
    while start < |path| && path[start] == '/'
      invariant start <= |path| && Skip(path, '/', 0) == Skip(path, '/', start)
    {
      start := start + 1;
    }
    if start == |path| {
      return "", "";
    }
    var slash := start;
    while slash < |path| && path[slash] != '/'
      invariant start <= slash <= |path| && End(path, '/', start) == End(path, '/', slash)
    {
      slash := slash + 1;
    }
    return path[start..slash], path[slash..];
  }
}
