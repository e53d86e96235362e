// The two line editors agree: what stands on the screen is what a program reads.

module TerminalProperties {
  import opened Words
  import opened Terminal

  // ---------- Folding over what comes in

  lemma {:induction false} ShowAllConcat(s: Screen, a: seq<Byte>, b: seq<Byte>)
    ensures ShowAll(s, a + b) == ShowAll(ShowAll(s, a), b)
    decreases |a|
  {
    if a == [] {
      assert a + b == b;
    } else {
      assert (a + b)[0] == a[0] && (a + b)[1..] == a[1..] + b;
      ShowAllConcat(Show(s, a[0]), a[1..], b);
    }
  }

  lemma {:induction false} EditAllConcat(r: Reader, a: seq<Byte>, b: seq<Byte>)
    ensures EditAll(r, a + b) == EditAll(EditAll(r, a), b)
    decreases |a|
  {
    if a == [] {
      assert a + b == b;
    } else {
      assert (a + b)[0] == a[0] && (a + b)[1..] == a[1..] + b;
      EditAllConcat(Edit(r, a[0]), a[1..], b);
    }
  }

  // ---------- Agreement of the two editors

  const FRESH_SCREEN := Screen([], [], 0)
  const FRESH_READER := Reader([], [])

  /** The row shows the line, and nothing but blanks behind it. */
  ghost predicate Shows(row: seq<Byte>, line: seq<Byte>) {
    |line| <= |row| && row[..|line|] == line && forall i :: |line| <= i < |row| ==> row[i] == SPACE
  }

  ghost predicate Agree(s: Screen, r: Reader) {
    && |s.rows| == |r.lines|
    && (forall i :: 0 <= i < |s.rows| ==> Shows(s.rows[i], r.lines[i]))
    && Shows(s.row, r.line) && s.col == |r.line|
  }

  /** Screen, queue and column counter after typing, from a fresh line and with echo on. */
  function Typed(typed: seq<Byte>): Driver {
    if typed == [] then Driver(0, true, [], []) else Handle(Typed(typed[..|typed| - 1]), typed[|typed| - 1])
  }

  function ScreenOf(d: Driver): Screen {
    ShowAll(FRESH_SCREEN, d.output)
  }

  function ReaderOf(queued: seq<Byte>): Reader {
    EditAll(FRESH_READER, queued)
  }

  /** The line on the screen is the line a reader that has caught up holds, and so says the counter. */
  ghost predicate InStep(d: Driver) {
    Agree(ScreenOf(d), ReaderOf(d.buffer)) && d.counter == |ReaderOf(d.buffer).line|
  }

  predicate Harmless(b: Byte) {
    b != 0 && b != BACKSPACE
  }

  lemma ShowOne(s: Screen, b: Byte)
    ensures ShowAll(s, [b]) == Show(s, b)
  {
    assert ShowAll(s, [b]) == ShowAll(Show(s, b), []);
  }

  lemma EditOne(r: Reader, b: Byte)
    ensures EditAll(r, [b]) == Edit(r, b)
  {
    assert EditAll(r, [b]) == EditAll(Edit(r, b), []);
  }

  lemma Erased(s: Screen)
    requires 0 < s.col <= |s.row|
    ensures ShowAll(s, [BACKSPACE, SPACE, BACKSPACE]) == Screen(s.rows, s.row[s.col - 1 := SPACE], s.col - 1)
  {
    var t := Show(s, BACKSPACE);
    var u := Show(t, SPACE);
    assert ShowAll(s, [BACKSPACE, SPACE, BACKSPACE]) == ShowAll(t, [SPACE, BACKSPACE]);
    assert ShowAll(t, [SPACE, BACKSPACE]) == ShowAll(u, [BACKSPACE]);
    ShowOne(u, BACKSPACE);
  }

  /** What one typed byte does to the screen and to the queue. */
  lemma HandleShows(d: Driver, b: Byte)
    requires d.echo
    ensures Handle(d, b).echo && Handle(d, b).buffer == d.buffer + [Queued(b)]
    ensures ReaderOf(Handle(d, b).buffer) == Edit(ReaderOf(d.buffer), Queued(b))
    ensures b != DELETE && b != 0 ==> ScreenOf(Handle(d, b)) == Show(ScreenOf(d), Queued(b))
    ensures b == DELETE && d.counter > 0 ==>
      ScreenOf(Handle(d, b)) == ShowAll(ScreenOf(d), [BACKSPACE, SPACE, BACKSPACE])
    ensures b == 0 || (b == DELETE && d.counter <= 0) ==> ScreenOf(Handle(d, b)) == ScreenOf(d)
  {
    hide ShowAll, EditAll;
    EditAllConcat(FRESH_READER, d.buffer, [Queued(b)]);
    EditOne(ReaderOf(d.buffer), Queued(b));
    if b == DELETE {
      ShowAllConcat(FRESH_SCREEN, d.output, [BACKSPACE, SPACE, BACKSPACE]);
    } else if b == 0 {
      assert d.output + [] == d.output;
    } else {
      ShowAllConcat(FRESH_SCREEN, d.output, [Queued(b)]);
      ShowOne(ScreenOf(d), Queued(b));
    }
  }

  lemma ShowEdits(s: Screen, r: Reader, b: Byte)
    requires Agree(s, r) && Harmless(b) && b != DELETE
    ensures Agree(Show(s, Queued(b)), Edit(r, Queued(b)))
  {
    if Queued(b) != NEWLINE {
      var row := Show(s, b).row;
      assert row[..|r.line| + 1] == r.line + [b];
    }
  }

  lemma ErasureEdits(s: Screen, r: Reader)
    requires Agree(s, r) && r.line != []
    ensures Agree(ShowAll(s, [BACKSPACE, SPACE, BACKSPACE]), Edit(r, BACKSPACE))
  {
    Erased(s);
    var row := s.row[s.col - 1 := SPACE];
    assert row[..s.col - 1] == r.line[..|r.line| - 1];
  }

  /** A typed byte keeps the editors in step iff it is neither zero nor a raw backspace. */
  lemma HandleStep(d: Driver, b: Byte)
    requires d.echo && InStep(d)
    ensures InStep(Handle(d, b)) <==> Harmless(b)
  {
    hide ScreenOf, ReaderOf, Show, ShowAll;
    HandleShows(d, b);
    var s, r := ScreenOf(d), ReaderOf(d.buffer);
    if b == DELETE {
      if d.counter > 0 {
        ErasureEdits(s, r);
      }
    } else if Harmless(b) {
      ShowEdits(s, r, b);
    }
  }

  lemma {:induction false} TypedPrefix(typed: seq<Byte>)
    ensures Typed(typed).echo
    decreases |typed|
  {
    if typed != [] {
      TypedPrefix(typed[..|typed| - 1]);
    }
  }

  /** Screen, reader and column counter agree after every prefix of what is typed. */
  ghost predicate AlwaysInStep(typed: seq<Byte>) {
    forall k :: 0 <= k <= |typed| ==> InStep(Typed(typed[..k]))
  }

  lemma AlwaysSplits(before: seq<Byte>, b: Byte)
    ensures AlwaysInStep(before + [b]) <==> AlwaysInStep(before) && InStep(Typed(before + [b]))
  {
    hide InStep, Typed;
    var typed := before + [b];
    assert typed[..|typed|] == typed;
    assert forall k :: 0 <= k <= |before| ==> typed[..k] == before[..k];
  }

  /** The editors always agree iff the stream has no zero byte and no raw backspace. */
  lemma {:induction false} EditorsAgree(typed: seq<Byte>)
    ensures AlwaysInStep(typed) <==> forall b :: b in typed ==> Harmless(b)
    decreases |typed|
  {
    hide InStep, AlwaysInStep;
    if typed == [] {
      NothingTyped();
    } else {
      var before, b := typed[..|typed| - 1], typed[|typed| - 1];
      EditorsAgree(before);
      TypedPrefix(before);
      assert typed == before + [b];
      AlwaysSplits(before, b);
      AgreesNow(before);
      if AlwaysInStep(before) {
        HandleStep(Typed(before), b);
      }
    }
  }

  /** A raw backspace moves the cursor and erases nothing on the screen, but the reader's letter is gone. */
  lemma RawBackspace()
    ensures var d := Typed([97, BACKSPACE]);
      && ScreenOf(d) == Screen([], [97], 0) && ReaderOf(d.buffer).line == [] && d.counter == 2
    ensures !AlwaysInStep([97, BACKSPACE])
  {
    hide Typed, AlwaysInStep, ScreenOf, ReaderOf;
    EditorsAgree([97, BACKSPACE]);
    assert [97, BACKSPACE][1] == BACKSPACE && !Harmless(BACKSPACE);
    LetterTyped();
    var d := Typed([97]);
    HandleShows(d, BACKSPACE);
    TypedMore([97], BACKSPACE);
    assert [97] + [BACKSPACE] == [97, BACKSPACE];
  }

  lemma TypedMore(typed: seq<Byte>, b: Byte)
    ensures Typed(typed + [b]) == Handle(Typed(typed), b)
  {
    assert (typed + [b])[..|typed|] == typed;
  }

  lemma NothingShown()
    ensures Typed([]) == Driver(0, true, [], []) && ScreenOf(Typed([])) == FRESH_SCREEN && ReaderOf(Typed([]).buffer) == FRESH_READER
  {
  }

  /** Screen, reader and counter after a letter. */
  lemma LetterTyped()
    ensures var d := Typed([97]);
      && d.echo && d.counter == 1
      && ScreenOf(d) == Screen([], [97], 1) && ReaderOf(d.buffer) == Reader([], [97])
  {
    hide Typed, ScreenOf, ReaderOf;
    NothingShown();
    TypedMore([], 97);
    assert [] + [97] == [97];
    HandleShows(Typed([]), 97);
  }

  /** A zero byte shows nothing, but it counts and the reader stores it. */
  lemma ZeroByte()
    ensures var d := Typed([0]);
      && ScreenOf(d) == FRESH_SCREEN && ReaderOf(d.buffer).line == [0] && d.counter == 1
    ensures !AlwaysInStep([0])
  {
    EditorsAgree([0]);
    assert [0][0] == 0 && !Harmless(0);
    assert Typed([0]) == Handle(Typed([]), 0);
    HandleShows(Typed([]), 0);
  }

  lemma NothingTyped()
    ensures AlwaysInStep([])
  {
  }

  lemma AgreesNow(typed: seq<Byte>)
    ensures AlwaysInStep(typed) ==> InStep(Typed(typed))
  {
    assert typed[..|typed|] == typed;
  }

  // ---------- `_fgets` against the editor

  /** What reading a line from `input` comes to, with `line` already stored and a count of `n`. */
  ghost predicate ReadMeans(input: seq<Byte>, line: seq<Byte>, n: int, o: Outcome) {
    match o
    case Line(text, rest) =>
      && |rest| < |input| && input[|input| - |rest|..] == rest
      && var k := |input| - |rest|;
         && EditAll(Reader([], line), input[..k - 1]) == Reader([], text)
         && input[k - 1] != BACKSPACE
         && (input[k - 1] == NEWLINE || |text| == n - 2)
         && |text| <= n - 2
    case Starved(left) => EditAll(Reader([], line), input) == Reader([], left) && |left| <= n - 2
    case Overrun => false
  }

  lemma EditFirst(r: Reader, input: seq<Byte>, k: nat)
    requires 0 < k <= |input|
    ensures EditAll(r, input[..k]) == EditAll(Edit(r, input[0]), input[1..][..k - 1])
  {
    assert input[..k][1..] == input[1..][..k - 1];
  }

  /**
   * For every input and every count of at least two that fits the buffer, `_fgets` stores what the
   * editor has made of the bytes before the newline, or before the byte that uses up the count; that
   * last byte is lost. No store misses the buffer.
   */
  lemma {:induction false} FgetsEdits(input: seq<Byte>, line: seq<Byte>, n: int, size: nat)
    requires 2 <= n <= size + 1 && |line| <= n - 2
    ensures ReadMeans(input, line, n, ReadLine(input, line, n - |line|, size))
    decreases |input|
  {
    hide EditAll;
    var o := ReadLine(input, line, n - |line|, size);
    EditNone(Reader([], line));
    if input != [] {
      var b := input[0];
      var next := if b != BACKSPACE then line + [b] else if line == [] then [] else line[..|line| - 1];
      if b != BACKSPACE && (b == NEWLINE || |line| == n - 2) {
        assert o == Line(line, input[1..]);
      } else {
        FgetsEdits(input[1..], next, n, size);
        assert o == ReadLine(input[1..], next, n - |next|, size);
        assert Edit(Reader([], line), b) == Reader([], next);
        if o.Line? {
          EditFirst(Reader([], line), input, |input| - |o.rest| - 1);
        } else {
          EditFirst(Reader([], line), input, |input|);
          assert input[..|input|] == input && input[1..][..|input| - 1] == input[1..];
        }
      }
    }
  }

  lemma EditNone(r: Reader)
    ensures EditAll(r, []) == r
  {
  }

  function Letters(n: nat): (bytes: seq<Byte>)
    ensures |bytes| == n
    ensures forall i :: 0 <= i < n ==> bytes[i] == 97
  {
    seq(n, _ => 97)
  }

  lemma {:induction false} LettersOverrun(left: nat, line: seq<Byte>, n: int, size: nat)
    requires |line| + left == size + 1 && |line| <= size
    requires n <= 1 || left < n
    ensures ReadLine(Letters(left), line, n, size) == Overrun
    decreases left
  {
    if |line| < size {
      assert Letters(left)[1..] == Letters(left - 1);
      LettersOverrun(left - 1, line + [97], n - 1, size);
    }
  }

  /** No input makes `_fgets` store past the buffer iff the count is at least two and at most one too large. */
  lemma FgetsStaysInside(n: int, size: nat)
    ensures (forall input :: !ReadLine(input, [], n, size).Overrun?) <==> 2 <= n <= size + 1
  {
    if 2 <= n <= size + 1 {
      forall input ensures !ReadLine(input, [], n, size).Overrun? {
        FgetsEdits(input, [], n, size);
      }
    } else {
      LettersOverrun(size + 1, [], n, size);
    }
  }

  /** Two letters for a buffer, and a count, of one. */
  lemma CountOfOne()
    ensures ReadLine([97, 97], [], 1, 1) == Overrun
  {
    assert [97, 97][1..] == [97];
    assert ReadLine([97], [97], 0, 1) == Overrun;
    assert [] + [97] == [97];
  }

  // ---------- Whole sessions

  /** No line ever grows longer than the buffer holds. */
  ghost predicate ShortLines(input: seq<Byte>, n: int) {
    forall k :: 0 <= k <= |input| ==> |ReaderOf(input[..k]).line| <= n - 2
  }

  lemma {:induction false} LinesAppend(r: Reader, bytes: seq<Byte>)
    ensures EditAll(r, bytes).lines == r.lines + EditAll(Reader([], r.line), bytes).lines
    ensures EditAll(r, bytes).line == EditAll(Reader([], r.line), bytes).line
    decreases |bytes|
  {
    if bytes != [] {
      var one, other := Edit(r, bytes[0]), Edit(Reader([], r.line), bytes[0]);
      LinesAppend(one, bytes[1..]);
      LinesAppend(other, bytes[1..]);
    }
  }

  /** One line off the front: what follows is edited from a fresh line. */
  lemma LineOff(input: seq<Byte>, k: nat, text: seq<Byte>)
    requires 0 < k <= |input| && input[k - 1] == NEWLINE
    requires ReaderOf(input[..k - 1]) == Reader([], text)
    ensures ReaderOf(input).lines == [text] + ReaderOf(input[k..]).lines
    ensures ReaderOf(input).line == ReaderOf(input[k..]).line
  {
    assert input[..k] == input[..k - 1] + [NEWLINE];
    EditAllConcat(FRESH_READER, input[..k - 1], [NEWLINE]);
    EditOne(Reader([], text), NEWLINE);
    assert ReaderOf(input[..k]) == Reader([text], []);
    assert input == input[..k] + input[k..];
    EditAllConcat(FRESH_READER, input[..k], input[k..]);
    LinesAppend(Reader([text], []), input[k..]);
  }

  lemma ShortLinesOff(input: seq<Byte>, k: nat, text: seq<Byte>, n: int)
    requires 0 < k <= |input| && input[k - 1] == NEWLINE && ShortLines(input, n)
    requires ReaderOf(input[..k - 1]) == Reader([], text)
    ensures ShortLines(input[k..], n)
  {
    hide ReaderOf;
    forall j | 0 <= j <= |input| - k ensures |ReaderOf(input[k..][..j]).line| <= n - 2 {
      assert input[..k + j][..k - 1] == input[..k - 1];
      assert input[..k + j][k..] == input[k..][..j];
      LineOff(input[..k + j], k, text);
    }
  }

  /** Successive calls of `_fgets` return the lines the editor hands over, when they fit. */
  lemma {:induction false} ShortLinesRead(input: seq<Byte>, n: int, size: nat)
    requires 2 <= n <= size + 1 && ShortLines(input, n)
    ensures ReadLines(input, n, size) == ReaderOf(input).lines
    decreases |input|
  {
    hide EditAll, ReadLine, ShortLines;
    var o := ReadLine(input, [], n, size);
    FgetsEdits(input, [], n, size);
    if o.Line? {
      var k := |input| - |o.rest|;
      NotFull(input, k, o.text, n);
      LineOff(input, k, o.text);
      ShortLinesOff(input, k, o.text, n);
      ShortLinesRead(o.rest, n, size);
    }
  }

  lemma NotFull(input: seq<Byte>, k: nat, text: seq<Byte>, n: int)
    requires 0 < k <= |input| && ShortLines(input, n) && ReaderOf(input[..k - 1]) == Reader([], text)
    requires input[k - 1] != BACKSPACE && (input[k - 1] == NEWLINE || |text| == n - 2)
    ensures input[k - 1] == NEWLINE
  {
    if input[k - 1] != NEWLINE {
      assert input[..k] == input[..k - 1] + [input[k - 1]];
      EditAllConcat(FRESH_READER, input[..k - 1], [input[k - 1]]);
      EditOne(Reader([], text), input[k - 1]);
      assert false;
    }
  }

  // ---------- Lines that do not fit

  function Newlines(input: seq<Byte>): nat {
    if input == [] then 0 else (if input[0] == NEWLINE then 1 else 0) + Newlines(input[1..])
  }

  lemma {:induction false} NewlinesConcat(a: seq<Byte>, b: seq<Byte>)
    ensures Newlines(a + b) == Newlines(a) + Newlines(b)
  {
    if a == [] {
      assert a + b == b;
    } else {
      assert (a + b)[1..] == a[1..] + b;
      NewlinesConcat(a[1..], b);
    }
  }

  lemma {:induction false} LinePerNewline(r: Reader, input: seq<Byte>)
    ensures |EditAll(r, input).lines| == |r.lines| + Newlines(input)
    decreases |input|
  {
    if input != [] {
      LinePerNewline(Edit(r, input[0]), input[1..]);
    }
  }

  /** How many calls of `_fgets` give up before the newline because their count is used up. */
  function GivenUp(input: seq<Byte>, n: int, size: nat): nat
    decreases |input|
  {
    var o := ReadLine(input, [], n, size);
    if o.Line? && |o.rest| < |input| then
      (if input[|input| - |o.rest| - 1] == NEWLINE then 0 else 1) + GivenUp(o.rest, n, size)
    else 0
  }

  /** Every call that gives up returns one line too many. */
  lemma {:induction false} LinesCounted(input: seq<Byte>, n: int, size: nat)
    requires 2 <= n <= size + 1
    ensures |ReadLines(input, n, size)| == Newlines(input) + GivenUp(input, n, size)
    decreases |input|
  {
    hide EditAll, ReadLine, Newlines;
    var o := ReadLine(input, [], n, size);
    FgetsEdits(input, [], n, size);
    if o.Line? {
      var k := |input| - |o.rest|;
      LinesCounted(o.rest, n, size);
      assert input == input[..k - 1] + [input[k - 1]] + o.rest;
      NewlinesConcat(input[..k - 1] + [input[k - 1]], o.rest);
      NewlinesConcat(input[..k - 1], [input[k - 1]]);
      LinePerNewline(FRESH_READER, input[..k - 1]);
      OneNewline(input[k - 1]);
    } else {
      LinePerNewline(FRESH_READER, input);
    }
  }

  lemma OneNewline(b: Byte)
    ensures Newlines([b]) == if b == NEWLINE then 1 else 0
  {
    assert Newlines([b]) == (if b == NEWLINE then 1 else 0) + Newlines([]);
  }

  /** Up to the byte that ends a call the edited line never outgrew the buffer. */
  lemma {:induction false} ShortWhileReading(input: seq<Byte>, line: seq<Byte>, n: int, size: nat, j: nat)
    requires 2 <= n <= size + 1 && |line| <= n - 2
    requires var o := ReadLine(input, line, n - |line|, size);
      j <= |input| && (o.Line? ==> j < |input| - |o.rest|)
    ensures |EditAll(Reader([], line), input[..j]).line| <= n - 2
    decreases |input|
  {
    hide EditAll;
    EditNone(Reader([], line));
    if j == 0 {
      assert input[..0] == [];
    } else {
      var b := input[0];
      FgetsEdits(input, line, n, size);
      var next := if b != BACKSPACE then line + [b] else if line == [] then [] else line[..|line| - 1];
      if b == BACKSPACE || (b != NEWLINE && |line| < n - 2) {
        assert ReadLine(input, line, n - |line|, size) == ReadLine(input[1..], next, n - |next|, size);
        FgetsEdits(input[1..], next, n, size);
        ShortWhileReading(input[1..], next, n, size, j - 1);
        EditFirst(Reader([], line), input, j);
      }
    }
  }

  /** When no call gives up, all lines were short enough. */
  lemma {:induction false} NothingGivenUp(input: seq<Byte>, n: int, size: nat, t: nat)
    requires 2 <= n <= size + 1 && GivenUp(input, n, size) == 0 && t <= |input|
    ensures |ReaderOf(input[..t]).line| <= n - 2
    decreases |input|
  {
    hide EditAll, ReadLine;
    var o := ReadLine(input, [], n, size);
    FgetsEdits(input, [], n, size);
    if o.Line? && t >= |input| - |o.rest| {
      var k := |input| - |o.rest|;
      NothingGivenUp(o.rest, n, size, t - k);
      assert input[..t][..k - 1] == input[..k - 1] && input[..t][k..] == o.rest[..t - k];
      LineOff(input[..t], k, o.text);
    } else {
      ShortWhileReading(input, [], n, size, t);
    }
  }

  /** Successive calls of `_fgets` return exactly the lines the editor hands over iff every line fits. */
  lemma FgetsReadsLinesIff(input: seq<Byte>, n: int, size: nat)
    requires 2 <= n <= size + 1
    ensures |ReadLines(input, n, size)| == |ReaderOf(input).lines| <==> ShortLines(input, n)
    ensures ReadLines(input, n, size) == ReaderOf(input).lines <==> ShortLines(input, n)
  {
    hide ReadLines, EditAll, ReadLine, Newlines, GivenUp;
    if ShortLines(input, n) {
      ShortLinesRead(input, n, size);
    }
    LinesCounted(input, n, size);
    LinePerNewline(FRESH_READER, input);
    if GivenUp(input, n, size) == 0 {
      forall t | 0 <= t <= |input| ensures |ReaderOf(input[..t]).line| <= n - 2 {
        NothingGivenUp(input, n, size, t);
      }
    }
  }

  /** Three letters for a buffer of four: the third is lost, and the newline makes a second line. */
  lemma OverlongLine()
    ensures ReadLines([97, 98, 99, NEWLINE], 4, 4) == [[97, 98], []]
    ensures ReaderOf([97, 98, 99, NEWLINE]).lines == [[97, 98, 99]]
  {
    var input: seq<Byte> := [97, 98, 99, NEWLINE];
    assert input[1..] == [98, 99, NEWLINE] && input[2..] == [99, NEWLINE] && input[3..] == [NEWLINE];
    assert input[1..][1..] == input[2..] && input[2..][1..] == input[3..] && input[3..][1..] == [];
    var a: seq<Byte>, ab: seq<Byte>, abc: seq<Byte> := [97], [97, 98], [97, 98, 99];
    assert [] + [97] == a && a + [98] == ab && ab + [99] == abc;
    assert ReadLine(input[2..], ab, 2, 4) == Line(ab, input[3..]);
    assert ReadLine(input[1..], a, 3, 4) == ReadLine(input[2..], ab, 2, 4);
    assert ReadLine(input, [], 4, 4) == ReadLine(input[1..], a, 3, 4);
    assert ReadLines([], 4, 4) == [];
    assert ReadLines(input[3..], 4, 4) == [[]] + ReadLines([], 4, 4);
    assert EditAll(Reader([], abc), input[3..]) == EditAll(Reader([] + [abc], []), []);
    assert EditAll(Reader([], ab), input[2..]) == EditAll(Reader([], abc), input[3..]);
    assert EditAll(Reader([], a), input[1..]) == EditAll(Reader([], ab), input[2..]);
    assert EditAll(FRESH_READER, input) == EditAll(Reader([], a), input[1..]);
  }

  // ---------- What typing means

  /** A typed byte as a user means it: 8 and 127 erase, 10 and 13 end the line, anything else is text. */
  function Mean(r: Reader, b: Byte): Reader {
    if b == 8 || b == 127 then Reader(r.lines, if r.line == [] then [] else r.line[..|r.line| - 1])
    else if b == 10 || b == 13 then Reader(r.lines + [r.line], [])
    else Reader(r.lines, r.line + [b])
  }

  function Meant(typed: seq<Byte>): Reader {
    if typed == [] then Reader([], []) else Mean(Meant(typed[..|typed| - 1]), typed[|typed| - 1])
  }

  /** The driver after typing, with echo on or off. */
  function TypedWith(echo: bool, typed: seq<Byte>): Driver {
    if typed == [] then Driver(0, echo, [], []) else Handle(TypedWith(echo, typed[..|typed| - 1]), typed[|typed| - 1])
  }

  /** Echo decides what is written to the line, and nothing else. */
  lemma EchoOnlyShows(d: Driver, b: Byte)
    ensures Handle(d.(echo := false), b) == Handle(d.(echo := true), b).(echo := false, output := d.output)
  {
  }

  /** With echo on or off the handler queues, and counts, the same; with echo off it writes nothing. */
  lemma {:induction false} EchoOff(typed: seq<Byte>)
    ensures TypedWith(true, typed) == Typed(typed)
    ensures TypedWith(false, typed) == Typed(typed).(echo := false, output := [])
    decreases |typed|
  {
    hide Handle;
    if typed != [] {
      var before, b := typed[..|typed| - 1], typed[|typed| - 1];
      EchoOff(before);
      TypedPrefix(before);
      var d := Typed(before);
      EchoOnlyShows(d.(output := []), b);
      OutputApart(d, b);
    }
  }

  /** What was written before does not matter to the queue or the counter. */
  lemma OutputApart(d: Driver, b: Byte)
    ensures Handle(d.(output := []), b).(output := []) == Handle(d, b).(output := [])
    ensures Handle(d, b).echo == d.echo
  {
  }

  lemma QueuedIsMeant(r: Reader, b: Byte)
    ensures Edit(r, Queued(b)) == Mean(r, b)
  {
  }

  lemma {:induction false} QueueIsMeant(typed: seq<Byte>)
    ensures ReaderOf(Typed(typed).buffer) == Meant(typed)
    ensures |Typed(typed).buffer| == |typed|
    decreases |typed|
  {
    hide Handle, ReaderOf, Mean, Edit, Queued;
    if typed == [] {
      NothingMeant();
    } else {
      var before, b := typed[..|typed| - 1], typed[|typed| - 1];
      QueueIsMeant(before);
      TypedPrefix(before);
      HandleShows(Typed(before), b);
      QueuedIsMeant(ReaderOf(Typed(before).buffer), b);
    }
  }

  lemma NothingMeant()
    ensures ReaderOf([]) == Reader([], []) && Typed([]).buffer == []
  {
  }

  /** For everything typed, echoed or not, calls of `_fgets` return exactly the lines that were meant iff every line fits. */
  lemma MeantLinesRead(echo: bool, typed: seq<Byte>, n: int, size: nat)
    requires 2 <= n <= size + 1
    ensures ReadLines(TypedWith(echo, typed).buffer, n, size) == Meant(typed).lines <==>
      forall k :: 0 <= k <= |typed| ==> |Meant(typed[..k]).line| <= n - 2
  {
    hide ReaderOf, Typed, TypedWith, Meant, ReadLines;
    EchoOff(typed);
    QueueIsMeant(typed);
    FgetsReadsLinesIff(Typed(typed).buffer, n, size);
    forall k | 0 <= k <= |typed| ensures ReaderOf(Typed(typed).buffer[..k]) == Meant(typed[..k]) {
      QueueIsMeant(typed[..k]);
      QueuedInOrder(typed, k);
    }
  }

  lemma {:induction false} QueuedInOrder(typed: seq<Byte>, k: nat)
    requires k <= |typed|
    ensures |Typed(typed).buffer| == |typed|
    ensures Typed(typed).buffer[..k] == Typed(typed[..k]).buffer
    decreases |typed|
  {
    hide Handle, ReaderOf, ScreenOf;
    if k == |typed| {
      QueueIsMeant(typed);
      assert typed[..k] == typed;
    } else {
      var before := typed[..|typed| - 1];
      QueuedInOrder(before, k);
      TypedPrefix(before);
      HandleShows(Typed(before), typed[|typed| - 1]);
      assert before[..k] == typed[..k];
    }
  }

  // ---------- What you see and what you read

  /** Each row of the screen shows the line that was read from it. */
  ghost predicate RowsShow(rows: seq<seq<Byte>>, lines: seq<seq<Byte>>) {
    |rows| == |lines| && forall i :: 0 <= i < |rows| ==> Shows(rows[i], lines[i])
  }

  /**
   * What you see is what you read: for everything typed without zero bytes and raw backspaces, the
   * lines that `_fgets` returns are the rows that stand on the screen, iff every line fits.
   */
  lemma WhatYouSeeIsWhatYouRead(typed: seq<Byte>, n: int, size: nat)
    requires forall b :: b in typed ==> Harmless(b)
    requires 2 <= n <= size + 1
    ensures RowsShow(ScreenOf(Typed(typed)).rows, ReadLines(Typed(typed).buffer, n, size)) <==>
      ShortLines(Typed(typed).buffer, n)
    ensures Shows(ScreenOf(Typed(typed)).row, ReaderOf(Typed(typed).buffer).line)
    ensures Typed(typed).counter == |ReaderOf(Typed(typed).buffer).line|
  {
    hide ScreenOf, ReaderOf, ReadLines, Typed, ShortLines, Shows;
    EditorsAgree(typed);
    AgreesNow(typed);
    FgetsReadsLinesIff(Typed(typed).buffer, n, size);
  }

  // ---------- Typing while a program reads

  datatype Action = Type(b: Byte) | Poll

  /** The driver, and the reader that polls its queue one byte at a time. */
  datatype Session = Session(driver: Driver, reader: Reader)

  function Act(s: Session, a: Action): Session {
    match a
    case Type(b) => s.(driver := Handle(s.driver, b))
    case Poll =>
      if s.driver.buffer == [] then s
      else Session(s.driver.(buffer := s.driver.buffer[1..]), Edit(s.reader, s.driver.buffer[0]))
  }

  function ActAll(actions: seq<Action>): Session {
    if actions == [] then Session(Driver(0, true, [], []), FRESH_READER)
    else Act(ActAll(actions[..|actions| - 1]), actions[|actions| - 1])
  }

  function TypedIn(actions: seq<Action>): seq<Byte> {
    if actions == [] then []
    else
      var a := actions[|actions| - 1];
      TypedIn(actions[..|actions| - 1]) + if a.Type? then [a.b] else []
  }

  /** The session's reader, given the bytes still queued, is where the typed bytes would have it. */
  ghost predicate CatchesUp(s: Session, t: Driver) {
    && s.driver.counter == t.counter && s.driver.echo == t.echo && s.driver.output == t.output
    && EditAll(s.reader, s.driver.buffer) == ReaderOf(t.buffer)
  }

  lemma TypeCatchesUp(s: Session, t: Driver, b: Byte)
    requires CatchesUp(s, t)
    ensures CatchesUp(Act(s, Type(b)), Handle(t, b))
  {
    hide EditAll;
    EditAllConcat(s.reader, s.driver.buffer, [Queued(b)]);
    EditAllConcat(FRESH_READER, t.buffer, [Queued(b)]);
  }

  lemma PollCatchesUp(s: Session, t: Driver)
    requires CatchesUp(s, t)
    ensures CatchesUp(Act(s, Poll), t)
  {
    hide ReaderOf;
  }

  /** Under any interleaving the reader is where it would be on the bytes queued so far, less those still queued. */
  lemma {:induction false} InterleavingIsTyping(actions: seq<Action>)
    ensures CatchesUp(ActAll(actions), Typed(TypedIn(actions)))
    decreases |actions|
  {
    hide CatchesUp, Act, Handle;
    if actions == [] {
      NothingToCatchUp();
    } else {
      var before, a := actions[..|actions| - 1], actions[|actions| - 1];
      InterleavingIsTyping(before);
      var s, t := ActAll(before), Typed(TypedIn(before));
      if a.Type? {
        assert (TypedIn(before) + [a.b])[..|TypedIn(before)|] == TypedIn(before);
        TypeCatchesUp(s, t, a.b);
      } else {
        assert TypedIn(before) + [] == TypedIn(before);
        PollCatchesUp(s, t);
      }
    }
  }

  lemma NothingToCatchUp()
    ensures CatchesUp(Session(Driver(0, true, [], []), FRESH_READER), Driver(0, true, [], []))
  {
  }

  /** Whenever the reader has drained the queue, screen, reader and counter agree, however typing and reading interleave. */
  lemma DrainedAgrees(actions: seq<Action>)
    requires forall b :: b in TypedIn(actions) ==> Harmless(b)
    requires ActAll(actions).driver.buffer == []
    ensures Agree(ScreenOf(ActAll(actions).driver), ActAll(actions).reader)
    ensures ActAll(actions).driver.counter == |ActAll(actions).reader.line|
  {
    hide Typed, ActAll, TypedIn, ShowAll, Agree, EditAll;
    InterleavingIsTyping(actions);
    EditNone(ActAll(actions).reader);
    EditorsAgree(TypedIn(actions));
    AgreesNow(TypedIn(actions));
  }
}
