// The printf loop over the serial writer.

module Format {
  import opened Results
  import opened Numbers
  import opened Printer

  datatype Arg = CharArg(c: char) | StringArg(s: string) | IntArg(n: int)

  const INT_LIMIT := 0x8000_0000

  // ---------- What a format means

  /** The text of the next argument, if it is of the kind the specifier takes and has one. */
  function Converted(specifier: char, args: seq<Arg>, b: Base): Option<string> {
    if args == [] then None
    else
      match specifier
      case 'c' => if args[0].CharArg? then Some([args[0].c]) else None
      case 's' => if args[0].StringArg? then Some(args[0].s) else None
      case _ => if args[0].IntArg? && Fits(args[0].n, b, INT_LIMIT) then Some(SignedText(args[0].n, b)) else None
  }

  predicate TakesArgument(specifier: char) {
    specifier == 'c' || specifier == 's' || specifier == 'd'
  }

  /** What a directive writes: nothing unless it takes an argument. */
  function Directive(specifier: char, args: seq<Arg>, b: Base): Option<string> {
    if TakesArgument(specifier) then Converted(specifier, args, b) else Some("")
  }

  /** The arguments a directive leaves. */
  function Left(specifier: char, args: seq<Arg>): seq<Arg> {
    if TakesArgument(specifier) && args != [] then args[1..] else args
  }

  function Prefixed(front: string, rest: Option<string>): Option<string> {
    if rest.None? then None else Some(front + rest.value)
  }

  /** Character by character: literals stand for themselves, directives for their arguments, or for nothing. */
  function Interpret(format: string, args: seq<Arg>, b: Base): Option<string>
    decreases |format|
  {
    if format == "" then Some("")
    else if format[0] != '%' then Prefixed([format[0]], Interpret(format[1..], args, b))
    else if |format| == 1 then Some("")
    else
      var text := Directive(format[1], args, b);
      if text.None? then None else Prefixed(text.value, Interpret(format[2..], Left(format[1], args), b))
  }

  function LiteralCharacters(format: string): nat
    decreases |format|
  {
    if format == "" then 0
    else if format[0] != '%' then 1 + LiteralCharacters(format[1..])
    else if |format| == 1 then 0
    else LiteralCharacters(format[2..])
  }

  predicate EndsInDirective(format: string)
    decreases |format|
  {
    format != "" &&
    (if format[0] != '%' then EndsInDirective(format[1..]) else |format| <= 2 || EndsInDirective(format[2..]))
  }

  // ---------- What the loop does

  /** The position of the first percent sign, or the length. */
  function Percent(data: string): (p: nat)
    ensures p <= |data|
    ensures p < |data| ==> data[p] == '%'
    ensures forall i :: 0 <= i < p ==> data[i] != '%'
  {
    if data == "" || data[0] == '%' then 0 else 1 + Percent(data[1..])
  }

  /** The value returned: literal characters, with the last piece counted again when a directive ends it. */
  function Count(data: string): nat
    decreases |data|
  {
    var p := Percent(data);
    if p == |data| then |data| else if p + 2 >= |data| then p + |data| else p + Count(data[p + 2..])
  }

  lemma {:induction false} LiteralFront(literal: string, rest: string, args: seq<Arg>, b: Base)
    requires '%' !in literal
    ensures Interpret(literal + rest, args, b) == Prefixed(literal, Interpret(rest, args, b))
    ensures LiteralCharacters(literal + rest) == |literal| + LiteralCharacters(rest)
    ensures EndsInDirective(literal + rest) <==> EndsInDirective(rest)
    decreases |literal|
  {
    if literal == "" {
      assert literal + rest == rest;
      assert forall t: string :: "" + t == t;
    } else {
      assert (literal + rest)[1..] == literal[1..] + rest;
      LiteralFront(literal[1..], rest, args, b);
      var r := Interpret(rest, args, b);
      assert r.Some? ==> [literal[0]] + (literal[1..] + r.value) == literal + r.value;
    }
  }

  /** The value returned is the number of literal characters iff the format does not end in a directive. */
  lemma {:induction false} CountIsLiteralsIff(format: string)
    ensures Count(format) >= LiteralCharacters(format)
    ensures Count(format) == LiteralCharacters(format) <==> !EndsInDirective(format)
    decreases |format|
  {
    var p := Percent(format);
    assert format == format[..p] + format[p..];
    LiteralFront(format[..p], format[p..], [], 10);
    if p + 2 < |format| {
      CountIsLiteralsIff(format[p + 2..]);
      assert format[p..][2..] == format[p + 2..];
    }
  }

  /** The last piece of a format that ends in a directive: what the loop counts a second time. */
  function CountedTwice(data: string): nat
    decreases |data|
  {
    var p := Percent(data);
    if p == |data| then 0 else if p + 2 >= |data| then |data| else CountedTwice(data[p + 2..])
  }

  /** How many characters the directives write. */
  function ConvertedCharacters(format: string, args: seq<Arg>, b: Base): nat
    decreases |format|
  {
    if format == "" then 0
    else if format[0] != '%' then ConvertedCharacters(format[1..], args, b)
    else if |format| == 1 || Directive(format[1], args, b).None? then 0
    else |Directive(format[1], args, b).value| + ConvertedCharacters(format[2..], Left(format[1], args), b)
  }

  /** What is written is the literal characters and the converted arguments. */
  lemma {:induction false} WrittenCharacters(format: string, args: seq<Arg>, b: Base)
    requires Interpret(format, args, b).Some?
    ensures |Interpret(format, args, b).value| == LiteralCharacters(format) + ConvertedCharacters(format, args, b)
    decreases |format|
  {
    hide Directive, Left;
    if format != "" {
      if format[0] != '%' {
        WrittenCharacters(format[1..], args, b);
      } else if |format| > 1 {
        WrittenCharacters(format[2..], Left(format[1], args), b);
      }
    }
  }

  lemma {:induction false} LiteralCount(literal: string, rest: string)
    requires '%' !in literal
    ensures LiteralCharacters(literal + rest) == |literal| + LiteralCharacters(rest)
    decreases |literal|
  {
    if literal == "" {
      assert literal + rest == rest;
    } else {
      assert (literal + rest)[1..] == literal[1..] + rest;
      LiteralCount(literal[1..], rest);
    }
  }

  lemma {:induction false} TwicePiece(data: string)
    ensures var p := Percent(data);
      CountedTwice(data) == if p == |data| then 0 else if p + 2 >= |data| then |data| else CountedTwice(data[p + 2..])
  {
    hide Percent;
  }

  /** The value returned is the literal characters, and a last piece that ends in a directive once more. */
  lemma {:induction false} CountMeans(format: string)
    ensures Count(format) == LiteralCharacters(format) + CountedTwice(format)
    decreases |format|
  {
    hide Interpret, Percent;
    var p := Percent(format);
    assert format == format[..p] + format[p..];
    LiteralCount(format[..p], format[p..]);
    CountPiece(format);
    TwicePiece(format);
    if p + 2 < |format| {
      CountMeans(format[p + 2..]);
      assert format[p..][2..] == format[p + 2..];
    }
  }

  /** The value returned is the number of characters written iff what is counted twice makes up for the conversions. */
  lemma CountIsWrittenIff(format: string, args: seq<Arg>, b: Base)
    requires Interpret(format, args, b).Some?
    ensures Count(format) == |Interpret(format, args, b).value| <==>
      CountedTwice(format) == ConvertedCharacters(format, args, b)
  {
    WrittenCharacters(format, args, b);
    CountMeans(format);
  }

  /** Three characters are written and six returned. */
  lemma DirectiveAtTheEnd()
    ensures Interpret("x=%c", [CharArg('y')], 10) == Some("x=y")
    ensures Count("x=%c") == 6 && LiteralCharacters("x=%c") == 2
  {
    var f := "x=%c";
    assert f[1..] == "=%c" && "=%c"[1..] == "%c" && "%c"[2..] == "";
    assert Interpret("", [], 10) == Some("");
    assert Interpret("%c", [CharArg('y')], 10) == Prefixed("y", Some(""));
    assert Interpret("=%c", [CharArg('y')], 10) == Prefixed("=", Interpret("%c", [CharArg('y')], 10));
    assert "y" + "" == "y" && "=" + "y" == "=y" && "x" + "=y" == "x=y";
    assert Interpret(f, [CharArg('y')], 10) == Prefixed("x", Interpret("=%c", [CharArg('y')], 10));
    assert Percent("%c") == 0 && Percent("=%c") == 1 && Percent(f) == 2;
    assert LiteralCharacters("%c") == 0 && LiteralCharacters("=%c") == 1;
  }

  // ---------- What is written

  /** The characters behind the percent signs, but not behind one that ends the format. */
  function Specifiers(format: string): string
    decreases |format|
  {
    if format == "" then ""
    else if format[0] != '%' then Specifiers(format[1..])
    else if |format| == 1 then ""
    else [format[1]] + Specifiers(format[2..])
  }

  /** The format with the given texts where its directives are. */
  function Weave(format: string, texts: seq<string>): string
    requires |texts| == |Specifiers(format)|
    decreases |format|
  {
    if format == "" then ""
    else if format[0] != '%' then [format[0]] + Weave(format[1..], texts)
    else if |format| == 1 then ""
    else texts[0] + Weave(format[2..], texts[1..])
  }

  /** How many of the first `i` specifiers take an argument. */
  function ArgumentsTaken(specifiers: string, i: nat): nat
    requires i <= |specifiers|
  {
    if i == 0 then 0 else ArgumentsTaken(specifiers, i - 1) + if specifiers[i - 1] in "csd" then 1 else 0
  }

  /** Digits of the base, without leading zeros. */
  ghost predicate IsCanonical(digits: string, b: Base) {
    && digits != "" && (digits[0] == '0' ==> digits == "0")
    && forall i :: 0 <= i < |digits| ==> exists d :: 0 <= d < b && digits[i] == Digit(d)
  }

  /**
   * What a specifier may write: %c its character, %s its string, %d a text without leading zeros that
   * parses back to its number, and any other specifier nothing.
   */
  ghost predicate MayWrite(specifier: char, args: seq<Arg>, b: Base, text: string) {
    match specifier
    case 'c' => args != [] && args[0].CharArg? && text == [args[0].c]
    case 's' => args != [] && args[0].StringArg? && text == args[0].s
    case 'd' =>
      && args != [] && args[0].IntArg?
      && ParseSigned(text, b) == args[0].n
      && IsCanonical(if args[0].n < 0 && text != "" then text[1..] else text, b)
    case _ => text == ""
  }

  /** The next argument is of the kind the specifier takes, and a number has a text. */
  predicate Suits(specifier: char, args: seq<Arg>, b: Base) {
    match specifier
    case 'c' => args != [] && args[0].CharArg?
    case 's' => args != [] && args[0].StringArg?
    case 'd' => args != [] && args[0].IntArg? && Fits(args[0].n, b, 0x8000_0000)
    case _ => true
  }

  lemma TextIsCanonical(n: nat, b: Base)
    ensures IsCanonical(Text(n, b), b)
  {
    TextDigits(n, b);
  }

  lemma DirectiveWrites(specifier: char, args: seq<Arg>, b: Base)
    ensures Directive(specifier, args, b).Some? <==> Suits(specifier, args, b)
    ensures Directive(specifier, args, b).Some? ==> MayWrite(specifier, args, b, Directive(specifier, args, b).value)
    ensures Suits(specifier, args, b) ==> |Left(specifier, args)| == |args| - if specifier in "csd" then 1 else 0
    ensures Suits(specifier, args, b) ==> Left(specifier, args) == if specifier in "csd" then args[1..] else args
  {
    hide Fits, Text, ParseSigned, Digit, IsCanonical;
    if specifier == 'd' && Suits(specifier, args, b) {
      var n := args[0].n;
      SignIsMinus(n, b);
      ParseSignedText(n, b);
      TextIsCanonical(if n < 0 then -n else n, b);
    }
  }

  /** The arguments left when it is the turn of specifier `i`. */
  function Turn(specifiers: string, args: seq<Arg>, i: nat): seq<Arg>
    requires i <= |specifiers|
  {
    if ArgumentsTaken(specifiers, i) <= |args| then args[ArgumentsTaken(specifiers, i)..] else []
  }

  ghost predicate AllSuit(specifiers: string, args: seq<Arg>, b: Base) {
    forall i :: 0 <= i < |specifiers| ==> Suits(specifiers[i], Turn(specifiers, args, i), b)
  }

  ghost predicate TextsFor(specifiers: string, args: seq<Arg>, b: Base, texts: seq<string>) {
    && |texts| == |specifiers|
    && forall i :: 0 <= i < |specifiers| ==> MayWrite(specifiers[i], Turn(specifiers, args, i), b, texts[i])
  }

  lemma {:induction false} TakenFirst(specifiers: string, i: nat)
    requires 0 < i <= |specifiers|
    ensures ArgumentsTaken(specifiers, i) == (if specifiers[0] in "csd" then 1 else 0) + ArgumentsTaken(specifiers[1..], i - 1)
  {
    if i > 1 {
      TakenFirst(specifiers, i - 1);
    }
  }

  lemma TurnFirst(first: char, rest: string, args: seq<Arg>, i: nat)
    requires i <= |rest|
    ensures Turn([first] + rest, args, 0) == args
    ensures Turn([first] + rest, args, i + 1) == Turn(rest, Left(first, args), i)
  {
    var all := [first] + rest;
    assert all[1..] == rest && args[0..] == args;
    TakenFirst(all, i + 1);
    TakenNone(all, rest);
  }

  lemma TakenNone(a: string, b: string)
    ensures ArgumentsTaken(a, 0) == ArgumentsTaken(b, 0) == 0
  {
  }

  lemma SuitFirst(first: char, rest: string, args: seq<Arg>, b: Base)
    ensures AllSuit([first] + rest, args, b) <==> Suits(first, args, b) && AllSuit(rest, Left(first, args), b)
  {
    hide Suits, Turn, Left;
    var all := [first] + rest;
    TurnFirst(first, rest, args, 0);
    if AllSuit(all, args, b) {
      assert Suits(all[0], Turn(all, args, 0), b);
      forall i | 0 <= i < |rest| ensures Suits(rest[i], Turn(rest, Left(first, args), i), b) {
        TurnFirst(first, rest, args, i);
        assert Suits(all[i + 1], Turn(all, args, i + 1), b);
      }
    }
    if Suits(first, args, b) && AllSuit(rest, Left(first, args), b) {
      forall i | 0 <= i < |all| ensures Suits(all[i], Turn(all, args, i), b) {
        if i > 0 {
          TurnFirst(first, rest, args, i - 1);
        }
      }
    }
  }

  lemma TextsFirst(first: char, rest: string, args: seq<Arg>, b: Base, text: string, texts: seq<string>)
    requires MayWrite(first, args, b, text) && TextsFor(rest, Left(first, args), b, texts)
    ensures TextsFor([first] + rest, args, b, [text] + texts)
  {
    hide MayWrite, Turn, Left;
    var all := [first] + rest;
    TurnFirst(first, rest, args, 0);
    forall i | 0 <= i < |all| ensures MayWrite(all[i], Turn(all, args, i), b, ([text] + texts)[i]) {
      if i > 0 {
        TurnFirst(first, rest, args, i - 1);
      }
    }
  }

  lemma NoSpecifiers(args: seq<Arg>, b: Base)
    ensures AllSuit("", args, b) && TextsFor("", args, b, [])
  {
  }

  /**
   * printf writes something defined iff every directive's argument suits it. Then what it writes is
   * the format with each directive's text in its place, each text one its directive may write of the
   * argument that is its turn.
   */
  lemma {:induction false} PrintedText(format: string, args: seq<Arg>, b: Base) returns (texts: seq<string>)
    ensures Interpret(format, args, b).Some? <==> AllSuit(Specifiers(format), args, b)
    ensures Interpret(format, args, b).Some? ==>
      TextsFor(Specifiers(format), args, b, texts) && Interpret(format, args, b).value == Weave(format, texts)
    decreases |format|
  {
    hide Directive, Left, Suits, MayWrite, AllSuit, TextsFor;
    texts := [];
    NoSpecifiers(args, b);
    if format != "" {
      if format[0] != '%' {
        texts := PrintedText(format[1..], args, b);
      } else if |format| > 1 {
        var rest := PrintedText(format[2..], Left(format[1], args), b);
        DirectiveWrites(format[1], args, b);
        SuitFirst(format[1], Specifiers(format[2..]), args, b);
        if Interpret(format, args, b).Some? {
          texts := [Directive(format[1], args, b).value] + rest;
          TextsFirst(format[1], Specifiers(format[2..]), args, b, Directive(format[1], args, b).value, rest);
          assert texts[1..] == rest;
        }
      }
    }
  }

  /** A string and a line end. */
  lemma StringPrinted()
    ensures Interpret("%s\n", [StringArg("bob")], 10) == Some("bob\n")
  {
    assert "%s\n"[2..] == "\n" && "\n"[1..] == "";
    assert Interpret("", [], 10) == Some("");
    assert Interpret("\n", [], 10) == Prefixed("\n", Some(""));
    assert "\n" + "" == "\n" && "bob" + "\n" == "bob\n";
    assert [StringArg("bob")][1..] == [];
  }

  // ---------- The loop

  method Find(data: string) returns (p: nat)
    ensures p == Percent(data)
  {
    p := 0;
    while p < |data| && data[p] != '%'
      invariant p <= |data| && forall i :: 0 <= i < p ==> data[i] != '%'
    {
      p := p + 1;
    }
  }

  /** Writes the argument a specifier takes, if it takes one. */
  method WriteArgument(writer: UsartWriter, specifier: char, args: seq<Arg>) returns (ok: bool, rest: seq<Arg>)
    modifies writer`output
    ensures ok == Directive(specifier, args, writer.base).Some?
    ensures ok ==> rest == Left(specifier, args)
    ensures ok ==> writer.output == old(writer.output) + Directive(specifier, args, writer.base).value
  {
    hide Fits, SignedText;
    if !TakesArgument(specifier) {
      return true, args;
    }
    if args == [] {
      return false, args;
    }
    rest := args[1..];
    match specifier {
      case 'c' =>
        ok := args[0].CharArg?;
        if ok {
          writer.WriteText([args[0].c]);
        }
      case 's' =>
        ok := args[0].StringArg?;
        if ok {
          writer.WriteText(args[0].s);
        }
      case _ =>
        ok := args[0].IntArg? && -INT_LIMIT <= args[0].n < INT_LIMIT;
        OnlyIntegersFit(args[0], writer.base);
        if ok {
          ok := writer.WriteSigned(args[0].n, INT_LIMIT);
        }
    }
  }

  lemma OnlyIntegersFit(arg: Arg, b: Base)
    ensures arg.IntArg? && Fits(arg.n, b, INT_LIMIT) ==> -INT_LIMIT <= arg.n < INT_LIMIT
  {
  }

  lemma PrefixedTwice(front: string, middle: string, rest: Option<string>)
    ensures Prefixed(front, Prefixed(middle, rest)) == Prefixed(front + middle, rest)
  {
    assert rest.Some? ==> front + (middle + rest.value) == front + middle + rest.value;
  }

  lemma PercentFirst(data: string, p: nat, args: seq<Arg>, b: Base)
    requires p < |data| && data[p] == '%' && p + 1 < |data|
    ensures Interpret(data[p..], args, b) ==
      if Directive(data[p + 1], args, b).None? then None
      else Prefixed(Directive(data[p + 1], args, b).value, Interpret(data[p + 2..], Left(data[p + 1], args), b))
  {
    hide Directive, Left;
    assert data[p..][2..] == data[p + 2..];
  }

  lemma PieceFirst(data: string, p: nat, args: seq<Arg>, b: Base)
    requires p == Percent(data) && p + 1 < |data|
    ensures Interpret(data, args, b) ==
      if Directive(data[p + 1], args, b).None? then None
      else
        Prefixed(data[..p] + Directive(data[p + 1], args, b).value,
                 Interpret(data[p + 2..], Left(data[p + 1], args), b))
  {
    hide Directive, Left, Interpret;
    assert data == data[..p] + data[p..];
    LiteralFront(data[..p], data[p..], args, b);
    PercentFirst(data, p, args, b);
    if Directive(data[p + 1], args, b).Some? {
      PrefixedTwice(data[..p], Directive(data[p + 1], args, b).value,
                    Interpret(data[p + 2..], Left(data[p + 1], args), b));
    }
  }

  lemma LastPiece(written: string, data: string, args: seq<Arg>, b: Base)
    requires Percent(data) + 1 >= |data|
    ensures Prefixed(written, Interpret(data, args, b)) == Some(written + data[..Percent(data)])
  {
    var p := Percent(data);
    assert data == data[..p] + data[p..];
    LiteralFront(data[..p], data[p..], args, b);
    assert Interpret(data[p..], args, b) == Some("");
    assert data[..p] + "" == data[..p];
  }

  lemma {:induction false} CountPiece(data: string)
    ensures var p := Percent(data);
      Count(data) == if p == |data| then |data| else if p + 2 >= |data| then p + |data| else p + Count(data[p + 2..])
  {
    hide Percent;
  }

  /** `None` when an argument is missing, of the wrong kind, or a number whose printing overflows. */
  method VfPrintf(writer: UsartWriter, format: string, arguments: seq<Arg>) returns (r: Option<int>)
    modifies writer`output
    ensures r == if Interpret(format, arguments, writer.base).Some? then Some(Count(format)) else None
    ensures r.Some? ==> writer.output == old(writer.output) + Interpret(format, arguments, writer.base).value
  {
    hide Interpret, Directive, Left, Percent, TakesArgument, Prefixed, Count;
    var data, args := format, arguments;
    var size := 0;
    ghost var was, b := writer.output, writer.base;
    ghost var written := "";
    PrefixedEmpty(Interpret(format, arguments, b));
    while true
      invariant size + Count(data) == Count(format)
      invariant writer.output == was + written && writer.base == b
      invariant Interpret(format, arguments, b) == Prefixed(written, Interpret(data, args, b))
      decreases |data|
    {
      var position := Find(data);
      CountPiece(data);
      if position == |data| {
        LastPiece(written, data, args, b);
        assert data[..position] == data;
        writer.WriteText(data);
        return Some(size + |data|);
      }
      if position > 0 {
        writer.WriteText(data[..position]);
        size := size + position;
      }
      if position + 1 >= |data| {
        LastPiece(written, data, args, b);
        return Some(size + |data|);
      }
      PieceFirst(data, position, args, b);
      var ok, rest := WriteArgument(writer, data[position + 1], args);
      if !ok {
        PrefixedNone(written);
        return None;
      }
      ghost var text := Directive(data[position + 1], args, b).value;
      PrefixedTwice(written, data[..position] + text, Interpret(data[position + 2..], rest, b));
      written := written + (data[..position] + text);
      args := rest;
      if position + 2 >= |data| {
        EmptyFormat(data[position + 2..], args, b);
        PrefixedSome(written, "");
        return Some(size + |data|);
      }
      data := data[position + 2..];
    }
  }

  lemma PrefixedEmpty(rest: Option<string>)
    ensures Prefixed("", rest) == rest
  {
    assert rest.Some? ==> "" + rest.value == rest.value;
  }

  lemma PrefixedSome(front: string, text: string)
    ensures Prefixed(front, Some(text)) == Some(front + text)
  {
  }

  lemma PrefixedNone(front: string)
    ensures Prefixed(front, None) == None
  {
  }

  lemma EmptyFormat(data: string, args: seq<Arg>, b: Base)
    requires data == ""
    ensures Interpret(data, args, b) == Some("")
  {
  }
}
