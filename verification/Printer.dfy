// The two integer printers as they run: the serial writer, which reverses a number and then writes
// it, and `itoa`, which writes the digits and then reverses the text.

module Printer {
  import opened CStrings
  import opened Numbers
  import opened Sequences

  type Base = b: nat | 2 <= b <= MAX_BASE witness 10

  /** The serial writer looks digits up in a table of sixteen. */
  type WriterBase = b: nat | 2 <= b <= 16 witness 10

  function TableDigit(d: nat): (c: char)
    requires d < 16
    ensures c == Digit(d)
  {
    "0123456789abcdef"[d]
  }

  function Abs(n: int): nat {
    if n < 0 then -n else n
  }

  /** The numbers of a signed type with values from -limit that the writer has a defined text for. */
  predicate Fits(n: int, b: nat, limit: int)
    requires b >= 2
  {
    -limit < n < limit && Reversal(Abs(n), 0, b) < limit
  }

  /** A number has a defined text iff its negation, and its digits from back to front, are numbers of its type. */
  lemma FitsIff(n: int, b: Base, limit: int)
    ensures Fits(n, b, limit) <==>
      -limit < n < limit && Parse(Rev(Text(if n < 0 then -n else n, b)), b) < limit
  {
    hide Reversal, Parse, Text, Rev;
    ReversalIsTextBackwards(Abs(n), b);
  }

  /** On 32 bits every decimal number of up to nine digits has one, with either sign. */
  lemma NineDigitsFit(n: int)
    requires -1_000_000_000 < n < 1_000_000_000
    ensures Fits(n, 10, 0x8000_0000)
  {
    hide Reversal, Pow;
    Powers();
    ReversalBelow(Abs(n), 0, 10, 9);
  }

  lemma {:induction false} ReversalGrows(n: nat, acc: nat, b: nat)
    requires b >= 2
    ensures Reversal(n, acc, b) >= acc
    decreases n
  {
    hide Div, Mod;
    if n > 0 {
      ReversalGrows(Div(n, b), acc * b + Mod(n, b), b);
      Monotone(1, b, acc);
    }
  }

  lemma ZerosSplit(z: nat)
    requires z > 0
    ensures Chars(Zeros(z)) == "0" + Chars(Zeros(z - 1))
  {
  }

  class UsartWriter {
    var output: string
    var base: WriterBase

    constructor ()
      ensures output == "" && base == 10
    {
      output, base := "", 10;
    }

    method SetBase(base: WriterBase)
      modifies this`base
      ensures this.base == base
    {
      this.base := base;
    }

    method WriteText(text: string)
      modifies this`output
      ensures output == old(output) + text
    {
      output := output + text;
    }

    /** The digits in reverse order, in arithmetic of `modulus` values, and how many zeros that loses. */
    method ReverseNumber(number: nat, modulus: nat) returns (r: nat, zerosAtEnd: nat)
      requires modulus > 0
      ensures Emitted(r, zerosAtEnd, base) == Printed(number, base, modulus)
    {
      hide Div, Mod, Wrapped, Emitted;
      if number == 0 {
        return 0, 1;
      }
      var data := number;
      r, zerosAtEnd := 0, 0;
      var isZeroAtEnd := true;
      while data != 0
        invariant WrappedReversal(data, r, base, modulus) == WrappedReversal(number, 0, base, modulus)
        invariant zerosAtEnd + (if isZeroAtEnd then ZerosAtEnd(data, base) else 0) == ZerosAtEnd(number, base)
      {
        var temp := Mod(data, base);
        if isZeroAtEnd && temp == 0 {
          zerosAtEnd := zerosAtEnd + 1;
        } else {
          isZeroAtEnd := false;
        }
        r := Wrapped(r * base + temp, modulus);
        data := Div(data, base);
      }
    }

    method WriteNumberAsText(number: nat, zerosAtEnd: nat)
      modifies this`output
      ensures output == old(output) + Emitted(number, zerosAtEnd, base)
    {
      hide Div, Mod, Chars, Low, Zeros;
      var n, z := number, zerosAtEnd;
      while n != 0
        invariant output + Chars(Low(n, base)) == old(output) + Chars(Low(number, base))
      {
        LowSplits(n, base);
        ghost var before := output;
        WriteText([TableDigit(Mod(n, base))]);
        n := Div(n, base);
        assert output + Chars(Low(n, base)) == before + ([output[|before|]] + Chars(Low(n, base)));
      }
      LowSplits(0, base);
      assert output == old(output) + Chars(Low(number, base));
      while z != 0
        invariant output + Chars(Zeros(z)) == old(output) + Emitted(number, zerosAtEnd, base)
      {
        ZerosSplit(z);
        ghost var before := output;
        WriteText("0");
        z := z - 1;
        assert output + Chars(Zeros(z)) == before + ("0" + Chars(Zeros(z)));
      }
    }

    method WriteUnsigned(data: nat, modulus: nat)
      requires modulus > 0
      modifies this`output
      ensures output == old(output) + Printed(data, base, modulus)
    {
      hide *;
      var r, zerosAtEnd := ReverseNumber(data, modulus);
      WriteNumberAsText(r, zerosAtEnd);
    }

    /** On a signed type a product or sum that reaches `limit` has no defined value. */
    method ReverseSigned(number: nat, limit: int) returns (defined: bool, r: nat, zerosAtEnd: nat)
      ensures number > 0 ==> (defined <==> Reversal(number, 0, base) < limit)
      ensures number > 0 && defined ==> r == Reversal(number, 0, base) && zerosAtEnd == ZerosAtEnd(number, base)
      ensures number == 0 ==> defined && r == 0 && zerosAtEnd == 1
    {
      hide Div, Mod;
      if number == 0 {
        return true, 0, 1;
      }
      var data := number;
      r, zerosAtEnd := 0, 0;
      var isZeroAtEnd := true;
      while data != 0
        invariant Reversal(data, r, base) == Reversal(number, 0, base)
        invariant zerosAtEnd + (if isZeroAtEnd then ZerosAtEnd(data, base) else 0) == ZerosAtEnd(number, base)
        invariant data == number || r < limit
      {
        var temp := Mod(data, base);
        if isZeroAtEnd && temp == 0 {
          zerosAtEnd := zerosAtEnd + 1;
        } else {
          isZeroAtEnd := false;
        }
        ReversalGrows(Div(data, base), r * base + temp, base);
        if r * base + temp >= limit {
          return false, 0, 0;
        }
        r := r * base + temp;
        data := Div(data, base);
      }
      defined := true;
    }

    /** Writes the number's text iff neither its negation nor its reversal overflows the type. */
    method WriteSigned(data: int, limit: int) returns (defined: bool)
      requires -limit <= data < limit
      modifies this`output
      ensures defined <==> Fits(data, base, limit)
      ensures defined ==> output == old(output) + SignedText(data, base)
    {
      hide Emitted, Reversal, ZerosAtEnd, Text, Low;
      if data == -limit {
        return false;
      }
      var n := data;
      if n < 0 {
        WriteText("-");
        n := -n;
      }
      var r, zerosAtEnd;
      defined, r, zerosAtEnd := ReverseSigned(n, limit);
      if defined {
        ghost var before := output;
        SignedEmitted(n, base);
        WriteNumberAsText(r, zerosAtEnd);
        assert output == before + Text(n, base);
      }
      ZeroReversed(base);
    }
  }

  lemma SignedEmitted(n: nat, b: Base)
    ensures n == 0 ==> Emitted(0, 1, b) == Text(0, b)
    ensures n > 0 ==> Emitted(Reversal(n, 0, b), ZerosAtEnd(n, b), b) == Text(n, b)
  {
    if n > 0 {
      EmittedRestores(n, b);
    }
  }

  lemma ZeroReversed(b: Base)
    ensures Reversal(0, 0, b) == 0
  {
  }

  // ---------- itoa

  /** Reverses the C string in the buffer, in place. */
  method Reverse(s: array<char>)
    requires '\0' in s[..]
    modifies s
    ensures var t := CText(old(s[..])); s[..] == Rev(t) + old(s[..])[|t|..]
  {
    hide CText, Rev;
    var n := StrLen(s);
    ghost var was := s[..];
    var i := 0;
    var j: int := n - 1;
    while i < j
      invariant 0 <= i <= n && j == n - 1 - i && -1 <= j && i <= j + 1
      invariant forall k :: 0 <= k < i ==> s[k] == was[n - 1 - k]
      invariant forall k :: j < k < n ==> s[k] == was[n - 1 - k]
      invariant forall k :: i <= k <= j ==> s[k] == was[k]
      invariant s[n..] == was[n..]
    {
      s[i], s[j] := s[j], s[i];
      i, j := i + 1, j - 1;
    }
    TurnedRound(was, n, s[..]);
  }

  lemma TurnedRound(was: seq<char>, n: nat, s: seq<char>)
    requires n == |CText(was)| && |s| == |was| && s[n..] == was[n..]
    requires forall k :: 0 <= k < n ==> s[k] == was[n - 1 - k]
    ensures s == Rev(CText(was)) + was[n..]
  {
    hide CText, Rev;
    var t := CText(was);
    forall k | 0 <= k < n ensures s[..n][k] == Rev(t)[k] {
      RevAt(t, k);
    }
    assert s == s[..n] + s[n..];
  }

  lemma RevOfChars(ds: seq<nat>)
    requires forall i :: 0 <= i < |ds| ==> ds[i] < MAX_BASE
    ensures Rev(Chars(ds)) == RevChars(ds)
  {
    forall i | 0 <= i < |ds| ensures Rev(Chars(ds))[i] == RevChars(ds)[i] {
      RevAt(Chars(ds), i);
      RevAt<nat>(ds, i);
    }
  }

  /** The digits of a number as `itoa` first writes them, least significant first. */
  function Backwards(n: nat, b: Base): string {
    if n == 0 then "0" else Chars(Low(n, b))
  }

  lemma BackwardsIsText(n: nat, b: Base)
    ensures Rev(Backwards(n, b)) == Text(n, b)
  {
    TextIsLowReversed(n, b);
    if n > 0 {
      RevOfChars(Low(n, b));
    }
  }

  lemma BackwardsSplits(n: nat, b: Base)
    ensures Backwards(n, b) == [Digit(Mod(n, b))] + Chars(Low(Div(n, b), b))
    ensures '\0' !in Backwards(n, b)
  {
    hide Div, Mod, Low, Chars;
    LowSplits(n, b);
    LowSplits(Div(n, b), b);
    DigitsOnly(n, b);
  }

  lemma DigitsOnly(n: nat, b: Base)
    ensures '\0' !in Chars(Low(n, b))
  {
    hide Low;
  }

  lemma DigitMore(front: string, n: nat, b: Base, all: string)
    requires front + Chars(Low(n, b)) == all && n > 0
    ensures |front| < |all| && front + [Digit(Mod(n, b))] + Chars(Low(Div(n, b), b)) == all
  {
    hide Div, Mod, Chars, Low, Digit;
    LowSplits(n, b);
  }

  /** Writes the digits of a non-negative number backwards, as far as the buffer goes. */
  method WriteBackwards(number: nat, s: array<char>, b: Base) returns (ok: bool, i: nat)
    modifies s
    ensures ok <==> |Text(number, b)| <= s.Length
    ensures ok ==> i == |Backwards(number, b)| == |Text(number, b)| && s[..i] == Backwards(number, b)
    ensures ok ==> s[i..] == old(s[..])[i..]
  {
    hide Div, Mod, Text, Chars, Low, Backwards, Digit;
    BackwardsIsText(number, b);
    BackwardsSplits(number, b);
    if s.Length == 0 {
      return false, 0;
    }
    s[0] := Digit(Mod(number, b));
    i := 1;
    var n := Div(number, b);
    while n > 0
      invariant 0 < i <= |Backwards(number, b)| && i <= s.Length
      invariant s[..i] + Chars(Low(n, b)) == Backwards(number, b)
      invariant forall k :: i <= k < s.Length ==> s[k] == old(s[k])
    {
      ghost var before := s[..i];
      DigitMore(before, n, b, Backwards(number, b));
      if i == s.Length {
        return false, i;
      }
      s[i] := Digit(Mod(n, b));
      assert s[..i + 1] == before + [s[i]];
      i := i + 1;
      n := Div(n, b);
    }
    LowSplits(n, b);
    ok := true;
  }

  function SignedBackwards(n: int, b: Base): string {
    Backwards(Abs(n), b) + if n < 0 then "-" else ""
  }

  lemma SignedBackwardsIsText(n: int, b: Base)
    ensures Rev(SignedBackwards(n, b)) == SignedText(n, b) && '\0' !in SignedBackwards(n, b)
  {
    hide Backwards, Rev, Text;
    BackwardsIsText(Abs(n), b);
    BackwardsSplits(Abs(n), b);
    RevAppend(Backwards(Abs(n), b), '-');
    assert Backwards(Abs(n), b) + "" == Backwards(Abs(n), b);
  }

  method WriteSignedBackwards(n: int, s: array<char>, b: Base) returns (ok: bool, i: nat)
    modifies s
    ensures ok <==> |SignedText(n, b)| <= s.Length
    ensures ok ==> i == |SignedText(n, b)| && s[..i] == SignedBackwards(n, b) && s[i..] == old(s[..])[i..]
  {
    hide Backwards, Text;
    ghost var was := s[..];
    ok, i := WriteBackwards(Abs(n), s, b);
    if !ok {
      return;
    }
    if n < 0 {
      if i == s.Length {
        return false, i;
      }
      ghost var before := s[..i];
      s[i] := '-';
      i := i + 1;
      assert s[..i] == before + ['-'];
      assert s[i..] == was[i - 1..][1..];
    }
  }

  /** How a conversion comes out: a text of that length, no negation on the type, or a store past the buffer. */
  datatype Conversion = Written(length: nat) | NoNegation | PastBuffer

  /** The text of a number in the buffer. */
  method Itoa(n: int, s: array<char>, b: Base, limit: int) returns (r: Conversion)
    requires -limit <= n < limit
    modifies s
    ensures r == if n == -limit then NoNegation
                 else if |SignedText(n, b)| >= s.Length then PastBuffer
                 else Written(|SignedText(n, b)|)
    ensures r.Written? ==> CText(s[..]) == SignedText(n, b)
    ensures r.Written? ==>
      s[..r.length + 1] == SignedText(n, b) + ['\0'] && s[r.length + 1..] == old(s[..])[r.length + 1..]
  {
    hide *;
    if n == -limit {
      return NoNegation;
    }
    ghost var was := s[..];
    var ok, i := WriteSignedBackwards(n, s, b);
    if !ok || i == s.Length {
      return PastBuffer;
    }
    SignedBackwardsIsText(n, b);
    Finish(s, i, SignedBackwards(n, b));
    assert s[i + 1..] == was[i..][1..];
    return Written(i);
  }

  /** Ends the text in the buffer and turns it round. */
  method Finish(s: array<char>, i: nat, ghost t: string)
    requires i < s.Length && s[..i] == t && '\0' !in t
    modifies s
    ensures s[..i + 1] == Rev(t) + ['\0'] && CText(s[..]) == Rev(t)
    ensures s[i + 1..] == old(s[..])[i + 1..]
  {
    hide Rev, CText;
    s[i] := '\0';
    CTextIs(s[..], t);
    Reverse(s);
    RevKeeps(t, '\0');
    assert s[..i] == Rev(t);
    CTextIs(s[..], Rev(t));
  }

  lemma RevKeeps(t: string, c: char)
    ensures c in Rev(t) <==> c in t
  {
    forall i | 0 <= i < |t| ensures Rev(t)[i] == t[|t| - 1 - i] {
      RevAt(t, i);
    }
    if c in t {
      var i :| 0 <= i < |t| && t[i] == c;
      assert Rev(t)[|t| - 1 - i] == c;
    }
  }
}
