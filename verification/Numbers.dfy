// Positional notation, and what the two integer printers of the system make of a number.

module Numbers {
  import opened Sequences

  function Rev<T>(s: seq<T>): (r: seq<T>)
    ensures |r| == |s|
  {
    if s == [] then [] else Rev(s[1..]) + [s[0]]
  }

  lemma {:induction false} RevAt<T>(s: seq<T>, i: nat)
    requires i < |s|
    ensures Rev(s)[i] == s[|s| - 1 - i]
  {
    if |s| > 1 && i < |s| - 1 {
      RevAt(s[1..], i);
    }
  }

  lemma {:induction false} RevAppend<T>(s: seq<T>, x: T)
    ensures Rev(s + [x]) == [x] + Rev(s)
  {
    if s == [] {
      assert s + [x] == [x];
      assert Rev([x]) == Rev<T>([]) + [x];
    } else {
      assert (s + [x])[1..] == s[1..] + [x];
      RevAppend(s[1..], x);
    }
  }

  // ---------- Division

  function Div(n: nat, b: nat): (q: nat)
    requires b >= 2
    ensures n > 0 ==> q < n
    ensures q == 0 <==> n < b
  {
    n / b
  }

  function Mod(n: nat, b: nat): (r: nat)
    requires b >= 2
    ensures r < b
    ensures n < b ==> r == n
  {
    n % b
  }

  lemma DivMod(n: nat, b: nat)
    requires b >= 2
    ensures n == Div(n, b) * b + Mod(n, b)
  {
  }

  lemma DivModOf(a: nat, d: nat, b: nat)
    requires b >= 2 && d < b
    ensures Div(a * b + d, b) == a && Mod(a * b + d, b) == d
  {
    hide Div, Mod;
    var n := a * b + d;
    DivMod(n, b);
    Uniquely(a, d, Div(n, b), Mod(n, b), b);
  }

  lemma Uniquely(a: int, d: int, q: int, r: int, b: int)
    requires 0 <= d < b && 0 <= r < b && a * b + d == q * b + r
    ensures a == q && d == r
  {
    Times(a - q, b);
    Times(q - a, b);
    assert (a - q) * b == r - d;
    assert (q - a) * b == d - r;
  }

  lemma Times(x: int, b: int)
    requires b > 0
    ensures x >= 1 ==> x * b >= b
    ensures x == 0 ==> x * b == 0
  {
  }

  // ---------- Canonical notation

  /** Bases whose digits, counted on from the letter a, are characters of eight bits. */
  const MAX_BASE := 169

  /** `int_to_char` */
  function Digit(d: nat): char
    requires d < MAX_BASE
  {
    if d > 9 then (d - 10) as char + 'a' else d as char + '0'
  }

  function DigitValue(c: char): nat {
    if '0' <= c <= '9' then c as nat - '0' as nat else if 'a' <= c then c as nat - 'a' as nat + 10 else 0
  }

  /** The number in base `b`, most significant digit first and without leading zeros. */
  function Text(n: nat, b: nat): (t: string)
    requires 2 <= b <= MAX_BASE
    decreases n
  {
    if n < b then [Digit(n)] else Text(Div(n, b), b) + [Digit(Mod(n, b))]
  }

  function SignedText(n: int, b: nat): string
    requires 2 <= b <= MAX_BASE
  {
    if n < 0 then "-" + Text(-n, b) else Text(n, b)
  }

  function Parse(t: string, b: nat): nat {
    if t == "" then 0 else Parse(t[..|t| - 1], b) * b + DigitValue(t[|t| - 1])
  }

  function ParseSigned(t: string, b: nat): int {
    if t != "" && t[0] == '-' then -(Parse(t[1..], b) as int) else Parse(t, b)
  }

  /** Digits up to nine are the characters 0 to 9, those from ten on the letters from a on. */
  lemma DigitsAre(d: nat)
    requires d < MAX_BASE
    ensures d < 16 ==> Digit(d) == "0123456789abcdef"[d]
    ensures d >= 10 ==> Digit(d) as int == 'a' as int + d - 10
  {
  }

  /** A negative number is a minus sign and the text of its amount; no other text has the sign. */
  lemma SignIsMinus(n: int, b: nat)
    requires 2 <= b <= MAX_BASE
    ensures SignedText(n, b) != "" && (SignedText(n, b)[0] == '-' <==> n < 0)
    ensures n < 0 ==> SignedText(n, b)[1..] == Text(-n, b)
    ensures n >= 0 ==> SignedText(n, b) == Text(n, b)
  {
    hide Text;
    if n >= 0 {
      TextHasNoSign(n, b);
    }
  }

  lemma DigitRead(d: nat)
    requires d < MAX_BASE
    ensures DigitValue(Digit(d)) == d
  {
    var c := Digit(d);
    assert c == if d < 10 then '0' + d as char else 'a' + (d - 10) as char;
  }

  /** Reading a number's text gives the number back. */
  lemma {:induction false} ParseText(n: nat, b: nat)
    requires 2 <= b <= MAX_BASE
    ensures Parse(Text(n, b), b) == n
    decreases n
  {
    hide Div, Mod, Wrapped;
    if n < b {
      assert Text(n, b)[..0] == "";
      DigitRead(n);
    } else {
      ParseText(Div(n, b), b);
      DivMod(n, b);
      DigitRead(Mod(n, b));
      var t := Text(n, b);
      assert t[..|t| - 1] == Text(Div(n, b), b);
    }
  }

  /** The text is a sequence of digits of the base, and starts with a zero only for zero itself. */
  lemma {:induction false} TextDigits(n: nat, b: nat)
    requires 2 <= b <= MAX_BASE
    ensures Text(n, b) != ""
    ensures forall i :: 0 <= i < |Text(n, b)| ==> exists d :: 0 <= d < b && Text(n, b)[i] == Digit(d)
    ensures Text(n, b)[0] == '0' <==> n == 0
    decreases n
  {
    hide Div, Mod, Wrapped;
    if n >= b {
      TextDigits(Div(n, b), b);
    }
  }

  lemma TextHasNoSign(n: nat, b: nat)
    requires 2 <= b <= MAX_BASE
    ensures Text(n, b) != "" && Text(n, b)[0] != '-'
  {
    hide Text;
    TextDigits(n, b);
    var d :| 0 <= d < b && Text(n, b)[0] == Digit(d);
    DigitRead(d);
  }

  lemma ParseSignedText(n: int, b: nat)
    requires 2 <= b <= MAX_BASE
    ensures ParseSigned(SignedText(n, b), b) == n
  {
    hide Parse, Text;
    var m: nat := if n < 0 then -n else n;
    ParseText(m, b);
    TextHasNoSign(m, b);
    if n < 0 {
      assert SignedText(n, b)[1..] == Text(-n, b);
    }
  }

  // ---------- Digits from the least significant

  function Low(n: nat, b: nat): (ds: seq<nat>)
    requires b >= 2
    ensures forall i :: 0 <= i < |ds| ==> ds[i] < b
    decreases n
  {
    if n == 0 then [] else [Mod(n, b)] + Low(Div(n, b), b)
  }

  function Chars(ds: seq<nat>): (t: string)
    requires forall i :: 0 <= i < |ds| ==> ds[i] < MAX_BASE
    ensures |t| == |ds|
    ensures forall i :: 0 <= i < |ds| ==> t[i] == Digit(ds[i])
  {
    seq(|ds|, i requires 0 <= i < |ds| => Digit(ds[i]))
  }

  lemma RevBelow(ds: seq<nat>, b: nat)
    requires forall i :: 0 <= i < |ds| ==> ds[i] < b
    ensures forall i :: 0 <= i < |ds| ==> Rev<nat>(ds)[i] < b
  {
    forall i | 0 <= i < |ds| ensures Rev<nat>(ds)[i] < b {
      RevAt(ds, i);
      assert Rev<nat>(ds)[i] == ds[|ds| - 1 - i] < b;
    }
  }

  /** The digits, turned round and written out. */
  function RevChars(ds: seq<nat>): string
    requires forall i :: 0 <= i < |ds| ==> ds[i] < MAX_BASE
  {
    RevBelow(ds, MAX_BASE);
    Chars(Rev<nat>(ds))
  }

  lemma {:induction false} TextIsLowReversed(n: nat, b: nat)
    requires 2 <= b <= MAX_BASE
    ensures Text(n, b) == if n == 0 then "0" else RevChars(Low(n, b))
    decreases n
  {
    hide Div, Mod, Wrapped;
    if n >= b {
      TextIsLowReversed(Div(n, b), b);
      assert RevChars(Low(n, b)) == RevChars(Low(Div(n, b), b)) + [Digit(Mod(n, b))];
    } else if n > 0 {
      assert Low(n, b) == [n];
      assert Rev([n]) == [n];
    }
  }

  lemma LowOnce(a: nat, d: nat, b: nat)
    requires b >= 2 && d < b && a * b + d > 0
    ensures Low(a * b + d, b) == [d] + Low(a, b)
  {
    hide Div, Mod, Wrapped;
    DivModOf(a, d, b);
  }

  // ---------- Reversal

  /** The digits of `n` read from the least significant, behind those already in `acc`. */
  function Reversal(n: nat, acc: nat, b: nat): nat
    requires b >= 2
    decreases n
  {
    if n == 0 then acc else Reversal(Div(n, b), acc * b + Mod(n, b), b)
  }

  /** What arithmetic by a modulus leaves of a number. */
  function Wrapped(x: nat, modulus: nat): (y: nat)
    requires modulus > 0
    ensures y < modulus
    ensures x < modulus ==> y == x
  {
    x % modulus
  }

  /** The same in arithmetic that keeps only the remainder by `modulus`. */
  function WrappedReversal(n: nat, acc: nat, b: nat, modulus: nat): nat
    requires b >= 2 && modulus > 0
    decreases n
  {
    if n == 0 then acc else WrappedReversal(Div(n, b), Wrapped(acc * b + Mod(n, b), modulus), b, modulus)
  }

  function ZerosAtEnd(n: nat, b: nat): nat
    requires b >= 2
    decreases n
  {
    if n == 0 || Mod(n, b) != 0 then 0 else 1 + ZerosAtEnd(Div(n, b), b)
  }

  lemma WrappedAs(x: nat, modulus: nat) returns (q: nat)
    requires modulus > 0
    ensures x == q * modulus + Wrapped(x, modulus)
  {
    q := x / modulus;
  }

  lemma WrapStep(x: nat, b: nat, t: nat, modulus: nat)
    requires modulus > 0
    ensures Wrapped(Wrapped(x, modulus) * b + t, modulus) == Wrapped(x * b + t, modulus)
  {
    hide Wrapped;
    var w := Wrapped(x, modulus);
    var q := WrappedAs(x, modulus);
    var y := w * b + t;
    var p := WrappedAs(y, modulus);
    var r := WrappedAs(x * b + t, modulus);
    Distribute(q, modulus, w, b);
    Distribute2(q * b, p, modulus);
    Uniquely(q * b + p, Wrapped(y, modulus), r, Wrapped(x * b + t, modulus), modulus);
  }

  lemma Distribute(q: int, m: int, w: int, b: int)
    ensures (q * m + w) * b == q * b * m + w * b
  {
  }

  lemma Distribute2(x: int, y: int, m: int)
    ensures (x + y) * m == x * m + y * m
  {
  }

  lemma {:induction false} WrappedIsReversal(n: nat, acc: nat, b: nat, modulus: nat)
    requires b >= 2 && modulus > 0
    ensures WrappedReversal(n, Wrapped(acc, modulus), b, modulus) == Wrapped(Reversal(n, acc, b), modulus)
    decreases n
  {
    hide Div, Mod, Wrapped;
    if n > 0 {
      WrapStep(acc, b, Mod(n, b), modulus);
      WrappedIsReversal(Div(n, b), acc * b + Mod(n, b), b, modulus);
    }
  }

  lemma {:induction false} LowOfReversal(n: nat, acc: nat, b: nat)
    requires b >= 2 && acc > 0
    ensures Low(Reversal(n, acc, b), b) == Rev(Low(n, b)) + Low(acc, b)
    decreases n
  {
    hide Div, Mod, Wrapped;
    if n > 0 {
      var d := Mod(n, b);
      assert acc * b + d > 0 by { assert acc * b >= b; }
      LowOfReversal(Div(n, b), acc * b + d, b);
      LowOnce(acc, d, b);
      assert Rev(Low(n, b)) == Rev(Low(Div(n, b), b)) + [d];
      assert Rev(Low(Div(n, b), b)) + ([d] + Low(acc, b)) == Rev(Low(Div(n, b), b)) + [d] + Low(acc, b);
    } else {
      assert Rev(Low(n, b)) == [];
    }
  }

  /** The reversal's digits, least significant first, then the zeros it lost: the number's digits. */
  lemma {:induction false} ReversalRestored(n: nat, b: nat)
    requires b >= 2 && n > 0
    ensures Low(Reversal(n, 0, b), b) + Zeros(ZerosAtEnd(n, b)) == Rev(Low(n, b))
    decreases n
  {
    hide Div, Mod, Wrapped;
    var d := Mod(n, b);
    assert Rev(Low(n, b)) == Rev(Low(Div(n, b), b)) + [d];
    if d == 0 {
      assert Div(n, b) > 0;
      ReversalRestored(Div(n, b), b);
      assert Zeros(ZerosAtEnd(n, b)) == Zeros(ZerosAtEnd(Div(n, b), b)) + [0];
    } else {
      LowOfReversal(Div(n, b), d, b);
      assert Low(d, b) == [d];
    }
  }

  // ---------- The reverse-then-print printer

  /** Least significant digit first, then the counted zeros; with the reversal `r` of the number. */
  function Emitted(r: nat, zeros: nat, b: nat): string
    requires 2 <= b <= MAX_BASE
  {
    Chars(Low(r, b)) + Chars(Zeros(zeros))
  }

  /** What the printer writes for `n` on an unsigned type with `modulus` values. */
  function Printed(n: nat, b: nat, modulus: nat): string
    requires 2 <= b <= MAX_BASE && modulus > 0
  {
    if n == 0 then Emitted(0, 1, b) else Emitted(WrappedReversal(n, 0, b, modulus), ZerosAtEnd(n, b), b)
  }

  lemma EmittedRestores(n: nat, b: nat)
    requires 2 <= b <= MAX_BASE && n > 0
    ensures Emitted(Reversal(n, 0, b), ZerosAtEnd(n, b), b) == Text(n, b)
  {
    hide Div, Mod, Wrapped;
    ReversalRestored(n, b);
    TextIsLowReversed(n, b);
    var r, z := Low(Reversal(n, 0, b), b), Zeros(ZerosAtEnd(n, b));
    assert Chars(r) + Chars(z) == Chars(r + z);
  }

  lemma LowSplits(n: nat, b: nat)
    requires 2 <= b <= MAX_BASE
    ensures n > 0 ==> Chars(Low(n, b)) == [Digit(Mod(n, b))] + Chars(Low(Div(n, b), b))
    ensures n == 0 ==> Chars(Low(n, b)) == []
  {
    hide Div, Mod;
  }

  lemma SameDigit(c: nat, d: nat, p: string, q: string)
    requires c < MAX_BASE && d < MAX_BASE && [Digit(c)] + p == [Digit(d)] + q
    ensures c == d && p == q
  {
    hide Digit;
    var s, t := [Digit(c)] + p, [Digit(d)] + q;
    assert s[0] == Digit(c) && t[0] == Digit(d) && s[1..] == p && t[1..] == q;
    DigitRead(c);
    DigitRead(d);
  }

  lemma {:induction false} DigitsDiffer(x: nat, y: nat, b: nat)
    requires 2 <= b <= MAX_BASE && Chars(Low(x, b)) == Chars(Low(y, b))
    ensures x == y
    decreases x
  {
    hide Div, Mod, Low, Chars, Digit;
    LowSplits(x, b);
    LowSplits(y, b);
    if x > 0 && y > 0 {
      SameDigit(Mod(x, b), Mod(y, b), Chars(Low(Div(x, b), b)), Chars(Low(Div(y, b), b)));
      DigitsDiffer(Div(x, b), Div(y, b), b);
      DivMod(x, b);
      DivMod(y, b);
    }
  }

  /** The printer writes the canonical text iff the digit-reversed number fits the type. */
  lemma PrintedIsCanonicalIff(n: nat, b: nat, modulus: nat)
    requires 2 <= b <= MAX_BASE && n < modulus
    ensures Printed(n, b, modulus) == Text(n, b) <==> Reversal(n, 0, b) < modulus
  {
    hide Div, Mod, Wrapped;
    if n == 0 {
      assert Printed(n, b, modulus) == "0";
    } else {
      WrappedIsReversal(n, 0, b, modulus);
      EmittedRestores(n, b);
      var r := Reversal(n, 0, b);
      if Printed(n, b, modulus) == Text(n, b) {
        var z := Chars(Zeros(ZerosAtEnd(n, b)));
        SameFront(Chars(Low(Wrapped(r, modulus), b)), Chars(Low(r, b)), z);
        DigitsDiffer(Wrapped(r, modulus), r, b);
      }
    }
  }

  lemma SameFront(p: string, q: string, z: string)
    requires p + z == q + z
    ensures p == q
  {
    assert |p| == |q|;
    assert p == (p + z)[..|p|] && q == (q + z)[..|q|];
  }

  /** With the digits of `t` taken in already, the reversal is what `t` and the digits still to come read. */
  lemma {:induction false} ReversalReads(n: nat, t: string, b: nat)
    requires 2 <= b <= MAX_BASE
    ensures Reversal(n, Parse(t, b), b) == Parse(t + Chars(Low(n, b)), b)
    decreases n
  {
    hide Div, Mod, Wrapped, DigitValue, Digit;
    if n == 0 {
      assert t + Chars(Low(n, b)) == t;
    } else {
      var d := Mod(n, b);
      DivMod(n, b);
      var longer := t + [Digit(d)];
      assert longer[..|longer| - 1] == t;
      DigitRead(d);
      ReversalReads(Div(n, b), longer, b);
      assert t + Chars(Low(n, b)) == longer + Chars(Low(Div(n, b), b));
    }
  }

  /** The reversal of a number is what its text reads from back to front. */
  lemma ReversalIsTextBackwards(n: nat, b: nat)
    requires 2 <= b <= MAX_BASE
    ensures Reversal(n, 0, b) == Parse(Rev(Text(n, b)), b)
  {
    hide Div, Mod, Wrapped, Text, Rev, Digit;
    TextIsLowReversed(n, b);
    if n > 0 {
      ReversalReads(n, "", b);
      assert "" + Chars(Low(n, b)) == Chars(Low(n, b));
      RevRevChars(Low(n, b));
    } else {
      ZeroBackwards(b);
    }
  }

  lemma ZeroBackwards(b: nat)
    requires 2 <= b <= MAX_BASE
    ensures Reversal(0, 0, b) == 0 && Parse(Rev("0"), b) == 0
  {
    assert Rev("0") == "0";
    assert "0"[..0] == "";
    assert Parse("", b) == 0;
  }

  lemma RevRevChars(ds: seq<nat>)
    requires forall i :: 0 <= i < |ds| ==> ds[i] < MAX_BASE
    ensures Rev(RevChars(ds)) == Chars(ds)
  {
    hide Rev, Digit;
    forall i | 0 <= i < |ds| ensures Rev(RevChars(ds))[i] == Chars(ds)[i] {
      RevAt(RevChars(ds), i);
      RevAt<nat>(ds, |ds| - 1 - i);
    }
  }

  // ---------- A sufficient bound

  function Pow(b: nat, k: nat): nat {
    if k == 0 then 1 else b * Pow(b, k - 1)
  }

  lemma QuotientBelow(n: nat, b: nat, p: nat)
    requires b >= 2 && n < b * p
    ensures Div(n, b) < p
  {
    hide Div, Mod;
    var q := Div(n, b);
    DivMod(n, b);
    Monotone(p, q, b);
  }

  lemma Monotone(p: nat, q: nat, b: nat)
    ensures p <= q ==> p * b <= q * b
  {
  }

  lemma {:induction false} ReversalBelow(n: nat, acc: nat, b: nat, k: nat)
    requires b >= 2 && n < Pow(b, k)
    ensures Reversal(n, acc, b) < (acc + 1) * Pow(b, k)
    decreases n
  {
    hide Div, Mod, Wrapped;
    if n == 0 {
      PowPositive(b, k);
      Monotone(1, Pow(b, k), acc + 1);
    } else {
      var p := Pow(b, k - 1);
      var d := Mod(n, b);
      PowPositive(b, k - 1);
      QuotientBelow(n, b, p);
      ReversalBelow(Div(n, b), acc * b + d, b, k - 1);
      Distribute2(acc, 1, b);
      Monotone(acc * b + d + 1, (acc + 1) * b, p);
      Associate(acc + 1, b, p);
    }
  }

  lemma Associate(x: int, y: int, z: int)
    ensures x * y * z == x * (y * z)
  {
  }

  lemma {:induction false} PowPositive(b: nat, k: nat)
    requires b >= 1
    ensures Pow(b, k) >= 1
  {
    if k > 0 {
      PowPositive(b, k - 1);
    }
  }

  /** Every number of at most `k` digits prints right if all numbers of `k` digits fit the type. */
  lemma ShortNumbersPrint(n: nat, b: nat, k: nat, modulus: nat)
    requires 2 <= b <= MAX_BASE && n < Pow(b, k) && Pow(b, k) <= modulus
    ensures Printed(n, b, modulus) == Text(n, b) && Parse(Printed(n, b, modulus), b) == n
  {
    hide Div, Mod, Wrapped, Printed, Text, Parse, Reversal;
    ReversalBelow(n, 0, b, k);
    PrintedIsCanonicalIff(n, b, modulus);
    ParseText(n, b);
  }

  lemma Powers()
    ensures Pow(16, 8) == 0x1_0000_0000 && Pow(2, 32) == 0x1_0000_0000
    ensures Pow(10, 9) == 1_000_000_000 && Pow(8, 10) == 0x4000_0000
  {
    assert Pow(2, 8) == 256;
    assert Pow(2, 16) == 65536;
    assert Pow(2, 24) == 0x100_0000;
  }

  /** On 32 bits: everything in hexadecimal and binary, below 10^9 in decimal, below 2^30 in octal. */
  lemma ThirtyTwoBits(n: nat)
    requires n < 0x1_0000_0000
    ensures Printed(n, 16, 0x1_0000_0000) == Text(n, 16)
    ensures Printed(n, 2, 0x1_0000_0000) == Text(n, 2)
    ensures n < 1_000_000_000 ==> Printed(n, 10, 0x1_0000_0000) == Text(n, 10)
    ensures n < 0x4000_0000 ==> Printed(n, 8, 0x1_0000_0000) == Text(n, 8)
  {
    hide Printed, Text, Pow;
    Powers();
    ShortNumbersPrint(n, 16, 8, 0x1_0000_0000);
    ShortNumbersPrint(n, 2, 32, 0x1_0000_0000);
    if n < 1_000_000_000 {
      ShortNumbersPrint(n, 10, 9, 0x1_0000_0000);
    }
    if n < 0x4000_0000 {
      ShortNumbersPrint(n, 8, 10, 0x1_0000_0000);
    }
  }

  lemma TurnRound(n: nat, acc: nat, rest: nat, d: nat)
    requires n == 10 * rest + d && n > 0 && d < 10
    ensures Reversal(n, acc, 10) == Reversal(rest, 10 * acc + d, 10)
  {
  }

  lemma NothingLeft(acc: nat)
    ensures Reversal(0, acc, 10) == acc
  {
  }

  /** The bounds are needed: just above 10^9 the reversal no longer fits. */
  lemma DecimalGarbled()
    ensures Printed(1_000_000_009, 10, 0x1_0000_0000) != Text(1_000_000_009, 10)
  {
    hide Printed, Text, Div, Mod, Reversal;
    TurnRound(1_000_000_009, 0, 100_000_000, 9);
    TurnRound(100_000_000, 9, 10_000_000, 0);
    TurnRound(10_000_000, 90, 1_000_000, 0);
    TurnRound(1_000_000, 900, 100_000, 0);
    TurnRound(100_000, 9_000, 10_000, 0);
    TurnRound(10_000, 90_000, 1_000, 0);
    TurnRound(1_000, 900_000, 100, 0);
    TurnRound(100, 9_000_000, 10, 0);
    TurnRound(10, 90_000_000, 1, 0);
    TurnRound(1, 900_000_000, 0, 1);
    NothingLeft(9_000_000_001);
    PrintedIsCanonicalIff(1_000_000_009, 10, 0x1_0000_0000);
  }
}
