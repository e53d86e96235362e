// C strings in character buffers.

module CStrings {

  /** The C string at the start of a buffer. */
  function CText(s: seq<char>): (t: string)
    ensures |t| <= |s| && t == s[..|t|] && '\0' !in t
    ensures '\0' in s ==> |t| < |s| && s[|t|] == '\0'
  {
    if s == [] || s[0] == '\0' then [] else [s[0]] + CText(s[1..])
  }

  lemma {:induction false} CTextIs(s: seq<char>, t: string)
    requires |t| < |s| && s[..|t|] == t && s[|t|] == '\0' && '\0' !in t
    ensures CText(s) == t
  {
    if t != "" {
      CTextIs(s[1..], t[1..]);
    }
  }

  method StrLen(s: array<char>) returns (n: nat)
    requires '\0' in s[..]
    ensures n < s.Length && n == |CText(s[..])|
  {
    n := 0;
    while s[n] != '\0'
      invariant n < s.Length && n <= |CText(s[..])|
      decreases s.Length - n
    {
      n := n + 1;
    }
  }
}
