/** ASCII character classes, case mapping and `String.trim`, as the tag
    pipeline uses them. Lower-casing maps `A`-`Z` to `a`-`z` and leaves every
    other character alone; the locale-dependent mappings of Java's
    `toLowerCase` (non-ASCII letters, the dotless i of Turkish) are not
    modelled. */
module Ascii {

  predicate IsUpper(c: char) { 'A' <= c <= 'Z' }

  predicate IsLower(c: char) { 'a' <= c <= 'z' }

  predicate IsLetter(c: char) { IsUpper(c) || IsLower(c) }

  /** `Character.toLowerCase` on ASCII: an upper-case letter becomes its
      lower-case partner, every other character is left alone. */
  function ToLower(c: char): (r: char)
    ensures !IsUpper(r)
    ensures IsLetter(r) == IsLetter(c)
    ensures IsUpper(c) || r == c
    ensures IsLower(c) ==> r == c
    ensures IsUpper(c) ==> r as int - 'a' as int == c as int - 'A' as int
  {
    if IsUpper(c) then (c as int - 'A' as int + 'a' as int) as char else c
  }

  /** `String.toLowerCase` restricted to ASCII, character by character. */
  function ToLowerAscii(s: string): (r: string)
    ensures |r| == |s|
    ensures forall i :: 0 <= i < |s| ==> !IsUpper(r[i]) && IsLetter(r[i]) == IsLetter(s[i])
    ensures forall i :: 0 <= i < |s| && !IsUpper(s[i]) ==> r[i] == s[i]
    ensures forall i :: 0 <= i < |s| && IsUpper(s[i]) ==> r[i] as int - 'a' as int == s[i] as int - 'A' as int
  {
    seq(|s|, i requires 0 <= i < |s| => ToLower(s[i]))
  }

  /** Lower-casing twice is lower-casing once. */
  lemma ToLowerAsciiIdempotent(s: string)
    ensures ToLowerAscii(ToLowerAscii(s)) == ToLowerAscii(s)
  {
    var t := ToLowerAscii(s);
    assert forall i :: 0 <= i < |t| ==> ToLowerAscii(t)[i] == t[i];
  }

  /** `x` and `y` differ at most in the case of their letters. */
  predicate EqualIgnoringCase(x: string, y: string)
  {
    |x| == |y| && forall i :: 0 <= i < |x| ==> ToLower(x[i]) == ToLower(y[i])
  }

  /** The characters `String.trim` removes: every code point up to U+0020. */
  predicate IsBlank(c: char) { c <= ' ' }

  /** Number of blank characters at the start of `s`. */
  function LeadingBlanks(s: string): (n: nat)
    ensures n <= |s|
    ensures forall i :: 0 <= i < n ==> IsBlank(s[i])
    ensures n < |s| ==> !IsBlank(s[n])
  {
    if |s| > 0 && IsBlank(s[0]) then 1 + LeadingBlanks(s[1..]) else 0
  }

  /** Number of blank characters at the end of `s`. */
  function TrailingBlanks(s: string): (n: nat)
    ensures n <= |s|
    ensures forall i :: |s| - n <= i < |s| ==> IsBlank(s[i])
    ensures n < |s| ==> !IsBlank(s[|s| - 1 - n])
  {
    if |s| > 0 && IsBlank(s[|s| - 1]) then 1 + TrailingBlanks(s[..|s| - 1]) else 0
  }

  /** `String.trim`: the slice of `s` left after cutting blanks from both
      ends. The result is a contiguous piece of `s`, only blanks are cut, and
      a non-empty result starts and ends with a non-blank character. */
  function Trim(s: string): (r: string)
    ensures LeadingBlanks(s) + |r| <= |s|
    ensures r == s[LeadingBlanks(s)..LeadingBlanks(s) + |r|]
    ensures forall i :: 0 <= i < LeadingBlanks(s) ==> IsBlank(s[i])
    ensures forall i :: LeadingBlanks(s) + |r| <= i < |s| ==> IsBlank(s[i])
    ensures r != [] ==> !IsBlank(r[0]) && !IsBlank(r[|r| - 1])
  {
    var a := LeadingBlanks(s);
    var t := s[a..];
    t[..|t| - TrailingBlanks(t)]
  }

  /** A trimmed string is empty exactly when every character was blank. */
  lemma TrimEmptyIff(s: string)
    ensures Trim(s) == [] <==> forall i :: 0 <= i < |s| ==> IsBlank(s[i])
  {
  }

  lemma {:induction false} LeadingBlanksIs(s: string, n: nat)
    requires n <= |s|
    requires forall i :: 0 <= i < n ==> IsBlank(s[i])
    requires n < |s| ==> !IsBlank(s[n])
    ensures LeadingBlanks(s) == n
  {
    if n > 0 {
      LeadingBlanksIs(s[1..], n - 1);
    }
  }

  /** Trimming a text that starts and ends with a non-blank character and
      is surrounded by blanks gives back that text. */
  lemma TrimAround(before: string, w: string, after: string)
    requires forall i :: 0 <= i < |before| ==> IsBlank(before[i])
    requires forall i :: 0 <= i < |after| ==> IsBlank(after[i])
    requires w != [] && !IsBlank(w[0]) && !IsBlank(w[|w| - 1])
    ensures Trim(before + w + after) == w
  {
    var s := before + w + after;
    var a, b := |before|, |before| + |w|;
    assert s[a] == w[0] && s[b - 1] == w[|w| - 1];
    assert forall i :: b <= i < |s| ==> s[i] == after[i - b];
    LeadingBlanksIs(s, a);
    assert |Trim(s)| == |w|;
    assert s[a..b] == w;
  }

  /** A string that neither starts nor ends with a blank is left as it is. */
  lemma TrimUnpadded(w: string)
    requires w != [] ==> !IsBlank(w[0]) && !IsBlank(w[|w| - 1])
    ensures Trim(w) == w
  {
    if w != [] {
      TrimAround([], w, []);
      assert [] + w + [] == w;
    }
  }

  /** Trimming twice cuts nothing more. */
  lemma TrimIdempotent(s: string)
    ensures Trim(Trim(s)) == Trim(s)
  {
    TrimUnpadded(Trim(s));
  }
}
