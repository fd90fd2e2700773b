/** `String.equalsIgnoreCase`, with case folding restricted to the ASCII letters. */
module Text {

  function ToUpperAscii(c: char): (u: char)
  {
    if 'a' <= c <= 'z' then (c as int - 32) as char else c
  }

  /** One step of `regionMatches(true, ...)`: equal characters, or equal after
      upper-casing. */
  predicate SameLetter(c1: char, c2: char) {
    c1 == c2 || ToUpperAscii(c1) == ToUpperAscii(c2)
  }

  /** The character-by-character comparison behind `equalsIgnoreCase`, for
      strings of equal length. */
  function RegionMatchesIgnoreCase(a: string, b: string): (r: bool)
    requires |a| == |b|
    ensures r <==> forall i | 0 <= i < |a| :: ToUpperAscii(a[i]) == ToUpperAscii(b[i])
    decreases |a|
  {
    if |a| == 0 then true
    else
      SameLetter(a[0], b[0]) && RegionMatchesIgnoreCase(a[1..], b[1..])
  }

  /** `a.equalsIgnoreCase(b)`: equal length and every position equal once
      both characters are upper-cased. */
  function EqualsIgnoreCase(a: string, b: string): (r: bool)
    ensures r <==> |a| == |b| && forall i | 0 <= i < |a| :: ToUpperAscii(a[i]) == ToUpperAscii(b[i])
    ensures a == b ==> r
  {
    |a| == |b| && RegionMatchesIgnoreCase(a, b)
  }

  lemma EqualsIgnoreCaseSymmetric(a: string, b: string)
    ensures EqualsIgnoreCase(a, b) == EqualsIgnoreCase(b, a)
  {
  }
}
