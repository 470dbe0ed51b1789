/** The `StringComparison.OrdinalIgnoreCase` tests the upload module makes:
    characters are compared after folding lower-case ASCII letters to upper
    case (folding of other scripts is not modelled). */
module OrdinalText {

  function ToUpper(c: char): char
  {
    if 'a' <= c <= 'z' then (c as int - 32) as char else c
  }

  /** `a.Equals(b, StringComparison.OrdinalIgnoreCase)`. */
  predicate EqualsIgnoreCase(a: string, b: string)
  {
    |a| == |b| && forall i :: 0 <= i < |a| ==> ToUpper(a[i]) == ToUpper(b[i])
  }

  /** `s.StartsWith(prefix, StringComparison.OrdinalIgnoreCase)`. */
  predicate StartsWithIgnoreCase(s: string, prefix: string)
  {
    |prefix| <= |s| && EqualsIgnoreCase(s[..|prefix|], prefix)
  }

  /** `pattern` occurs in `s` at index `i`, ignoring case. */
  predicate OccursAt(s: string, pattern: string, i: int)
  {
    0 <= i && i + |pattern| <= |s| && EqualsIgnoreCase(s[i..i + |pattern|], pattern)
  }

  /** `s.IndexOf(pattern, StringComparison.OrdinalIgnoreCase)`: the first
      index at which `pattern` occurs, or -1 when it occurs nowhere. */
  function IndexOfIgnoreCase(s: string, pattern: string): (r: int)
    ensures r == -1 || OccursAt(s, pattern, r)
    ensures r == -1 <==> forall i :: 0 <= i <= |s| ==> !OccursAt(s, pattern, i)
    ensures forall i :: 0 <= i < r ==> !OccursAt(s, pattern, i)
  {
    IndexFrom(s, pattern, 0)
  }

  function IndexFrom(s: string, pattern: string, from: nat): (r: int)
    requires from <= |s| + 1
    ensures r == -1 || (from <= r && OccursAt(s, pattern, r))
    ensures r == -1 <==> forall i :: from <= i <= |s| ==> !OccursAt(s, pattern, i)
    ensures forall i :: from <= i < r ==> !OccursAt(s, pattern, i)
    decreases |s| + 1 - from
  {
    if from > |s| then -1
    else if OccursAt(s, pattern, from) then from
    else IndexFrom(s, pattern, from + 1)
  }
}
