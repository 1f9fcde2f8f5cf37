/**
 * Character classes used by the replacement rules: the case folding of the
 * `i` regular-expression flag restricted to ASCII, and the `\s` class.
 */
module Chars {

  /** ASCII letter folding: 'A'..'Z' become 'a'..'z', everything else is kept. */
  function Lower(c: char): (r: char)
    ensures ('A' <= c <= 'Z') ==> 'a' <= r <= 'z' && r as int == c as int + 32
    ensures !('A' <= c <= 'Z') ==> r == c
  {
    if 'A' <= c <= 'Z' then (c as int + 32) as char else c
  }

  /** ASCII upper-casing: what `toUpperCase` does to a character below 128. */
  function Upper(c: char): char {
    if 'a' <= c <= 'z' then (c as int - 32) as char else c
  }

  /**
   * Canonicalize of the non-unicode `i` flag (section 22.2.2.7.3 of
   * ECMA-262), given `u`, the one-character result of `toUpperCase` on `c`
   * (or `c` itself when that result is not one character): the upper-case
   * form, except that a non-ASCII character never becomes an ASCII one.
   */
  function Canonicalize(c: char, u: char): (r: char)
    ensures c as int >= 128 ==> r as int >= 128
  {
    if c as int >= 128 && u as int < 128 then c else u
  }

  /**
   * For an ASCII pattern character `c`, ASCII folding is exactly the `i`
   * flag's equality: `a` matches `c` if and only if both canonicalize to
   * the same character, whatever `toUpperCase` does outside ASCII.
   */
  lemma SameFoldIsCanonical(a: char, ua: char, c: char)
    requires c as int < 128
    requires a as int < 128 ==> ua == Upper(a)
    ensures SameFold(a, c) <==> Canonicalize(a, ua) == Canonicalize(c, Upper(c))
  {
  }

  /** Two characters are equal under the `i` flag (for ASCII pattern characters). */
  predicate SameFold(a: char, b: char) {
    Lower(a) == Lower(b)
  }

  /** Two strings are equal up to ASCII case. */
  predicate FoldEq(a: string, b: string) {
    |a| == |b| && forall m :: 0 <= m < |a| ==> SameFold(a[m], b[m])
  }

  /** No character of `s` folds to `c`. */
  predicate Avoids(s: string, c: char) {
    forall j :: 0 <= j < |s| ==> !SameFold(s[j], c)
  }

  /** No character of `s` folding to `x` is immediately followed by one folding to `y`. */
  predicate NoAdjacent(s: string, x: char, y: char) {
    forall j :: 0 <= j && j + 1 < |s| ==> !(SameFold(s[j], x) && SameFold(s[j + 1], y))
  }

  lemma AvoidsNoAdjacent(s: string, x: char, y: char)
    requires Avoids(s, x)
    ensures NoAdjacent(s, x, y)
  {
  }

  /** Pairs either lie inside one part or straddle the seam, which the second requires rules out. */
  lemma NoAdjacentConcat(a: string, b: string, x: char, y: char)
    requires NoAdjacent(a, x, y) && NoAdjacent(b, x, y)
    requires |a| > 0 && |b| > 0 ==> !(SameFold(a[|a| - 1], x) && SameFold(b[0], y))
    ensures NoAdjacent(a + b, x, y)
  {
    var s := a + b;
    forall j | 0 <= j && j + 1 < |s|
      ensures !(SameFold(s[j], x) && SameFold(s[j + 1], y))
    {
      if j + 1 < |a| {
        assert s[j] == a[j] && s[j + 1] == a[j + 1];
      } else if j >= |a| {
        assert s[j] == b[j - |a|] && s[j + 1] == b[j + 1 - |a|];
      }
    }
  }

  /**
   * The `\s` class of ECMAScript regular expressions: the WhiteSpace and
   * LineTerminator code points (section 22.2.2.9 of ECMA-262).
   */
  predicate IsSpace(c: char) {
    var n := c as int;
    n == 0x09 || n == 0x0A || n == 0x0B || n == 0x0C || n == 0x0D || n == 0x20 ||
    n == 0xA0 || n == 0x1680 || (0x2000 <= n <= 0x200A) ||
    n == 0x2028 || n == 0x2029 || n == 0x202F || n == 0x205F ||
    n == 0x3000 || n == 0xFEFF
  }

  /**
   * Folding never turns a non-space into a space or back: a character that
   * folds to the fold of a non-space pattern character is not a space.
   */
  lemma FoldKeepsSpaces(a: char, c: char)
    requires !IsSpace(c)
    requires SameFold(a, c)
    ensures !IsSpace(a)
  {
  }
}
