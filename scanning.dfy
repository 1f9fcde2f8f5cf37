/**
 * Global matching as `String.prototype.match` and `replaceAll` perform it
 * with a `g` regular expression: search from the current position for the
 * leftmost match, take it, and resume at its end.
 */
module Scanning {
  import opened Wrappers
  import opened Chars
  import opened Patterns

  /** The leftmost match of `p` starting at or after `i`, as (start, end). */
  function FindFrom(p: Pattern, s: string, i: nat): (r: Option<(nat, nat)>)
    requires |p| > 0 && i <= |s|
    ensures r.Some? ==> i <= r.value.0 < r.value.1 <= |s|
    ensures r.Some? ==> MatchAt(p, 0, s, r.value.0) == Some(r.value.1)
    ensures r.Some? ==> forall j :: i <= j < r.value.0 ==> MatchAt(p, 0, s, j) == None
    ensures r.None? ==> forall j :: i <= j <= |s| ==> MatchAt(p, 0, s, j) == None
    decreases |s| - i
  {
    match MatchAt(p, 0, s, i)
    case Some(e) => Some((i, e))
    case None => if i == |s| then None else FindFrom(p, s, i + 1)
  }

  /** Ranges that are ordered, non-overlapping and lie within `[i, n]`. */
  predicate Disjoint(occ: seq<(nat, nat)>, i: nat, n: nat)
    decreases |occ|
  {
    occ == [] || (i <= occ[0].0 <= occ[0].1 <= n && Disjoint(occ[1..], occ[0].1, n))
  }

  /** The search from `i` stops at the first position where the pattern matches. */
  lemma {:induction false} FindFromAt(p: Pattern, s: string, i: nat, b: nat, e: nat)
    requires |p| > 0 && i <= b <= |s|
    requires MatchAt(p, 0, s, b) == Some(e)
    requires forall j :: i <= j < b ==> MatchAt(p, 0, s, j) == None
    ensures FindFrom(p, s, i) == Some((b, e))
    decreases b - i
  {
    if i < b {
      FindFromAt(p, s, i + 1, b, e);
    }
  }

  /** `j` is the start of one of the ranges. */
  predicate IsStart(occ: seq<(nat, nat)>, j: nat)
    decreases |occ|
  {
    occ != [] && (occ[0].0 == j || IsStart(occ[1..], j))
  }

  /** `j` lies strictly inside one of the ranges. */
  predicate Covered(occ: seq<(nat, nat)>, j: nat)
    decreases |occ|
  {
    occ != [] && (occ[0].0 < j < occ[0].1 || Covered(occ[1..], j))
  }

  /**
   * The matches `content.match(from)` returns for a global pattern: all
   * leftmost, non-overlapping matches from `i` on, in order.
   */
  function Occurrences(p: Pattern, s: string, i: nat): (occ: seq<(nat, nat)>)
    requires |p| > 0 && i <= |s|
    ensures Disjoint(occ, i, |s|)
    ensures forall m :: 0 <= m < |occ| ==>
              occ[m].0 < occ[m].1 <= |s| && MatchAt(p, 0, s, occ[m].0) == Some(occ[m].1)
    decreases |s| - i
  {
    match FindFrom(p, s, i)
    case None => []
    case Some((b, e)) => [(b, e)] + Occurrences(p, s, e)
  }

  /** Unfolding `Occurrences` at a known next match. */
  lemma OccurrencesAt(p: Pattern, s: string, i: nat, b: nat, e: nat)
    requires |p| > 0 && i <= b <= |s|
    requires MatchAt(p, 0, s, b) == Some(e)
    requires forall j :: i <= j < b ==> MatchAt(p, 0, s, j) == None
    ensures e <= |s| && Occurrences(p, s, i) == [(b, e)] + Occurrences(p, s, e)
  {
    FindFromAt(p, s, i, b, e);
  }

  /** Nothing is found at the end of the text. */
  lemma OccurrencesAtEnd(p: Pattern, s: string)
    requires |p| > 0
    ensures Occurrences(p, s, |s|) == []
  {
    match FindFrom(p, s, |s|)
    case None =>
    case Some(_) => assert false;
  }

  /** Number of matches, i.e. `matches.length` (0 when `match` returns null). */
  function Count(p: Pattern, s: string): nat
    requires |p| > 0
  {
    |Occurrences(p, s, 0)|
  }

  /** `s[i..]` with every match `replaceAll` finds replaced by `rep`. */
  function ReplaceFrom(p: Pattern, s: string, rep: string, i: nat): string
    requires |p| > 0 && i <= |s|
    decreases |s| - i
  {
    match FindFrom(p, s, i)
    case None => s[i..]
    case Some((b, e)) => s[i..b] + rep + ReplaceFrom(p, s, rep, e)
  }

  /** `s[i..]` with the given disjoint ranges replaced by `rep` and the text between them kept. */
  function Splice(s: string, occ: seq<(nat, nat)>, rep: string, i: nat): string
    requires i <= |s| && Disjoint(occ, i, |s|)
    decreases |occ|
  {
    if occ == [] then s[i..]
    else s[i..occ[0].0] + rep + Splice(s, occ[1..], rep, occ[0].1)
  }

  /** Ranges that all start at or after `i` neither start nor cover any position before `i`. */
  lemma {:induction false} DisjointBelow(occ: seq<(nat, nat)>, i: nat, n: nat, j: nat)
    requires Disjoint(occ, i, n)
    requires j <= i
    ensures j < i ==> !IsStart(occ, j)
    ensures !Covered(occ, j)
    decreases |occ|
  {
    if occ != [] {
      DisjointBelow(occ[1..], occ[0].1, n, j);
    }
  }

  /**
   * The occurrences are exactly the leftmost non-overlapping matches: a
   * position starts an occurrence if and only if a match starts there and
   * it is not inside an earlier occurrence.
   */
  lemma {:induction false} OccurrencesLeftmost(p: Pattern, s: string, i: nat, j: nat)
    requires |p| > 0 && i <= j <= |s|
    ensures IsStart(Occurrences(p, s, i), j) <==>
            MatchAt(p, 0, s, j).Some? && !Covered(Occurrences(p, s, i), j)
    decreases |s| - i
  {
    var occ := Occurrences(p, s, i);
    match FindFrom(p, s, i)
    case None =>
    case Some((b, e)) =>
      var rest := Occurrences(p, s, e);
      assert occ[1..] == rest;
      if j < e {
        DisjointBelow(rest, e, |s|, j);
      } else {
        OccurrencesLeftmost(p, s, e, j);
      }
  }

  /** `replaceAll` replaces exactly the occurrences `match` counts, and keeps the text between them. */
  lemma {:induction false} ReplaceIsSplice(p: Pattern, s: string, rep: string, i: nat)
    requires |p| > 0 && i <= |s|
    ensures ReplaceFrom(p, s, rep, i) == Splice(s, Occurrences(p, s, i), rep, i)
    decreases |s| - i
  {
    match FindFrom(p, s, i)
    case None =>
    case Some((b, e)) =>
      assert Occurrences(p, s, i)[1..] == Occurrences(p, s, e);
      ReplaceIsSplice(p, s, rep, e);
  }

  /** Length bookkeeping: each replaced range of length `l` contributes `|rep|` instead of `l`. */
  function Covers(occ: seq<(nat, nat)>): int
    decreases |occ|
  {
    if occ == [] then 0 else occ[0].1 - occ[0].0 + Covers(occ[1..])
  }

  lemma {:induction false} SpliceLength(s: string, occ: seq<(nat, nat)>, rep: string, i: nat)
    requires i <= |s| && Disjoint(occ, i, |s|)
    ensures |Splice(s, occ, rep, i)| == |s| - i - Covers(occ) + |occ| * |rep|
    decreases |occ|
  {
    if occ != [] {
      SpliceLength(s, occ[1..], rep, occ[0].1);
    }
  }

  /** No match anywhere means no occurrence; one occurrence of a match means a non-zero count. */
  lemma {:induction false} CountZeroIff(p: Pattern, s: string)
    requires |p| > 0
    ensures Count(p, s) == 0 <==> forall j :: 0 <= j <= |s| ==> MatchAt(p, 0, s, j) == None
  {
    match FindFrom(p, s, 0)
    case None =>
    case Some((b, e)) =>
      assert MatchAt(p, 0, s, b) == Some(e);
  }

  /** A pattern with a character that no character of `s` folds to has no occurrence in `s`. */
  lemma CountZeroWithoutChar(p: Pattern, s: string, k: nat)
    requires |p| > 0 && k < |p| && p[k].Char?
    requires Avoids(s, p[k].c)
    ensures Count(p, s) == 0
  {
    forall j | 0 <= j <= |s|
      ensures MatchAt(p, 0, s, j) == None
    {
      if MatchAt(p, 0, s, j).Some? {
        var e := MatchAt(p, 0, s, j).value;
        MatchAtSound(p, 0, s, j);
        assert p[0..] == p;
        MatchNeedsChar(p, s[j..e], k);
      }
    }
    CountZeroIff(p, s);
  }

  /** A pattern longer than the text cannot occur in it. */
  lemma CountZeroWhenLonger(p: Pattern, s: string)
    requires |p| > |s|
    ensures Count(p, s) == 0
  {
    match FindFrom(p, s, 0)
    case None =>
    case Some(_) => assert false;
  }

  /**
   * When atoms `k..d` are characters, a match of `p[k..]` at `i` has the
   * character of atom `d` at offset `d - k`.
   */
  lemma {:induction false} MatchAtCharAt(p: Pattern, k: nat, s: string, i: nat, d: nat)
    requires k <= d < |p| && i <= |s|
    requires forall m :: k <= m <= d ==> p[m].Char?
    requires MatchAt(p, k, s, i).Some?
    ensures i + (d - k) < |s| && SameFold(s[i + (d - k)], p[d].c)
    decreases d - k
  {
    if k < d {
      MatchAtCharAt(p, k + 1, s, i + 1, d);
    }
  }

  /**
   * A pattern whose atoms `0..k + 1` are characters does not occur in a
   * text where no character folding to atom `k` is followed by one folding
   * to atom `k + 1`.
   */
  lemma CountZeroWithoutAdjacent(p: Pattern, s: string, k: nat)
    requires k + 1 < |p|
    requires forall m :: 0 <= m <= k + 1 ==> p[m].Char?
    requires NoAdjacent(s, p[k].c, p[k + 1].c)
    ensures Count(p, s) == 0
  {
    forall j | 0 <= j <= |s|
      ensures MatchAt(p, 0, s, j) == None
    {
      if MatchAt(p, 0, s, j).Some? {
        MatchAtCharAt(p, 0, s, j, k);
        MatchAtCharAt(p, 0, s, j, k + 1);
      }
    }
    CountZeroIff(p, s);
  }
}
