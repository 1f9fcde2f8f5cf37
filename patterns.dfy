/**
 * The tiny regular-expression language the rule table needs: a pattern is a
 * sequence of atoms, each a case-insensitive character or `\s+`.
 * `MatchAt` is the deterministic (greedy) matcher; `Matches` is the
 * relational meaning of a pattern, with backtracking over how many spaces
 * `\s+` consumes. The two agree on well-formed patterns.
 */
module Patterns {
  import opened Wrappers
  import opened Chars

  datatype Atom = Char(c: char) | Spaces

  type Pattern = seq<Atom>

  /**
   * The shape for which greedy matching is exact: the pattern is not empty
   * and every `\s+` is followed by a character that is not a space (so the
   * run of spaces it takes is forced).
   */
  predicate WellFormed(p: Pattern) {
    |p| > 0 &&
    (forall k :: 0 <= k < |p| && p[k].Spaces? ==>
       k + 1 < |p| && p[k + 1].Char? && !IsSpace(p[k + 1].c))
  }

  /** A plain literal, as in `/SMP Muslimin/gi`. */
  function Literal(t: string): (p: Pattern)
    ensures |p| == |t|
    ensures forall j :: 0 <= j < |t| ==> p[j] == Char(t[j])
    ensures |t| > 0 ==> WellFormed(p)
  {
    seq(|t|, j requires 0 <= j < |t| => Char(t[j]))
  }

  /**
   * The source of one table regex, cut at each `\s+`: `/SMP Muslimin/` is
   * `["SMP Muslimin"]` and `/SMP\s+Muslimin\s+Cililin/` is
   * `["SMP", "Muslimin", "Cililin"]`. Every piece is non-empty and every
   * piece after a `\s+` starts with a non-space.
   */
  predicate Spaced(pieces: seq<string>) {
    |pieces| > 0 &&
    (forall i :: 0 <= i < |pieces| ==> |pieces[i]| > 0) &&
    (forall i :: 1 <= i < |pieces| ==> !IsSpace(pieces[i][0]))
  }

  /** The pattern a regex source denotes: its pieces as literals, joined by `\s+`. */
  function Compile(pieces: seq<string>): (p: Pattern)
    ensures |pieces| > 0 && |pieces[0]| > 0 ==> |p| > 0 && p[0] == Char(pieces[0][0])
    ensures Spaced(pieces) ==> WellFormed(p)
    decreases |pieces|
  {
    if |pieces| == 0 then []
    else if |pieces| == 1 then Literal(pieces[0])
    else
      var head, rest := Literal(pieces[0]), Compile(pieces[1..]);
      assert Spaced(pieces) ==> Spaced(pieces[1..]) by {
        if Spaced(pieces) {
          forall i | 1 <= i < |pieces[1..]| ensures !IsSpace(pieces[1..][i][0]) {
            assert pieces[1..][i] == pieces[i + 1];
          }
        }
      }
      var p := head + [Spaces] + rest;
      assert Spaced(pieces) ==> WellFormed(p) by {
        if Spaced(pieces) {
          forall k | 0 <= k < |p| && p[k].Spaces?
            ensures k + 1 < |p| && p[k + 1].Char? && !IsSpace(p[k + 1].c)
          {
            if k > |head| {
              assert p[k] == rest[k - |head| - 1];
            }
          }
        }
      }
      p
  }

  /** Length of the run of spaces starting at `i`. */
  function SpaceRun(s: string, i: nat): (n: nat)
    requires i <= |s|
    ensures i + n <= |s|
    ensures forall j :: i <= j < i + n ==> IsSpace(s[j])
    ensures i + n == |s| || !IsSpace(s[i + n])
    decreases |s| - i
  {
    if i < |s| && IsSpace(s[i]) then 1 + SpaceRun(s, i + 1) else 0
  }

  /** Greedy matcher: matches `p[k..]` against `s` from `i`; returns the end index. */
  function MatchAt(p: Pattern, k: nat, s: string, i: nat): (r: Option<nat>)
    requires k <= |p| && i <= |s|
    ensures r.Some? ==> i + (|p| - k) <= r.value <= |s|
    decreases |p| - k
  {
    if k == |p| then Some(i)
    else match p[k]
      case Char(c) =>
        if i < |s| && SameFold(s[i], c) then MatchAt(p, k + 1, s, i + 1) else None
      case Spaces =>
        var n := SpaceRun(s, i);
        if n == 0 then None else MatchAt(p, k + 1, s, i + n)
  }

  /**
   * A literal pattern (from atom `k` on) matches at `i` exactly when the
   * text there equals the rest of the literal up to ASCII case.
   */
  lemma {:induction false} LiteralMatchAt(t: string, k: nat, s: string, i: nat)
    requires k <= |t| && i <= |s|
    ensures MatchAt(Literal(t), k, s, i) ==
            if i + (|t| - k) <= |s| && FoldEq(s[i..i + (|t| - k)], t[k..])
            then Some(i + (|t| - k)) else None
    decreases |t| - k
  {
    if k < |t| {
      var n := |t| - k;
      if i < |s| && SameFold(s[i], t[k]) {
        LiteralMatchAt(t, k + 1, s, i + 1);
        if i + n <= |s| {
          assert s[i..i + n] == [s[i]] + s[i + 1..i + n];
          assert t[k..] == [t[k]] + t[k + 1..];
        }
      } else if i + n <= |s| {
        assert s[i..i + n][0] == s[i] && t[k..][0] == t[k];
      }
    }
  }

  /** A literal matches where the text spells it up to case. */
  lemma LiteralHit(t: string, s: string, j: nat)
    requires j + |t| <= |s| && FoldEq(s[j..j + |t|], t)
    ensures MatchAt(Literal(t), 0, s, j) == Some(j + |t|)
  {
    LiteralMatchAt(t, 0, s, j);
    assert t[0..] == t;
  }

  /** A non-empty literal does not match where its first character is missing. */
  lemma LiteralMiss(t: string, s: string, j: nat)
    requires 0 < |t| && j < |s| && !SameFold(s[j], t[0])
    ensures MatchAt(Literal(t), 0, s, j) == None
  {
    LiteralMatchAt(t, 0, s, j);
    if j + |t| <= |s| {
      assert s[j..j + |t|][0] == s[j];
    }
  }

  /** The whole of `t` is a match of `p`; `\s+` may take any positive number of spaces. */
  predicate Matches(p: Pattern, t: string)
    decreases |p|, |t|
  {
    if p == [] then t == []
    else match p[0]
      case Char(c) => |t| > 0 && SameFold(t[0], c) && Matches(p[1..], t[1..])
      case Spaces => |t| > 0 && IsSpace(t[0]) && (Matches(p[1..], t[1..]) || Matches(p, t[1..]))
  }

  /**
   * `t` is the pieces written out, each up to ASCII case, with a non-empty
   * run of `\s` characters between neighbours: what a regex source cut at
   * `\s+` describes, stated without patterns.
   */
  ghost predicate Spelled(pieces: seq<string>, t: string)
    decreases |pieces|
  {
    if |pieces| == 0 then t == []
    else
      var h := pieces[0];
      |h| <= |t| && FoldEq(t[..|h|], h) &&
      (if |pieces| == 1 then |t| == |h|
       else exists n: nat :: SpaceGap(t, |h|, n) && Spelled(pieces[1..], t[|h| + n..]))
  }

  /** `t[i..i + n]` is a non-empty run of `\s` characters. */
  predicate SpaceGap(t: string, i: nat, n: nat) {
    1 <= n && i + n <= |t| && forall j :: i <= j < i + n ==> IsSpace(t[j])
  }

  /** A white-space run starts at `i` in `t` and `q` matches what follows it. */
  ghost predicate GapThen(t: string, i: nat, q: Pattern) {
    exists n: nat :: SpaceGap(t, i, n) && Matches(q, t[i + n..])
  }

  /** A literal followed by `q` matches `t` exactly when `t` starts with the literal up to case and `q` matches the rest. */
  lemma {:induction false} LiteralPrefix(h: string, q: Pattern, t: string)
    ensures Matches(Literal(h) + q, t) <==>
            |h| <= |t| && FoldEq(t[..|h|], h) && Matches(q, t[|h|..])
    decreases |h|
  {
    if h == [] {
      assert Literal(h) + q == q;
      assert t[0..] == t;
    } else {
      var p := Literal(h) + q;
      assert p[0] == Char(h[0]);
      assert p[1..] == Literal(h[1..]) + q;
      if |t| > 0 {
        LiteralPrefix(h[1..], q, t[1..]);
        if |h| <= |t| {
          assert t[1..][|h| - 1..] == t[|h|..];
          var a, b := t[..|h|], t[1..][..|h| - 1];
          assert forall m :: 1 <= m < |h| ==> a[m] == b[m - 1] && h[m] == h[1..][m - 1];
          assert FoldEq(a, h) <==> SameFold(a[0], h[0]) && FoldEq(b, h[1..]);
        }
      }
    }
  }

  /** `\s+` followed by `q` matches `u` exactly when `u` starts with a non-empty run of spaces that `q` matches after. */
  lemma {:induction false} SpacesPrefix(q: Pattern, u: string)
    ensures Matches([Spaces] + q, u) <==> exists n: nat :: SpaceGap(u, 0, n) && Matches(q, u[n..])
    decreases |u|
  {
    var p := [Spaces] + q;
    assert p[0] == Spaces && p[1..] == q;
    if Matches(p, u) {
      if Matches(q, u[1..]) {
        assert SpaceGap(u, 0, 1);
      } else {
        SpacesPrefix(q, u[1..]);
        var n: nat :| SpaceGap(u[1..], 0, n) && Matches(q, u[1..][n..]);
        assert u[1..][n..] == u[n + 1..];
        assert forall j :: 1 <= j < n + 1 ==> u[j] == u[1..][j - 1];
        assert SpaceGap(u, 0, n + 1);
      }
    }
    if exists n: nat :: SpaceGap(u, 0, n) && Matches(q, u[n..]) {
      var n: nat :| SpaceGap(u, 0, n) && Matches(q, u[n..]);
      assert u[n..|u|] == u[n..];
      SpacesThen(q, u, 0, n, |u|);
      assert u[0..|u|] == u;
    }
  }

  /** One step of `Compile`: the first piece as a literal, then a white-space run, then the rest. */
  lemma CompileStep(pieces: seq<string>, t: string)
    requires |pieces| > 1
    ensures Matches(Compile(pieces), t) <==>
            |pieces[0]| <= |t| && FoldEq(t[..|pieces[0]|], pieces[0]) &&
            GapThen(t, |pieces[0]|, Compile(pieces[1..]))
  {
    var h, rest := pieces[0], Compile(pieces[1..]);
    CompileUnfold(pieces);
    LiteralPrefix(h, [Spaces] + rest, t);
    if |h| <= |t| {
      SpacesAt(t, |h|, rest);
    }
  }

  /** A regex of several pieces compiles to its first piece, a `\s+` and the rest. */
  lemma CompileUnfold(pieces: seq<string>)
    requires |pieces| > 1
    ensures Compile(pieces) == Literal(pieces[0]) + ([Spaces] + Compile(pieces[1..]))
  {
    var head, rest := Literal(pieces[0]), Compile(pieces[1..]);
    ConcatAssoc(head, [Spaces], rest);
  }

  lemma ConcatAssoc<T>(a: seq<T>, b: seq<T>, c: seq<T>)
    ensures a + b + c == a + (b + c)
  { }

  /** `\s+` followed by `q` matches `t[i..]` exactly when a white-space run starts at `i` in `t` and `q` matches after it. */
  lemma SpacesAt(t: string, i: nat, q: Pattern)
    requires i <= |t|
    ensures Matches([Spaces] + q, t[i..]) <==> GapThen(t, i, q)
  {
    var u := t[i..];
    SpacesPrefix(q, u);
    forall n: nat | n <= |u|
      ensures (SpaceGap(u, 0, n) <==> SpaceGap(t, i, n)) && u[n..] == t[i + n..]
    {
      assert forall j :: 0 <= j < n ==> u[j] == t[i + j];
    }
  }

  /**
   * What a compiled regex source matches: exactly the texts that spell its
   * pieces up to case with a non-empty white-space run between each two,
   * so `/SMP\s+Muslimin\s+Cililin/` accepts tabs, newlines and runs of them.
   */
  lemma {:induction false} CompileMeaning(pieces: seq<string>, t: string)
    ensures Matches(Compile(pieces), t) <==> Spelled(pieces, t)
    decreases |pieces|
  {
    if |pieces| == 1 {
      var h := pieces[0];
      assert Compile(pieces) == Literal(h) + [];
      LiteralPrefix(h, [], t);
    } else if |pieces| > 1 {
      CompileStep(pieces, t);
      var h := pieces[0];
      forall n: nat | SpaceGap(t, |h|, n)
        ensures Matches(Compile(pieces[1..]), t[|h| + n..]) <==> Spelled(pieces[1..], t[|h| + n..])
      {
        CompileMeaning(pieces[1..], t[|h| + n..]);
      }
    }
  }

  /** A run of `n >= 1` spaces followed by a match of `q` is a match of `\s+` then `q`. */
  lemma {:induction false} SpacesThen(q: Pattern, s: string, i: nat, n: nat, e: nat)
    requires 1 <= n && i + n <= e <= |s|
    requires forall j :: i <= j < i + n ==> IsSpace(s[j])
    requires Matches(q, s[i + n..e])
    ensures Matches([Spaces] + q, s[i..e])
    decreases n
  {
    var p := [Spaces] + q;
    assert p[1..] == q;
    assert s[i..e][1..] == s[i + 1..e];
    if n > 1 {
      SpacesThen(q, s, i + 1, n - 1, e);
    }
  }

  /** Everything the greedy matcher returns is a match. */
  lemma {:induction false} MatchAtSound(p: Pattern, k: nat, s: string, i: nat)
    requires k <= |p| && i <= |s|
    requires MatchAt(p, k, s, i).Some?
    ensures Matches(p[k..], s[i..MatchAt(p, k, s, i).value])
    decreases |p| - k
  {
    var e := MatchAt(p, k, s, i).value;
    if k < |p| {
      assert p[k..][1..] == p[k + 1..];
      match p[k]
      case Char(c) =>
        MatchAtSound(p, k + 1, s, i + 1);
        assert s[i..e][1..] == s[i + 1..e];
      case Spaces =>
        var n := SpaceRun(s, i);
        MatchAtSound(p, k + 1, s, i + n);
        assert p[k..] == [Spaces] + p[k + 1..];
        SpacesThen(p[k + 1..], s, i, n, e);
    }
  }

  /**
   * In a well-formed pattern, a match of `\s+` at `p[k]` takes exactly the
   * maximal run of spaces at `i`.
   */
  lemma {:induction false} SpacesForced(p: Pattern, k: nat, s: string, i: nat, e: nat)
    requires WellFormed(p) && k < |p| && p[k] == Spaces
    requires i <= e <= |s|
    requires Matches(p[k..], s[i..e])
    ensures 1 <= SpaceRun(s, i) && i + SpaceRun(s, i) <= e
    ensures Matches(p[k + 1..], s[i + SpaceRun(s, i)..e])
    decreases e - i
  {
    var t := s[i..e];
    assert p[k..][0] == Spaces;
    assert p[k..][1..] == p[k + 1..];
    assert t[1..] == s[i + 1..e];
    var c := p[k + 1].c;
    if Matches(p[k + 1..], t[1..]) {
      assert p[k + 1..][0] == Char(c);
      assert SameFold(t[1], c);
      FoldKeepsSpaces(t[1], c);
      assert SpaceRun(s, i + 1) == 0;
    } else {
      SpacesForced(p, k, s, i + 1, e);
    }
  }

  /** In a well-formed pattern, every match is the one the greedy matcher finds. */
  lemma {:induction false} MatchAtComplete(p: Pattern, k: nat, s: string, i: nat, e: nat)
    requires WellFormed(p) && k <= |p|
    requires i <= e <= |s|
    requires Matches(p[k..], s[i..e])
    ensures MatchAt(p, k, s, i) == Some(e)
    decreases |p| - k
  {
    if k < |p| {
      assert p[k..][1..] == p[k + 1..];
      assert s[i..e][1..] == s[i + 1..e];
      match p[k]
      case Char(c) =>
        MatchAtComplete(p, k + 1, s, i + 1, e);
      case Spaces =>
        SpacesForced(p, k, s, i, e);
        MatchAtComplete(p, k + 1, s, i + SpaceRun(s, i), e);
    }
  }

  /**
   * The greedy matcher is exact: for a well-formed pattern, `MatchAt` ends at
   * `e` exactly when `s[i..e]` is a match, so there is at most one match at
   * each position and the backtracking engine finds the same one.
   */
  lemma MatchAtExact(p: Pattern, s: string, i: nat, e: nat)
    requires WellFormed(p)
    requires i <= e <= |s|
    ensures MatchAt(p, 0, s, i) == Some(e) <==> Matches(p, s[i..e])
  {
    assert p[0..] == p;
    if MatchAt(p, 0, s, i) == Some(e) {
      MatchAtSound(p, 0, s, i);
    }
    if Matches(p, s[i..e]) {
      MatchAtComplete(p, 0, s, i, e);
    }
  }

  /** A match of a pattern containing `Char(c)` contains a character folding to `c`. */
  lemma {:induction false} MatchNeedsChar(p: Pattern, t: string, k: nat)
    requires Matches(p, t)
    requires k < |p| && p[k].Char?
    ensures exists j :: 0 <= j < |t| && SameFold(t[j], p[k].c)
    decreases |p|, |t|
  {
    if k == 0 {
      assert SameFold(t[0], p[k].c);
    } else {
      match p[0]
      case Char(c) =>
        MatchNeedsChar(p[1..], t[1..], k - 1);
        var j :| 0 <= j < |t[1..]| && SameFold(t[1..][j], p[k].c);
        assert t[j + 1] == t[1..][j];
      case Spaces =>
        if Matches(p[1..], t[1..]) {
          MatchNeedsChar(p[1..], t[1..], k - 1);
          var j :| 0 <= j < |t[1..]| && SameFold(t[1..][j], p[k].c);
          assert t[j + 1] == t[1..][j];
        } else {
          MatchNeedsChar(p, t[1..], k);
          var j :| 0 <= j < |t[1..]| && SameFold(t[1..][j], p[k].c);
          assert t[j + 1] == t[1..][j];
        }
    }
  }
}
