/**
 * Running the script a second time changes nothing. Every match of a table
 * pattern starts like "smp" followed by something other than "n", and every
 * replacement starts "smpn" with no other "s"; so no match can overlap an
 * inserted replacement, and a rule can neither leave a match of its own
 * pattern behind nor create one for a rule before it.
 */
module Rerun {
  import opened Wrappers
  import opened Chars
  import opened Patterns
  import opened Scanning
  import opened Rules
  import opened Config

  /**
   * The shape of every match of a table pattern: at least four characters,
   * an "s" first and no "n" fourth (up to case), and every later "s" is
   * followed by an "l" (it is the one of "Muslimin").
   */
  predicate MatchShape(m: string) {
    |m| >= 4 && SameFold(m[0], 's') && !SameFold(m[3], 'n') &&
    forall i :: 0 < i < |m| && SameFold(m[i], 's') ==> i + 1 < |m| && SameFold(m[i + 1], 'l')
  }

  /** The shape of every replacement: "smpn" up to case, and no other "s". */
  predicate ReplacementShape(r: string) {
    |r| >= 4 && SameFold(r[0], 's') && SameFold(r[1], 'm') && SameFold(r[3], 'n') &&
    forall i :: 0 < i < |r| ==> !SameFold(r[i], 's')
  }

  /** Every match of `p` has the match shape. */
  ghost predicate Shaped(p: Pattern) {
    forall m :: Matches(p, m) ==> MatchShape(m)
  }

  /** No part of `t` is a match of `p`. */
  ghost predicate Free(p: Pattern, t: string) {
    forall b, e :: 0 <= b <= e <= |t| ==> !Matches(p, t[b..e])
  }

  /** The window `[b, e)` lies wholly between the ranges. */
  predicate Untouched(occ: seq<(nat, nat)>, b: nat, e: nat) {
    forall m :: 0 <= m < |occ| ==> occ[m].1 <= b || e <= occ[m].0
  }

  /** Every range of a disjoint list lies within its bounds. */
  lemma {:induction false} DisjointWithin(occ: seq<(nat, nat)>, i: nat, n: nat)
    requires Disjoint(occ, i, n)
    ensures forall m :: 0 <= m < |occ| ==> i <= occ[m].0 <= occ[m].1 <= n
    decreases |occ|
  {
    if occ != [] {
      DisjointWithin(occ[1..], occ[0].1, n);
      forall m | 1 <= m < |occ| ensures i <= occ[m].0 <= occ[m].1 <= n {
        assert occ[m] == occ[1..][m - 1];
      }
    }
  }

  /** A non-empty window between the ranges neither starts one nor lies inside one. */
  lemma {:induction false} UntouchedFree(occ: seq<(nat, nat)>, b: nat, e: nat)
    requires b < e && Untouched(occ, b, e)
    requires forall m :: 0 <= m < |occ| ==> occ[m].0 < occ[m].1
    ensures !IsStart(occ, b) && !Covered(occ, b)
    decreases |occ|
  {
    if occ != [] {
      assert occ[0].1 <= b || e <= occ[0].0;
      forall m | 0 <= m < |occ[1..]|
        ensures (occ[1..][m].1 <= b || e <= occ[1..][m].0) && occ[1..][m].0 < occ[1..][m].1
      {
        assert occ[1..][m] == occ[m + 1];
      }
      UntouchedFree(occ[1..], b, e);
    }
  }

  /**
   * A window with the match shape does not overlap a replacement inserted
   * in the middle of a text: at the replacement's first character it would
   * need "n" fourth, and across it an "l" after the "s".
   */
  lemma NoOverlap(pre: string, rep: string, rest: string, b: nat, e: nat)
    requires ReplacementShape(rep)
    requires b <= e <= |pre + rep + rest| && MatchShape((pre + rep + rest)[b..e])
    ensures e <= |pre| || |pre| + |rep| <= b
  {
    var res, l := pre + rep + rest, |pre|;
    var w := res[b..e];
    assert forall j :: 0 <= j < |rep| ==> res[l + j] == rep[j];
    assert forall j :: 0 <= j < e - b ==> w[j] == res[b + j];
  }

  /** A window before the middle part of a concatenation is a window of the first part. */
  lemma WindowLeft(pre: string, mid: string, rest: string, b: nat, e: nat)
    requires b <= e <= |pre|
    ensures (pre + mid + rest)[b..e] == pre[b..e]
  {
  }

  /** A window after the middle part of a concatenation is a window of the last part. */
  lemma WindowRight(pre: string, mid: string, rest: string, b: nat, e: nat)
    requires |pre| + |mid| <= b <= e <= |pre + mid + rest|
    ensures (pre + mid + rest)[b..e] == rest[b - |pre| - |mid|..e - |pre| - |mid|]
  {
  }

  lemma SliceOfSlice(s: string, i: nat, x: nat, b: nat, e: nat)
    requires i <= x <= |s| && b <= e <= x - i
    ensures s[i..x][b..e] == s[i + b..i + e]
  {
    assert forall j :: 0 <= j < e - b ==> s[i..x][b..e][j] == s[i + b + j];
  }

  lemma UntouchedCons(occ: seq<(nat, nat)>, b: nat, e: nat)
    requires occ != [] && (occ[0].1 <= b || e <= occ[0].0)
    requires Untouched(occ[1..], b, e)
    ensures Untouched(occ, b, e)
  {
    forall m | 1 <= m < |occ| ensures occ[m].1 <= b || e <= occ[m].0 {
      assert occ[m] == occ[1..][m - 1];
    }
  }

  /** A window before the first replaced range is a window of the original text. */
  lemma WindowBefore(s: string, occ: seq<(nat, nat)>, rep: string, i: nat, b: nat, e: nat)
    returns (b': nat, e': nat)
    requires i <= |s| && Disjoint(occ, i, |s|) && occ != []
    requires b <= e <= occ[0].0 - i
    ensures i <= b' <= e' <= |s| && s[b'..e'] == Splice(s, occ, rep, i)[b..e]
    ensures Untouched(occ, b', e')
  {
    var x, y := occ[0].0, occ[0].1;
    var pre, rest := s[i..x], Splice(s, occ[1..], rep, y);
    assert Splice(s, occ, rep, i) == pre + rep + rest;
    WindowLeft(pre, rep, rest, b, e);
    b', e' := i + b, i + e;
    SliceOfSlice(s, i, x, b, e);
    DisjointWithin(occ[1..], y, |s|);
    UntouchedCons(occ, b', e');
  }

  /**
   * A window of a spliced text that has the match shape cannot overlap an
   * inserted replacement, so it is a window of the original text lying
   * between the replaced ranges.
   */
  lemma {:induction false} SpliceWindow(s: string, occ: seq<(nat, nat)>, rep: string, i: nat, b: nat, e: nat)
    returns (b': nat, e': nat)
    requires i <= |s| && Disjoint(occ, i, |s|)
    requires ReplacementShape(rep)
    requires b <= e <= |Splice(s, occ, rep, i)| && MatchShape(Splice(s, occ, rep, i)[b..e])
    ensures i <= b' <= e' <= |s| && s[b'..e'] == Splice(s, occ, rep, i)[b..e]
    ensures Untouched(occ, b', e')
    decreases |occ|
  {
    if occ == [] {
      b', e' := i + b, i + e;
      assert s[i..] == s[i..|s|];
      SliceOfSlice(s, i, |s|, b, e);
    } else {
      var pre, rest := s[i..occ[0].0], Splice(s, occ[1..], rep, occ[0].1);
      assert Splice(s, occ, rep, i) == pre + rep + rest;
      NoOverlap(pre, rep, rest, b, e);
      if e <= |pre| {
        b', e' := WindowBefore(s, occ, rep, i, b, e);
      } else {
        var d := |pre| + |rep|;
        WindowRight(pre, rep, rest, b, e);
        b', e' := SpliceWindow(s, occ[1..], rep, occ[0].1, b - d, e - d);
        UntouchedCons(occ, b', e');
      }
    }
  }

  /** A rule whose replacement has the replacement shape creates no match of a shaped pattern. */
  lemma ApplyRuleKeepsFree(r: Rule, q: Pattern, t: string)
    requires Spaced(r.source) && ReplacementShape(r.to)
    requires Shaped(q) && Free(q, t)
    ensures Free(q, ApplyRule(r, t).text)
  {
    var occ := Occurrences(r.from(), t, 0);
    var res := ApplyRule(r, t).text;
    forall b, e | 0 <= b <= e <= |res| ensures !Matches(q, res[b..e]) {
      if Matches(q, res[b..e]) {
        var b', e' := SpliceWindow(t, occ, r.to, 0, b, e);
        assert false;
      }
    }
  }

  /** After a shaped rule, no match of its own pattern is left: every one was replaced and none was created. */
  lemma ApplyRuleFreesOwn(r: Rule, t: string)
    requires Spaced(r.source) && ReplacementShape(r.to) && Shaped(r.from())
    ensures Free(r.from(), ApplyRule(r, t).text)
  {
    var p := r.from();
    var occ := Occurrences(p, t, 0);
    var res := ApplyRule(r, t).text;
    assert p[0..] == p;
    forall b, e | 0 <= b <= e <= |res| ensures !Matches(p, res[b..e]) {
      if Matches(p, res[b..e]) {
        var b', e' := SpliceWindow(t, occ, r.to, 0, b, e);
        MatchAtComplete(p, 0, t, b', e');
        OccurrencesLeftmost(p, t, 0, b');
        UntouchedFree(occ, b', e');
        assert false;
      }
    }
  }

  /** Every rule has the match shape and its replacement the replacement shape. */
  ghost predicate ShapedRules(rules: seq<Rule>) {
    forall k :: 0 <= k < |rules| ==> Shaped(rules[k].from()) && ReplacementShape(rules[k].to)
  }

  /** No pattern of `rules` matches anywhere in `t`. */
  ghost predicate FreeOfAll(rules: seq<Rule>, t: string)
    requires ValidRules(rules)
  {
    forall k :: 0 <= k < |rules| ==> Free(rules[k].from(), t)
  }

  /** One more shaped rule keeps the earlier patterns absent and removes its own. */
  lemma FreeStep(init: seq<Rule>, last: Rule, t: string)
    requires ValidRules(init) && Spaced(last.source)
    requires ValidRules(init + [last]) && ShapedRules(init + [last])
    requires FreeOfAll(init, t)
    ensures FreeOfAll(init + [last], ApplyRule(last, t).text)
  {
    var rules := init + [last];
    assert rules[|init|] == last;
    forall k | 0 <= k < |rules| ensures Free(rules[k].from(), ApplyRule(last, t).text) {
      if k < |init| {
        assert rules[k] == init[k];
        ApplyRuleKeepsFree(last, init[k].from(), t);
      } else {
        ApplyRuleFreesOwn(last, t);
      }
    }
  }

  /** After a pass of shaped rules, no pattern of the table matches anywhere in the text. */
  lemma {:induction false} RulesLeaveFree(rules: seq<Rule>, s: string)
    requires ValidRules(rules) && ShapedRules(rules)
    ensures FreeOfAll(rules, ApplyRules(rules, s).text)
    decreases |rules|
  {
    if rules != [] {
      var init, last := rules[..|rules| - 1], rules[|rules| - 1];
      assert init + [last] == rules;
      RulesLeaveFree(init, s);
      FreeStep(init, last, ApplyRules(init, s).text);
    }
  }

  /** A pattern with no match in `t` has no occurrence in it. */
  lemma FreeNoOccurrences(p: Pattern, t: string)
    requires |p| > 0 && Free(p, t)
    ensures |Occurrences(p, t, 0)| == 0
  {
    assert p[0..] == p;
    forall j | 0 <= j <= |t| ensures MatchAt(p, 0, t, j) == None {
      if MatchAt(p, 0, t, j).Some? {
        MatchAtSound(p, 0, t, j);
        assert false;
      }
    }
    CountZeroIff(p, t);
  }

  /** A second pass of shaped rules over the output of the first finds nothing and changes nothing. */
  lemma SecondPassIdle(rules: seq<Rule>, s: string)
    requires ValidRules(rules) && ShapedRules(rules)
    ensures ApplyRules(rules, ApplyRules(rules, s).text) == Rewritten(ApplyRules(rules, s).text, 0)
  {
    var t := ApplyRules(rules, s).text;
    RulesLeaveFree(rules, s);
    forall k | 0 <= k < |rules| ensures |Occurrences(rules[k].from(), t, 0)| == 0 {
      FreeNoOccurrences(rules[k].from(), t);
    }
    ApplyRulesIdle(rules, t);
  }

  // ---- The configured table is shaped. ----

  /** Folding keeps the shape: it only looks at characters up to case. */
  lemma ShapeFold(m: string, l: string)
    requires FoldEq(m, l) && MatchShape(l)
    ensures MatchShape(m)
  {
    assert forall i :: 0 <= i < |m| ==> Lower(m[i]) == Lower(l[i]);
  }

  /** A literal with the shape is a shaped pattern: its matches are the literal up to case. */
  lemma LiteralShaped(l: string)
    requires MatchShape(l)
    ensures Shaped(Literal(l))
  {
    forall m | Matches(Literal(l), m) ensures MatchShape(m) {
      assert Literal(l) + [] == Literal(l);
      LiteralPrefix(l, [], m);
      assert m[..|l|] == m;
      ShapeFold(m, l);
    }
  }

  lemma TargetShaped(t: string)
    requires t in Targets()
    ensures ReplacementShape(t)
  {
  }

  /** The shape of a string whose only "s" after the first character is at `j`, followed by an "l". */
  lemma OneLaterS(l: string, j: nat)
    requires |l| >= 4 && SameFold(l[0], 's') && !SameFold(l[3], 'n')
    requires 0 < j && j + 1 < |l| && SameFold(l[j + 1], 'l')
    requires forall i :: 0 < i < |l| && i != j ==> !SameFold(l[i], 's')
    ensures MatchShape(l)
  {
  }

  /** Lines 14 and 15. */
  lemma FullNamesShaped()
    ensures MatchShape("SMP Muslimin Cililin") && MatchShape("SMPM Muslimin Cililin")
  {
    OneLaterS("SMP Muslimin Cililin", 6);
    OneLaterS("SMPM Muslimin Cililin", 7);
  }

  /** Lines 17 and 18. */
  lemma ShortNamesShaped()
    ensures MatchShape("SMP Muslimin") && MatchShape("SMPM Muslimin")
  {
    OneLaterS("SMP Muslimin", 6);
    OneLaterS("SMPM Muslimin", 7);
  }

  /** Lines 19 and 20. */
  lemma RunTogetherShaped()
    ensures MatchShape("SMPMuslimin") && MatchShape("smpmuslimin")
  {
    OneLaterS("SMPMuslimin", 5);
    OneLaterS("smpmuslimin", 5);
  }

  /** Lines 21 and 22 (the abbreviations have no later "s"). */
  lemma AbbreviationsShaped()
    ensures MatchShape("SMPM Cililin") && MatchShape("SMPM")
  {
  }

  /** Lines 23 and 24. */
  lemma RunTogetherFullShaped()
    ensures MatchShape("SMPMusliminCililin") && MatchShape("smpmuslimincililin")
  {
    OneLaterS("SMPMusliminCililin", 5);
    OneLaterS("smpmuslimincililin", 5);
  }

  /** Lines 25 and 26. */
  lemma UnderscoredShaped()
    ensures MatchShape("Smp_Muslimin") && MatchShape("smp_muslimin")
  {
    OneLaterS("Smp_Muslimin", 6);
    OneLaterS("smp_muslimin", 6);
  }

  /** Lines 27 and 28. */
  lemma HyphenatedShaped()
    ensures MatchShape("smp-muslimin-cililin") && MatchShape("smp-muslimin")
  {
    OneLaterS("smp-muslimin-cililin", 6);
    OneLaterS("smp-muslimin", 6);
  }

  lemma FoldAvoids(x: string, lit: string, c: char)
    requires FoldEq(x, lit) && Avoids(lit, c)
    ensures Avoids(x, c)
  {
  }

  lemma SpacesAvoidS(g: string)
    requires forall j :: 0 <= j < |g| ==> IsSpace(g[j])
    ensures Avoids(g, 's')
  {
  }

  /** Every text line 16 matches: "smp", white space, "muslimin", white space, "cililin". */
  lemma PartsShaped(a: string, g1: string, b: string, g2: string, c: string)
    requires FoldEq(a, "SMP") && FoldEq(b, "Muslimin") && FoldEq(c, "Cililin")
    requires SpaceGap(g1, 0, |g1|) && SpaceGap(g2, 0, |g2|)
    ensures MatchShape(a + (g1 + (b + (g2 + c))))
  {
    var m := a + (g1 + (b + (g2 + c)));
    var o := 3 + |g1|;
    FoldAvoids(c, "Cililin", 's');
    SpacesAvoidS(g1);
    SpacesAvoidS(g2);
    assert SameFold(b[3], 'l');
    assert forall j :: 0 <= j < 8 && j != 2 ==> !SameFold(b[j], 's');
    assert !SameFold(a[1], 's') && !SameFold(a[2], 's');
    forall i | 0 < i < |m| && SameFold(m[i], 's') ensures i + 1 < |m| && SameFold(m[i + 1], 'l') {
      if i < 3 {
        assert false;
      } else if i < o {
        assert false;
      } else if i < o + 8 {
        assert m[i] == b[i - o] && m[i + 1] == b[i + 1 - o];
      } else if i < o + 8 + |g2| {
        assert false;
      } else {
        assert false;
      }
    }
    assert m[0] == a[0] && m[3] == g1[0];
  }

  /** Splits off the first piece and the white space after it. */
  lemma SpelledSplit(pieces: seq<string>, t: string) returns (n: nat)
    requires |pieces| > 1 && Spelled(pieces, t)
    ensures |pieces[0]| + n <= |t| && FoldEq(t[..|pieces[0]|], pieces[0])
    ensures SpaceGap(t[|pieces[0]|..|pieces[0]| + n], 0, n) && Spelled(pieces[1..], t[|pieces[0]| + n..])
    ensures t == t[..|pieces[0]|] + (t[|pieces[0]|..|pieces[0]| + n] + t[|pieces[0]| + n..])
  {
    var h := pieces[0];
    n :| SpaceGap(t, |h|, n) && Spelled(pieces[1..], t[|h| + n..]);
    var g := t[|h|..|h| + n];
    assert forall j :: 0 <= j < n ==> g[j] == t[|h| + j];
  }

  lemma SpelledLast(piece: string, t: string)
    requires Spelled([piece], t)
    ensures FoldEq(t, piece)
  {
    assert t[..|piece|] == t;
  }

  lemma SpelledShape(m: string)
    requires Spelled(["SMP", "Muslimin", "Cililin"], m)
    ensures MatchShape(m)
  {
    var ps: seq<string> := ["SMP", "Muslimin", "Cililin"];
    var qs: seq<string> := ["Muslimin", "Cililin"];
    assert ps[1..] == qs && qs[1..] == ["Cililin"];
    var n1 := SpelledSplit(ps, m);
    var u := m[3 + n1..];
    var n2 := SpelledSplit(qs, u);
    var v := u[8 + n2..];
    SpelledLast("Cililin", v);
    PartsShaped(m[..3], m[3..3 + n1], u[..8], u[8..8 + n2], v);
  }

  /** Line 16's pattern is shaped. */
  lemma SpacedShaped()
    ensures Shaped(Compile(["SMP", "Muslimin", "Cililin"]))
  {
    forall m | Matches(Compile(["SMP", "Muslimin", "Cililin"]), m) ensures MatchShape(m) {
      CompileMeaning(["SMP", "Muslimin", "Cililin"], m);
      SpelledShape(m);
    }
  }

  /** A single-literal rule whose literal has the match shape is shaped. */
  lemma LiteralRuleShaped(r: Rule)
    requires |r.source| == 1 && MatchShape(r.source[0])
    ensures Shaped(r.from())
  {
    LiteralShaped(r.source[0]);
  }

  /** Row `k` of the table: its pattern is shaped, and so is its replacement. */
  lemma RuleShaped(k: nat)
    requires k < |Replacements()|
    ensures Shaped(Replacements()[k].from()) && ReplacementShape(Replacements()[k].to)
  {
    var r := Replacements()[k];
    assert r.to in Targets();
    TargetShaped(r.to);
    if k == 2 {
      assert r.source == ["SMP", "Muslimin", "Cililin"];
      SpacedShaped();
    } else {
      if k < 2 {
        FullNamesShaped();
      } else if k < 5 {
        ShortNamesShaped();
      } else if k < 7 {
        RunTogetherShaped();
      } else if k < 9 {
        AbbreviationsShaped();
      } else if k < 11 {
        RunTogetherFullShaped();
      } else if k < 13 {
        UnderscoredShaped();
      } else {
        HyphenatedShaped();
      }
      LiteralRuleShaped(r);
    }
  }

  /** Every pattern and every replacement of the table is shaped. */
  lemma TableShaped()
    ensures ShapedRules(Replacements())
  {
    forall k | 0 <= k < |Replacements()|
      ensures Shaped(Replacements()[k].from()) && ReplacementShape(Replacements()[k].to)
    {
      RuleShaped(k);
    }
  }

  /**
   * Running the table over its own output changes nothing and counts
   * nothing: a file the run has rewritten is left alone by the next run.
   */
  lemma RerunChangesNothing(s: string)
    ensures ApplyRules(Replacements(), ApplyRules(Replacements(), s).text)
         == Rewritten(ApplyRules(Replacements(), s).text, 0)
  {
    TableShaped();
    SecondPassIdle(Replacements(), s);
  }
}
