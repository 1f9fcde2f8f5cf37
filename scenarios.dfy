/**
 * Worked runs of the configured table. Three are stated over the whole
 * fifteen-rule pipeline: an abbreviation, a mixed-case full name, and the
 * joined spelling that comes out with "Cililin" twice. The last one runs
 * line 16 alone over a name split by a tab and a newline.
 */
module Scenarios {
  import opened Wrappers
  import opened Chars
  import opened Patterns
  import opened Scanning
  import opened Rules
  import opened Config

  // ---- "SMPM" alone: only the abbreviation rule fires. ----

  lemma SmpmRuleOnSmpm()
    ensures ApplyRule(Replacements()[8], "SMPM") == Rewritten("SMPN 2", 1)
  {
    var p := Replacements()[8].from();
    assert p == Literal("SMPM");
    LiteralHit("SMPM", "SMPM", 0);
    OccurrencesAtEnd(p, "SMPM");
    OccurrencesAt(p, "SMPM", 0, 0, 4);
  }

  /** Every rule before the abbreviation rule is longer than "SMPM". */
  lemma HeadIdleOnSmpm()
    ensures ApplyRules(Replacements()[..8], "SMPM") == Rewritten("SMPM", 0)
  {
    var rules := Replacements()[..8];
    forall k | 0 <= k < 8
      ensures |Occurrences(rules[k].from(), "SMPM", 0)| == 0
    {
      CountZeroWhenLonger(rules[k].from(), "SMPM");
    }
    ApplyRulesIdle(rules, "SMPM");
  }

  /** Every rule after the abbreviation rule is longer than "SMPN 2". */
  lemma TailIdleOnSmpn()
    ensures ApplyRules(Replacements()[9..], "SMPN 2") == Rewritten("SMPN 2", 0)
  {
    var rules := Replacements()[9..];
    forall k | 0 <= k < 6
      ensures |Occurrences(rules[k].from(), "SMPN 2", 0)| == 0
    {
      CountZeroWhenLonger(rules[k].from(), "SMPN 2");
    }
    ApplyRulesIdle(rules, "SMPN 2");
  }

  lemma AbbreviationExample()
    ensures ApplyRules(Replacements(), "SMPM") == Rewritten("SMPN 2", 1)
  {
    HeadIdleOnSmpm();
    SmpmRuleOnSmpm();
    TailIdleOnSmpn();
    OnlyRuleFires(Replacements(), 8, "SMPM", "SMPN 2", 1);
  }

  // ---- "smp muslimin, SMP MUSLIMIN, SmP MusLiMin": rule 3 takes all three. ----

  lemma RuleThree()
    ensures Replacements()[3].from() == Literal("SMP Muslimin") && Replacements()[3].to == "SMPN 2 Cililin"
  {
  }

  lemma MixedLayout(s: string)
    requires s == "smp muslimin" + ", " + "SMP MUSLIMIN" + ", " + "SmP MusLiMin"
    ensures |s| == 40
    ensures s[0..12] == "smp muslimin" && s[14..26] == "SMP MUSLIMIN" && s[28..40] == "SmP MusLiMin"
    ensures s[12..14] == ", " && s[26..28] == ", "
    ensures s[12] == ',' && s[13] == ' ' && s[26] == ',' && s[27] == ' '
  {
  }

  lemma MixedSpellings()
    ensures FoldEq("smp muslimin", "SMP Muslimin")
    ensures FoldEq("SMP MUSLIMIN", "SMP Muslimin")
    ensures FoldEq("SmP MusLiMin", "SMP Muslimin")
  {
  }

  lemma HitAt(s: string, j: nat, w: string)
    requires j + 12 <= |s| && s[j..j + 12] == w && FoldEq(w, "SMP Muslimin")
    ensures MatchAt(Literal("SMP Muslimin"), 0, s, j) == Some(j + 12)
  {
    LiteralHit("SMP Muslimin", s, j);
  }

  lemma MixedHits(s: string)
    requires s == "smp muslimin" + ", " + "SMP MUSLIMIN" + ", " + "SmP MusLiMin"
    ensures MatchAt(Literal("SMP Muslimin"), 0, s, 0) == Some(12)
    ensures MatchAt(Literal("SMP Muslimin"), 0, s, 14) == Some(26)
    ensures MatchAt(Literal("SMP Muslimin"), 0, s, 28) == Some(40)
  {
    MixedLayout(s);
    MixedSpellings();
    HitAt(s, 0, "smp muslimin");
    HitAt(s, 14, "SMP MUSLIMIN");
    HitAt(s, 28, "SmP MusLiMin");
  }

  lemma MixedMisses(s: string)
    requires s == "smp muslimin" + ", " + "SMP MUSLIMIN" + ", " + "SmP MusLiMin"
    ensures forall j :: j in {12, 13, 26, 27} ==> MatchAt(Literal("SMP Muslimin"), 0, s, j) == None
  {
    var t := "SMP Muslimin";
    MixedLayout(s);
    LiteralMiss(t, s, 12);
    LiteralMiss(t, s, 13);
    LiteralMiss(t, s, 26);
    LiteralMiss(t, s, 27);
  }

  /** The scan finds exactly the three names: a match at 0, 14 and 28, and none in the separators. */
  lemma ThreeOccurrences(p: Pattern, s: string)
    requires |p| > 0 && |s| == 40
    requires MatchAt(p, 0, s, 0) == Some(12) && MatchAt(p, 0, s, 14) == Some(26) && MatchAt(p, 0, s, 28) == Some(40)
    requires forall j :: j in {12, 13, 26, 27} ==> MatchAt(p, 0, s, j) == None
    ensures Occurrences(p, s, 0) == [(0, 12), (14, 26), (28, 40)]
  {
    OccurrencesAtEnd(p, s);
    OccurrencesAt(p, s, 26, 28, 40);
    OccurrencesAt(p, s, 12, 14, 26);
    OccurrencesAt(p, s, 0, 0, 12);
  }

  /** Replacing the three names keeps the two separators. */
  lemma ThreeSplice(s: string, rep: string)
    requires |s| == 40 && s[12..14] == ", " && s[26..28] == ", "
    ensures Disjoint([(0, 12), (14, 26), (28, 40)], 0, |s|)
    ensures Splice(s, [(0, 12), (14, 26), (28, 40)], rep, 0) == rep + ", " + rep + ", " + rep
  {
    var occ: seq<(nat, nat)> := [(0, 12), (14, 26), (28, 40)];
    assert occ[1..] == [(14, 26), (28, 40)];
    assert occ[1..][1..] == [(28, 40)];
    assert |occ[1..][1..][1..]| == 0;
  }

  lemma RuleThreeOnMixed()
    ensures ApplyRule(Replacements()[3], "smp muslimin" + ", " + "SMP MUSLIMIN" + ", " + "SmP MusLiMin")
         == Rewritten("SMPN 2 Cililin" + ", " + "SMPN 2 Cililin" + ", " + "SMPN 2 Cililin", 3)
  {
    var s := "smp muslimin" + ", " + "SMP MUSLIMIN" + ", " + "SmP MusLiMin";
    RuleThree();
    MixedLayout(s);
    MixedHits(s);
    MixedMisses(s);
    ThreeOccurrences(Literal("SMP Muslimin"), s);
    ThreeSplice(s, "SMPN 2 Cililin");
  }

  lemma MixedLacksC(s: string)
    requires s == "smp muslimin" + ", " + "SMP MUSLIMIN" + ", " + "SmP MusLiMin"
    ensures Avoids(s, 'C')
  {
  }

  /** Rules 0 to 2 all spell "Cililin", so they need a "C". */
  lemma FullNameRulesIdle(s: string, k: nat)
    requires Avoids(s, 'C') && k < 3
    ensures |Occurrences(Replacements()[k].from(), s, 0)| == 0
  {
    var p := Replacements()[k].from();
    if k == 0 {
      assert p[13] == Char('C');
      CountZeroWithoutChar(p, s, 13);
    } else if k == 1 {
      assert p[14] == Char('C');
      CountZeroWithoutChar(p, s, 14);
    } else {
      assert p[13] == Char('C');
      CountZeroWithoutChar(p, s, 13);
    }
  }

  lemma HeadIdleOnMixed()
    ensures ApplyRules(Replacements()[..3], "smp muslimin" + ", " + "SMP MUSLIMIN" + ", " + "SmP MusLiMin")
         == Rewritten("smp muslimin" + ", " + "SMP MUSLIMIN" + ", " + "SmP MusLiMin", 0)
  {
    var s := "smp muslimin" + ", " + "SMP MUSLIMIN" + ", " + "SmP MusLiMin";
    var rules := Replacements()[..3];
    MixedLacksC(s);
    forall k | 0 <= k < 3
      ensures |Occurrences(rules[k].from(), s, 0)| == 0
    {
      FullNameRulesIdle(s, k);
    }
    ApplyRulesIdle(rules, s);
  }

  lemma NameHasNoPM()
    ensures NoAdjacent("SMPN 2 Cililin", 'P', 'M')
  {
    var a, b := "SMPN", " 2 Cililin";
    assert NoAdjacent(a, 'P', 'M');
    assert Avoids(b, 'P');
    AvoidsNoAdjacent(b, 'P', 'M');
    NoAdjacentConcat(a, b, 'P', 'M');
    assert a + b == "SMPN 2 Cililin";
  }

  lemma OutputHasNoPM(t: string)
    requires t == "SMPN 2 Cililin" + ", " + "SMPN 2 Cililin" + ", " + "SMPN 2 Cililin"
    ensures NoAdjacent(t, 'P', 'M')
  {
    var a, sep := "SMPN 2 Cililin", ", ";
    NameHasNoPM();
    assert NoAdjacent(sep, 'P', 'M');
    NoAdjacentConcat(a, sep, 'P', 'M');
    NoAdjacentConcat(a + sep, a, 'P', 'M');
    NoAdjacentConcat(a + sep + a, sep, 'P', 'M');
    NoAdjacentConcat(a + sep + a + sep, a, 'P', 'M');
  }

  lemma OutputLacksU(t: string)
    requires t == "SMPN 2 Cililin" + ", " + "SMPN 2 Cililin" + ", " + "SMPN 2 Cililin"
    ensures Avoids(t, 'u')
  {
  }

  /** Rules 7 and 8 start with "SMPM", so they need a "P" right before an "M". */
  lemma AbbreviationRulesIdle(t: string, k: nat)
    requires NoAdjacent(t, 'P', 'M') && (k == 7 || k == 8)
    ensures |Occurrences(Replacements()[k].from(), t, 0)| == 0
  {
    var p := Replacements()[k].from();
    if k == 7 {
      assert p[2] == Char('P') && p[3] == Char('M');
    } else {
      assert p[2] == Char('P') && p[3] == Char('M');
    }
    CountZeroWithoutAdjacent(p, t, 2);
  }

  /** Rules 4, 5 and 6 spell "Muslimin", so they need a "u". */
  lemma MusliminRulesIdle(t: string, k: nat)
    requires Avoids(t, 'u') && 4 <= k <= 6
    ensures |Occurrences(Replacements()[k].from(), t, 0)| == 0
  {
    var p := Replacements()[k].from();
    if k == 4 {
      assert p[6] == Char('u');
      CountZeroWithoutChar(p, t, 6);
    } else if k == 5 {
      assert p[4] == Char('u');
      CountZeroWithoutChar(p, t, 4);
    } else {
      assert p[4] == Char('u');
      CountZeroWithoutChar(p, t, 4);
    }
  }

  /** Rules 9 to 14 spell "Muslimin" too. */
  lemma JoinedRulesIdle(t: string, k: nat)
    requires Avoids(t, 'u') && 9 <= k < 15
    ensures |Occurrences(Replacements()[k].from(), t, 0)| == 0
  {
    var p := Replacements()[k].from();
    if k == 9 {
      assert p[4] == Char('u');
      CountZeroWithoutChar(p, t, 4);
    } else if k == 10 {
      assert p[4] == Char('u');
      CountZeroWithoutChar(p, t, 4);
    } else if k == 11 {
      assert p[5] == Char('u');
      CountZeroWithoutChar(p, t, 5);
    } else if k == 12 {
      assert p[5] == Char('u');
      CountZeroWithoutChar(p, t, 5);
    } else if k == 13 {
      assert p[5] == Char('u');
      CountZeroWithoutChar(p, t, 5);
    } else {
      assert p[5] == Char('u');
      CountZeroWithoutChar(p, t, 5);
    }
  }

  lemma TailIdleOnMixed()
    ensures ApplyRules(Replacements()[4..], "SMPN 2 Cililin" + ", " + "SMPN 2 Cililin" + ", " + "SMPN 2 Cililin")
         == Rewritten("SMPN 2 Cililin" + ", " + "SMPN 2 Cililin" + ", " + "SMPN 2 Cililin", 0)
  {
    var t := "SMPN 2 Cililin" + ", " + "SMPN 2 Cililin" + ", " + "SMPN 2 Cililin";
    var rules := Replacements()[4..];
    OutputLacksU(t);
    OutputHasNoPM(t);
    forall k | 0 <= k < 11
      ensures |Occurrences(rules[k].from(), t, 0)| == 0
    {
      if k + 4 == 7 || k + 4 == 8 {
        AbbreviationRulesIdle(t, k + 4);
      } else if k + 4 <= 6 {
        MusliminRulesIdle(t, k + 4);
      } else {
        JoinedRulesIdle(t, k + 4);
      }
    }
    ApplyRulesIdle(rules, t);
  }

  lemma MixedCaseExample()
    ensures ApplyRules(Replacements(), "smp muslimin" + ", " + "SMP MUSLIMIN" + ", " + "SmP MusLiMin")
         == Rewritten("SMPN 2 Cililin" + ", " + "SMPN 2 Cililin" + ", " + "SMPN 2 Cililin", 3)
  {
    var s := "smp muslimin" + ", " + "SMP MUSLIMIN" + ", " + "SmP MusLiMin";
    var t := "SMPN 2 Cililin" + ", " + "SMPN 2 Cililin" + ", " + "SMPN 2 Cililin";
    HeadIdleOnMixed();
    RuleThreeOnMixed();
    TailIdleOnMixed();
    OnlyRuleFires(Replacements(), 3, s, t, 3);
  }

  // ---- "SMPMusliminCililin": the shorter joined rule fires first. ----

  /** The rules before the joined "SMPMuslimin" rule are too long or need a space. */
  lemma HeadIdleOnJoined(s: string)
    requires s == "SMPMusliminCililin"
    ensures ApplyRules(Replacements()[..5], s) == Rewritten(s, 0)
  {
    var rules := Replacements()[..5];
    assert Avoids(s, ' ');
    forall k | 0 <= k < 5
      ensures |Occurrences(rules[k].from(), s, 0)| == 0
    {
      var p := rules[k].from();
      if k < 3 {
        CountZeroWhenLonger(p, s);
      } else if k == 3 {
        assert p[3] == Char(' ');
        CountZeroWithoutChar(p, s, 3);
      } else {
        assert p[4] == Char(' ');
        CountZeroWithoutChar(p, s, 4);
      }
    }
    ApplyRulesIdle(rules, s);
  }

  /** Line 21 replaces the "SMPMuslimin" prefix and leaves the trailing "Cililin". */
  lemma JoinedRuleOnJoined(s: string)
    requires s == "SMPMusliminCililin"
    ensures ApplyRule(Replacements()[5], s) == Rewritten("SMPN2Cililin" + "Cililin", 1)
  {
    var p := Replacements()[5].from();
    assert p == Literal("SMPMuslimin");
    assert s[0..11] == "SMPMuslimin";
    LiteralHit("SMPMuslimin", s, 0);
    assert Occurrences(p, s, 11) == [] by {
      match FindFrom(p, s, 11)
      case None =>
      case Some(_) => assert false;
    }
    OccurrencesAt(p, s, 0, 0, 11);
    assert s[11..] == "Cililin";
  }

  lemma DoubledHasNoPM(t: string)
    requires t == "SMPN2Cililin" + "Cililin"
    ensures NoAdjacent(t, 'P', 'M')
  {
    var a, b := "SMPN", "2CililinCililin";
    assert NoAdjacent(a, 'P', 'M');
    assert Avoids(b, 'P');
    AvoidsNoAdjacent(b, 'P', 'M');
    NoAdjacentConcat(a, b, 'P', 'M');
    assert a + b == t;
  }

  /** No later rule matches the result: none of them can find a "u" or a "P" before an "M". */
  lemma TailIdleOnDoubled(t: string)
    requires t == "SMPN2Cililin" + "Cililin"
    ensures ApplyRules(Replacements()[6..], t) == Rewritten(t, 0)
  {
    var rules := Replacements()[6..];
    assert Avoids(t, 'u');
    DoubledHasNoPM(t);
    forall k | 0 <= k < 9
      ensures |Occurrences(rules[k].from(), t, 0)| == 0
    {
      if k + 6 == 6 {
        MusliminRulesIdle(t, 6);
      } else if k + 6 <= 8 {
        AbbreviationRulesIdle(t, k + 6);
      } else {
        JoinedRulesIdle(t, k + 6);
      }
    }
    ApplyRulesIdle(rules, t);
  }

  /**
   * The joined spelling never reaches its own rule (line 29): line 21 runs
   * first and turns "SMPMusliminCililin" into "SMPN2CililinCililin", with
   * "Cililin" twice, instead of the "SMPN2Cililin" that line 29 gives.
   */
  lemma JoinedSpellingDoubled()
    ensures ApplyRules(Replacements(), "SMPMusliminCililin") == Rewritten("SMPN2Cililin" + "Cililin", 1)
  {
    var s, t := "SMPMusliminCililin", "SMPN2Cililin" + "Cililin";
    HeadIdleOnJoined(s);
    JoinedRuleOnJoined(s);
    TailIdleOnDoubled(t);
    OnlyRuleFires(Replacements(), 5, s, t, 1);
  }

  // ---- Line 16 across a tab and a newline. ----

  lemma TailSpelled(u: string)
    requires u == "Muslimin" + "\n" + "Cililin"
    ensures Spelled(["Muslimin", "Cililin"], u)
  {
    var rest: seq<string> := ["Cililin"];
    assert ["Muslimin", "Cililin"][1..] == rest;
    assert u[..8] == "Muslimin";
    assert u[9..] == "Cililin";
    assert Spelled(rest, u[9..]);
    assert SpaceGap(u, 8, 1);
  }

  lemma SpacedSpelled(s: string)
    requires s == "SMP" + " \t " + "Muslimin" + "\n" + "Cililin"
    ensures Spelled(["SMP", "Muslimin", "Cililin"], s)
  {
    var rest: seq<string> := ["Muslimin", "Cililin"];
    assert ["SMP", "Muslimin", "Cililin"][1..] == rest;
    assert s[..3] == "SMP";
    assert s[6..] == "Muslimin" + "\n" + "Cililin";
    TailSpelled(s[6..]);
    assert SpaceGap(s, 3, 3);
  }

  /** A text that spells a spaced source is matched whole by the greedy matcher. */
  lemma SpelledMatchesWhole(pieces: seq<string>, s: string)
    requires Spaced(pieces) && Spelled(pieces, s)
    ensures MatchAt(Compile(pieces), 0, s, 0) == Some(|s|)
  {
    CompileMeaning(pieces, s);
    assert s[0..|s|] == s;
    MatchAtExact(Compile(pieces), s, 0, |s|);
  }

  /** A rule whose pattern matches the whole text replaces it once. */
  lemma WholeMatch(r: Rule, s: string)
    requires Spaced(r.source)
    requires MatchAt(r.from(), 0, s, 0) == Some(|s|)
    ensures ApplyRule(r, s) == Rewritten(r.to, 1)
  {
    var p := r.from();
    OccurrencesAtEnd(p, s);
    OccurrencesAt(p, s, 0, 0, |s|);
    var occ := Occurrences(p, s, 0);
    assert occ == [(0, |s|)];
    assert occ[1..] == [];
    assert Splice(s, occ[1..], r.to, |s|) == [];
    assert s[0..0] == [];
    assert Splice(s, occ, r.to, 0) == r.to;
  }

  /**
   * Line 16's `\s+` takes any white space: a space, a tab and a space
   * between the first two words and a newline before the last one make one
   * match of the whole text, replaced once.
   */
  lemma SpacedRuleOnTabs(s: string)
    requires s == "SMP" + " \t " + "Muslimin" + "\n" + "Cililin"
    ensures ApplyRule(Replacements()[2], s) == Rewritten("SMPN 2 Cililin", 1)
  {
    var r := Replacements()[2];
    assert r == Rule(["SMP", "Muslimin", "Cililin"], "SMPN 2 Cililin");
    SpacedSpelled(s);
    SpelledMatchesWhole(r.source, s);
    WholeMatch(r, s);
  }
}
