/**
 * The rule pipeline of `processFile`: each (pattern, replacement) rule is
 * applied, in table order, to the text the previous rule produced.
 */
module Rules {
  import opened Wrappers
  import opened Patterns
  import opened Scanning

  /** One entry of the replacement table: `{ from: /…/gi, to: "…" }`. */
  datatype Rule = Rule(source: seq<string>, to: string) {
    /** The pattern the regex stands for. */
    function from(): Pattern {
      Compile(source)
    }
  }

  /** A text after some rules, with the number of replacements they made. */
  datatype Rewritten = Rewritten(text: string, count: nat)

  predicate ValidRules(rules: seq<Rule>) {
    forall k :: 0 <= k < |rules| ==> Spaced(rules[k].source)
  }

  /**
   * One rule: `content.match(from)`; when it found anything, `replaceAll`
   * and add the number of matches.
   */
  function ApplyRule(r: Rule, s: string): (res: Rewritten)
    requires Spaced(r.source)
    ensures res.count == |Occurrences(r.from(), s, 0)|
    ensures res.text == Splice(s, Occurrences(r.from(), s, 0), r.to, 0)
  {
    ReplaceIsSplice(r.from(), s, r.to, 0);
    var n := Count(r.from(), s);
    if n == 0 then Rewritten(s, 0) else Rewritten(ReplaceFrom(r.from(), s, r.to, 0), n)
  }

  /** The rules folded over the text in table order, with the total count. */
  function ApplyRules(rules: seq<Rule>, s: string): Rewritten
    requires ValidRules(rules)
    decreases |rules|
  {
    if rules == [] then Rewritten(s, 0)
    else
      var before := ApplyRules(rules[..|rules| - 1], s);
      var last := ApplyRule(rules[|rules| - 1], before.text);
      Rewritten(last.text, before.count + last.count)
  }

  /**
   * The loop of `processFile`: reassign `content` and accumulate
   * `fileReplacements` rule by rule.
   */
  method RewriteContent(rules: seq<Rule>, original: string) returns (content: string, fileReplacements: nat)
    requires ValidRules(rules)
    ensures Rewritten(content, fileReplacements) == ApplyRules(rules, original)
  {
    content := original;
    fileReplacements := 0;
    for k := 0 to |rules|
      invariant Rewritten(content, fileReplacements) == ApplyRules(rules[..k], original)
    {
      assert rules[..k + 1][..k] == rules[..k];
      var from, to := rules[k].from(), rules[k].to;
      var matches := Count(from, content);
      if matches > 0 {
        content := ReplaceFrom(from, content, to, 0);
        fileReplacements := fileReplacements + matches;
      }
    }
    assert rules[..|rules|] == rules;
  }

  /** A rule without any match leaves the text alone and counts nothing. */
  lemma RuleWithoutMatch(r: Rule, s: string)
    requires Spaced(r.source)
    requires forall j :: 0 <= j <= |s| ==> MatchAt(r.from(), 0, s, j) == None
    ensures ApplyRule(r, s) == Rewritten(s, 0)
  {
    CountZeroIff(r.from(), s);
  }

  /**
   * Sequential composition: running `a + b` is running `a`, then running `b`
   * on what `a` produced; the counts add up.
   */
  lemma {:induction false} ApplyRulesAppend(a: seq<Rule>, b: seq<Rule>, s: string)
    requires ValidRules(a) && ValidRules(b)
    ensures ValidRules(a + b)
    ensures ApplyRules(a + b, s).text == ApplyRules(b, ApplyRules(a, s).text).text
    ensures ApplyRules(a + b, s).count == ApplyRules(a, s).count + ApplyRules(b, ApplyRules(a, s).text).count
    decreases |b|
  {
    if b == [] {
      assert a + b == a;
    } else {
      var init, r := b[..|b| - 1], b[|b| - 1];
      assert (a + b)[..|a + b| - 1] == a + init;
      assert (a + b)[|a + b| - 1] == r;
      ApplyRulesAppend(a, init, s);
    }
  }

  /**
   * The first rule sees the original text; every later rule sees only the
   * text produced by the rules before it, never the original.
   */
  lemma ApplyRulesCons(r: Rule, rest: seq<Rule>, s: string)
    requires Spaced(r.source) && ValidRules(rest)
    ensures ValidRules([r] + rest)
    ensures ApplyRules([r] + rest, s).text == ApplyRules(rest, ApplyRule(r, s).text).text
    ensures ApplyRules([r] + rest, s).count == ApplyRule(r, s).count + ApplyRules(rest, ApplyRule(r, s).text).count
  {
    assert [r][..0] == [];
    ApplyRulesAppend([r], rest, s);
  }

  /** When no rule matched (total count 0), the text is unchanged. */
  lemma {:induction false} ApplyRulesUnchanged(rules: seq<Rule>, s: string)
    requires ValidRules(rules)
    requires ApplyRules(rules, s).count == 0
    ensures ApplyRules(rules, s).text == s
    decreases |rules|
  {
    if rules != [] {
      ApplyRulesUnchanged(rules[..|rules| - 1], s);
    }
  }

  /** Rules that each find nothing leave the text unchanged and count nothing. */
  lemma {:induction false} ApplyRulesIdle(rules: seq<Rule>, s: string)
    requires ValidRules(rules)
    requires forall k :: 0 <= k < |rules| ==> |Occurrences(rules[k].from(), s, 0)| == 0
    ensures ApplyRules(rules, s) == Rewritten(s, 0)
    decreases |rules|
  {
    if rules != [] {
      ApplyRulesIdle(rules[..|rules| - 1], s);
    }
  }

  lemma SplitAt<T>(xs: seq<T>, k: nat)
    requires k < |xs|
    ensures xs == xs[..k] + [xs[k]] + xs[k + 1..]
  {
  }

  /** A table `a + [r] + b` where only `r` finds anything does what `r` does. */
  lemma ApplyRulesAround(a: seq<Rule>, r: Rule, b: seq<Rule>, s: string, t: string, n: nat)
    requires ValidRules(a) && Spaced(r.source) && ValidRules(b)
    requires ApplyRules(a, s) == Rewritten(s, 0)
    requires ApplyRule(r, s) == Rewritten(t, n)
    requires ApplyRules(b, t) == Rewritten(t, 0)
    ensures ValidRules(a + [r] + b)
    ensures ApplyRules(a + [r] + b, s) == Rewritten(t, n)
  {
    ApplyRulesAppend(a, [r], s);
    assert [r][..0] == [];
    ApplyRulesAppend(a + [r], b, s);
  }

  /**
   * When the rules before rule `k` find nothing in `s`, rule `k` turns `s`
   * into `t` with `n` matches, and the rules after it find nothing in `t`,
   * the whole table turns `s` into `t` with count `n`.
   */
  lemma OnlyRuleFires(rules: seq<Rule>, k: nat, s: string, t: string, n: nat)
    requires ValidRules(rules) && k < |rules|
    requires ApplyRules(rules[..k], s) == Rewritten(s, 0)
    requires ApplyRule(rules[k], s) == Rewritten(t, n)
    requires ApplyRules(rules[k + 1..], t) == Rewritten(t, 0)
    ensures ApplyRules(rules, s) == Rewritten(t, n)
  {
    SplitAt(rules, k);
    ApplyRulesAround(rules[..k], rules[k], rules[k + 1..], s, t, n);
  }
}
