/** The script's built-in configuration: the replacement table, folders, extensions and skip tokens. */
module Config {
  import opened Patterns
  import opened Rules
  import opened Paths

  /**
   * The fifteen active rules, in table order, each regex written as its
   * source text cut at `\s+` (the commented-out `/Muslimin/gi` rule is not one).
   */
  function Replacements(): (rules: seq<Rule>)
    ensures |rules| == 15
    ensures ValidRules(rules)
  {
    [ Rule(["SMP Muslimin Cililin"], "SMPN 2 Cililin"),
      Rule(["SMPM Muslimin Cililin"], "SMPN 2 Cililin"),
      Rule(["SMP", "Muslimin", "Cililin"], "SMPN 2 Cililin"),
      Rule(["SMP Muslimin"], "SMPN 2 Cililin"),
      Rule(["SMPM Muslimin"], "SMPN 2 Cililin"),
      Rule(["SMPMuslimin"], "SMPN2Cililin"),
      Rule(["smpmuslimin"], "smpn2cililin"),
      Rule(["SMPM Cililin"], "SMPN 2 Cililin"),
      Rule(["SMPM"], "SMPN 2"),
      Rule(["SMPMusliminCililin"], "SMPN2Cililin"),
      Rule(["smpmuslimincililin"], "smpn2cililin"),
      Rule(["Smp_Muslimin"], "SMPN_2_Cililin"),
      Rule(["smp_muslimin"], "smpn_2_cililin"),
      Rule(["smp-muslimin-cililin"], "smpn-2-cililin"),
      Rule(["smp-muslimin"], "smpn-2-cililin") ]
  }

  /** The distinct replacement strings of the table. */
  function Targets(): set<string> {
    {"SMPN 2 Cililin", "SMPN2Cililin", "smpn2cililin", "SMPN 2", "SMPN_2_Cililin", "smpn_2_cililin", "smpn-2-cililin"}
  }

  lemma TargetHasNoDollar(t: string)
    requires t in Targets()
    ensures '$' !in t
  { }

  /**
   * No replacement contains a `$`, so `replaceAll` inserts each one
   * literally: there is no `$&`, `$1` or `$$` for it to expand.
   */
  lemma ReplacementsLiteral()
    ensures forall k :: 0 <= k < |Replacements()| ==> '$' !in Replacements()[k].to
  {
    forall k | 0 <= k < 15 ensures '$' !in Replacements()[k].to {
      assert Replacements()[k].to in Targets();
      TargetHasNoDollar(Replacements()[k].to);
    }
  }

  /** `foldersToScan`, as `path.join` normalises them ("./src" becomes "src"). */
  function FoldersToScan(): seq<string> {
    ["src", "public"]
  }

  /** `allowedExtensions`. */
  function AllowedExtensions(): seq<string> {
    [".js", ".jsx", ".ts", ".tsx", ".json", ".html", ".css", ".scss", ".txt", ".md", ".env.example"]
  }

  /** `skipItems`. */
  function SkipItems(): seq<string> {
    ["node_modules", ".git", "build", "dist", ".env", "package-lock.json", "yarn.lock", "find-replace.js"]
  }

  /**
   * The last allowed extension is dead: `path.extname` never returns a
   * string with two dots, so ".env.example" never equals it.
   */
  lemma EnvExampleNeverMatches(p: string)
    ensures Extname(p) != AllowedExtensions()[10]
  {
    ExtnameOneDot(p);
    var e := AllowedExtensions()[10];
    assert e[4] == '.';
  }

  /** Any path naming an ".env.example" file is skipped anyway, by the ".env" token. */
  lemma EnvExampleSkipped(p: string)
    requires Includes(p, ".env.example")
    ensures Skipped(p, SkipItems())
  {
    IncludesIff(p, ".env.example");
    var i: nat :| SpellsAt(p, ".env.example", i);
    assert p[i..i + 4] == p[i..i + 12][..4] == ".env";
    assert SpellsAt(p, ".env", i);
    IncludesIff(p, ".env");
    SkippedIff(p, SkipItems());
    assert SkipItems()[4] == ".env";
  }
}
