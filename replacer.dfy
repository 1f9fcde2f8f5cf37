/**
 * The script's run state and its two procedures: `processFile`, which
 * rewrites one file and updates the three running totals, and
 * `scanDirectory`, which walks a tree and calls it; then the root loop.
 */
module Replacer {
  import opened Wrappers
  import opened Rules
  import opened Paths
  import opened Tree
  import opened Config
  import opened Rerun

  /** An entry of `modifiedFiles`: `{ path, count }`. */
  datatype Modified = Modified(path: string, count: nat)

  /** A call `writeFileSync(path, content)`. */
  datatype Write = Write(path: string, content: string)

  /** A configured root folder: its listing, or None when `existsSync` says it is missing. */
  datatype Root = Root(path: string, listing: Option<seq<Entry>>)

  /** What `processFile` records for one file: one entry when the rules changed it and the write succeeded. */
  function FileOutcome(rules: seq<Rule>, c: Candidate): seq<Modified>
    requires ValidRules(rules)
  {
    match c.content
    case None => []
    case Some(original) =>
      var r := ApplyRules(rules, original);
      if r.text != original && c.writable then [Modified(c.path, r.count)] else []
  }

  /** What `processFile` writes for one file. */
  function FileWrites(rules: seq<Rule>, c: Candidate): seq<Write>
    requires ValidRules(rules)
  {
    match c.content
    case None => []
    case Some(original) =>
      var r := ApplyRules(rules, original);
      if r.text != original && c.writable then [Write(c.path, r.text)] else []
  }

  function Outcomes(rules: seq<Rule>, cs: seq<Candidate>): seq<Modified>
    requires ValidRules(rules)
    decreases |cs|
  {
    if cs == [] then [] else Outcomes(rules, cs[..|cs| - 1]) + FileOutcome(rules, cs[|cs| - 1])
  }

  function Writes(rules: seq<Rule>, cs: seq<Candidate>): seq<Write>
    requires ValidRules(rules)
    decreases |cs|
  {
    if cs == [] then [] else Writes(rules, cs[..|cs| - 1]) + FileWrites(rules, cs[|cs| - 1])
  }

  /** The sum of the counts. */
  function Total(ms: seq<Modified>): nat
    decreases |ms|
  {
    if ms == [] then 0 else Total(ms[..|ms| - 1]) + ms[|ms| - 1].count
  }

  /** The files one configured folder contributes: its walk, or nothing when it is missing. */
  function RootFiles(root: Root, skip: seq<string>, allowed: seq<string>): seq<Candidate> {
    match root.listing
    case None => []
    case Some(items) => Reached(root.path, items, skip, allowed)
  }

  /** The files the root loop hands to `processFile`: each present root's walk, in root order. */
  function RunFiles(roots: seq<Root>, skip: seq<string>, allowed: seq<string>): seq<Candidate>
    decreases |roots|
  {
    if roots == [] then []
    else RunFiles(roots[..|roots| - 1], skip, allowed) + RootFiles(roots[|roots| - 1], skip, allowed)
  }

  lemma Assoc<T>(a: seq<T>, b: seq<T>, c: seq<T>)
    ensures (a + b) + c == a + (b + c)
  {
  }

  lemma {:induction false} OutcomesAppend(rules: seq<Rule>, a: seq<Candidate>, b: seq<Candidate>)
    requires ValidRules(rules)
    ensures Outcomes(rules, a + b) == Outcomes(rules, a) + Outcomes(rules, b)
    decreases |b|
  {
    if b == [] {
      assert a + b == a;
    } else {
      var init, last := b[..|b| - 1], b[|b| - 1];
      assert (a + b)[..|a + b| - 1] == a + init;
      OutcomesAppend(rules, a, init);
      Assoc(Outcomes(rules, a), Outcomes(rules, init), FileOutcome(rules, last));
    }
  }

  lemma {:induction false} WritesAppend(rules: seq<Rule>, a: seq<Candidate>, b: seq<Candidate>)
    requires ValidRules(rules)
    ensures Writes(rules, a + b) == Writes(rules, a) + Writes(rules, b)
    decreases |b|
  {
    if b == [] {
      assert a + b == a;
    } else {
      var init, last := b[..|b| - 1], b[|b| - 1];
      assert (a + b)[..|a + b| - 1] == a + init;
      WritesAppend(rules, a, init);
      Assoc(Writes(rules, a), Writes(rules, init), FileWrites(rules, last));
    }
  }

  lemma {:induction false} TotalAppend(a: seq<Modified>, b: seq<Modified>)
    ensures Total(a + b) == Total(a) + Total(b)
    decreases |b|
  {
    if b == [] {
      assert a + b == a;
    } else {
      assert (a + b)[..|a + b| - 1] == a + b[..|b| - 1];
      TotalAppend(a, b[..|b| - 1]);
    }
  }

  /** A file is only recorded when some rule matched in it. */
  lemma FileOutcomePositive(rules: seq<Rule>, c: Candidate)
    requires ValidRules(rules)
    ensures forall k :: 0 <= k < |FileOutcome(rules, c)| ==> FileOutcome(rules, c)[k].count >= 1
    ensures |FileOutcome(rules, c)| <= 1
    ensures forall k :: 0 <= k < |FileOutcome(rules, c)| ==> FileOutcome(rules, c)[k].path == c.path
  {
    if c.content.Some? && ApplyRules(rules, c.content.value).count == 0 {
      ApplyRulesUnchanged(rules, c.content.value);
    }
  }

  /** Every recorded count is at least 1, and the records and the writes name the same files in the same order. */
  lemma {:induction false} OutcomesFacts(rules: seq<Rule>, cs: seq<Candidate>)
    requires ValidRules(rules)
    ensures forall k :: 0 <= k < |Outcomes(rules, cs)| ==> Outcomes(rules, cs)[k].count >= 1
    ensures |Writes(rules, cs)| == |Outcomes(rules, cs)|
    ensures forall k :: 0 <= k < |Outcomes(rules, cs)| ==> Writes(rules, cs)[k].path == Outcomes(rules, cs)[k].path
    decreases |cs|
  {
    if cs != [] {
      OutcomesFacts(rules, cs[..|cs| - 1]);
      FileOutcomePositive(rules, cs[|cs| - 1]);
    }
  }

  /** When every candidate passes both path tests, so does every recorded path. */
  lemma {:induction false} OutcomesEligible(rules: seq<Rule>, cs: seq<Candidate>, skip: seq<string>, allowed: seq<string>)
    requires ValidRules(rules)
    requires forall j :: 0 <= j < |cs| ==> Eligible(cs[j], skip, allowed)
    ensures forall k :: 0 <= k < |Outcomes(rules, cs)| ==>
              !Skipped(Outcomes(rules, cs)[k].path, skip) && Extname(Outcomes(rules, cs)[k].path) in allowed
    decreases |cs|
  {
    if cs != [] {
      var init, last := cs[..|cs| - 1], cs[|cs| - 1];
      OutcomesEligible(rules, init, skip, allowed);
      FileOutcomePositive(rules, last);
      assert Eligible(last, skip, allowed);
      var a: seq<Modified>, b: seq<Modified> := Outcomes(rules, init), FileOutcome(rules, last);
      assert Outcomes(rules, cs) == a + b;
      forall k | 0 <= k < |a + b|
        ensures !Skipped((a + b)[k].path, skip) && Extname((a + b)[k].path) in allowed
      {
        if k < |a| {
          assert (a + b)[k] == a[k];
        } else {
          assert (a + b)[k] == b[k - |a|];
        }
      }
    }
  }

  /**
   * Every file the run records was reachable: no skip token in its path and
   * an allowed extension.
   */
  lemma RunOutcomesEligible(rules: seq<Rule>, roots: seq<Root>, skip: seq<string>, allowed: seq<string>)
    requires ValidRules(rules)
    ensures forall k :: 0 <= k < |Outcomes(rules, RunFiles(roots, skip, allowed))| ==>
              !Skipped(Outcomes(rules, RunFiles(roots, skip, allowed))[k].path, skip) &&
              Extname(Outcomes(rules, RunFiles(roots, skip, allowed))[k].path) in allowed
  {
    RunFilesEligible(roots, skip, allowed);
    OutcomesEligible(rules, RunFiles(roots, skip, allowed), skip, allowed);
  }

  lemma {:induction false} RunFilesEligible(roots: seq<Root>, skip: seq<string>, allowed: seq<string>)
    ensures forall j :: 0 <= j < |RunFiles(roots, skip, allowed)| ==> Eligible(RunFiles(roots, skip, allowed)[j], skip, allowed)
    decreases |roots|
  {
    if roots != [] {
      var init, root := roots[..|roots| - 1], roots[|roots| - 1];
      RunFilesEligible(init, skip, allowed);
      if root.listing.Some? {
        ReachedEligible(root.path, root.listing.value, skip, allowed);
      }
      assert RunFiles(roots, skip, allowed) == RunFiles(init, skip, allowed) + RootFiles(root, skip, allowed);
    }
  }

  /**
   * The run invariants: one processed file per record, the replacement
   * total is the sum of the records' counts, every count is positive, and
   * each record matches the write that preceded it.
   */
  predicate Consistent(files: nat, replacements: nat, ms: seq<Modified>, ws: seq<Write>) {
    files == |ms| && replacements == Total(ms) &&
    (forall k :: 0 <= k < |ms| ==> ms[k].count >= 1) &&
    |ws| == |ms| && (forall k :: 0 <= k < |ws| ==> ws[k].path == ms[k].path)
  }

  /** Recording one more modified file, with a positive count, keeps the totals consistent. */
  lemma RecordKeepsConsistent(files: nat, replacements: nat, ms: seq<Modified>, ws: seq<Write>, path: string, text: string, n: nat)
    requires Consistent(files, replacements, ms, ws) && n >= 1
    ensures Consistent(files + 1, replacements + n, ms + [Modified(path, n)], ws + [Write(path, text)])
  {
    TotalAppend(ms, [Modified(path, n)]);
  }

  /**
   * The configured folders are distinct names without a separator, and
   * every listing is one `readdirSync` could return.
   */
  predicate RootsApart(roots: seq<Root>) {
    (forall k :: 0 <= k < |roots| ==> NoSlash(roots[k].path)) &&
    (forall i, j :: 0 <= i < j < |roots| ==> roots[i].path != roots[j].path) &&
    (forall k :: 0 <= k < |roots| && roots[k].listing.Some? ==> WellNamed(roots[k].listing.value))
  }

  /** `p` lies below one of the configured folders. */
  ghost predicate BelowRoot(p: string, roots: seq<Root>) {
    exists i :: 0 <= i < |roots| && Under(p, roots[i].path)
  }

  lemma RootFilesUnder(root: Root, skip: seq<string>, allowed: seq<string>)
    ensures forall k :: 0 <= k < |RootFiles(root, skip, allowed)| ==> Under(RootFiles(root, skip, allowed)[k].path, root.path)
  {
    if root.listing.Some? {
      var items := root.listing.value;
      var r := Reached(root.path, items, skip, allowed);
      ReachedUnder(root.path, items, skip, allowed);
      forall k | 0 <= k < |r| ensures Under(r[k].path, root.path) {
        var i :| 0 <= i < |items| && Under(r[k].path, Join(root.path, items[i].name));
        UnderJoin(root.path, items[i].name);
        UnderTrans(r[k].path, Join(root.path, items[i].name), root.path);
      }
    }
  }

  /**
   * With distinct folders and well-named listings, the root loop hands
   * every file to `processFile` under one path only.
   */
  lemma {:induction false} RunFilesDistinct(roots: seq<Root>, skip: seq<string>, allowed: seq<string>)
    requires RootsApart(roots)
    ensures DistinctPaths(RunFiles(roots, skip, allowed))
    ensures forall k :: 0 <= k < |RunFiles(roots, skip, allowed)| ==> BelowRoot(RunFiles(roots, skip, allowed)[k].path, roots)
    decreases |roots|
  {
    if roots != [] {
      var init, root := roots[..|roots| - 1], roots[|roots| - 1];
      assert forall k :: 0 <= k < |init| ==> init[k] == roots[k];
      assert RootsApart(init);
      RunFilesDistinct(init, skip, allowed);
      var a: seq<Candidate>, b: seq<Candidate> := RunFiles(init, skip, allowed), RootFiles(root, skip, allowed);
      assert RunFiles(roots, skip, allowed) == a + b;
      if root.listing.Some? {
        ReachedDistinct(root.path, root.listing.value, skip, allowed);
      }
      RootFilesUnder(root, skip, allowed);
      forall i, j | 0 <= i < |a| && 0 <= j < |b| ensures a[i].path != b[j].path {
        var m :| 0 <= m < |init| && Under(a[i].path, init[m].path);
        assert init[m] == roots[m];
        assert "" + init[m].path == init[m].path && "" + root.path == root.path;
        UnderApart("", init[m].path, root.path, a[i].path, b[j].path);
      }
      DistinctAppend(a, b);
      forall k | 0 <= k < |a + b| ensures BelowRoot((a + b)[k].path, roots) {
        if k < |a| {
          assert (a + b)[k] == a[k];
          var m :| 0 <= m < |init| && Under(a[k].path, init[m].path);
          assert init[m] == roots[m];
        } else {
          assert (a + b)[k] == b[k - |a|];
          assert Under((a + b)[k].path, roots[|roots| - 1].path);
        }
      }
    }
  }

  /** `p` is the path of one of the files `cs`. */
  ghost predicate PathOf(p: string, cs: seq<Candidate>) {
    exists j :: 0 <= j < |cs| && cs[j].path == p
  }

  /** Files with distinct paths give records with distinct paths, each the path of one of the files. */
  lemma {:induction false} OutcomesDistinct(rules: seq<Rule>, cs: seq<Candidate>)
    requires ValidRules(rules) && DistinctPaths(cs)
    ensures forall i, j :: 0 <= i < j < |Outcomes(rules, cs)| ==> Outcomes(rules, cs)[i].path != Outcomes(rules, cs)[j].path
    ensures forall k :: 0 <= k < |Outcomes(rules, cs)| ==> PathOf(Outcomes(rules, cs)[k].path, cs)
    decreases |cs|
  {
    if cs != [] {
      var init, last := cs[..|cs| - 1], cs[|cs| - 1];
      assert forall k :: 0 <= k < |init| ==> init[k] == cs[k];
      OutcomesDistinct(rules, init);
      FileOutcomePositive(rules, last);
      var a: seq<Modified>, b: seq<Modified> := Outcomes(rules, init), FileOutcome(rules, last);
      assert Outcomes(rules, cs) == a + b;
      forall i, j | 0 <= i < j < |a + b| ensures (a + b)[i].path != (a + b)[j].path {
        if j < |a| {
          assert (a + b)[i] == a[i] && (a + b)[j] == a[j];
        } else {
          assert (a + b)[j] == b[0] && b[0].path == cs[|cs| - 1].path;
          assert (a + b)[i] == a[i];
          var m :| 0 <= m < |init| && init[m].path == a[i].path;
          assert cs[m] == init[m];
        }
      }
      forall k | 0 <= k < |a + b| ensures PathOf((a + b)[k].path, cs) {
        if k < |a| {
          assert (a + b)[k] == a[k];
          var m :| 0 <= m < |init| && init[m].path == a[k].path;
          assert cs[m] == init[m];
        } else {
          assert (a + b)[k] == b[0] && b[0].path == cs[|cs| - 1].path;
        }
      }
    }
  }

  /** No two records share a path. */
  predicate RecordedOnce(ms: seq<Modified>) {
    forall i, j :: 0 <= i < j < |ms| ==> ms[i].path != ms[j].path
  }

  /**
   * A file is written at most once per run: with distinct folders and
   * well-named listings, no two writes and no two records share a path.
   */
  lemma WritesOnce(rules: seq<Rule>, roots: seq<Root>, skip: seq<string>, allowed: seq<string>)
    requires ValidRules(rules) && RootsApart(roots)
    ensures forall i, j :: 0 <= i < j < |Writes(rules, RunFiles(roots, skip, allowed))| ==>
              Writes(rules, RunFiles(roots, skip, allowed))[i].path != Writes(rules, RunFiles(roots, skip, allowed))[j].path
    ensures RecordedOnce(Outcomes(rules, RunFiles(roots, skip, allowed)))
  {
    var cs := RunFiles(roots, skip, allowed);
    RunFilesDistinct(roots, skip, allowed);
    OutcomesDistinct(rules, cs);
    OutcomesFacts(rules, cs);
  }

  /** Every listing of a present folder is well-named. */
  predicate ListingsWellNamed(roots: seq<Root>) {
    forall k :: 0 <= k < |roots| && roots[k].listing.Some? ==> WellNamed(roots[k].listing.value)
  }

  /** The configured folders are apart exactly when their listings are well-named. */
  lemma ConfiguredRootsApart(roots: seq<Root>)
    requires |roots| == |FoldersToScan()|
    requires forall k :: 0 <= k < |roots| ==> roots[k].path == FoldersToScan()[k]
    ensures ListingsWellNamed(roots) <==> RootsApart(roots)
  {
    assert roots[0].path == "src" && roots[1].path == "public";
  }

  /**
   * Processing a file whose content is what the table rewrote it to
   * records nothing and writes nothing: a second run leaves the file alone.
   */
  lemma RewrittenFileIdle(path: string, original: string, writable: bool)
    ensures FileOutcome(Replacements(), Candidate(path, Some(ApplyRules(Replacements(), original).text), writable)) == []
    ensures FileWrites(Replacements(), Candidate(path, Some(ApplyRules(Replacements(), original).text), writable)) == []
  {
    RerunChangesNothing(original);
  }

  class Replacer {
    const rules: seq<Rule>
    const allowed: seq<string>
    const skip: seq<string>
    var totalFilesProcessed: nat
    var totalReplacements: nat
    var modifiedFiles: seq<Modified>
    /** The `writeFileSync` calls made so far. */
    var written: seq<Write>

    /**
     * The run invariants: one processed file per record, the replacement
     * total is the sum of the records' counts, every count is positive, and
     * each record matches the write that preceded it.
     */
    predicate Valid()
      reads this
    {
      ValidRules(rules) && Consistent(totalFilesProcessed, totalReplacements, modifiedFiles, written)
    }

    /** The module-level `let` declarations: all totals start at zero. */
    constructor(rules: seq<Rule>, allowed: seq<string>, skip: seq<string>)
      requires ValidRules(rules)
      ensures Valid()
      ensures this.rules == rules && this.allowed == allowed && this.skip == skip
      ensures totalFilesProcessed == 0 && totalReplacements == 0
      ensures modifiedFiles == [] && written == []
    {
      this.rules := rules;
      this.allowed := allowed;
      this.skip := skip;
      totalFilesProcessed := 0;
      totalReplacements := 0;
      modifiedFiles := [];
      written := [];
    }

    /**
     * `processFile`: read, run the rules, and write and record only when the
     * content changed. A failed read or write is caught and logged, and
     * leaves every total as it was.
     */
    method ProcessFile(path: string, content: Option<string>, writable: bool)
      requires Valid()
      modifies this
      ensures Valid()
      ensures modifiedFiles == old(modifiedFiles) + FileOutcome(rules, Candidate(path, content, writable))
      ensures written == old(written) + FileWrites(rules, Candidate(path, content, writable))
      ensures content.None? || !writable || ApplyRules(rules, content.value).text == content.value ==>
                totalFilesProcessed == old(totalFilesProcessed) && totalReplacements == old(totalReplacements) &&
                modifiedFiles == old(modifiedFiles) && written == old(written)
      ensures content.Some? && writable && ApplyRules(rules, content.value).text != content.value ==>
                totalFilesProcessed == old(totalFilesProcessed) + 1 &&
                totalReplacements == old(totalReplacements) + ApplyRules(rules, content.value).count &&
                modifiedFiles == old(modifiedFiles) + [Modified(path, ApplyRules(rules, content.value).count)]
    {
      match content
      case None =>
      case Some(original) =>
        var rewritten, fileReplacements := RewriteContent(rules, original);
        if rewritten != original && writable {
          if fileReplacements == 0 {
            ApplyRulesUnchanged(rules, original);
          }
          RecordKeepsConsistent(totalFilesProcessed, totalReplacements, modifiedFiles, written, path, rewritten, fileReplacements);
          written := written + [Write(path, rewritten)];
          totalFilesProcessed := totalFilesProcessed + 1;
          totalReplacements := totalReplacements + fileReplacements;
          modifiedFiles := modifiedFiles + [Modified(path, fileReplacements)];
        }
    }

    /**
     * `scanDirectory`: go through the listing in order, drop entries whose
     * path contains a skip token, descend into directories and process
     * files with an allowed extension. The records it adds are those of
     * the files `Reached` lists.
     */
    method ScanDirectory(dir: string, items: seq<Entry>)
      requires Valid()
      modifies this
      ensures Valid()
      ensures modifiedFiles == old(modifiedFiles) + Outcomes(rules, Reached(dir, items, skip, allowed))
      ensures written == old(written) + Writes(rules, Reached(dir, items, skip, allowed))
      decreases items
    {
      for k := 0 to |items|
        invariant Valid()
        invariant modifiedFiles == old(modifiedFiles) + Outcomes(rules, Reached(dir, items[..k], skip, allowed))
        invariant written == old(written) + Writes(rules, Reached(dir, items[..k], skip, allowed))
      {
        ghost var before, step := Reached(dir, items[..k], skip, allowed), Visit(dir, items[k], skip, allowed);
        assert items[..k + 1][..k] == items[..k];
        assert Reached(dir, items[..k + 1], skip, allowed) == before + step;
        OutcomesAppend(rules, before, step);
        WritesAppend(rules, before, step);
        ghost var ob, os, wb, ws := Outcomes(rules, before), Outcomes(rules, step), Writes(rules, before), Writes(rules, step);
        ScanEntry(dir, items[k]);
        Assoc(old(modifiedFiles), ob, os);
        Assoc(old(written), wb, ws);
      }
      assert items[..|items|] == items;
    }

    /** One iteration of `scanDirectory`'s loop: the entry `item` of the listing of `dir`. */
    method ScanEntry(dir: string, item: Entry)
      requires Valid()
      modifies this
      ensures Valid()
      ensures modifiedFiles == old(modifiedFiles) + Outcomes(rules, Visit(dir, item, skip, allowed))
      ensures written == old(written) + Writes(rules, Visit(dir, item, skip, allowed))
      decreases item
    {
      var fullPath := Join(dir, item.name);
      if !Skipped(fullPath, skip) {
        match item
        case Dir(_, children) =>
          ScanDirectory(fullPath, children);
        case File(_, content, writable) =>
          if Extname(fullPath) in allowed {
            ProcessFile(fullPath, content, writable);
            assert Outcomes(rules, [Candidate(fullPath, content, writable)]) == FileOutcome(rules, Candidate(fullPath, content, writable));
            assert Writes(rules, [Candidate(fullPath, content, writable)]) == FileWrites(rules, Candidate(fullPath, content, writable));
          }
        case Other(_) =>
      }
    }

    /** The root loop: scan each configured folder that exists, in order. */
    method Run(roots: seq<Root>)
      requires Valid()
      modifies this
      ensures Valid()
      ensures modifiedFiles == old(modifiedFiles) + Outcomes(rules, RunFiles(roots, skip, allowed))
      ensures written == old(written) + Writes(rules, RunFiles(roots, skip, allowed))
    {
      for k := 0 to |roots|
        invariant Valid()
        invariant modifiedFiles == old(modifiedFiles) + Outcomes(rules, RunFiles(roots[..k], skip, allowed))
        invariant written == old(written) + Writes(rules, RunFiles(roots[..k], skip, allowed))
      {
        ghost var before, step := RunFiles(roots[..k], skip, allowed), RootFiles(roots[k], skip, allowed);
        assert roots[..k + 1][..k] == roots[..k];
        assert RunFiles(roots[..k + 1], skip, allowed) == before + step;
        OutcomesAppend(rules, before, step);
        WritesAppend(rules, before, step);
        ghost var ob, os, wb, ws := Outcomes(rules, before), Outcomes(rules, step), Writes(rules, before), Writes(rules, step);
        if roots[k].listing.Some? {
          ScanDirectory(roots[k].path, roots[k].listing.value);
        }
        Assoc(old(modifiedFiles), ob, os);
        Assoc(old(written), wb, ws);
      }
      assert roots[..|roots|] == roots;
    }
  }

  /**
   * One run with a fresh replacer over `roots`, for any valid rule table:
   * the totals and records it ends with, every record eligible, and no path
   * recorded twice when the folders are apart.
   */
  method RunWith(rules: seq<Rule>, allowed: seq<string>, skip: seq<string>, roots: seq<Root>)
    returns (filesProcessed: nat, replacements: nat, modified: seq<Modified>)
    requires ValidRules(rules)
    ensures modified == Outcomes(rules, RunFiles(roots, skip, allowed))
    ensures filesProcessed == |modified| && replacements == Total(modified)
    ensures forall k :: 0 <= k < |modified| ==> modified[k].count >= 1
    ensures forall k :: 0 <= k < |modified| ==> !Skipped(modified[k].path, skip) && Extname(modified[k].path) in allowed
    ensures RootsApart(roots) ==> RecordedOnce(modified)
  {
    var r := new Replacer(rules, allowed, skip);
    r.Run(roots);
    RunOutcomesEligible(rules, roots, skip, allowed);
    filesProcessed, replacements, modified := r.totalFilesProcessed, r.totalReplacements, r.modifiedFiles;
    if RootsApart(roots) {
      WritesOnce(rules, roots, skip, allowed);
    }
  }

  /**
   * The whole script: fresh totals, the configured rules, extensions and
   * skip tokens, and the configured folders with their listings. Returns
   * the three totals the summary reports.
   */
  method FindReplace(roots: seq<Root>) returns (filesProcessed: nat, replacements: nat, modified: seq<Modified>)
    requires |roots| == |FoldersToScan()|
    requires forall k :: 0 <= k < |roots| ==> roots[k].path == FoldersToScan()[k]
    ensures modified == Outcomes(Replacements(), RunFiles(roots, SkipItems(), AllowedExtensions()))
    ensures filesProcessed == |modified| && replacements == Total(modified)
    ensures forall k :: 0 <= k < |modified| ==> modified[k].count >= 1
    ensures forall k :: 0 <= k < |modified| ==>
              !Skipped(modified[k].path, SkipItems()) && Extname(modified[k].path) in AllowedExtensions()
    ensures ListingsWellNamed(roots) ==> RecordedOnce(modified)
  {
    filesProcessed, replacements, modified := RunWith(Replacements(), AllowedExtensions(), SkipItems(), roots);
    ConfiguredRootsApart(roots);
  }
}
