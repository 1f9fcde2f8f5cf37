# find-replace.js, modelled in Dafny

`find-replace.js` renames a school throughout a web project. It walks the
folders `./src` and `./public` and skips every path that contains one of
eight skip tokens (`node_modules`, `.git`, `.env`, …). Each file with an
allowed extension goes to `processFile`. That function runs fifteen
case-insensitive global regex rules over the file's text, in table order.
Each rule sees the text the previous rule produced. For each rule it counts
the matches (`content.match`) and replaces them (`replaceAll`). The file is
written back only if its text changed. In that case the three run totals
are updated: `totalFilesProcessed`, `totalReplacements` and `modifiedFiles`.

The model has these modules:

- `Chars`: ASCII case folding (the `i` flag) and the ECMAScript `\s` set.
- `Patterns`: the rule patterns.
  - A pattern is a sequence of atoms: a case-insensitive character, or one
    or more white-space characters (`\s+`).
  - `Compile` builds the pattern of each table entry. `CompileMeaning`
    proves what it matches: the pieces spelled up to ASCII case, with a
    non-empty run of white space (spaces, tabs, newlines, …) between each two.
  - `MatchAt` is the greedy matcher. `MatchAtExact` proves it exact against
    a relational definition of what a pattern matches.
- `Scanning`: how a `g` regex is matched and replaced.
  - `Occurrences` gives the leftmost, non-overlapping matches.
  - `Count` is `matches.length`.
  - `ReplaceFrom` is `replaceAll` with a replacement that has no `$`
    pattern in it, which holds for every rule of the table
    (`ReplacementsLiteral`). It is proved to splice exactly the counted
    occurrences.
- `Rules`: one rule (`ApplyRule`) and the fold over the table
  (`ApplyRules`). The imperative rule loop of `processFile` is
  `RewriteContent`, proved equal to the fold.
- `Config`: the table, folders, extensions and skip tokens, with lemmas
  about them. `Scenarios` works through the table on a few inputs.
- `Rerun`: why a second run finds nothing. Every match of a table pattern
  starts with an "s", has no "n" fourth, and has an "l" after every later
  "s". Every replacement starts with "smpn" and has no other "s". So no
  match can overlap an inserted replacement, no rule creates a match of
  any pattern, and after one pass no pattern of the table matches.
- `Paths`: `path.join`, `String.prototype.includes`, the skip test and
  Node's POSIX `path.extname`.
- `Tree`: the directory tree as a value. `Reached` lists the files the walk
  hands to `processFile`. It is proved to be exactly the whole tree
  filtered by the two path tests, so pruning loses nothing.
- `Replacer`: a class holding the three globals plus a log of the writes.
  - `ProcessFile`, `ScanDirectory` and `Run` (the root loop) are methods.
  - Each is proved against `Outcomes`/`Writes` of the files `Reached`
    lists.
  - Each keeps the run invariant `Valid()`: the file counter equals the
    number of records, the replacement total is the sum of the record
    counts, every count is at least 1, and the records and writes line up.

The file system is a parameter:

- A missing root is `Root(path, None)`.
- A file whose read fails has content `None`.
- A file whose write fails has `writable == false`. `writeFileSync` throws
  before the counters move, so such a file is not recorded.

The extension test is not a suffix test on the path: the code compares
`path.extname(fullPath)` with the list. `extname` returns the
suffix from the last `.` of the last segment. It returns "" for dotfiles
such as `.env` and for `..`. So a name with two dots only ever has its last
extension compared, and the listed `.env.example` can never be equal to it
(`EnvExampleNeverMatches`). Such files are skipped earlier anyway, by the
`.env` token (`EnvExampleSkipped`).

The table order has a visible effect on joined spellings. Line 21
(`/SMPMuslimin/gi`) runs before the more specific line 29
(`/SMPMusliminCililin/gi`). So "SMPMusliminCililin" becomes
"SMPN2CililinCililin", with "Cililin" twice, and line 29 never sees it
(`JoinedSpellingDoubled`).

Running the script twice changes nothing the second time.
`RerunChangesNothing` proves that the table, run over its own output,
counts 0 and returns the text unchanged. `RewrittenFileIdle` lifts this to
`processFile`: a file whose content the table already rewrote is neither
written nor recorded.

Within one run a file is written at most once. If every listing holds
distinct names without a `/`, as `readdirSync` returns them, and the roots
are distinct names without a `/`, then no two paths the walk hands to
`processFile` are equal (`ReachedDistinct`, `RunFilesDistinct`). So no two
writes and no two records share a path (`WritesOnce`). For the configured
folders `src` and `public`, `FindReplace` ensures that no path is
recorded twice when the listings are well-named.

## Model

| member | source | states |
|---|---|---|
| Chars.SameFoldIsCanonical | find-replace.js:14-36 | For an ASCII pattern character, ASCII folding holds exactly when the `i` flag's Canonicalize (upper-casing that never maps a non-ASCII character to ASCII) gives both characters the same form, whatever `toUpperCase` does outside ASCII |
| Chars.FoldKeepsSpaces | find-replace.js:16 | A character that folds to a non-space pattern character is not white space, so `\s+` and the next letter cannot compete for it |
| Patterns.Literal | find-replace.js:14-15 | A literal regex is one case-insensitive character atom per character, in order; a non-empty literal is well formed |
| Patterns.Compile | find-replace.js:16 | `SMP\s+Muslimin\s+Cililin` is the pieces joined by white-space runs; it starts with the first piece's first character and is well formed when every piece after a run starts with a non-space |
| Patterns.CompileMeaning | find-replace.js:14-16 | A compiled regex source matches a text if and only if the text spells the pieces in order, each up to ASCII case, with a non-empty run of `\s` characters between each two and nothing before or after |
| Patterns.LiteralPrefix | find-replace.js:14-15 | A literal followed by a pattern matches a text exactly when the text starts with the literal up to case and the pattern matches the rest |
| Patterns.SpacesPrefix | find-replace.js:16 | `\s+` followed by a pattern matches a text exactly when the text starts with a non-empty white-space run after which the pattern matches |
| Patterns.SpaceRun | find-replace.js:16 | `\s+` takes the longest run: every character in it is white space, and it ends at the text's end or at a non-space |
| Patterns.LiteralMatchAt | find-replace.js:14-15 | A literal matches at `i` exactly when the next characters equal it up to ASCII case, and the match ends after them |
| Patterns.MatchAtSound | find-replace.js:16 | Whatever the greedy matcher returns is a match under the relational semantics of the pattern |
| Patterns.MatchAtComplete | find-replace.js:16 | For a well-formed pattern, every relational match from `i` is the one the greedy matcher finds, because greedy `\s+` never has to give a character back |
| Patterns.MatchAtExact | find-replace.js:16 | Greedy matching and the relational semantics agree both ways: the matcher ends at `e` if and only if the pattern matches `s[i..e]` |
| Patterns.MatchNeedsChar | find-replace.js:111 | A text a pattern matches contains, for each character atom, a character that folds to it |
| Scanning.FindFrom | find-replace.js:111 | The next match is the leftmost one: it matches at its start, and no position before it from `i` on starts a match; None means no position does |
| Scanning.Occurrences | find-replace.js:111 | The matches of a global regex are ordered, non-overlapping ranges of the text, each one a match of the pattern |
| Scanning.OccurrencesLeftmost | find-replace.js:111 | A position starts a counted occurrence if and only if a match starts there and it is not inside an earlier occurrence |
| Scanning.ReplaceIsSplice | find-replace.js:113 | `replaceAll` replaces exactly the occurrences `match` counted and keeps the text between them |
| Scanning.SpliceLength | find-replace.js:113 | The replaced text's length is the original length minus the replaced ranges plus one replacement per occurrence |
| Scanning.CountZeroIff | find-replace.js:112 | `match` returns null (count 0) if and only if the pattern matches at no position |
| Scanning.CountZeroWithoutChar | find-replace.js:112 | A pattern with a character that nothing in the text folds to has no match |
| Scanning.CountZeroWithoutAdjacent | find-replace.js:112 | A pattern whose atoms up to `k + 1` are characters has no match in a text that never has atom `k`'s character (up to case) right before atom `k + 1`'s |
| Scanning.CountZeroWhenLonger | find-replace.js:112 | A pattern with more atoms than the text has characters has no match |
| Rules.ApplyRule | find-replace.js:110-116 | One rule: the count grows by the number of leftmost non-overlapping matches, and the text becomes the text with exactly those ranges replaced |
| Rules.RewriteContent | find-replace.js:105-116 | The `forEach` loop's final `content` and `fileReplacements` are the rules folded over the original text in table order |
| Rules.RuleWithoutMatch | find-replace.js:111-112 | A rule with no match leaves both the text and the count unchanged |
| Rules.ApplyRulesAppend | find-replace.js:110-116 | Running two blocks of rules is running the second on the first's output, and the counts add up |
| Rules.ApplyRulesCons | find-replace.js:110-116 | The first rule sees the original text; the remaining rules see only its output, never the original |
| Rules.ApplyRulesUnchanged | find-replace.js:112-119 | A total count of 0 means the content equals the original, so nothing is written |
| Rules.ApplyRulesIdle | find-replace.js:110-116 | When no rule matches the text, the fold returns the text with count 0 |
| Rules.OnlyRuleFires | find-replace.js:110-116 | If the rules before rule `k` leave the text alone, rule `k` rewrites it and the rules after leave the result alone, the fold gives rule `k`'s result |
| Config.Replacements | find-replace.js:12-41 | The fifteen active rules in table order, all with well-formed patterns (the commented-out rule is not one) |
| Config.ReplacementsLiteral | find-replace.js:12-41 | No replacement string contains `$`, so `replaceAll` has no substitution pattern to expand and inserts each one literally |
| Config.EnvExampleNeverMatches | find-replace.js:47-59 | No path's `extname` equals the last allowed extension `.env.example` |
| Config.EnvExampleSkipped | find-replace.js:62-71 | Any path that contains `.env.example` contains the skip token `.env` |
| Scenarios.SmpmRuleOnSmpm | find-replace.js:26 | The abbreviation rule turns "SMPM" into "SMPN 2" with one replacement |
| Scenarios.AbbreviationExample | find-replace.js:12-41 | The whole table turns "SMPM" into "SMPN 2" with count 1 |
| Scenarios.RuleThreeOnMixed | find-replace.js:19 | The "SMP Muslimin" rule replaces all three spellings in "smp muslimin, SMP MUSLIMIN, SmP MusLiMin" |
| Scenarios.JoinedRuleOnJoined | find-replace.js:21 | `/SMPMuslimin/gi` turns "SMPMusliminCililin" into "SMPN2Cililin" + "Cililin" with one replacement |
| Scenarios.JoinedSpellingDoubled | find-replace.js:12-41 | The whole table turns "SMPMusliminCililin" into "SMPN2CililinCililin" with count 1: line 21 fires first and line 29 never matches |
| Scenarios.SpacedRuleOnTabs | find-replace.js:16 | Line 16 turns "SMP", a space, tab and space, "Muslimin", a newline and "Cililin" into "SMPN 2 Cililin" with one replacement |
| Scenarios.MixedCaseExample | find-replace.js:12-41 | The whole table turns "smp muslimin, SMP MUSLIMIN, SmP MusLiMin" into "SMPN 2 Cililin, SMPN 2 Cililin, SMPN 2 Cililin" with count 3 |
| Rerun.NoOverlap | find-replace.js:113 | A window with the match shape never overlaps a replacement inserted into a text: it lies wholly before or wholly after it |
| Rerun.SpliceWindow | find-replace.js:113 | A window of a replaced text that has the match shape is a window of the original text, lying between the replaced ranges |
| Rerun.ApplyRuleKeepsFree | find-replace.js:110-116 | A rule whose replacement has the replacement shape never creates a match of a shaped pattern that had none |
| Rerun.ApplyRuleFreesOwn | find-replace.js:110-116 | After a shaped rule runs, its own pattern matches nowhere in the text |
| Rerun.RulesLeaveFree | find-replace.js:110-116 | After one pass of shaped rules, no pattern of the table matches anywhere in the text |
| Rerun.SecondPassIdle | find-replace.js:110-119 | A second pass of shaped rules over the first pass's output counts 0 and returns the text unchanged |
| Rerun.PartsShaped | find-replace.js:16 | Every text `/SMP\s+Muslimin\s+Cililin/gi` matches has the match shape |
| Rerun.TableShaped | find-replace.js:12-41 | Every rule of the table has the match shape and every replacement the replacement shape |
| Rerun.RerunChangesNothing | find-replace.js:12-41 | Running the table over its own output counts 0 and leaves the text as it is |
| Paths.Join | find-replace.js:82 | The directory's path is a prefix of the joined path, and for an entry name without `/` the last segment of the joined path is exactly that name |
| Paths.ExtensionOfJoin | find-replace.js:82-93 | A suffix has the shape of an extension of the joined path if and only if it has that shape in the entry name alone |
| Paths.ExtnameOfJoin | find-replace.js:82-93 | The extension of a joined path is the extension of the entry name: the directory never changes it |
| Paths.IncludesIff | find-replace.js:86 | `includes` is true if and only if the token is spelled at some position of the path |
| Paths.SkippedIff | find-replace.js:86 | `some(... includes)` is true if and only if some skip token occurs in the path |
| Paths.SkippedBelow | find-replace.js:86-91 | Every path joined below a skipped path is skipped too, so pruning is sound |
| Paths.UnderApart | find-replace.js:82 | Paths below two different slash-free names joined to the same prefix are different |
| Paths.LastIndexOf | find-replace.js:93 | The last position holding the character, or -1 when there is none |
| Paths.BaseStart | find-replace.js:93 | The last segment starts after the last `/` and contains no `/` |
| Paths.ExtnameIff | find-replace.js:93 | A non-empty `extname` is exactly a suffix that starts with a `.`, has no other `.` or `/`, does not start the segment, and is not in a `..` segment |
| Paths.ExtnameOneDot | find-replace.js:93-95 | An extension is empty or has exactly one `.`, its first character |
| Tree.KeepMembers | find-replace.js:86-95 | The reference filter keeps a file if and only if its path has no skip token and an allowed extension |
| Tree.NothingBelowSkipped | find-replace.js:86-91 | Below a skipped directory no file passes the filter |
| Tree.ReachedIsFiltered | find-replace.js:78-100 | The pruning walk hands `processFile` exactly the files of the whole tree that pass both path tests, in walk order |
| Tree.ReachedEligible | find-replace.js:86-95 | Every file the walk reaches has no skip token in its path and an allowed extension |
| Tree.ReachedUnder | find-replace.js:78-100 | Every file the walk of a directory reaches lies below the path of one entry of its listing |
| Tree.ReachedDistinct | find-replace.js:78-100 | With well-named listings (distinct names, none containing `/`), the walk never reaches the same path twice |
| Tree.PrunedNeverReached | find-replace.js:86-91 | No file below a path that contains a skip token is ever reached |
| Replacer.FileOutcomePositive | find-replace.js:112-125 | A file yields at most one record, with the file's own path and a count of at least 1 |
| Replacer.OutcomesFacts | find-replace.js:119-125 | Over any run, every record's count is at least 1, and the writes and records name the same files in the same order |
| Replacer.OutcomesAppend | find-replace.js:81-99 | Processing one list of files and then another adds their records in that order |
| Replacer.WritesAppend | find-replace.js:81-99 | Processing one list of files and then another adds their writes in that order |
| Replacer.TotalAppend | find-replace.js:123 | The replacement total of two record lists is the sum of their totals |
| Replacer.RecordKeepsConsistent | find-replace.js:122-124 | Adding one record with a positive count, one write, one to the file counter and its count to the total keeps the totals consistent |
| Replacer.OutcomesEligible | find-replace.js:93-96 | When every file handed over passes both path tests, so does every recorded path |
| Replacer.RunFilesEligible | find-replace.js:140-147 | Every file the root loop hands over passes both path tests |
| Replacer.RunOutcomesEligible | find-replace.js:140-147 | Every path a run records has no skip token and has an allowed extension |
| Replacer.RewrittenFileIdle | find-replace.js:103-129 | A file whose content is the table's output is neither written nor recorded when processed again |
| Replacer.RootFilesUnder | find-replace.js:140-147 | Every file reached from a root lies below that root |
| Replacer.RunFilesDistinct | find-replace.js:140-147 | With distinct slash-free roots and well-named listings, the root loop never hands over the same path twice |
| Replacer.OutcomesDistinct | find-replace.js:119-125 | Files with distinct paths give records with distinct paths, each the path of one of the files |
| Replacer.WritesOnce | find-replace.js:119-125 | With distinct roots and well-named listings, no two writes and no two records of a run share a path |
| Replacer.ConfiguredRootsApart | find-replace.js:44 | The configured folders are apart if and only if their listings are well-named |
| Replacer.RunWith | find-replace.js:140-147 | For any valid table, a run from zero totals returns the records of the reached files, the matching counter and total, counts of at least 1, eligible paths, and no path twice when the roots are apart |
| Replacer.Replacer.constructor | find-replace.js:73-75 | The three totals start at zero and the invariant holds |
| Replacer.Replacer.ProcessFile | find-replace.js:103-129 | An unchanged, unreadable or unwritable file changes no total; a changed file adds one to the file counter, its count to the total, and appends one record and one write at the end, leaving earlier entries as they were; the invariant is kept |
| Replacer.Replacer.ScanDirectory | find-replace.js:78-100 | The walk appends exactly the records and writes of the files `Reached` lists, in order, and keeps the invariant |
| Replacer.Replacer.ScanEntry | find-replace.js:81-98 | One listing entry: a skipped entry adds nothing, a directory adds its walk, an allowed file adds what `processFile` records |
| Replacer.Replacer.Run | find-replace.js:140-147 | The root loop appends the records of each present root's walk in root order; a missing root adds nothing |
| Replacer.FindReplace | find-replace.js:140-147 | From zero totals over the configured folders, the returned records are those of the reached files in walk order, the file counter and replacement total match them, every count is at least 1, every recorded path passes both path tests, and with well-named listings no path is recorded twice |

## Left out

- File-system calls (`readdirSync`, `statSync`, `readFileSync`, `writeFileSync`, `existsSync`) are not modelled. They are replaced by the `Entry` tree, `Option` content, a `writable` flag and `Root` listings.
- `statSync` runs before the skip test, so it can throw on a skipped entry. That throw is uncaught and ends the run. The model leaves out this crash.
- `readdirSync` can throw too, uncaught: on a directory it may not read (EACCES), or when a configured root exists but is a file (ENOTDIR). The model leaves out this crash; every `Dir` has a listing.
- `statSync` follows symbolic links, so a link cycle makes the walk recurse until a path error ends the run. A finite `Entry` tree cannot express a cycle, so the model leaves it out.
- Console output (banner, per-file lines, summary) is left out. So are the `try`/`catch` logging and the timing with `Date.now` and `toFixed(2)`.
- UTF-8 decoding is left out: text is a sequence of characters.
- JavaScript strings have a maximum length. A `replaceAll` result longer than that throws a RangeError, which the `catch` at line 126 logs before the file is skipped. Model strings are unbounded, so this path is left out.
- Symbolic links are not modelled. A link to a file elsewhere in the tree makes one file reachable under two paths. The second visit reads the content the first one wrote, and by `RewrittenFileIdle` it records nothing more. `WritesOnce` speaks of paths, not of files behind them.
- Replacer.WritesOnce: assumes well-named listings, with distinct names and none containing `/`. `readdirSync` returns such names, but the `Entry` type does not enforce it.
- Directory-listing order is taken as given by the sequence of children.
- Only the regex features the table uses are modelled: case-insensitive literal characters and `\s+`. Case folding is ASCII only. That is exact for this table, since every pattern character is ASCII and non-unicode `i` matching never maps a non-ASCII character to an ASCII one.
- Patterns.MatchAtExact: the greedy matcher is proved exact only for well-formed patterns, where a non-space character follows each `\s+`. Every pattern in the table has this shape; a general backtracking engine is not modelled.
- Rules.ApplyRule: inserts the replacement literally; the `$&`, `` $` ``, `$'`, `$n` and `$$` patterns that `replaceAll` expands are not modelled. No replacement in the table contains `$` (`ReplacementsLiteral`), so the model is exact for it.
- Rules.ApplyRule: requires a non-empty pattern whose pieces are well formed. Every pattern in the table meets this; an empty regex (which matches between every pair of characters) is not modelled.
- The commented-out `/Muslimin/gi` rule at line 40 is not part of the table.
- Paths.Join: `path.join` normalisation is reduced to `dir + "/" + name`. This is exact here: listing names contain no `/` and are never `.` or `..`. The roots are taken as `src` and `public`, which is how `path.join` renders `./src` and `./public` in the joined paths.
- Paths.Extname: trailing separators are not modelled, since a joined entry path never ends with `/`.
