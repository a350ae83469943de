# A model of the mcp-re merge gates

The repository decides what may merge with a family of Python gates under `scripts/`. This project models
the eight of them that contain real algorithms or carry guarantees over a history of merges, and proves
those guarantees in Dafny. `dafny verify dfyconfig.toml` checks everything.

| module | models |
|---|---|
| `StripNoncode`, `BraceScan`, `LexerEquivalence` | the two hand-written Rust lexers, and that one refines the other |
| `ProductionSource` | which lines of a Rust file are production code |
| `ModuleTree` | the walk over a crate's module tree, and the verdict on its hand-listed sources |
| `SizeRatchet`, `SizeHistory` | the module-size debt registry, one merge at a time and over every history of merges |
| `GrowthRecord` | which rises the text of a growth record authorizes |
| `TestsAndSize` | the size gate under its own counting rule: test regions do not change its answer |
| `Obligations` | the obligation registry and succession, over every history of merges |
| `Readiness`, `LargerChanges` | affected units, required checks, the verdict on a candidate commit; and how they move as a change grows |
| `MergeProtocol` | the merge operation as a protocol against a server anyone else may move |
| `Reachability` | the two worklists (`reach`, `closure`) and the rehearsal claims judged on one |
| `CrateLock` | the packages exempt from lock comparison because only Bazel asks for them |
| `GazelleDiff` | the generator-diff scan with reorder cancellation |
| `LexerLaws`, `TextLaws`, `ModuleLaws`, `SizeLaws`, `ObligationLaws`, `ReadinessLaws`, `DiffLaws` | the same answers said again on characters, paths, fields and raw inputs, without the definitions the code is proved against |
| `RustText`, `PythonText`, `Sequences`, `Wrappers` | shared definitions: ends of literals, parts of `str`, reports along a list, options |

Python loops and objects are methods and classes proved against specification functions; those functions are
related to independent descriptions (a set of paths, a single-pass automaton, a least closed set, a predicate on
states) by lemmas. Dictionaries iterated in sorted or insertion order are maps together with a list of their
keys, each once; the theorems hold for any order of that list, and it is sorted where the source sorts. What comes
from outside (files, regular expression matches, check runs, the base revision, Unicode's letters and digits beyond
ASCII) is a parameter.

## Where the code and its documentation differ

The model follows the code.

- `merge_verified_pr.py` documents exit status 2 for a failed merge call. The code raises `SystemExit` with a
  message, which exits with 1; no run of the protocol ends with 2 (`OnlyMeasuredCommitsLand`, `MergeVerified`).
- The size gate documents that a previous authorization never authorizes a later increase. It does once the baseline
  is back where it began: `SpentAuthorizationBuysAgain` gives, for any counting rule and any two contents above the
  threshold, a history in which the same entry and the same record buy the same rise twice, and
  `ProductionRiseBuysAgain` one in production lines. `AuthorizationIsGoodAgainIff` says from which baselines it is good
  again, `ReuseNeedsALowering` that a lowering must come between, and `RisesUseDifferentPairs` what holds without one.
- The size gate documents that a growth record must contain an exact literal line. The code looks for the text
  anywhere. So a line of `300 -> 3100` also authorizes `300 -> 310`, and a line that says in front that the rise was
  refused authorizes it (`WordsInFrontAuthorize`). `AuthorizesUnlistedIff` says exactly when a document without the line
  authorizes all the same, `DocumentAuthorizesIff` which rises a document authorizes, and `OnlyListedIff` when a record
  that lists rises line by line authorizes no others.
- The crate-spec gate exempts packages reachable only through a Bazel-only spec. It reads edges by package name, and
  when a lock holds two versions of a name the last one speaks for all. The exemption can then be too wide
  (`LostEdgeExemptsTooMuch`) or too narrow (`LentEdgeExemptsTooLittle`); `ExemptsRightlyIff` gives the exact
  condition on the lock, and `LockedOnceIsRight` says that one version of each name is enough.
- Enlarging a change can shrink the affected set (`EnlargingCanShrink`): a prerequisite edge may name an undeclared
  unit, and the global widening returns declared units only. `AffectedIsMonotoneIff` gives the exact condition.
- Enlarging a change can lower the exit status when the smaller change requires no lane (`RulesetCanBeStricter`):
  it then answers to the branch ruleset. `ExitIsMonotoneIff` gives the exact condition.
- The obligation gate refuses a succession that raises severity, but a persisting row may rise together with what
  is measured (`AcceptedRowCanRise`), and a persisting unit may cover new paths (`AcceptedRowCanWiden`);
  `MergeKeepsStakeIff` gives the exact condition.

The two lexers are not documented to agree with each other. They read some character literals differently
(`EscapedTickDiffers`); `TickAgreesIff` gives the exact condition at a tick, and `Comparable` asks it of the ticks that
stand in code.

## Model

| member | source | states |
|---|---|---|
| StripNoncode.StripNoncode | scripts/bazel_srcs_gate.py:165-211 | The scan loop, with its three inner searches, terminates on every text and yields the blanked text of the specification |
| StripNoncode.StripIsIdempotentBlanking | scripts/bazel_srcs_gate.py:165-211 | For every text: same length, newlines exactly where they were, every other character kept or turned into a space, no quote, tick or comment opener left, a second pass changes nothing, and the texts left alone are exactly those with nothing to blank |
| StripNoncode.ScanRawStringHere | scripts/bazel_srcs_gate.py:214-221 | The prefix test and hash loop answer whether the `r` opens a raw string |
| StripNoncode.ScanStringEnd | scripts/bazel_srcs_gate.py:224-244 | The hash count plus search, or the escape-skipping loop, find the end of the literal, the end of the text if it never closes |
| StripNoncode.ScanCharLiteralEnd | scripts/bazel_srcs_gate.py:247-258 | The search tells a character literal from a lifetime and finds its end |
| StripNoncode.ScanBlockEnd | scripts/bazel_srcs_gate.py:188-202 | The depth loop finds the end of a nested block comment |
| LexerLaws.LineComment | scripts/bazel_srcs_gate.py:185-187 | On characters: a line comment is blanked up to the end of its line, and what follows is read as a text of its own |
| LexerLaws.BlockComment | scripts/bazel_srcs_gate.py:188-202 | On characters: a block comment is blanked through the closer that first brings openers minus closers to zero, openers and closers read from the left without overlap, and what follows is read as a text of its own |
| LexerLaws.UnclosedComment | scripts/bazel_srcs_gate.py:188-202 | A comment whose openers always outnumber its closers is blanked to the end of the text |
| LexerLaws.EveryComment | scripts/bazel_srcs_gate.py:188-202 | Every text that begins with a comment opener is one of these two |
| LexerLaws.StringLiteral | scripts/bazel_srcs_gate.py:224-244 | A string is blanked through its first quote that no escape takes, and what follows is read as a text of its own |
| LexerLaws.OpenString | scripts/bazel_srcs_gate.py:224-244 | A string without such a quote is blanked to the end of the text |
| LexerLaws.RawString | scripts/bazel_srcs_gate.py:214-244 | A raw string with any number of hashes is blanked through the first quote followed by that many, and what follows is read as a text of its own |
| LexerLaws.ByteRawString | scripts/bazel_srcs_gate.py:214-244 | The same after a `b`, which is kept |
| LexerLaws.OpenRawString | scripts/bazel_srcs_gate.py:214-244 | A raw string that never closes is blanked to the end of the text |
| LexerLaws.EscapedChar | scripts/bazel_srcs_gate.py:247-258 | After a tick a backslash makes a literal of everything through the next tick |
| LexerLaws.PlainChar | scripts/bazel_srcs_gate.py:247-258 | Any one other character between two ticks is a literal |
| LexerLaws.Lifetime | scripts/bazel_srcs_gate.py:247-258 | Any other tick is blanked alone |
| LexerLaws.Word | scripts/bazel_srcs_gate.py:203-221 | A word is copied, unless it is the `r` or `br` of a raw string |
| LexerLaws.OtherChar | scripts/bazel_srcs_gate.py:205-209 | Any other character is copied |
| LexerLaws.StripShift | scripts/bazel_srcs_gate.py:165-211 | From any place after a cut, reading goes on as if the text began at the cut, where no word runs across it |
| BraceScan.Scanner.constructor | scripts/module_size_gate.py:185-188 | A new scanner is in code, with nothing open |
| BraceScan.Scanner.Feed | scripts/module_size_gate.py:190-204 | Feeding a line leaves exactly the state and yields exactly the code that stepping through it from the carried state gives |
| BraceScan.Scanner.CodeAt | scripts/module_size_gate.py:206-223 | One step in code: comment, raw string, string, tick or copied character |
| BraceScan.Scanner.OpenRaw | scripts/module_size_gate.py:225-245 | A raw string opens here, with its hash count, or the state is unchanged |
| BraceScan.Scanner.StrAt | scripts/module_size_gate.py:247-253 | One step in a string, an escape skipping two characters even past the line |
| BraceScan.Scanner.RawAt | scripts/module_size_gate.py:255-261 | One step in a raw string, closing only on the quote with its hashes |
| BraceScan.Scanner.BlockAt | scripts/module_size_gate.py:263-273 | One step in a nested block comment |
| BraceScan.Scanner.CharLiteralAt | scripts/module_size_gate.py:275-286 | A character literal is skipped, a lifetime's tick emitted |
| LexerLaws.StreamingOpensRawIff | scripts/module_size_gate.py:225-245 | The streaming lexer opens a raw string exactly at an `r` or `br` that no word character comes before and that hashes, if any, and a quote follow |
| LexerLaws.StreamingTick | scripts/module_size_gate.py:275-286 | At a tick the streaming lexer skips an escape with its escaped character and all through the next tick, or one other character between two ticks, or emits the tick |
| LexerEquivalence.StreamingRefinesWholeText | scripts/module_size_gate.py:169-286 | Feeding a text line by line leaves, on every line, the same braces and semicolons in the same order as blanking the whole text at once, across raw strings, escaped line ends and nested comments, for texts with newline line breaks whose pieces of code the two read alike, whatever stands inside strings and comments |
| LexerEquivalence.StreamingRefinesOnPlainText | scripts/module_size_gate.py:169-286 | The same for every apostrophe-free ASCII text with newline line breaks |
| LexerEquivalence.TickAgreesIff | scripts/module_size_gate.py:275-286 | At a tick in code the two lexers go on from the same place, within the line, exactly when an escape neither stands for the closing tick nor leaves its line, and a newline is not taken for a character |
| LexerEquivalence.EscapedTickDiffers | scripts/bazel_srcs_gate.py:247-258 | On a text with an escaped tick in code the two lexers disagree about a brace |
| ProductionSource.ProductionSource | scripts/module_size_gate.py:289-320 | The outer loop keeps exactly the lines a single pass over the file counts as production |
| ProductionSource.SwallowRegion | scripts/module_size_gate.py:300-317 | The inner loop with its own lexer skips exactly the lines of the test region |
| ProductionSource.TestRegionsDoNotCount | scripts/module_size_gate.py:323-336 | Where no region is open, inserting a closed test region changes neither what is kept above it nor what is kept below it |
| SizeLaws.TestAttributeIff | scripts/module_size_gate.py:121-122 | A line opens a region exactly when, white space aside, it begins with one of the two test attributes, not going on as a longer word |
| SizeLaws.CountIs | scripts/module_size_gate.py:305-308 | Braces and semicolons are counted as often as they occur |
| TextLaws.SplitAtBreak | scripts/module_size_gate.py:296 | A line ends at the first line-breaking character, a carriage return and a newline counting as one |
| TextLaws.SplitLast | scripts/module_size_gate.py:296 | What does not end is the last line, if there is anything of it |
| TextLaws.TrimmedIs | scripts/module_size_gate.py:300 | Stripping on the left takes away exactly the white space in front |
| ProductionSource.EitherLexerEndsTheRegion | scripts/module_size_gate.py:300-317 | Whether a text is one item ending on its last line is decided alike by the streaming lexer and by the whole-text one |
| TestsAndSize.TestsAreFree | scripts/module_size_gate.py:323-336 | With production lines as the counting rule, putting a closed test region into any source, or taking one out, leaves the size gate's answer unchanged |
| TestsAndSize.SameSizesPass | scripts/module_size_gate.py:1007-1009 | Over a base that passed, two trees that differ only in bytes of equal size get the same answer: whether a file was touched has no say under one counting rule |
| TestsAndSize.OrdinaryMeasures | scripts/module_size_gate.py:289-336 | A text of any number of ordinary lines measures that number |
| TestsAndSize.ProductionRiseBuysAgain | scripts/module_size_gate.py:44-48 | Such a history under the gate's own counting rule, for files of ordinary lines of any two lengths above the threshold |
| ModuleTree.CheckCrate | scripts/bazel_srcs_gate.py:316-345 | The exemptions, the root, the tree and the entries that name nothing, in that order |
| ModuleTree.CheckEntries | scripts/bazel_srcs_gate.py:328-345 | Exactly the listed files that do not exist, each once and sorted, however often the list names them |
| ModuleTree.Walker.CheckModuleTree | scripts/bazel_srcs_gate.py:266-313 | Terminates on every finite tree, and its `seen` set never prunes: the findings are those of the walk that remembers nothing |
| ModuleTree.WalkReportsOnce | scripts/bazel_srcs_gate.py:284-311 | Below any module, the walk gives the finding of each module it can reach exactly once |
| ModuleTree.PassesIffComplete | scripts/bazel_srcs_gate.py:316-345 | A hand-listed library passes exactly when the root is listed, every module reachable by declarations resolves to a listed file, and every entry exists |
| ModuleLaws.PassesLaw | scripts/bazel_srcs_gate.py:316-345 | The same on paths alone: a crate with a root and a non-empty list passes exactly when the list has the root, every module a chain of declarations leads to lives in `src/<path>.rs`, or else `src/<path>/mod.rs`, and that file is listed, and every listed file exists |
| ModuleLaws.NothingElseIsChecked | scripts/bazel_srcs_gate.py:318-330 | Nothing is found of a crate without a root, without a list, or with an empty one |
| ModuleLaws.RootFoundIff | scripts/bazel_srcs_gate.py:332-337 | The root is reported exactly when a checked crate does not list it |
| ModuleLaws.FoundIff | scripts/bazel_srcs_gate.py:284-311 | Of a declared module, exactly this is found: that it lives nowhere, with both paths tried, or that the file it lives in is not listed |
| ModuleLaws.FoundSays | scripts/bazel_srcs_gate.py:284-311 | Every module finding is true of the paths it names |
| ModuleLaws.DeclaredIff | scripts/bazel_srcs_gate.py:284-294 | A module is reached by the walk exactly when each name on its path is declared in the file the names before it lead to |
| ModuleLaws.FormsAre | scripts/bazel_srcs_gate.py:285-290 | The two places a module may live, on paths |
| ModuleTree.EveryMissingModuleOnce | scripts/bazel_srcs_gate.py:295-311 | One run names each reachable module that is unresolved or unlisted exactly once |
| ModuleTree.EveryFindingIsAMissingModule | scripts/bazel_srcs_gate.py:284-311 | Every module finding is about a reachable module that is unresolved or unlisted |
| ModuleTree.FindingTellsModule | scripts/bazel_srcs_gate.py:284-307 | No two reachable modules can give the same finding |
| ModuleTree.SplitKeepsVerdict | scripts/bazel_srcs_gate.py:276-311 | Moving `src/<m>.rs` to `src/<m>/mod.rs` in tree and list, at any depth: the crate passed exactly when it passes afterwards and the target was not already listed |
| SizeRatchet.Check | scripts/module_size_gate.py:364-412 | Raises exactly when an oversized source has an entry without a baseline; otherwise every source is measured, and each problem of each source and each stale entry is reported in order |
| SizeLaws.StaleReported | scripts/module_size_gate.py:405-410 | An entry is reported stale exactly when no source has its path |
| SizeRatchet.CheckSource | scripts/module_size_gate.py:381-403 | Raises exactly on an oversized source whose entry has no baseline; otherwise reports exactly the fault the source has, and nothing exactly when it is small and unregistered or large and within its baseline |
| SizeRatchet.MeasureSources | scripts/module_size_gate.py:377-403 | The first loop: raises exactly when some source does; otherwise every source measured, problems in the order of the sources |
| SizeRatchet.ValidateRegistry | scripts/module_size_gate.py:434-473 | Exactly the faults of form of all entries, in registry order |
| SizeRatchet.ValidateOne | scripts/module_size_gate.py:437-472 | Exactly the faults of form of one entry, in order, and nothing exactly when it is well formed |
| SizeRatchet.CheckTransitions | scripts/module_size_gate.py:890-912 | Each forbidden disposition move is reported |
| SizeLaws.TransitionsReported | scripts/module_size_gate.py:890-912 | Of dispositions, exactly the reviews undone are reported, by file, old disposition and new |
| SizeLaws.PermittedIff | scripts/module_size_gate.py:155-167 | Among the dispositions every move is permitted but those that undo a review |
| SizeRatchet.CheckEntryGrowth | scripts/module_size_gate.py:962-1055 | Exactly the faults of one entry's growth, in order, and nothing exactly when its growth is in order |
| SizeRatchet.CheckRise | scripts/module_size_gate.py:1007-1055 | A raised baseline: a correction, no authorization, or every condition reported together |
| SizeRatchet.CheckRecord | scripts/module_size_gate.py:1040-1055 | Nothing exactly when some named document exists and contains the text; otherwise whether no document was named, or none contains it |
| SizeRatchet.CheckBaselineGrowth | scripts/module_size_gate.py:946-1056 | Exactly the growth faults of all entries, in registry order |
| SizeRatchet.SilentWhenMet | scripts/module_size_gate.py:946-1056 | The schema, disposition and growth checks of an entry each report nothing exactly when what they demand holds |
| SizeRatchet.SourceReported | scripts/module_size_gate.py:381-403 | Where nothing raises, a source's problems are exactly the faults it has, and none exactly when it is in order |
| SizeRatchet.EntryReported | scripts/module_size_gate.py:437-472 | A problem of form is reported exactly when what it says holds |
| SizeRatchet.GrowthReported | scripts/module_size_gate.py:962-1055 | A growth problem is reported exactly when what it says holds, the conditions of an unauthorized rise all together |
| SizeRatchet.Gate | scripts/module_size_gate.py:1109-1140 | Exit status 0 exactly when something was examined, the tree is in order and, against an available base, every transition is |
| SizeLaws.TreeIff | scripts/module_size_gate.py:364-473 | A tree is in order exactly when it has sources, every entry is of one of them and well formed, and every source is of at most 200 lines and unregistered, or of more, registered and within its baseline |
| SizeLaws.WellFormedIff | scripts/module_size_gate.py:434-473 | The schema check on the fields of an entry |
| SizeLaws.MergeIff | scripts/module_size_gate.py:890-1056 | Transitions are in order exactly when every entry, on its fields, may follow what the base has of it |
| SizeLaws.FollowIff | scripts/module_size_gate.py:890-1056 | The same for one entry |
| SizeHistory.CorrectionNeedsNewRule | scripts/module_size_gate.py:993-1009 | A measurement correction on a base that passed implies that the counting rule now measures the same bytes higher: under one rule that branch is unreachable |
| SizeHistory.RiseIsOnRecord | scripts/module_size_gate.py:1007-1055 | An accepted rise is on record for this path and these two numbers, has no headroom, and is of a reviewed exception |
| SizeHistory.GrowthNeedsARecord | scripts/module_size_gate.py:946-1056 | Over every accepted history, a registered file that measures more than an earlier baseline crossed it by a rise on record |
| SizeHistory.AuthorizationIsSpent | scripts/module_size_gate.py:980-1025 | An authorization carried by a persisting entry lies strictly below its baseline |
| SizeHistory.ReuseNeedsALowering | scripts/module_size_gate.py:980-1025 | Two rises of a file from the same baseline have a lowering in between and the withdrawal of the first authorization |
| SizeHistory.AuthorizationIsGoodAgainIff | scripts/module_size_gate.py:1007-1055 | From any later, lower baseline, the entry and record that bought a rise pass the growth check again exactly when that baseline is the one the rise began at |
| SizeHistory.SpentAuthorizationBuysAgain | scripts/module_size_gate.py:44-48 | For every file, every counting rule and every two contents that measure above the threshold, an accepted history up, down and up again in which the very same entry and record buy the very same rise twice |
| SizeHistory.RisesUseDifferentPairs | scripts/module_size_gate.py:980-1025 | Rises with no lowering in between start from ever higher baselines |
| SizeHistory.DispositionsAreNotForgotten | scripts/module_size_gate.py:890-912 | Over every accepted history a disposition moves as one permitted transition; a review is never undone |
| SizeHistory.PermittedIsTransitive | scripts/module_size_gate.py:425-431 | Permitted moves compose to permitted moves, and none leads from a review back to unreviewed |
| GrowthRecord.LineAuthorizesIff | scripts/module_size_gate.py:1039-1055 | One authorization line contains the text of another exactly when path and old baseline are the same and the digits of its new one begin with the other's, for paths without blanks |
| GrowthRecord.DocumentAuthorizesIff | scripts/module_size_gate.py:1046-1049 | For every document: it authorizes exactly the rises whose new baseline begins one it writes out, on a line of its own or not, for the same path and old baseline |
| GrowthRecord.AuthorizesUnwrittenIff | scripts/module_size_gate.py:1046-1049 | A document authorizes a rise whose text it nowhere writes out to its last digit exactly when it writes out one whose new baseline has further digits |
| GrowthRecord.InSomeLine | scripts/module_size_gate.py:1046-1049 | Text without a line break is in a document exactly when it is in one of its lines |
| TextLaws.ContainsIff | scripts/module_size_gate.py:1046-1049 | A document contains a text exactly when it is something, that text and something |
| SizeLaws.NaturalReadsBack | scripts/module_size_gate.py:915-922 | A number is written in digits without leading zeros that read back as it |
| GrowthRecord.AuthorizesUnlistedIff | scripts/module_size_gate.py:1039-1055 | Where the exact literal line is missing, a document authorizes the rise exactly when in some line the number goes on, or other text stands before or after the authorization |
| GrowthRecord.WordsInFrontAuthorize | scripts/module_size_gate.py:1046-1049 | Any text in front of the line on the same line leaves the rise authorized while the exact line is missing |
| GrowthRecord.RecordOfLinesAuthorizes | scripts/module_size_gate.py:1039-1055 | A record that lists rises, each on a line of its own, authorizes exactly those and the ones whose new baseline begins one of them |
| GrowthRecord.OnlyListedIff | scripts/module_size_gate.py:1039-1055 | A record that lists rises line by line authorizes no others exactly when every truncation of a listed new baseline above its old one is listed too |
| GrowthRecord.SmallRisesAreSafe | scripts/module_size_gate.py:1039-1055 | A record listing only rises short of tenfold authorizes no others |
| GrowthRecord.TenfoldRecordAuthorizes | scripts/module_size_gate.py:915-922 | In particular a tenfold target authorizes the smaller one |
| Obligations.JudgeRow | scripts/assurance_obligation_gate.py:246-326 | A row is excused exactly when it is new and refines an obligation of the base, passed over exactly when it claims nothing or is not new, and otherwise gets the first of its faults in the order of the clauses |
| Obligations.SuccessionDefects | scripts/assurance_obligation_gate.py:230-327 | The defects in order, and exactly the rows that survive every clause |
| Obligations.Defects | scripts/assurance_obligation_gate.py:330-416 | All defects section by section, none exactly when the state is accepted |
| Obligations.CheckOwed | scripts/assurance_obligation_gate.py:363-383 | A moved field is reported exactly when it differs from what is owed |
| Obligations.CheckRow | scripts/assurance_obligation_gate.py:363-394 | One row: its moved fields and its review, and nothing exactly when it records what is owed and a completed review has its record |
| Obligations.SilentWhenAccepted | scripts/assurance_obligation_gate.py:330-416 | No defect exactly when registered equals owing, rows record what is owed, reviews have records, no succession is refused, nothing is added unexcused and no review is forgotten |
| ObligationLaws.AcceptedIff | scripts/assurance_obligation_gate.py:330-416 | On fields, against whatever base: accepted exactly when registered equals owing and each row records what is owed field by field, has its review record if reviewed, was not reviewed in the base if it is not now, and, if it is new against the base or claims a succession without one, is a decomposition |
| ObligationLaws.DecompositionIff | scripts/assurance_obligation_gate.py:245-326 | On fields: a row is excused exactly when it is new, names another unit that the base held and that is now neither registered nor owing, ranks no higher than it did, has its decomposition record in the tree, and covers only paths the base gives that unit |
| ObligationLaws.RankIs | scripts/assurance_obligation_gate.py:201-209 | One severity ranks no higher than another exactly when the vocabulary lists it no later |
| ObligationLaws.ReportedIff | scripts/assurance_obligation_gate.py:345-415 | Exactly the reviews taken back, the owing units not registered and the rows no longer owed are reported |
| ObligationLaws.GrowthReportedIff | scripts/assurance_obligation_gate.py:399-407 | Growth names exactly the new rows that are no decomposition |
| ObligationLaws.ReviewReportedIff | scripts/assurance_obligation_gate.py:383-394 | Of a completed review, exactly a missing reference and a missing record are reported |
| Obligations.RefusedRowsStillCountAsGrowth | scripts/assurance_obligation_gate.py:396-407 | A row whose succession is refused is named by the growth rule as well |
| Obligations.AcceptedStatesStayAccepted | scripts/assurance_obligation_gate.py:249-256 | A state accepted against any base, or none, is accepted with itself as base |
| Obligations.NewRowsRefine | scripts/assurance_obligation_gate.py:257-326 | A row the base does not hold refines one it did hold: the predecessor neither is registered nor owes any more, the row's severity is no higher, its paths are among the predecessor's, and its record is in the tree |
| Obligations.EveryRowDescends | scripts/assurance_obligation_gate.py:396-407 | Over every accepted history each row descends, merge by merge, from a row of the first registry |
| ObligationLaws.ReviewsAreNotForgotten | scripts/assurance_obligation_gate.py:408-415 | Over every accepted history, a completed review stays completed while its row persists |
| Obligations.RegisteredIsOwing | scripts/assurance_obligation_gate.py:345-361 | At every merged state the registered units are the owing ones |
| Obligations.EmptyStaysEmpty | scripts/assurance_obligation_gate.py:345-407 | Once the registry is empty, it stays empty and nothing owes again |
| Obligations.SuccessionIsSpent | scripts/assurance_obligation_gate.py:251-301 | A row naming a predecessor the base lacks was already in the base |
| Obligations.MergeKeepsStakeIff | scripts/assurance_obligation_gate.py:302-325 | A merge keeps every row within its parent's severity and paths exactly when it keeps the persisting rows |
| Obligations.StakeStaysWithinAncestor | scripts/assurance_obligation_gate.py:302-325 | If persisting rows stay within themselves, every row stays within its ancestor in the first registry, over any number of decompositions |
| Obligations.AcceptedRowCanRise | scripts/assurance_obligation_gate.py:363-373 | The gate accepts a row raised together with what is measured |
| Obligations.AcceptedRowCanWiden | scripts/assurance_obligation_gate.py:363-407 | The gate accepts a registry unchanged while a unit of it comes to cover any further path |
| Readiness.AffectedUnits | scripts/merge_readiness_gate.py:267-294 | The fixpoint loop terminates and returns all units under a global widening, else the least set holding the path hits and closed under prerequisite edges |
| Readiness.Sweep | scripts/merge_readiness_gate.py:289-293 | One pass over the edges stays within every closed set, and one that adds nothing has reached a closed set |
| Readiness.AffectedIsUnique | scripts/merge_readiness_gate.py:286-294 | That set exists and is the only one |
| ReadinessLaws.AffectedIff | scripts/merge_readiness_gate.py:267-294 | On paths alone: if some changed file is a global input or lies in one of the two tooling directories, every declared unit is affected; otherwise exactly what prerequisite edges lead to from a unit with a path that is, or lies above, a changed file |
| ReadinessLaws.WidensIff | scripts/merge_readiness_gate.py:275-278 | A change widens exactly when a changed file is a global input or lies in `tools/verification/` or `verification/policy/` |
| ReadinessLaws.HitIff | scripts/merge_readiness_gate.py:280-285 | A unit is hit exactly when a changed file is one of its paths, or under one |
| Readiness.EdgeOrderDoesNotMatter | scripts/merge_readiness_gate.py:286-294 | Any rearrangement of the edges gives the same set |
| Readiness.ChecksForLanes | scripts/merge_readiness_gate.py:230-264 | Undecidable exactly when some lane is malformed, has no script or no job; else each lane gets exactly the jobs that run it, sorted |
| ReadinessLaws.ChecksForIff | scripts/merge_readiness_gate.py:242-263 | A lane is checked by exactly the jobs that invoke its script or the umbrella |
| ReadinessLaws.SharedIff | scripts/merge_readiness_gate.py:219-227 | Shared are exactly the jobs that invoke the umbrella |
| Readiness.JobsRunning | scripts/merge_readiness_gate.py:256-257 | Exactly the jobs that invoke the script or the umbrella, each once and sorted |
| Readiness.LatestRuns | scripts/merge_readiness_gate.py:440-448 | Per name, the run that started last, start times compared as text, and of those the one reported last |
| Readiness.LatestIsUnique | scripts/merge_readiness_gate.py:440-448 | There is only one such answer |
| TextLaws.AtMostIff | scripts/merge_readiness_gate.py:445-447 | Start times compare by the first character that differs, a beginning coming first |
| Readiness.Classify | scripts/merge_readiness_gate.py:300-312 | Satisfied exactly under the four conditions |
| Readiness.DecideLane | scripts/merge_readiness_gate.py:335-355 | The one row a lane gets: the first check meeting the four conditions, else the first failing check of its own, else its first check, with the first failing shared check as the reason if there is one |
| Readiness.Decide | scripts/merge_readiness_gate.py:315-358 | The state is the join over the lanes, with one explaining row each |
| Readiness.VerdictIsJoin | scripts/merge_readiness_gate.py:332-358 | The verdict is the least upper bound of the lanes under ready, not ready, failed |
| Readiness.MoreLanesNoCloser | scripts/merge_readiness_gate.py:332-358 | More lanes never move the verdict towards ready |
| Readiness.Gate | scripts/merge_readiness_gate.py:541-561 | The exit status, under the units' authority or the ruleset's, with the workflows looked up a second time for the umbrella's jobs |
| Readiness.LanesOf | scripts/merge_readiness_gate.py:544-547 | The lanes of the declared units that are affected |
| ReadinessLaws.RequiredIff | scripts/merge_readiness_gate.py:542-547 | A lane is required exactly when a unit the change affects has it, on paths and edges alone |
| ReadinessLaws.UndecidableIff | scripts/merge_readiness_gate.py:541-561 | Exit status 3 exactly when a required lane is malformed or no job runs it, or nothing is required and the ruleset asks for nothing |
| ReadinessLaws.AskedIff | scripts/merge_readiness_gate.py:548-555 | What is asked: the jobs of every required lane, or each check of the ruleset by itself if no lane is required |
| ReadinessLaws.ReadyLaw | scripts/merge_readiness_gate.py:541-558 | Exit status 0 from the raw inputs: decidable, and for everything asked some check whose last run succeeded at this commit |
| ReadinessLaws.FailedLaw | scripts/merge_readiness_gate.py:541-558 | Exit status 2 from the raw inputs: decidable, and something asked has an unshared check whose last run failed, and none that succeeded at this commit |
| ReadinessLaws.RedIff | scripts/merge_readiness_gate.py:334-358 | Which conclusions of the last run count as failed |
| LargerChanges.MoreChangesAffectMore | scripts/merge_readiness_gate.py:267-294 | A larger change affects every declared unit a smaller one does |
| LargerChanges.AffectedIsMonotoneIff | scripts/merge_readiness_gate.py:275-294 | A change keeps all it affects under every enlargement exactly when it already widens, or no chain of prerequisite edges leads from a unit it hits to an undeclared id |
| LargerChanges.LeastClosedIsChained | scripts/merge_readiness_gate.py:287-294 | The least closed set is exactly what chains of prerequisite edges lead to |
| LargerChanges.EnlargingCanShrink | scripts/merge_readiness_gate.py:275-294 | A change whose enlargement affects less |
| LargerChanges.MoreChangesMoreLanes | scripts/merge_readiness_gate.py:542-547 | A larger change requires every lane a smaller one does |
| LargerChanges.LargerChangeIsNoCloserToReady | scripts/merge_readiness_gate.py:541-561 | If the smaller change requires a lane, enlarging it never lowers the exit status, undecidable included |
| LargerChanges.RulesetCanBeStricter | scripts/merge_readiness_gate.py:548-555 | A change without lanes that fails under the ruleset while an enlargement is ready |
| LargerChanges.ExitIsMonotoneIff | scripts/merge_readiness_gate.py:541-561 | Over all check runs and commits, enlarging a change never lowers the exit status exactly when the smaller one requires a lane, or the larger one requires none or cannot be resolved, or the ruleset is not empty and each of its checks alone decides some lane of the larger one |
| Readiness.ReadyIsNeverVacuous | scripts/merge_readiness_gate.py:541-558 | Exit status 0 exactly when something is required and, for each thing required, a reported run that speaks for one of its checks succeeded at this commit |
| Readiness.FailureIsAttributable | scripts/merge_readiness_gate.py:334-358 | Exit status 2 exactly when some lane has a check of its own whose reported run failed, and no run that speaks for any of its checks succeeded at this commit |
| Readiness.SharedRunsDoNotInterfere | scripts/merge_readiness_gate.py:334-358 | If no reported run that speaks for a shared check succeeded at this commit, deleting all shared runs from the report leaves the exit status unchanged |
| MergeProtocol.MergeVerified | scripts/merge_verified_pr.py:120-149 | For every behaviour of the environment between its calls and between the reads of the gate: it exits with 0 exactly when both head reads find the request open at one head, the gate answers ready about that commit on what it read and, unless a dry run, it is still the open head at the merge; otherwise with 1; and exactly then, not as a dry run, that commit lands |
| MergeProtocol.Forge.Merge | scripts/merge_verified_pr.py:94-103 | Merges exactly when the request is open and the head matches, and changes nothing otherwise |
| MergeProtocol.OnlyMeasuredCommitsLand | scripts/merge_verified_pr.py:16-24 | For any number of clients and every interleaving, with check runs, ruleset, workflows and base branch changing between any two reads of the gate: what lands is the commit its client was told is ready, and everything required, as the gate read it, had a check completed successfully at that commit; no client exits with anything but 0 or 1 |
| MergeProtocol.RunKeeps | scripts/merge_verified_pr.py:94-149 | Every state of every interleaving keeps the invariant: a client past the gate holds evidence about its own head, and what landed is what a client confirmed |
| MergeProtocol.EvidenceWasRead | scripts/merge_readiness_gate.py:541-558 | What an answer rests on was there to read: the head was the commit while the request was open, and then, one moment after another, each thing the gate read was what it read |
| MergeProtocol.SuccessMeansLanded | scripts/merge_verified_pr.py:120-149 | A client reports success, other than for a dry run, exactly when its commit is the one that landed |
| MergeProtocol.SuccessWasReread | scripts/merge_verified_pr.py:131-146 | Over every run, a client that goes on to merge or reports success, dry run or not, saw its commit twice: after the last thing the gate read for it there is a moment at which the request was open with that commit as its head |
| MergeProtocol.ReadyCommitCanLand | scripts/merge_verified_pr.py:120-149 | For every commit the gate calls ready there is a run, with the server's match, in which it lands |
| MergeProtocol.DryRunCanSucceed | scripts/merge_verified_pr.py:139-141 | And a run in which a dry run about it reports success |
| MergeProtocol.WithoutMatchAnyCommitLands | scripts/merge_verified_pr.py:20-24 | Without the server's match, for every ready commit and every other one there is a run whose two reads agree on the first and which lands the second |
| Reachability.Reach | scripts/crate_spec_parity_gate.py:153-160 | The stack loop terminates on every graph, cyclic ones included, and returns exactly what some path from a root leads to |
| CrateLock.ReadEdges | scripts/crate_spec_parity_gate.py:150-151 | The edges by name, the last version of a name speaking for it |
| CrateLock.BazelOnlyPackages | scripts/crate_spec_parity_gate.py:147-163 | Exactly the packages reached from a Bazel-only direct dependency and from no other |
| CrateLock.ExemptsRightlyIff | scripts/crate_spec_parity_gate.py:147-163 | For every lock: the exemption is right, for every choice of Bazel-only specs and every locked version, exactly when among the versions of the names each spec reaches none needs anything outside them, and into every set of them something comes in, asked for by the spec or needed by another |
| CrateLock.NoStrangersOneByOne | scripts/crate_spec_parity_gate.py:147-163 | Where dependencies do not run in circles, the second half need only be asked of the versions one by one |
| CrateLock.RightIffSameReach | scripts/crate_spec_parity_gate.py:147-163 | For every lock: the exemption is right for every choice of Bazel-only specs exactly when each spec reaches by name just the packages it draws in |
| CrateLock.LockedOnceIsRight | scripts/crate_spec_parity_gate.py:147-163 | With each name locked once the exemption is right for every choice of Bazel-only specs, cycles included |
| CrateLock.LostEdgeExemptsTooMuch | scripts/crate_spec_parity_gate.py:147-163 | A lock with two versions of one name, both needed, on which a package the workspace draws in is exempt |
| CrateLock.LentEdgeExemptsTooLittle | scripts/crate_spec_parity_gate.py:147-163 | Such a lock on which a package only Bazel draws in is not exempt |
| Reachability.Closure | scripts/rehearsal_claim_gate.py:118-133 | The queue loop terminates and returns exactly the scripts a chain of invocations from the entry leads to |
| Reachability.Expand | scripts/rehearsal_claim_gate.py:128-132 | One step keeps every seen script reached, and every script an expanded one invokes seen |
| Reachability.RehearsalGate | scripts/rehearsal_claim_gate.py:118-155 | What is found is exactly what is wrong with some claim (no document, wording gone, no chain of invocations to its script), at most one finding a claim, and nothing exactly when every claim holds |
| GazelleDiff.AnalyzeFile | scripts/bazel_gazelle_gate.py:262-329 | The index loop reports exactly the targets and labels of a single pass over the diff |
| GazelleDiff.CountRemovals | scripts/bazel_gazelle_gate.py:276-281 | How often each label is removed |
| DiffLaws.RemovalsAre | scripts/bazel_gazelle_gate.py:276-281 | A label is removed as often as a removed line holds it |
| DiffLaws.FlavouredIff | scripts/bazel_gazelle_gate.py:248-258 | A label is flavoured exactly by what follows its last colon, or by all of it without one |
| GazelleDiff.ConsumeTarget | scripts/bazel_gazelle_gate.py:289-302 | The inner loop takes one new target, with its name, and no label |
| DiffLaws.TargetIsTaken | scripts/bazel_gazelle_gate.py:289-302 | A new target takes the added lines up to the one that closes it, or up to and with the first that is not added; it is reported once, under the last name in its added lines, and none of its labels is |
| DiffLaws.TargetAtEnd | scripts/bazel_gazelle_gate.py:289-302 | A target still open at the end is reported too |
| DiffLaws.OutsideLine | scripts/bazel_gazelle_gate.py:304-327 | Outside targets an added label counts unless it is marked to be kept or an added attribute is open around it |
| GazelleDiff.TakeEdge | scripts/bazel_gazelle_gate.py:320-326 | A label is cancelled, passed over or reported so that what is reported at the end is unchanged |
| GazelleDiff.ReportedIsTheExcess | scripts/bazel_gazelle_gate.py:316-326 | A label outside the flavour set is reported as often as its eligible additions outnumber its removals, a flavoured one never |
| GazelleDiff.ReorderingReportsNothing | scripts/bazel_gazelle_gate.py:316-326 | Nothing is reported exactly when every unflavoured label is removed at least as often as added |
| GazelleDiff.RearrangingEntriesChangesNothing | scripts/bazel_gazelle_gate.py:304-327 | Any rearrangement of the entries of a list leaves every label reported as often as before |

## Left out

- Subprocess calls, file reading, argument parsing, printing and the self-tests: their results are parameters.
- Regular expressions and TOML, YAML, JSON and Markdown parsing: matches, registry rows, diff-line shapes, `mod`
  declarations, invocations and named documents come already extracted. The test attribute is modelled.
- The wording of messages: problems, defects and findings are values that name what the message names.
- `required_lanes` and the measured obligations are inputs.
- Readiness.Decide: asks that every lane has a check, since the source fails on an empty list; both of its callers
  provide one.
- SizeRatchet.Gate: the counting rule is an arbitrary function of a file's bytes, so decoding is not modelled.
- Obligations.JudgeRow: a severity name outside the vocabulary makes the source raise; the model has no such names.
- MergeProtocol.MergeVerified: nobody but the protocol's clients merges, a call that fails outright is not told from
  a request that is not open, and the server's head match is the one thing taken for granted.
- LexerEquivalence.StreamingRefinesWholeText: says nothing about texts with other line breaks, with an `r` or `b` in code
  right after a letter only one lexer takes for one, or with ticks in code they read differently; an escaped tick is
  shown to cost a brace, and which of the remaining texts still agree is not settled.
- GrowthRecord.LineAuthorizesIff: speaks of paths without blanks; `DocumentAuthorizesIff` and `AuthorizesUnlistedIff` do
  not need that.
- Histories in which the base revision is unavailable, or a row is removed and added again: the gates do not relate
  these states, so the theorems over histories ask for continuous presence and an available base.
- `emit_registry` of the size gate, `library_srcs` of the sources gate, `requested`, `declared`, `locked` and
  `compare` of the crate-spec gate, and the allowlists of the generator gate: they would only add easy members.
- The threshold, census and text-scan gates, and the Rust and TypeScript code itself.
