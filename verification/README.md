# Verified model of the trustsight core

trustsight reviews packaging diffs. This project models the parts of it that carry
state, loops or exact promises, and proves what they promise for every input and
every run: the calibration replay and its parallel and sharded forms, the recovery
of commit order, the hand-written scanners, host handling, the statistics behind
the release gates, and the small state machines around releases, backfills,
identifiers and bounded reads.

| file | what it models |
|---|---|
| `NoveltyScore.dfy` | the score and breakdown of a fact, with novelty weighted by maturity |
| `CalibrationScan.dfy` | the serial replay with shared novelty sets, facts and rows, the plan pass, one planned task |
| `CalibrationPlan.dfy` | what the planned scan keeps of the serial one: rows, facts, prefixes |
| `CalibrationWalk.dfy` | which diffs of the whole walk a sampled scan covers, and what its rows show |
| `CalibrationShards.dfy` | shards of a plan, their artifacts and the merge |
| `WorkerPool.dfy` | the process pool as a state machine |
| `PooledScan.dfy` | the pool over a plan, and the end-to-end results |
| `CommitChain.dfy` | commit order from unordered `old_sha -> new_sha` pairs |
| `Heredoc.dfy` | heredoc openers against a printer |
| `ArrayScanner.dfy` | the array-closing scanner against a grammar |
| `Hosts.dfy`, `Domains.dfy` | canonical hosts; truncation, parents, bucket lookup |
| `Percentiles.dfy`, `ClusterGate.dfy`, `Correlation.dfy`, `PearsonFormula.dfy` | percentile, separation gate, cluster gate, Pearson correlation and its formula |
| `BaselineFloor.dfy` | the rollback floor over runs of seed pulls |
| `Backfill.dfy` | the H104 backfill transaction |
| `SectionFiles.dfy` | the section-file printer and its reader |
| `RegistryMeta.dfy`, `RegistryValues.dfy`, `RegistryEntries.dfy` | the registry bootstrap: the section parser and rewrite, what it collects, the registry entry and a second run |
| `ReleaseTar.dfy` | the canonical form of a release tarball |
| `UidAllocation.dfy` | permanent rule uids over runs |
| `BoundedReads.dfy` | reads that refuse instead of truncating |
| `Sorting.dfy`, `StringOrder.dfy`, `Options.dfy` | stable sorting, and that its properties leave one result; the order of strings; a missing value |

Loops and in-place updates of the source are methods with loops and classes; each
is proved equal to a specification function or to a property stated outright, and
the theorems are about those.

## What the code does and its documentation does not say

* The documentation of `_benign_plan` (`scripts/calibration/_core.py:331-338`) calls
  each task's prefix the exact global novelty of a serial run. It is not. The per-diff
  scanner leaves declared URLs (an `url=` line, an install hook) out of the novelty
  sets and reads line-bounded text
  (`src/trustsight/analysis/pipeline/_scan.py:107-113`); the plan pass does neither
  (`src/trustsight/analysis/pipeline/_analyze.py:568-577`). So a URL that an earlier
  package only declares is in the prefix of every later task (`PhantomPrefix`).
  `PrefixIsSerialState` says, for every corpus, exactly when all prefixes are the
  serial sets; on uncut diffs that is when every added, unacknowledged URL is
  scored by the time the next package starts (`UncutPrefixIsSerialState`).
* The rows that `scan_corpus` documents as equal (lines 305-318) are equal all the
  same, on every corpus (`CorpusRowsAreSerial`): the corpus scans pass no observation
  count, the maturity of an empty history is zero, and a row shows novelty only by its
  weight. The facts behind the rows carry the verdict itself, and they agree
  exactly when no diff's first new URL depends on the record (`FactsMatchIff`);
  `PhantomBreaksFacts` is a corpus where they do not. With some history the rows
  would agree exactly as `RowsMatchIff` says; on the same corpus they would differ
  (`PhantomBreaksWarmRows`).
* A second run of the registry bootstrap on the sections it has rewritten keeps an
  entry exactly when the registry committed by then holds what the sections no
  longer do (`SecondRunKeepsEntryIff`); without a commit in between the bullets are
  lost (`UncommittedEntryIsLost`).
* A shard artifact that is missing is not noticed by the merge: it gives exactly the
  rows of the tasks whose shards are present (`MergeIsPlanOrder`).
* Diff file names hold twelve characters of each SHA, so two entries of one package
  can share a name; `ReplayInCommitOrder` needs distinct names.
* Inside double quotes a heredoc delimiter drops a backslash before any character,
  where section 2.7.4 of the POSIX.1-2017 Shell Command Language keeps it before
  most; the first half of the arithmetic test never matters
  (`ArithmeticTestIsParenCount`).
* `canonical_host` is not idempotent for a port such as `443.`
  (`CanonicalIdempotentIff` says exactly which).
* An import whose version cannot be written to the database leaves the old floor, so
  an older release can be imported after it (`UnrecordedImportAllowsRollback`);
  `CanGoBackIffReported` says exactly when, from the outcomes of the pulls and the floor.
* A dry run of the backfill predicts the real counts because package names are a key
  of the snapshot table; without the key it counts too much
  (`DryRunOvercountsDuplicates`).
* A release archive with two members of one name depends on their order
  (`RepeatedNameShowsOrder`).
* A capped read of an empty source under a negative limit returns no bytes instead of
  refusing; the check of a file's size refuses it (`TrueSizeChangesNothing`).

## Model

| member | source | states |
|---|---|---|
| NoveltyScore.CalculateScore | src/trustsight/scoring.py:391-612 | the accumulation loop gives the breakdown, with the novelty entries between the findings and the declared signals, and its clamped weight |
| NoveltyScore.ScoreIsBreakdownSum | src/trustsight/scoring.py:466-475 | the score is the clamped sum of the weights the breakdown shows |
| NoveltyScore.ScoreRange | src/trustsight/scoring.py:612 | a score lies between 0 and 100 and is the sum of the weights wherever that does |
| NoveltyScore.BreakdownMeaning | src/trustsight/scoring.py:533-566 | which novelty entries stand between findings and declared signals, with rule, severity and weight |
| NoveltyScore.NoveltyWeightMeaning | src/trustsight/scoring.py:178-189 | the weight is the whole part of the configured weight's share, growing up to 50 observations |
| NoveltyScore.ColdWeight | src/trustsight/scoring.py:178-189 | with an empty history no configured novelty weight counts |
| NoveltyScore.SameBreakdownIff | src/trustsight/scoring.py:531-566 | two verdicts that agree on the package give one breakdown exactly when global novelty weighs nothing or both say the same about it |
| CalibrationScan.ScanDiff | src/trustsight/analysis/pipeline/_scan.py:220-237 | the novelty loop: the fact's verdict depends only on the two sets on entry, and both grow by exactly the normalised scored URLs |
| CalibrationScan.ReplayPackage | scripts/calibration/_core.py:199-208 | the inner loop of the walk gives the rows of a task that starts at the global set on entry, and leaves that set plus what the package recorded |
| CalibrationScan.ScanCorpusSerial | scripts/calibration/_core.py:185-209 | the serial walk with one shared dictionary equals the fold of tasks, each entered with the set left by all packages before |
| CalibrationScan.SelectPackage | scripts/calibration/_core.py:343-356 | the plan's inner loop samples the same diffs as the walk and collects their planned URLs |
| CalibrationScan.BenignPlan | scripts/calibration/_core.py:328-360 | every package with a sampled diff gets one task, in order, with the URLs of all earlier packages as its prefix |
| CalibrationScan.ScanTask | scripts/calibration/_core.py:211-226 | a task alone, with a fresh package set and its prefix, gives the task's rows |
| CalibrationWalk.SerialScanSamplesTheWalk | scripts/calibration/_core.py:198-208 | with sample m the serial scan has one row for the diffs at positions m, 2m, 3m, ... of the whole walk over all packages, each showing package, path, changed lines and just what its text's findings give |
| CalibrationWalk.PlanSamplesTheWalk | scripts/calibration/_core.py:339-360 | the tasks of the plan, one after the other, cover exactly those diffs, and no task is empty |
| CalibrationWalk.SerialRowsShow | scripts/calibration/_core.py:198-208 | the same for any rule on the position in the walk |
| CalibrationWalk.PlanCoversKept | scripts/calibration/_core.py:339-360 | the same for any rule, for the plan |
| CalibrationPlan.CorpusRowsAreSerial | scripts/calibration/_core.py:301-326 | planned and serial rows agree on every corpus, for every sampling rule |
| CalibrationPlan.RowsMatchUpTo | scripts/calibration/_core.py:211-226 | both scans have one row a sampled diff in the same order, so they agree exactly when each diff's two rows do |
| CalibrationPlan.RowsMatchIff | scripts/calibration/_core.py:301-326 | at any observation count the rows agree exactly when global novelty weighs nothing or every diff is told the same about it |
| CalibrationPlan.WarmRowsMatchIff | scripts/calibration/_core.py:301-326 | where it weighs something, on uncut diffs, that is: the prefix silences no diff the walk finds new |
| CalibrationPlan.SameRowIff | scripts/calibration/_core.py:160-177 | a row shows whether anything is globally new, if that weighs anything, and no more of the global verdict |
| CalibrationPlan.FactsMatchIff | scripts/calibration/_core.py:211-226 | the facts of the two scans agree exactly when no diff's first new URL depends on which record was kept |
| CalibrationPlan.InStepIffNoPhantom | scripts/calibration/_core.py:328-360 | on uncut diffs that is: no first new URL of the walk is in the planned prefix |
| CalibrationPlan.PrefixIsSerialState | scripts/calibration/_core.py:331-338 | on every corpus the prefixes are the serial global sets exactly when, package by package, every added URL is scored by then and every scored URL added |
| CalibrationPlan.UncutPrefixIsSerialState | scripts/calibration/_core.py:331-338 | on uncut diffs the first half is the whole condition |
| CalibrationPlan.PrefixCoversWalk | scripts/calibration/_core.py:343-359 | on uncut diffs the prefix is never too small |
| CalibrationPlan.PhantomPrefix | src/trustsight/analysis/pipeline/_analyze.py:568-577 | a two-package corpus whose second prefix holds a URL the walk has not recorded |
| CalibrationPlan.PhantomBreaksFacts | src/trustsight/analysis/pipeline/_scan.py:107-113 | on it a fact differs while the rows are equal |
| CalibrationPlan.PhantomBreaksWarmRows | src/trustsight/scoring.py:533-549 | with a full history its rows would differ |
| CalibrationPlan.NewsMeaning | src/trustsight/analysis/pipeline/_scan.py:223-237 | a verdict says whether some scored URL is new and names the first one |
| CalibrationPlan.VerdictMeaning | src/trustsight/analysis/pipeline/_scan.py:107-113 | told from the URLs of the bounded text: what a diff records, whether something is globally new, and that the first such URL in the text is named |
| CalibrationPlan.PlanRecordMeaning | src/trustsight/analysis/pipeline/_analyze.py:568-577 | told from the URLs of the whole text: what the plan pass records |
| CalibrationShards.ShardsPartition | scripts/calibration/_core.py:228-239 | each task is in exactly one of N shards, once, with its own rows |
| CalibrationShards.ShardMembers | scripts/calibration/_core.py:238-239 | a shard holds exactly the tasks of its residue, in plan order, at every prefix of the plan |
| CalibrationShards.ShardIsRemainder | scripts/calibration/_core.py:228-239 | shard I of N holds exactly the tasks at positions with remainder I modulo N, with their rows, in order |
| CalibrationShards.ScanShard | scripts/calibration_gates.py:117-132 | the artifact of a shard is its tasks' positions with their stored rows |
| CalibrationShards.MergeShardRows | scripts/calibration_gates.py:135-145 | concatenating, sorting stably by position and rooting the paths |
| CalibrationShards.MergeIsPlanOrder | scripts/calibration_gates.py:135-145 | artifacts of any distinct shards, in any file order, merge to exactly their tasks' rows in plan order, order inside a task kept |
| CalibrationShards.MergeRestoresWholeScan | scripts/calibration_gates.py:135-145 | all shards, in any file order, merge to exactly the unsharded rows |
| CalibrationShards.PathRoundTrip | scripts/calibration_gates.py:103-115 | a stored path read back on another checkout only changes its checkout prefix |
| CalibrationShards.OtherPathsStay | scripts/calibration_gates.py:110-115 | a path outside the corpus is stored as it is and stays if absolute; only the path of a row ever changes |
| CalibrationShards.ShardedScanIsWholeScan | scripts/calibration/_core.py:274-299 | shards scanned on one checkout and merged on another are the unsharded scan with that prefix replaced |
| WorkerPool.StepKeepsConsistent | scripts/calibration/_core.py:253-272 | every step of the pool keeps its bookkeeping and the workers' memories sound and lowers the work left |
| WorkerPool.EveryScheduleYieldsResults | scripts/calibration/_core.py:261-272 | whatever the schedule, the number of workers and what earlier tasks leave in a worker's memory, a finished run reads back each task's own result in plan order, if good memories stay good |
| WorkerPool.EveryRunFinishes | scripts/calibration/_core.py:261-272 | no schedule gets stuck and none is longer than two steps a task |
| PooledScan.Process.ScanPackageTask | scripts/calibration/_core.py:248-251 | a worker process does exactly the work the pool is given: it answers from its settings alone, keeps them, and never reads the dictionary the last task left |
| PooledScan.ScanTasksAreIsolated | scripts/calibration/_core.py:366-400 | initialised workers answer every task with its own rows and stay initialised |
| PooledScan.EveryScheduleIsSerial | scripts/calibration/_core.py:301-326 | end to end: on every corpus every schedule of the pool gives the serial rows |
| PooledScan.ShardedScanIsSerial | scripts/calibration/_core.py:301-326 | end to end: on every corpus all shards merged give the serial rows |
| CommitChain.RecoverChain | scripts/rebaseline.py:55-67 | the walk ends on every input, cycles and branches included, and finds an order exactly when the entries form one path |
| CommitChain.ArrangementUnique | scripts/rebaseline.py:43-71 | there is at most one such order |
| CommitChain.BuildChainIndex | scripts/rebaseline.py:43-71 | a package is indexed exactly when its manifest entries, each as often as listed, form one path; its names then follow that path, package and both commits cut to twelve characters |
| CommitChain.OrderByChainMeaning | scripts/rebaseline.py:74-81 | the chain is used exactly when it knows every file; no file is lost; the order is the chain's, else the names' |
| StringOrder.LeqIsDecidedAt | scripts/rebaseline.py:77 | names are compared at their first difference: by an end, or by code point |
| CommitChain.ReplayInCommitOrder | scripts/rebaseline.py:43-81 | one file an entry and distinct names: replay is in commit order whatever order manifest and directory have |
| Heredoc.DelimiterWord | src/trustsight/_heredoc.py:26-58 | the loop reads the word the recursive reader reads, and its end index |
| Heredoc.PrintedWordIsRead | src/trustsight/_heredoc.py:26-58 | any mix of bare, escaped, single- and double-quoted segments before a terminator reads back as its text and end |
| Heredoc.ReadWordIsPrinted | src/trustsight/_heredoc.py:26-58 | conversely whatever is read is the print of some segments |
| Heredoc.ParseOpener | src/trustsight/_heredoc.py:61-85 | an opener is returned exactly when the line shows a printed one and no more `((` than `))` fit before it, with its word, strip flag and end |
| Heredoc.ArithmeticTestIsParenCount | src/trustsight/_heredoc.py:19-23 | the refusal is exactly: more `((` than `))` before |
| Heredoc.ArithmeticIsOpened | src/trustsight/_heredoc.py:19-23 | the refusal, told by non-overlapping places: more places of `((` than of `))` |
| Heredoc.CountIsMost | src/trustsight/_heredoc.py:19-23 | no more non-overlapping places of a pattern fit than are counted |
| Heredoc.CountIsReached | src/trustsight/_heredoc.py:19-23 | as many as are counted do fit |
| ArrayScanner.ArrayCloses | src/trustsight/changes.py:405-438 | from a `(` the answer is yes exactly when a balanced group of the grammar starts there |
| ArrayScanner.RunIsGrammar | src/trustsight/changes.py:405-438 | flag machine and grammar agree on every text |
| ArrayScanner.BoundaryStartsWord | src/trustsight/changes.py:437 | the characters after which a `#` starts a comment, by code point |
| ArrayScanner.AcceptedIsPrinted | src/trustsight/changes.py:414-438 | an accepting run at any depth reads well-formed items up to their closing parenthesis |
| ArrayScanner.SpansAreSkipped | src/trustsight/changes.py:417-431 | what a quoted span or a comment holds cannot change depth or answer |
| ArrayScanner.AppendKeepsGroup | src/trustsight/changes.py:405-438 | appended text never undoes a closing parenthesis |
| ArrayScanner.DropUnclosedArrays | src/trustsight/changes.py:441-466 | an array is kept, unchanged, exactly when its last opener is missing or starts a balanced group |
| Hosts.EverySpellingIsOneHost | src/trustsight/buckets.py:13-42 | userinfo, case, root dots and default port of a plain host never change the result |
| Hosts.EverySpellingIsTheHost | src/trustsight/buckets.py:13-42 | a plain host without capitals is what every spelling of it gives, its letters capitalised at will |
| Hosts.NoCapitals | src/trustsight/buckets.py:42 | no result holds a capital letter |
| Hosts.OtherPortIsKept | src/trustsight/buckets.py:38-42 | any port but the default ones is part of the result |
| Hosts.LiteralPortIsDropped | src/trustsight/buckets.py:32-37 | a bracketed literal loses whatever port follows |
| Hosts.CanonicalIdempotentIff | src/trustsight/buckets.py:27-42 | a second pass changes nothing except exactly for a dotted default port |
| Domains.BoundedHost | src/trustsight/buckets.py:315-333 | the input if it fits, else the longest label-aligned suffix that does, else the last 253 characters of one label |
| Domains.BoundsUnique | src/trustsight/buckets.py:315-333 | that description leaves one host |
| Domains.ParentDomains | src/trustsight/buckets.py:336-347 | exactly the dot-boundary suffixes, longest first |
| Domains.ParentIsSuffix | src/trustsight/buckets.py:392-400 | a proper parent is exactly what `endswith("." + d)` accepts |
| Domains.ClassifyPrepared | src/trustsight/buckets.py:357-404 | an unparsable URL is unknown; else the canonical, bounded host gets the bucket of the first test it meets, in the source's order, the forge and official tests being scans of all configured domains |
| Percentiles.PercentileThreshold | scripts/calibration/_core.py:478-484 | a threshold is at least the percentile exactly when at least q*n samples are at most the threshold |
| Percentiles.PercentileIsLeast | scripts/calibration/_core.py:478-484 | the percentile is the least sample that at least q*n samples do not exceed |
| Percentiles.PercentileClamped | scripts/calibration/_core.py:483-484 | q outside the unit interval gives minimum or maximum |
| Percentiles.GateSeparationMeaning | scripts/calibration/_gates.py:68-77 | for any two lists, an empty one counting as a single zero, the gate passes exactly when one threshold has at least 95% of the benign scores at or below it and more than 95% of the attack scores above it |
| Percentiles.NoAttacksFailsGate | scripts/calibration/_gates.py:70-77 | without attack scores the gate fails |
| ClusterGate.TwiceClusterRate | scripts/calibration/_gates.py:541-562 | if every cluster row has two members, twice the cluster rate is at most the sum of the member rates |
| ClusterGate.DoubleCount | scripts/calibration/_gates.py:543-559 | the same as counts, for every list of rows |
| ClusterGate.GateIsFirstCheck | scripts/calibration/_gates.py:563-571 | the second check never fails alone: the gate passes exactly when the first does |
| ClusterGate.GatePassesIff | scripts/calibration/_gates.py:545-571 | the gate passes exactly when every row with H098 carries two different members |
| ClusterGate.RateMeaning | scripts/calibration/_gates.py:554-561 | a rate is the share of rows on which the rule fired |
| Correlation.CauchySchwarz | scripts/calibration/_core.py:493-498 | the product sum is bounded by the sums of squares for all prefixes |
| Correlation.PearsonRange | scripts/calibration/_core.py:486-498 | the result lies in [-1, 1] for series of any two lengths |
| Correlation.PearsonSymmetric | scripts/calibration/_core.py:486-498 | exchanging series of one length changes nothing |
| Correlation.PearsonAffineInvariant | scripts/calibration/_core.py:486-498 | shifting and scaling by a positive constant changes nothing |
| Correlation.PearsonOfLine | scripts/calibration/_core.py:486-498 | a rising linear relation measures as 1 |
| PearsonFormula.PearsonIsFormula | scripts/calibration/_core.py:486-498 | for series of one length the result times the roots of both spreads is the joint spread, over plain sums of points, squares and products; 0 when a series does not vary |
| PearsonFormula.PearsonNegated | scripts/calibration/_core.py:486-498 | a negative scale negates the result |
| PearsonFormula.PearsonOfAnyLine | scripts/calibration/_core.py:486-498 | points on a rising line measure as 1, on a falling one as -1 |
| PearsonFormula.TooFewPoints | scripts/calibration/_core.py:489-490 | below two points the result is 0 |
| BaselineFloor.Database.PullBaselineSeed | src/trustsight/channels.py:256-301 | one pull: the checks in their order, then import, then the floor |
| BaselineFloor.RefusalChangesNothing | src/trustsight/channels.py:112-138 | a refused pull changes nothing; no pull but a completed versioned one moves the floor |
| BaselineFloor.ImportIffAdmitted | src/trustsight/channels.py:272-296 | exactly which pulls import: key, download and import work, and a fetched inventory is trusted, unexpired, of a usable version not below the floor, and its first entry for the seed gives no other digest and no other length |
| BaselineFloor.OutcomeIff | src/trustsight/channels.py:268-301 | which check ends a pull, each outcome by what the attempt met |
| BaselineFloor.SeedMatchesIff | src/trustsight/channels.py:141-168 | the inventory check over its fields: the first entry with the seed's name, its digest and its length |
| BaselineFloor.EntryForIsFirst | src/trustsight/channels.py:148-156 | the inventory entry is the first with the name, and its absence is refused |
| BaselineFloor.FloorIsLargestCompleted | src/trustsight/channels.py:172-179 | over any run the floor is the largest version of all completed versioned pulls |
| BaselineFloor.FloorNeverDecreases | src/trustsight/channels.py:112-138 | once set the floor never falls or disappears |
| BaselineFloor.ImportsNeverGoBack | src/trustsight/channels.py:112-138 | while the floor can be written every versioned import is at least every earlier one |
| BaselineFloor.CanGoBackIffUncovered | src/trustsight/channels.py:278-296 | an older import is possible next exactly when some imported version is above the floor |
| BaselineFloor.CanGoBackIffReported | src/trustsight/channels.py:278-296 | over any run from an empty database, exactly when some pull reported a failed write for a version above the present floor |
| BaselineFloor.UnrecordedImportAllowsRollback | src/trustsight/channels.py:278-296 | two pulls that reach this |
| Backfill.Connection.Backfill | scripts/backfill_h104.py:31-119 | the pass is committed whole, or rolled back whole on a dry run or an exception |
| Backfill.BackfillEffect | scripts/backfill_h104.py:65-110 | exactly what a real pass writes, row by row: the flag on the latest analysis of each package with the finding, the patched fact where it was not flagged; it raises exactly when such a fact cannot be patched |
| Backfill.LatestIsNewest | scripts/backfill_h104.py:61-66 | the query finds a row exactly when the package has one, and then the one with the largest id |
| Backfill.CountsMean | scripts/backfill_h104.py:40-76 | each count is the number of recipes it names, and hits are always no_analysis + existing + inserted |
| Backfill.PatchesCounted | scripts/backfill_h104.py:104-110 | facts_updated is the number of history rows whose fact a real pass changed |
| Backfill.HasH104Meaning | scripts/backfill_h104.py:93 | the scan of a breakdown: raised by an entry that is none before any H104 entry, false when all are other rules |
| Backfill.RunGrows | scripts/backfill_h104.py:77-110 | tables only grow, by one rule row an insertion; a dry run leaves them |
| Backfill.BackfillIdempotent | scripts/backfill_h104.py:69-76 | a second pass with any options inserts nothing, changes nothing and reports the inserted as existing |
| Backfill.DryRunPredicts | scripts/backfill_h104.py:77-79 | with the tables' keys a dry run reports the counts of the real run that completes |
| Backfill.DryRunOvercountsDuplicates | scripts/backfill_h104.py:77-79 | without the key on names it does not |
| SectionFiles.Section | scripts/build_rules_index.py:78-89 | the reader splits a file into its leading comments and the stripped rest |
| SectionFiles.SectionRoundTrip | scripts/split_rule_sources.py:82-88 | what the splitter prints is read back, even when the body starts with header-like lines |
| SectionFiles.MetaOfComment | scripts/build_rules_index.py:83-88 | a printed header line is read back whatever its value holds |
| SectionFiles.MetaMeaning | scripts/build_rules_index.py:83-88 | a header line is one of three keys and any value between the comment marks, and nothing else is |
| SectionFiles.PrintedIs | scripts/split_rule_sources.py:82-88 | the text the splitter writes |
| SectionFiles.StripMeaning | scripts/build_rules_index.py:86 | stripping takes newlines off both ends and nothing else |
| SectionFiles.HeaderSplits | scripts/build_rules_index.py:81-89 | the header is all lines up to the first that is no comment |
| RegistryMeta.Parse | scripts/build_registry_meta.py:44-77 | the parser with its nested continuation loop equals the one-step-a-line machine |
| RegistryMeta.EveryLineOnce | scripts/build_registry_meta.py:51-77 | the kind of each line, read off the lines alone: header comment, bullet, indented line of a bullet's block, or body; the body is the body lines in order |
| RegistryValues.CommentsAndValues | scripts/build_registry_meta.py:57-74 | the comments are the last value of each key in the header; each metadata value is the last bullet of its key with the indented lines behind it |
| RegistryValues.ReadersAgree | scripts/build_rules_index.py:81-89 | index builder and bootstrap read the same comments from a section |
| RegistryMeta.BulletMeaning | scripts/build_registry_meta.py:40 | a bullet is one of three keys in bold and any value, and nothing else is |
| RegistryMeta.ContinuesMeaning | scripts/build_registry_meta.py:70 | an indented line is two blanks and something to see behind them |
| RegistryMeta.RightTrimMeaning | scripts/build_registry_meta.py:68 | a value loses the white space at its end and nothing else |
| RegistryMeta.BulletBlockIsOneValue | scripts/build_registry_meta.py:66-74 | a bullet with its indented lines, anywhere in a section, becomes one value of its key and touches nothing else |
| RegistryMeta.ParseRewritten | scripts/build_registry_meta.py:145-153 | a rewritten section parses to the comments and prose it was written from |
| RegistryMeta.RewriteIsFixedPoint | scripts/build_registry_meta.py:145-153 | rewriting the text of a rewritten section changes nothing |
| RegistryMeta.RewriteKeepsProse | scripts/build_registry_meta.py:145-153 | rewriting keeps the prose |
| RegistryMeta.RewrittenTextIs | scripts/build_registry_meta.py:145-153 | the text a section is rewritten to |
| RegistryEntries.EntryComments | scripts/build_registry_meta.py:121-136 | uid, canonical mark and name of an entry, told from the header comments and the earlier entry |
| RegistryEntries.EntryBullets | scripts/build_registry_meta.py:125-140 | severity and target of an entry, told from the last bullets and the earlier entry |
| RegistryEntries.EntryCapability | scripts/build_registry_meta.py:127-139 | the category without back quotes and blanks, or the earlier one |
| RegistryEntries.RefusedIff | scripts/build_registry_meta.py:121-124 | a section is refused exactly when it has no uid comment or an empty one |
| RegistryEntries.SecondRunKeepsEntryIff | scripts/build_registry_meta.py:114-153 | a second run on the rewritten section keeps the registry entry exactly when the registry committed by then remembers severity, capability and target, and the name of a rule without a name comment |
| RegistryEntries.CommittedEntryIsKept | scripts/build_registry_meta.py:114-153 | so it does when the first registry is committed in between |
| RegistryEntries.UncommittedEntryIsLost | scripts/build_registry_meta.py:114-153 | and not without |
| ReleaseTar.Normalise | scripts/build_release_tarball.py:149-169 | the loop pins every member and the result is sorted by name |
| ReleaseTar.NormalisedIsCanonical | scripts/build_release_tarball.py:149-169 | two streams give one tarball exactly when name by name their members are the same release in the same order |
| ReleaseTar.DistinctNamesCanonical | scripts/build_release_tarball.py:149-169 | with distinct names the tarball depends exactly on the set of names, contents and executable marks |
| ReleaseTar.NormaliseIdempotent | scripts/build_release_tarball.py:149-169 | normalising twice is normalising once |
| ReleaseTar.NormaliseKeepsMembers | scripts/build_release_tarball.py:152-164 | every member reaches the output once, in name order |
| ReleaseTar.NormalisedFields | scripts/build_release_tarball.py:154-160 | every member has a stream member's name and contents, and fixed time, owner and permission bits 0755 or 0644 |
| ReleaseTar.ExecutableDigits | scripts/build_release_tarball.py:160 | executable means an odd digit for owner, group or others |
| ReleaseTar.RepeatedNameShowsOrder | scripts/build_release_tarball.py:163 | two members of one name keep the stream order visible |
| UidAllocation.ParseFormat | scripts/build_registry_uids.py:33-38 | reading a printed uid gives its number, past four digits too |
| UidAllocation.IntOfSpelling | scripts/build_registry_uids.py:33 | blanks around a number, a plus sign and grouping underscores do not change what is read |
| UidAllocation.IntOfIsSpelling | scripts/build_registry_uids.py:33 | what is read as a number, exactly: blanks, perhaps a plus sign, groups of digits with single underscores between them, blanks; the value is that of the digits |
| UidAllocation.IntOfRefuses | scripts/build_registry_uids.py:33 | text with any other character is no number |
| UidAllocation.ParseUidMeaning | scripts/build_registry_uids.py:33 | the number stands between the first and the second dash, or behind the only one |
| UidAllocation.FormatExamples | scripts/build_registry_uids.py:38 | the first uids and the first with five digits |
| UidAllocation.UidWidth | scripts/build_registry_uids.py:38 | the prefix and at least four digits, exactly four below 10000 |
| UidAllocation.HighestNumber | scripts/build_registry_uids.py:33 | the largest number of the table, 0 when empty, refused when a uid cannot be read |
| UidAllocation.AssignUids | scripts/build_registry_uids.py:28-40 | one run over the sorted catalog, refused exactly on an unreadable table |
| UidAllocation.RunExtends | scripts/build_registry_uids.py:28-40 | a run keeps every uid, adds exactly the catalog's ids, above all earlier numbers and in sorted order |
| UidAllocation.RerunIsNoOp | scripts/build_registry_uids.py:34-36 | a run changes nothing exactly when every catalog id has a uid |
| UidAllocation.UidsArePermanent | scripts/build_registry_uids.py:28-40 | over any runs with any catalogs a uid never changes, and later ids get numbers above everything before |
| UidAllocation.UidsAreNeverShared | scripts/build_registry_uids.py:28-40 | over any runs no two ids, present or retired, share a number |
| UidAllocation.NumbersHaveNoGaps | scripts/build_registry_uids.py:28-40 | from an empty table the numbers in use are always exactly 1 to the number of ids |
| BoundedReads.ReadCapped | src/trustsight/bounded_io.py:35-51 | the whole source when it fits and a refusal when it does not, however it is chunked; at most limit + 1 MiB is taken; ends on an endless source |
| BoundedReads.ReadCappedWithDeadline | src/trustsight/bounded_io.py:75-110 | timed out exactly when a check of a needed read is late, else as without a deadline; no read starts after a late check |
| BoundedReads.LastCheckDecides | src/trustsight/bounded_io.py:88-101 | on a clock that never runs back only the last needed check matters |
| BoundedReads.ReadsAreBounded | src/trustsight/bounded_io.py:42-50 | the reads needed are at most two more than the limit, for every source and chunking |
| BoundedReads.ReadFileCapped | src/trustsight/bounded_io.py:113-131 | an oversized file is refused without a read; a file that grows is still bounded |
| BoundedReads.TrueSizeChangesNothing | src/trustsight/bounded_io.py:119-131 | a true size on disk never changes the answer, except for an empty file under a negative limit |
| BoundedReads.NeverCut | src/trustsight/bounded_io.py:113-131 | bytes come back exactly when the file opens and fits, and are then the whole file |

## Left out

- CalibrationScan.ScanCorpusSerial: the corpus is given as packages with distinct names and their diffs in replay order; listing and grouping the files of a directory is not modelled, and reading a file gives its text.
- CalibrationScan.ScanDiff: what rules, gaps, source buckets and declared signals make of a text is a parameter, and so are the byte and line caps of a diff, the URL extraction and the acknowledgement list; of a fact the model keeps the novelty verdict, the score and the breakdown without its reason texts.
- NoveltyScore.CalculateScore: the entries before and after novelty come from that parameter; novelty of maintainers, which the per-diff scanner never sets, and the risk level are not modelled; weights are exact reals.
- CalibrationShards.MergeShardRows: artifacts are position and rows pairs, JSON text is not modelled; paths are sequences of components.
- WorkerPool.EveryScheduleYieldsResults: a worker that dies or raises is not modelled; nor are forking and the database connection a worker opens.
- CommitChain.BuildChainIndex: packages are visited in some order; the order of the result's keys is not part of a map.
- ArrayScanner.DropUnclosedArrays: finding the openers is a regular expression in the source and a parameter here; white space is ASCII.
- Hosts.EverySpellingIsOneHost: characters are ASCII, so case folding is too; the URL parser before it is not modelled.
- Domains.ClassifyPrepared: the homograph verdict and the registrable domain are functions given to it, since both rest on external tables; the URL parser is not modelled.
- Percentiles.GateSeparationMeaning: scores are exact reals, and the choice of attack fixtures is not modelled.
- PearsonFormula.PearsonIsFormula: for series of one length, as the callers give; for two lengths the range and the invariance laws hold as stated.
- Correlation.PearsonRange: exact reals with an abstract square root; floating-point rounding can leave the range by a few units in the last place.
- ClusterGate.GateIsFirstCheck: rates are exact reals; the source's slack of 1e-9 is kept.
- BaselineFloor.Database.PullBaselineSeed: signatures, downloads and the expiry clock are outcomes of an attempt; the import is assumed not to write the floor, and recording the pull does not raise in the source, so it is left out.
- BaselineFloor.ImportIffAdmitted: a release without an inventory is accepted by design and is then bound by nothing.
- Backfill.Connection.Backfill: the detector is a parameter, an entry patched into a stored fact is its rule id only, a stored breakdown is a list, and SQLite's own errors are not modelled.
- RegistryEntries.SecondRunKeepsEntryIff: one section at a time, the names of an earlier registry being single lines; the severity pattern, the curated layout and the committed registry are functions given to it, and the registry's JSON text is not modelled.
- SectionFiles.SectionRoundTrip: headings of the rule pages and the lookup of their uids are not modelled.
- ReleaseTar.Normalise: tar and gzip bytes are not modelled; a tarball is its sequence of members, and device numbers are part of nothing.
- UidAllocation.ParseUid: digits are ASCII, and Python's limit of 4300 digits a number is not modelled.
- UidAllocation.AssignUids: the catalog is the list of its ids; the JSON text of the table is not modelled.
- BoundedReads.ReadCappedWithDeadline: the socket timeout that is lowered before each read is not modelled, so a single read may take any time; times are reals.
- Other gates, rule catalogs, the tokenizer, the differ and the command line: either not stateful or resting on regular expressions and data.
