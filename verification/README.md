# Verified models of the Sheetwrite release, verification and benchmark tooling

Sheetwrite ships through a chain of tooling that decides whether a release may go out, whether coverage and
performance gates pass, and whether a benchmark fixture can be trusted. This project models that tooling in Dafny and
proves what it is relied on for. Code that works by updating state is modelled as classes and methods with loops, each
proved against a specification function or predicate; code made of expressions is modelled as functions. The theorems
are then about the specification: all inputs, all runs, all interleavings.

- **Import cycles** (`CycleKeys`, `ImportCycles`). The coloured depth-first search over the import graph terminates,
  reports only elementary cycles, never the same cycle twice, and reports one exactly when the graph has one.
- **Canonical JSON** (`CodeUnits`, `Digits`, `KeyOrder`, `JsonNumbers`, `JsonStrings`, `CanonicalJson`, `JsonGrammar`,
  `NumberSpelling`, `CanonicalSpelling`). The written text follows the grammar of RFC 8259, and a reader recovers the
  value from it; so two fingerprints' texts agree exactly when the values agree up to key order. Numbers and strings are
  spelled as the host spells them, told from their values.
- **Publishing** (`PackageOrder`, `ReleaseManifest`, `PublishProtocol`, `PublishRun`, `PublishReports`). A transition
  system with any number of overlapping, crashing and restarted runs, where the registry may accept a package whose run
  never hears of it; and the sequential loop itself, with failing commands, whose every execution is a sequence of the
  system's steps.
- **Tagging** (`PackageTags`, `TagHistory`, `ReleaseIdentities`). Git and host commands that can fail or kill the run
  before or after their effect; what a run, and any number of runs, can have done to tags and releases.
- **Coverage reports** (`Strings`, `Sequences`, `LcovPaths`, `LcovPathLaws`, `LcovFormat`, `LcovReading`, `LcovAccepted`,
  `LcovRoundTrip`, `LcovMerge`, `LcovMergeLoop`, `LcovConservation`, `LcovOrder`, `LcovReport`). The line-driven LCOV
  reader and exactly which reports it accepts, the merger of shards with its stable sort and the writer, the round trip
  through all three, and when the order of collection shows.
- **Statistics gates** (`OrderStatistics`, `SampleRanks`, `RandomDraws`, `Mulberry32`, `MedianBound`, `PairedBootstrap`,
  `GateRanks`). Two bootstrap procedures over seeded 32-bit generators, with samples as exact reals; what they report is
  told by counting samples.
- **Logical bytes** (`LogicalBytes`, `Sets`). A walk through directories and symbolic links that may lead around in
  circles.
- **Dataset and checksums** (`Fnv`, `ChecksumBytes`, `Checksum`, `Dataset`, `DatasetFacts`). The generated benchmark
  data, the byte stream that is hashed, and FNV-1a in 32-bit arithmetic.
- **Logical clock** (`ClockModel`, `ClockAdvance`, `ClockDelays`, `LogicalClock`). The scheduler of the prefetch benchmark, as steps
  over whole runs, and as a class whose callbacks schedule and cancel while an advance is under way.
- **Formula fixtures** (`Sheet`, `FormulaTopologies`, `FormulaOracles`). A small evaluator, the generated topologies, and
  the closed forms that the benchmark expects.
- **Formula contract** (`HostObjects`, `JsonPointer`, `FormulaSchema`, `SchemaKeywords`, `SchemaValidator`, `SchemaNames`).
  The JSON Schema interpreter with references, against a declarative reading of each keyword; its issues are exactly the
  faults of the value.
- **Grid windows** (`GridWindows`). Positions, windows and addresses of the billion-cell benchmark.

`Wrappers` holds the optional values and results that several of these share.

## Where the code does less than its description

Each of these is a lemma, with a concrete input or as an if-and-only-if that shows which inputs fail, and beside it
stands the condition under which the code does what it is meant to do.

- The release manifest's table of places is a plain object, so names that every object inherits count as known, and
  switch the order check off: `[svelte, constructor, wasm]` passes (`ReleaseManifest.InheritedPackagePasses`,
  `ReleaseManifest.InheritedDependencyPasses`; exact condition: `ReleaseManifest.AcceptanceIsRightIff`).
- The manifest's checks accept a package that needs a later one; only with the workspace graph's check does the order
  follow dependencies (`PublishRun.ManifestAloneIsNotEnough`; exact condition: `PublishRun.StopSafeIffNotLater`).
- Merged coverage depends on report order where different paths compare equal, as names with composed and decomposed
  accents do (`LcovOrder.AccentsDependOnOrder`; exact conditions: `LcovOrder.OrderIsIrrelevantIff` for records,
  `LcovOrder.ReportOrderIsIrrelevantIff` for reports).
- An LCOV report does not read back when a file name ends in a carriage return or is blank
  (`LcovReport.CarriageReturnIsLost`; exact condition: `LcovReport.MergedReportRoundTrip`).
- A coverage floor on functions can be met by the merged counts and missed on the union of shards
  (`LcovReport.FloorFails`; exact condition: some shard saw every definition, `LcovReport.FloorsTransferIff`).
- Cycle keys can merge different cycles when a file name holds the separator NUL (`ImportCycles.KeysClash`,
  `ImportCycles.NulHidesACycle`; without NUL: `CycleKeys.KeyIdentifiesCycle`).
- The schema interpreter looks names up in the prototype too: `toString` counts as present in every object, and a field
  called `constructor` is refused (`SchemaNames.InheritedNameCountsAsPresent`, `SchemaNames.InheritedNameIsRefused`;
  exact conditions: `SchemaNames.RequiredAgreesIff`, `SchemaNames.ChildAgreesIff`).
- Constants and unique items are compared as texts, so the order of fields counts (`SchemaNames.Reorder`; exact
  condition: `SchemaNames.TextComparisonIsRightIff`).
- A chain of references that leads around is followed for ever (`FormulaSchema.RankedIffChainsEnd`).
- Five formula oracles are wrong for some sizes: `SUMPRODUCT` away from multiples of 10, the multi-criteria sum away from
  multiples of 4, and three workloads for a single row (`FormulaOracles.SumProductOracle`,
  `FormulaOracles.MultiCriteriaOracle`, `FormulaOracles.SumIfOracle`, `FormulaTopologies.OracleHolds`, all if and only if).
- Row identifiers are hashed modulo 2^32 cents, so they clash exactly modulo 2^30 (`Dataset.IdentifiersClashIff`,
  `Dataset.GeneratedIsRecoverableIff`); still the bytes determine a generated dataset (`Dataset.BytesDetermineGenerated`).
- A clock callback that schedules with delay 0 keeps an advance from ever ending (`ClockAdvance.EchoNeverEnds`); with any
  positive least delay it ends (`ClockAdvance.AdvanceEnds`).

## Model

| member | source | states |
|---|---|---|
| CycleKeys.CanonicalCycle | scripts/check-import-cycles.ts:448-456 | the scan over all rotations, on the chain without its repeated last node, returns the cycle's key |
| CycleKeys.BestOfIsLeast | scripts/check-import-cycles.ts:450-455 | the kept text is the join of one of the rotations tried, and no rotation tried joins to a smaller one |
| CycleKeys.KeyRotationInvariant | scripts/check-import-cycles.ts:448-456 | rotating a cycle does not change its key, whatever its names contain |
| CycleKeys.KeyIdentifiesCycle | scripts/check-import-cycles.ts:448-456 | for names without NUL, two keys are equal if and only if the cycles are rotations of each other |
| ImportCycles.BackEdgeCloses | scripts/check-import-cycles.ts:390-392 | an edge to a file on the stack closes an elementary cycle of real edges that uses this edge |
| ImportCycles.AlreadyReported | scripts/check-import-cycles.ts:393-394 | a cycle whose key is already there has all its edges on the cycle reported under that key, so skipping it loses none |
| ImportCycles.CycleFinder.CloseCycle | scripts/check-import-cycles.ts:390-397 | after the branch for a file on the stack, the edge lies on a reported cycle; reports stay elementary and distinct |
| ImportCycles.CycleFinder.FollowEdge | scripts/check-import-cycles.ts:388-400 | following an edge leaves the stack as it was, and the target finished or the edge on a reported cycle |
| ImportCycles.CycleFinder.Visit | scripts/check-import-cycles.ts:385-404 | a visit finishes its file, leaves the stack as it was, only adds reports, keeps the path and finished-file invariants, and terminates |
| ImportCycles.WalkDescends | scripts/check-import-cycles.ts:402-403 | along a walk whose edges all lead to files finished earlier, the end was finished before the start, so it is not closed |
| ImportCycles.ClosedWalkIsCovered | scripts/check-import-cycles.ts:382-407 | once all files are finished, every closed walk has an edge that was reported as closing a cycle |
| ImportCycles.AnalyzeCycles | scripts/check-import-cycles.ts:382-407 | every report is an elementary cycle, no two are rotations of each other or have the same key, there is a report if and only if the graph has a cycle, and with NUL-free names every cycle shares an edge with a report |
| ImportCycles.KeysClash | scripts/check-import-cycles.ts:448-456 | of three files, "p" and "q" importing each other and "p NUL q" importing itself, the two elementary cycles are no rotations of each other and have the same key |
| ImportCycles.NulHidesACycle | scripts/check-import-cycles.ts:391-397 | whatever cycles with different keys are reported for that graph, one of the two cycles shares no edge with a report |
| CodeUnits.LessTrichotomy | scripts/check-import-cycles.ts:453 | the comparison of strings by code units is total and strict |
| CodeUnits.JoinInjective | scripts/check-import-cycles.ts:450-452 | joining with a separator that no part contains loses nothing |
| KeyOrder.SortAscending | scripts/conformance/normalize.ts:15-16 | sorting keys that are all different puts them in strictly ascending code-unit order |
| KeyOrder.SortMap | scripts/conformance/normalize.ts:15-17 | sorting by key and mapping the values can be done in either order |
| JsonNumbers.NumberRoundTrip | scripts/conformance/normalize.ts:20-25 | every decimal, -0 included, is read back from its text, whatever text ends it |
| JsonStrings.ReadContentOf | scripts/conformance/normalize.ts:17-25 | every string of code units, unpaired surrogates included, is read back from its quoted form, whatever follows |
| CanonicalJson.CanonicalPrints | scripts/conformance/normalize.ts:12-28 | there is a canonical text exactly for values without undefined and non-finite parts, and it is the text of the value with sorted keys; else the error |
| CanonicalJson.ReadPrinted | scripts/conformance/normalize.ts:12-28 | a lenient reader recovers every value from its text and leaves any following text that cannot extend a number |
| CanonicalJson.NormIsSame | scripts/conformance/normalize.ts:14-18 | sorting the keys of a value gives a well-formed value that is the same up to key order |
| JsonGrammar.CanonicalIsJson | scripts/conformance/normalize.ts:12-28 | every canonical text follows the grammar of JSON texts, sections 2 to 7 of RFC 8259: numbers without leading zeros, escaped strings, no trailing commas |
| CanonicalJson.CanonicalRoundTrip | scripts/conformance/normalize.ts:12-28 | the canonical text gives back the value with sorted keys, whatever legal text follows |
| CanonicalJson.SameIffNorm | scripts/conformance/normalize.ts:14-18 | two values are equal up to key order at every depth if and only if they are equal once keys are sorted |
| CanonicalJson.NormIdempotent | scripts/conformance/normalize.ts:15-16 | sorting keys a second time changes nothing |
| CanonicalJson.CanonicalIffSame | scripts/conformance/normalize.ts:12-28 | two canonical texts are equal if and only if the values are equal up to the order of object keys |
| CanonicalSpelling.ErrorNamesAPart | scripts/conformance/normalize.ts:20-27 | the error for a value names a part that it has: an undefined one or a number that is not finite |
| NumberSpelling.WholeNumberText | scripts/conformance/normalize.ts:20-25 | a number whose value is a whole number below 10^21 is written as its sign and its decimal digits, without point or exponent |
| NumberSpelling.ExponentIff | scripts/conformance/normalize.ts:25 | a number is written with an exponent if and only if it is not zero and its size is below 10^-6, or 10^21 and more |
| NumberSpelling.NumberTextMeans | scripts/conformance/normalize.ts:20-25 | the text of every number is its sign and a numeral of the same value, without needless zeros; with an exponent, one digit that is not zero, the rest behind the point, the sign of the exponent and its decimal digits |
| CanonicalSpelling.LessMeans | scripts/conformance/normalize.ts:16 | one key comes before another if and only if it is a proper prefix or has the smaller code unit where they first differ |
| CanonicalSpelling.NormArranges | scripts/conformance/normalize.ts:15-16 | in what is written, the keys of every object ascend in this order, at every depth |
| CanonicalSpelling.WrittenAsItself | scripts/conformance/normalize.ts:17-25 | a string is written between its quotes as it is if and only if it has no control character, quote, backslash or unpaired surrogate |
| CanonicalSpelling.NamedEscapes | scripts/conformance/normalize.ts:17-25 | quote, backslash, backspace, tab, newline, form feed and carriage return are written with a backslash and their letter |
| CanonicalSpelling.NumberedEscapes | scripts/conformance/normalize.ts:17-25 | all other such units are written with four lower-case hexadecimal digits |
| CanonicalSpelling.SmallNumbers | scripts/conformance/normalize.ts:25 | 0.000001, 1e-7 and 1.23e-18 are spelled so |
| CanonicalSpelling.PlainNumbers | scripts/conformance/normalize.ts:23-25 | 0, -0, 12 and -1.25 are spelled so |
| CanonicalSpelling.Words | scripts/conformance/normalize.ts:25 | null, true and false are spelled so |
| CanonicalSpelling.FieldSample | scripts/conformance/normalize.ts:14-19 | a small object, unit by unit |
| ReleaseManifest.CheckPackageOrder | scripts/release-artifacts.ts:92-94 | the first loop of lines 281-316, reading places from a plain object, accepts if and only if every name is answered for, none comes twice, and none compares as not after the one before it, where an inherited value against a place compares as not a number |
| ReleaseManifest.CheckDependencies | scripts/release-artifacts.ts:352-364 | the second loop accepts if and only if the plain object answers for every internal dependency, and each asks for the packaged version where there is one |
| ReleaseManifest.ValidateReleaseManifest | scripts/release-artifacts.ts:278-364 | the manifest is accepted if and only if it is not empty, both loops let it through, and dependencies ask for packaged versions |
| ReleaseManifest.AcceptanceIsRightIff | scripts/release-artifacts.ts:305-363 | a manifest is in publishing order with known, consistent dependencies if and only if it is accepted and names no package or dependency that only the prototype answers for |
| ReleaseManifest.InheritedPackagePasses | scripts/release-artifacts.ts:307-311 | a package called "constructor" between two packages in the wrong order lets all three pass |
| ReleaseManifest.InheritedDependencyPasses | scripts/release-artifacts.ts:354-356 | a dependency called "toString" passes as known |
| ReleaseManifest.FitsMeansConsistent | scripts/release-artifacts.ts:352-364 | the check against recorded versions says that dependencies are answered for, and those on packaged names ask for the packaged version |
| ReleaseManifest.ValidateWorkspaceGraph | scripts/workspace-tooling.ts:233-267 | the graph is accepted if and only if the order has no duplicate, lists every required package and only known ones with their scripts, each after its listed dependencies |
| ReleaseManifest.ChecksGiveOrder | scripts/release-artifacts.ts:307-364 | the two checks as the code decides them, on a manifest that names nothing only inherited, put every packaged dependency before the package that needs it |
| PublishProtocol.NextKeepsInv | scripts/release-publish.ts:163-207 | every step of any run, any crash, any start and any foreign publication keeps the system's invariant and only adds to the registry |
| PublishProtocol.DependenciesPresent | scripts/release-publish.ts:172-202 | when a run is about to publish a package, everything it depends on is registered |
| PublishProtocol.RegistryIsAppendOnly | scripts/release-publish.ts:163-207 | over any interleaving the registry stays closed under dependencies, and nothing in it is removed or overwritten |
| PublishProtocol.PublishedOnce | scripts/release-publish.ts:189-206 | no version is accepted twice, and no two runs report the same package as newly published |
| PublishProtocol.FinishedRunVerifiedAll | scripts/release-publish.ts:189-206 | a run that finishes has verified exactly its artifacts in order, and they stay registered with their integrity ever after |
| PublishReports.ReportsAreTrue | scripts/release-publish.ts:189-206 | at every moment of every behaviour, wherever a run was stopped: what it reports as verified are its first artifacts in order, with their names, versions and integrities, what it reports as newly published is among them, and the registry has each with this integrity from then on |
| PublishRun.PublishOne | scripts/release-publish.ts:191-205 | one round verifies the package, publishing it only when it is missing, or stops: on another integrity, on a failing query or publication, or on a reply for another identity; whichever, the registry is that of an uninterrupted run after some packages |
| PublishRun.PublishArtifactsIdempotently | scripts/release-publish.ts:163-207 | however commands go, the run leaves the registry of an uninterrupted run after some packages, its outcome tells why it stopped, a completed run has published exactly what was missing and verified all in order, with working commands it fails only on a missing dependency or another integrity; and every execution is a sequence of the protocol's steps |
| PublishReports.CompletedMeans | scripts/release-publish.ts:189-206 | a completed run reports every artifact with its fields, as newly published exactly those whose version was not registered before, and the registry has them all and nothing else that it did not have |
| PublishRun.NothingMissingTwice | scripts/release-publish.ts:191-206 | running again after a finished run publishes nothing and changes nothing |
| PublishRun.RestartConverges | scripts/release-publish.ts:191-206 | a run stopped after any number of packages and started again reaches the registry of an uninterrupted run |
| PublishRun.PrefixClosed | scripts/release-publish.ts:172-205 | for any registry, also one that an earlier run has partly filled, the registry is closed after every prefix that a run reaches when no missing package needs a missing later one |
| PublishRun.StopSafeIffNotLater | scripts/release-publish.ts:172-205 | for any registry, it is closed wherever a run can stop if and only if no package still missing that the run reaches needs a packaged dependency that is later in the list and missing too |
| PublishRun.OrderedIsSafe | scripts/release-publish.ts:189-205 | packages in dependency order meet that condition for every registry |
| PublishRun.ManifestAloneIsNotEnough | scripts/release-artifacts.ts:352-364 | the manifest's checks accept a list in which a package needs a later one, and a stop after the first package then leaves the registry open |
| PackageTags.Host.EnsureOne | scripts/release-github.ts:169-220 | for one package, only its own tag and release can be new, a new tag names the attested commit, success means that the tag is there and the release is of that tag, no draft and no prerelease, and with working commands it succeeds if and only if nothing stands in the way |
| PackageTags.Host.EnsureRelease | scripts/release-github.ts:189-220 | success means that the release has the tag's name and is neither a draft nor a prerelease; an existing one is accepted, with working commands, if and only if it is so, and left alone; a missing one is created, public, only for a tag that the host has |
| PackageTags.Host.EnsurePackageReleases | scripts/release-github.ts:151-222 | a bad commit or an unverified publication is refused with no effect; else packages are completed in order, none after a failing one is touched, nothing is moved, every release that appears is public, after success every package has its tag at the attested commit and a public release, and with working commands it succeeds if and only if every package is fit |
| PackageTags.FitMeans | scripts/release-github.ts:169-206 | a package is fit if and only if its provenance names a full commit, the workflow's own if just published, a tag that is there names this commit, and a release that is there has the tag's name and is neither draft nor prerelease |
| PackageTags.CompleteMeans | scripts/release-github.ts:169-220 | a package is complete if and only if the host has its tag at the attested full commit, and a release of that name that is neither draft nor prerelease |
| PackageTags.PermittedMeans | scripts/release-github.ts:158-167 | a run is permitted if and only if its commit is forty lower-case hexadecimal digits, and everything published is among what was verified |
| TagHistory.Perform | scripts/release-github.ts:151-222 | one run on a fresh checkout, however its commands go, makes a step of a history, and its outcome tells what it has completed |
| TagHistory.PerformRuns | scripts/release-github.ts:151-222 | any runs after each other, each with failures and deaths of its own: no tag is moved or removed and no release changed, every new tag was attested for a package of the run that made it, and a last run whose commands work completes all its packages if they could be completed at first, whatever happened in between |
| TagHistory.TagsAreAttested | scripts/release-github.ts:171-187 | over any history of such runs a tag that appears names the attested commit of a package of the run that made it, which is the expected commit for newly published packages |
| TagHistory.TagIdentifies | scripts/release-github.ts:57-59 | for versions of numbers and dots, a tag tells name and version |
| TagHistory.RestartsStayFit | scripts/release-github.ts:179-220 | no history of failed or dead runs makes a package that could be completed impossible to complete |
| ReleaseIdentities.ParsePackageReleaseIdentities | scripts/release-github.ts:30-54 | the list is accepted if and only if it is a list, not empty unless allowed, every element has just a known name and a stable version, and names strictly follow the publishing order |
| ReleaseIdentities.StableVersionIff | scripts/release-github.ts:17 | stable versions are exactly the decimal texts of three numbers with dots between them |
| ReleaseIdentities.NameIsNew | scripts/release-github.ts:46-50 | the order check already rules out a second entry of the same name |
| ReleaseIdentities.AcceptedTagsAreDistinct | scripts/release-github.ts:57-59 | an accepted list has a tag of its own for every package |
| LcovPaths.NormalizeIdempotent | scripts/coverage-check.ts:135-153 | a normalized path normalizes to itself, unless it is blank and then refused |
| LcovPaths.NormalizedIsRelative | scripts/coverage-check.ts:135-153 | a normalized path is not empty, does not start with a slash and has no backslash |
| LcovPaths.NormalizedNotLonger | scripts/coverage-check.ts:135-153 | normalizing a relative path never makes it longer |
| LcovPaths.NormalizedKeeps | scripts/coverage-check.ts:138-152 | normalizing brings in no new character but slashes |
| LcovPathLaws.PlainAbsolute | scripts/coverage-check.ts:135-153 | an absolute path of plain parts is accepted if and only if it lies strictly below the root, as what is left of it there |
| LcovPathLaws.RelativeIsFromRoot | scripts/coverage-check.ts:139-141 | a relative path is the one that the root's own path leads to |
| LcovPathLaws.IntoAndBack | scripts/coverage-check.ts:139-141 | going into a directory and back changes nothing |
| LcovPathLaws.DotStays | scripts/coverage-check.ts:139-141 | a dot or an empty part changes nothing |
| LcovPathLaws.AboveTheTop | scripts/coverage-check.ts:139-141 | nothing is above the top |
| LcovPathLaws.BackslashIsSlash | scripts/coverage-check.ts:138 | backslashes count as slashes |
| LcovFormat.ParseLcov | scripts/coverage-check.ts:193-262 | the reading loop, with its variables for the record in progress, computes the line-by-line specification, errors included |
| LcovReading.RecordIsReadIff | scripts/coverage-check.ts:155-257 | the lines of a record are read, as a certain record, if and only if each of them says a line's count, a total or a detail, no line and no total comes twice, the file is new, and the record is what they describe: its path, its counts in order, totals that agree, and its uncovered lines |
| LcovReading.DetailsDoNotCount | scripts/coverage-check.ts:239-243 | lines that name functions or branches can be added to a record or taken out anywhere without changing what is read |
| LcovAccepted.ParsedIff | scripts/coverage-check.ts:193-262 | a report is read, as certain records, if and only if it is not blank, its lines are empty ones, test names and whole records that describe exactly these, there is at least one, and no two are of the same file |
| LcovRoundTrip.WrittenLines | scripts/coverage-check.ts:756-776 | splitting the written text gives the written lines, each path without a final carriage return |
| LcovRoundTrip.ReadWrittenRecord | scripts/coverage-check.ts:206-256 | from any state between records, reading the lines of a written record adds just that record under its normalized path, or fails |
| LcovRoundTrip.ParseSerialised | scripts/coverage-check.ts:193-262 | a written report reads back as the same records if and only if every path is read and normalized to itself |
| LcovRoundTrip.NormalizedPathStable | scripts/coverage-check.ts:135-153 | a path that came out of normalization is read back unchanged if and only if it is not blank and does not end in a carriage return |
| LcovMerge.MergeUnique | scripts/coverage-check.ts:281-306 | merges of inputs that agree in files, lines, sums, function counts and the order in which tying files appear are equal |
| LcovOrder.MergesAgreeIff | scripts/coverage-check.ts:281-306 | for inputs that agree in the numbers, merges are equal if and only if files whose paths compare equal appear in the same order |
| LcovOrder.OrderIsIrrelevantIff | scripts/coverage-check.ts:269-307 | all orders of the records merge alike if and only if no two different paths among them compare equal |
| LcovOrder.ReportOrderIsIrrelevantIff | scripts/coverage-check.ts:269-307 | all orders of the reports merge alike if and only if no two reports disagree about which of two paths that compare equal comes first |
| LcovOrder.AccentsDependOnOrder | scripts/coverage-check.ts:282 | two reports, of a name with a composed and of one with a decomposed accent, merge differently in the two orders |
| LcovMerge.MergedTotals | scripts/coverage-check.ts:284-290 | a merge keeps, for every file and line, whether it is known and the sum of its executions |
| LcovConservation.ExecutionsAreConserved | scripts/coverage-check.ts:284-290 | a merged file has exactly the executions that its records have together |
| LcovOrder.MergeInStages | scripts/coverage-check.ts:269-307 | merging two merges gives the merge of everything, also where paths compare equal |
| LcovMergeLoop.GroupRecords | scripts/coverage-check.ts:273-280 | the first loop collects each file's records in the order in which they come, and each file once |
| LcovMergeLoop.MergePath | scripts/coverage-check.ts:284-305 | the loops for one file give its merged record: each known line once in ascending order with the sum of its counts, totals, uncovered lines, and the largest function counts |
| LcovMergeLoop.MergeLcovRecords | scripts/coverage-check.ts:269-307 | the merge fails if and only if there are no reports, and else has one merged record for each file in path order, files whose paths compare equal in order of appearance |
| LcovReport.ParsedReport | scripts/coverage-check.ts:193-262 | whatever report is read, it has records, each for a file of its own, with positive distinct lines, covered and total as the line counts have them, the uncovered lines sorted, and covered functions within the total |
| LcovReport.MergedReportRoundTrip | scripts/coverage-check.ts:756-776 | for every non-empty merge of reports that were read, writing and reading back gives the merged records exactly if and only if no path is blank or ends in a carriage return |
| LcovReport.CarriageReturnIsLost | scripts/coverage-check.ts:206 | a file name that ends in a carriage return is a legal path whose report does not read back |
| LcovReport.CountsAreCardinalities | scripts/coverage-check.ts:163-166 | covered and total are the numbers of distinct covered and known lines |
| LcovReport.MergedCoverage | scripts/coverage-check.ts:284-303 | merged covered lines are exactly the union of the covered lines of all reports, the uncovered list is the rest of the known ones, and the counts are their sizes |
| LcovReport.MergedFunctionBounds | scripts/coverage-check.ts:264-300 | merged functions have covered at most total, and never overstate the union of the functions covered across shards; the total is exact when some shard saw every definition |
| LcovReport.FloorMeans | scripts/coverage-check.ts:620-623 | a floor is met if and only if the covered part in percent reaches it; with nothing to cover, only the floor of 100 is met |
| LcovReport.FloorHoldsOnUnion | scripts/coverage-check.ts:620-623 | a floor met by the merged function counts is met by the true union when some shard saw every definition |
| LcovReport.FloorFails | scripts/coverage-check.ts:297-300 | for any definitions of which no shard saw all, the largest shard with all its functions called meets floor 100 on the merged counts, and the union misses it |
| LcovReport.FloorsTransferIff | scripts/coverage-check.ts:620-623 | for given definitions, every floor met by the merged counts is met by the true union, whatever is called, if and only if some shard saw all definitions |
| ClockModel.InsertOrdered | bench/src/datasource-prefetch-bench.ts:59-60 | adding a task keeps the tasks in strict order of time and number |
| ClockModel.NextKeepsInv | bench/src/datasource-prefetch-bench.ts:52-80 | every step of scheduling, cancelling, firing and finishing keeps the invariant, and neither time nor the log goes back |
| ClockModel.RunIsSafe | bench/src/datasource-prefetch-bench.ts:47-81 | over whole runs firings strictly increase in time and number, each task fires at most once, at its own time, after it was scheduled and never after a cancellation; a finished advance is at its target with nothing overdue |
| ClockModel.CancelledNeverFires | bench/src/datasource-prefetch-bench.ts:61-63 | a task cancelled before it fires never fires in any later state of the run |
| ClockDelays.DelayIsLogged | bench/src/datasource-prefetch-bench.ts:52-60 | in every run, a step that schedules with some delay logs exactly the clock's time plus that delay, under the next number |
| ClockDelays.LoggedByAStep | bench/src/datasource-prefetch-bench.ts:52-60 | and every time in a log comes from such a step |
| ClockDelays.AdvanceTakesItsTime | bench/src/datasource-prefetch-bench.ts:66-80 | an advance that ends leaves the clock exactly as much later as it was told to, whatever happened meanwhile |
| ClockDelays.FiresAfterItsDelay | bench/src/datasource-prefetch-bench.ts:52-80 | at the end of an advance, a task that nobody cancelled has fired if and only if the time it was scheduled at plus its delay is not after the target, and then when the clock showed exactly that sum |
| ClockAdvance.TurnDecreases | bench/src/datasource-prefetch-bench.ts:68-76 | with a positive least delay each turn gets a pace nearer to the target, or uses up a task that was due before more can be added |
| ClockAdvance.AdvanceEnds | bench/src/datasource-prefetch-bench.ts:66-80 | with a positive least delay every advance ends, whatever callbacks schedule and cancel |
| ClockAdvance.AdvanceUnique | bench/src/datasource-prefetch-bench.ts:66-80 | an advance has only one course |
| ClockAdvance.AdvanceIsRun | bench/src/datasource-prefetch-bench.ts:66-80 | an advance with its callbacks is a sequence of the clock's steps, so whatever holds of all runs holds of it |
| ClockAdvance.AdvanceReachesTarget | bench/src/datasource-prefetch-bench.ts:66-80 | an advance that ends leaves the clock at its target with nothing overdue and the order of firings kept |
| ClockAdvance.EchoNeverEnds | bench/src/datasource-prefetch-bench.ts:68-76 | a callback that schedules with delay 0 keeps an advance from ending, after any number of turns |
| LogicalClock.SortAdded | bench/src/datasource-prefetch-bench.ts:59-60 | pushing a task and sorting puts it after every task not later than it and moves no other |
| LogicalClock.LogicalClock.Schedule | bench/src/datasource-prefetch-bench.ts:52-64 | the object's fields follow the specification's scheduling: next number, the clock's time plus the delay, tasks sorted |
| LogicalClock.LogicalClock.Cancel | bench/src/datasource-prefetch-bench.ts:61-63 | the returned function switches off its task and nothing else |
| LogicalClock.LogicalClock.TakeTurn | bench/src/datasource-prefetch-bench.ts:69-75 | one turn fires the first due task, with the clock at its time, and its callback acts on the object |
| LogicalClock.LogicalClock.Advance | bench/src/datasource-prefetch-bench.ts:66-80 | the loop takes the turns of a journey one by one until nothing is due, and then sets the time to the target; then exactly the tasks that nobody cancelled and whose time has come have fired, each at its own time |
| LogicalClock.LogicalClock.AdvanceAtPace | bench/src/datasource-prefetch-bench.ts:66-80 | with callbacks that wait for any positive pace, the advance ends at its target with nothing overdue, exactly the tasks not cancelled whose time has come have fired, each at its own time, and the firings of the whole log are in order |
| OrderStatistics.SortSorts | bench/src/check.ts:73 | sorting gives the same samples in ascending order |
| OrderStatistics.SortMonotone | bench/src/check.ts:73-77 | raising samples never lowers an order statistic |
| OrderStatistics.SortPermuted | bench/src/check.ts:73 | the order of the samples does not matter |
| OrderStatistics.SortScaled | bench/src/matched-formula-evidence.ts:92 | scaling by a positive factor commutes with sorting |
| OrderStatistics.SortInPlace | bench/src/check.ts:73 | sorting the array in place, by insertion, leaves the sorted samples |
| SampleRanks.SortRanks | bench/src/check.ts:73 | a sorted list has at each place the sample of that rank: no more samples are smaller, and more do not exceed it |
| SampleRanks.RankIsUnique | bench/src/check.ts:73 | there is one value of each rank |
| RandomDraws.Pick | bench/src/check.ts:71 | a draw always falls on a place inside the samples |
| Mulberry32.FollowsStep | bench/src/check.ts:52-57 | the generator's state after a draw continues the same stream |
| Mulberry32.SeededRandom.Next | bench/src/check.ts:50-58 | each call returns the next draw of the stream that the seed fixes |
| MedianBound.SeedForKey | bench/src/check.ts:60-67 | the loop computes FNV-1a over the key's code units in 32-bit arithmetic |
| MedianBound.SampleMedian | bench/src/check.ts:69-78 | one call takes exactly one draw for each sample and returns the median of the samples drawn |
| MedianBound.IndependentMedianDeltaLowerBound | bench/src/check.ts:86-119 | the bound with its errors, shortcut, two scratch arrays and sorted differences is that of the stream seeded by the key |
| MedianBound.ShortcutAgrees | bench/src/check.ts:98-105 | the shortcut for constant samples returns exactly what the full resampling loop would |
| MedianBound.BoundMonotone | bench/src/check.ts:86-119 | raising fresh samples or lowering baseline samples never lowers the bound |
| MedianBound.BoundWithin | bench/src/check.ts:86-119 | the bound lies between the least and the greatest possible difference of samples |
| MedianBound.LargerFamilyLowersBound | bench/src/check.ts:115-118 | a larger family never raises the bound |
| GateRanks.LowerIndexMeans | bench/src/check.ts:115-118 | for a family of m, the number of differences up to the chosen one is the least whole number from 1 on that is at least 200 when multiplied by m |
| GateRanks.BoundIsRanked | bench/src/check.ts:86-119 | at least that many of the 20 000 resampled differences do not exceed the bound, which is one of them, and fewer lie strictly below it, also where the shortcut is taken |
| GateRanks.MedianIsMiddle | bench/src/check.ts:74-77 | a median is the mean of the samples ranked in the middle by counting, which are one and the same for an odd number |
| GateRanks.DeltaDraws | bench/src/check.ts:69-112 | a difference is the median of fresh samples at the places where its first draws fall, minus that of baseline samples at the places of its next ones |
| GateRanks.GeneratorSamples | bench/src/dataset.ts:64-73 | first draws of both generators from well-known seeds; zero counts as one for the second |
| GateRanks.SeedSamples | bench/src/check.ts:60-67 | the seeds of two keys are the published FNV-1a values |
| PairedBootstrap.NeverZero | bench/src/matched-formula-evidence.ts:101-117 | from every seed, zero included, the generator's state is never zero |
| PairedBootstrap.RandomState.NextRandom | bench/src/matched-formula-evidence.ts:101-106 | each call returns the next draw of the stream that the seed fixes |
| PairedBootstrap.PercentilePermuted | bench/src/matched-formula-evidence.ts:91-97 | a percentile does not depend on the order of the samples |
| PairedBootstrap.PercentileWithin | bench/src/matched-formula-evidence.ts:91-97 | a percentile lies between the least and the greatest sample |
| PairedBootstrap.PercentileMonotone | bench/src/matched-formula-evidence.ts:91-97 | raising samples never lowers a percentile |
| PairedBootstrap.PercentileRises | bench/src/matched-formula-evidence.ts:91-97 | a higher percentile is not below a lower one |
| GateRanks.PercentileIsBetween | bench/src/matched-formula-evidence.ts:91-97 | a percentile lies between the samples of two neighbouring ranks, as far from the lower one as the position (n - 1) * p says |
| GateRanks.PercentileOfNumbers | bench/src/matched-formula-evidence.ts:91-97 | of the numbers from 0 to n - 1 in any order, the percentile at p is (n - 1) * p |
| PairedBootstrap.DeltaScaled | bench/src/matched-formula-evidence.ts:98-100 | multiplying every time by c > 0 changes every percentile that is not zero by exactly (c - 1) * 100 percent |
| PairedBootstrap.RunBootstrap | bench/src/matched-formula-evidence.ts:107-130 | the nested loops take the same rounds for both sides and give the change and interval of the seeded stream, for all baselines by which no change is divided by zero |
| PairedBootstrap.PositiveDivides | bench/src/matched-formula-evidence.ts:98-100 | positive baseline times never lead to a division by zero, whatever is drawn |
| PairedBootstrap.IntervalOrdered | bench/src/matched-formula-evidence.ts:126-129 | the lower end of the interval is not above the upper end |
| GateRanks.IntervalEnds | bench/src/matched-formula-evidence.ts:126-129 | the ends of the interval lie at one fortieth and at thirty-nine fortieths of the way through the estimates, between the neighbouring ranks and exactly so far between them |
| GateRanks.EstimateDraws | bench/src/matched-formula-evidence.ts:118-125 | an estimate compares the percentiles of both sides over the same rounds, which are the draws' remainders |
| PairedBootstrap.ScaledPairsAreExact | bench/src/matched-formula-evidence.ts:107-130 | when every candidate time is c > 0 times its baseline time, the change and both ends of the interval are exactly (c - 1) * 100 |
| PairedBootstrap.EvidenceMonotone | bench/src/matched-formula-evidence.ts:107-130 | slower candidate times never lower the change or either end of its interval |
| PairedBootstrap.NeverSlowerPasses | bench/src/matched-formula-evidence.ts:220-233 | a candidate never slower than its pair is never reported as a regression |
| PairedBootstrap.AlwaysSlowerFails | bench/src/matched-formula-evidence.ts:220-233 | a candidate slower by at least some factor in every pair is always reported |
| LogicalBytes.RealPathIs | scripts/size-report.ts:372-374 | a path resolves to an entry if and only if a chain of links leads to it and it is no link; dangling and looping links do not resolve |
| LogicalBytes.TotalWith | scripts/size-report.ts:388-391 | the total size of a set of files does not depend on the order in which they are added |
| LogicalBytes.Walk.Visit | scripts/size-report.ts:370-392 | a visit terminates, only adds what the root reaches, and either covers the entry or has met a link that cannot be followed |
| LogicalBytes.Walk.VisitDirectory | scripts/size-report.ts:377-385 | a directory is entered once; when it is left all its entries are done with, up to directories still open |
| LogicalBytes.WalkLogicalBytes | scripts/size-report.ts:364-396 | the walk fails if and only if there is no root or a link it reaches cannot be followed, and else returns exactly the size sum and number of the distinct files that the root reaches |
| LogicalBytes.OrderDoesNotMatter | scripts/size-report.ts:381-383 | listing directories in another order, or an entry several times, changes nothing |
| ChecksumBytes.ValueRoundTrip | bench/src/dataset.ts:168-196 | what the stream keeps of a value is read back from its bytes, whatever follows |
| ChecksumBytes.StreamRoundTrip | bench/src/dataset.ts:220-223 | the whole stream is read back: the count, that many values, and nothing left over |
| ChecksumBytes.StreamsEqualIffKeptEqual | bench/src/dataset.ts:187-223 | two streams, of whatever length, are equal if and only if the values agree in what is kept of them: texts, truth values, absence, and cents modulo 2^32 |
| Checksum.SuffixInjective | bench/src/dataset.ts:164-166 | different hashes stay different when the same bytes follow, as the prime is odd |
| Checksum.OneByteChangeDetected | bench/src/dataset.ts:164-166 | two streams of equal length that differ in one byte never have the same hash |
| Checksum.HashInteger | bench/src/dataset.ts:168-175 | an integer is hashed as its low 32 bits, least significant byte first, negative numbers included |
| Checksum.HashString | bench/src/dataset.ts:177-185 | a text is hashed as tag, length and every code unit, low byte first |
| Checksum.HashLogicalValue | bench/src/dataset.ts:187-196 | a value is hashed as the bytes from which it can be read back |
| Checksum.FormatInjective | bench/src/dataset.ts:198-200 | two checksums print alike if and only if the hashes are equal |
| Checksum.LogicalValueChecksum | bench/src/dataset.ts:220-224 | the loop hashes the count and every value behind a separator |
| DatasetFacts.FormatMeans | bench/src/dataset.ts:198-200 | a checksum is printed as its name and eight hexadecimal digits, whose value is the hash |
| DatasetFacts.StreamSample | bench/src/dataset.ts:168-223 | the stream of four values of all kinds, byte by byte |
| Dataset.ToAoA | bench/src/dataset.ts:153-159 | the loop fills the array with the rows of the dataset in column order |
| Dataset.DatasetChecksum | bench/src/dataset.ts:207-217 | hashing straight from the columns gives the checksum of the row-major form, which is never built |
| Dataset.BytesDetermineDataset | bench/src/dataset.ts:207-217 | for amounts and identifiers of whole cents in 32 bits, the hashed bytes determine the number of rows and every cell |
| Dataset.MakeColumnar | bench/src/dataset.ts:99-119 | the loop draws amount, city and day for each row in this order and fills the five columns accordingly |
| DatasetFacts.AmountMeans | bench/src/dataset.ts:111-112 | an amount is a whole number of cents from 0 to 10 000, the nearest to the draw's part of 2^32 |
| DatasetFacts.PoolsMean | bench/src/dataset.ts:113-114 | city and day are as far into their pools as the row's second and third draw are into 2^32 |
| DatasetFacts.CustomerMeans | bench/src/dataset.ts:115 | a customer's name ends in the decimal digits of its number, filled up with zeros to six |
| Dataset.BytesDetermineGenerated | bench/src/dataset.ts:99-119 | the hashed bytes determine a generated dataset of any size that an array can have |
| Dataset.GeneratedIsRecoverableIff | bench/src/dataset.ts:99-119 | the identifiers can be read back from the hashed bytes one by one if and only if there are at most 42 949 672 rows |
| Dataset.IdentifiersClashIff | bench/src/dataset.ts:168-191 | two row numbers are hashed alike if and only if they are equal modulo 2^30 |
| Dataset.CustomersDiffer | bench/src/dataset.ts:115 | no two rows get the same customer, also when the number outgrows its padding |
| Sheet.EvalAgrees | bench/src/formula-bench.ts:499-510 | a formula's value depends only on the cells it reads |
| Sheet.PrecedentsDetermine | bench/src/formula-bench.ts:512-527 | sheets that agree on the entered precedents of a cell agree on the cell |
| Sheet.ValuesUnique | bench/src/formula-bench.ts:499-510 | a sheet without circular references has at most one consistent valuation |
| Sheet.FullIsConsistent | bench/src/formula-bench.ts:499-510 | evaluating what a cell reads before the cell gives such a valuation |
| Sheet.EditIsLocal | bench/src/formula-bench.ts:512-527 | an edit outside a cell's transitive precedents leaves its value unchanged |
| Sheet.IncrementalEqualsFull | bench/src/formula-bench.ts:512-544 | evaluating only the dependents of an edit gives what evaluating everything would |
| FormulaTopologies.DiamondFormulas | bench/src/formula-dataset.ts:30-41 | the loop pushes the three formulas of each level in order |
| FormulaTopologies.DependencyClosureFormulas | bench/src/formula-dataset.ts:61-68 | the loop fills every place of the array with the two formulas of its row |
| FormulaTopologies.DiamondOutput | bench/src/formula-bench.ts:263-267 | the loop applies the level recurrence once for each level, from 2 |
| FormulaTopologies.DiamondClosedForm | bench/src/formula-bench.ts:263-267 | the recurrence has the closed form (start + 3) * 2^levels - 3 |
| FormulaTopologies.CheckedHasValues | bench/src/formula-bench.ts:499-591 | every workload's sheet can be evaluated, so the oracle speaks of values that exist |
| FormulaTopologies.ChainValue | bench/src/formula-dataset.ts:13-18 | row by row the chain adds one to the source |
| FormulaTopologies.DiamondLevels | bench/src/formula-dataset.ts:30-41 | the join of each level has the value of the recurrence for that many levels |
| FormulaTopologies.OracleHolds | bench/src/formula-bench.ts:269-325 | for eight workloads and every size, every consistent valuation of the generated and edited sheet shows the expected output, except exactly the two that read first and last row of a single one |
| FormulaTopologies.ClosureEditIsLocal | bench/src/formula-dataset.ts:60-68 | editing column A of one row leaves every other row as it was |
| FormulaOracles.SumProductOracle | bench/src/formula-bench.ts:304-305 | the edited product sum is 11 n + 4 if and only if 10 divides n |
| FormulaOracles.DigitSum | bench/src/formula-bench.ts:795-823 | the edited product sum for every n, from full tens and the rows after them |
| FormulaOracles.SumIfOracle | bench/src/formula-bench.ts:298-299 | the edited criteria sum is n - floor(n / 2) + 1 if and only if there are at least two rows |
| FormulaOracles.MultiCriteriaOracle | bench/src/formula-bench.ts:308-309 | the edited sum over two criteria is 0.75 n - 1 if and only if 4 divides n |
| FormulaOracles.PercentileCovarianceOracle | bench/src/formula-bench.ts:312-313 | the interpolated 0.9 percentile plus the population covariance is (n^2 - 1) / 6 + 0.9 n + 0.1 for every n |
| JsonPointer.UnescapeEscape | scripts/formula-contract.ts:61 | the two replacements, in this order, undo the escaping of section 4 of RFC 6901 for every key |
| JsonPointer.OrderOfReplacementsMatters | scripts/formula-contract.ts:61 | in the other order they would not |
| JsonPointer.ResolveJsonPointer | scripts/formula-contract.ts:57-68 | the loop follows the unescaped parts one by one, and fails for an unsupported or unresolved reference |
| JsonPointer.ReferenceResolves | scripts/formula-contract.ts:57-68 | the reference written for a list of keys leads where the keys lead, whatever characters they hold |
| JsonPointer.PrototypeEnds | scripts/formula-contract.ts:62-65 | "__proto__" leads from an object to its prototype, and from there to null |
| FormulaSchema.TypeIssue | scripts/formula-contract.ts:91-99 | the filtered list of declared types finds a value wrong if and only if types are declared and none of them fits |
| FormulaSchema.DistinctBySize | scripts/formula-contract.ts:122-125 | comparing the size of the set with the length finds exactly the lists with a duplicate |
| SchemaKeywords.TypeFits | scripts/formula-contract.ts:40-55 | which names of types fit, kind by kind and for all names: a value fits the name of its kind alone, and whole numbers in the safe range fit "integer" as well |
| SchemaKeywords.TypeAlone | scripts/formula-contract.ts:91-102 | a schema that declares one type alone gives exactly one issue, of a wrong type, for the values of other kinds, and none for those of that kind, apart from objects with inherited names |
| SchemaKeywords.KeywordByKeyword | scripts/formula-contract.ts:85-150 | a value satisfies a node without a reference if and only if it obeys every keyword written there, each by itself and as a schema's author reads it, and every field obeys its own node or the additional properties |
| SchemaKeywords.ReferenceMeans | scripts/formula-contract.ts:81-84 | a reference, whatever stands beside it, asks what the node asks to which its keys lead |
| SchemaKeywords.IssuesExactlyFaults | scripts/formula-contract.ts:70-151 | the issues of a run that no unresolved reference ended are exactly the faults: each path leads to a part, checked against the node that references, items and properties lead to, which breaks the keyword that the issue names; and no such fault is missing |
| FormulaSchema.RunCleanIffSatisfied | scripts/formula-contract.ts:70-151 | the interpreter terminates for acyclic reference chains, and adds no issue and does not fail if and only if the value satisfies the keywords of the node, at every depth |
| FormulaSchema.RankedIffChainsEnd | scripts/formula-contract.ts:81-84 | reference chains are acyclic in this sense if and only if each of them ends; one that leads around is followed for ever |
| SchemaValidator.ValidateSchemaNode | scripts/formula-contract.ts:70-151 | issues are only appended behind those already there, in the specification's order, until an unresolved reference ends the validation |
| SchemaValidator.ValidateAgainstFormulaSchema | scripts/formula-contract.ts:153-158 | the list of issues is empty if and only if the value satisfies the schema, and unless a reference cannot be resolved it holds exactly the faults of the value, each with the path to it |
| SchemaNames.OwnFieldsOnly | scripts/formula-contract.ts:62-144 | for values and schemas without inherited names, looking names up in the prototype too makes no difference |
| SchemaNames.RequiredAgreesIff | scripts/formula-contract.ts:134-141 | required fields and their number are judged as over own fields, unless exactly when enough properties are there, some required name is absent, and all absent ones are inherited; then the object passes |
| SchemaNames.ChildAgreesIff | scripts/formula-contract.ts:142-149 | a field is checked as over own properties if and only if its name is not inherited or is listed in the properties |
| SchemaNames.InheritedFieldHolds | scripts/formula-contract.ts:142-144 | a field whose name is inherited and not listed is refused whatever the schema allows, except "__proto__", which is checked as by an empty schema |
| SchemaNames.InheritedNameCountsAsPresent | scripts/formula-contract.ts:134-138 | a required field with an inherited name counts as present in every object |
| SchemaNames.InheritedNameIsRefused | scripts/formula-contract.ts:142-144 | a field with an inherited name is refused by a schema that says nothing of it |
| SchemaNames.TextComparisonIsRightIff | scripts/formula-contract.ts:36-38 | for a constant without repeated keys, comparing texts is equality of JSON values against every other value if and only if it has no object of several fields at any depth |
| SchemaNames.Reorder | scripts/formula-contract.ts:36-38 | every other constant is the same JSON value as one that is written differently |
| SchemaNames.IntegersAreSafe | scripts/formula-contract.ts:48-49 | a whole number passes as an integer if and only if it is in the safe range |
| GridWindows.UniformStarts | bench/src/billion-cell-bench.ts:502-505 | positions start at 0, end at the maximum, never go back, and strictly ascend when there is room for all |
| GridWindows.RoomNeeded | bench/src/billion-cell-bench.ts:502-505 | positions that differ for all indices need that much room |
| GridWindows.WindowInGrid | bench/src/billion-cell-bench.ts:496-511 | every window is twenty strictly ascending columns of the grid, the two frozen ones first |
| GridWindows.WindowPlace | bench/src/billion-cell-bench.ts:496-511 | behind the two frozen columns a window has eighteen columns in a row, which start at the index's share of what is left, rounded down; the first window starts at the frozen columns, and the last ends with the grid |
| GridWindows.EditsAreDistinct | bench/src/billion-cell-bench.ts:858-862 | the hundred edits go to different rows |
| GridWindows.ChurnVisitsEachOnce | bench/src/billion-cell-bench.ts:513-525 | multiplying by a factor that can be undone modulo 100, and shifting, visits no row or window twice |
| GridWindows.ChurnVisitsAll | bench/src/billion-cell-bench.ts:513-525 | and leaves none out |
| GridWindows.MultipliersPermute | bench/src/billion-cell-bench.ts:513-525 | 17, 73 and 37 permute the hundred ordinals, whatever the shift: no ordinal is visited twice, and none is left out |
| GridWindows.DiagonalPlace | bench/src/billion-cell-bench.ts:513-525 | a tile of 120 rows lies in the grid, at its ordinal's share of the rows that are left |
| GridWindows.ChurnTilesDiffer | bench/src/billion-cell-bench.ts:513-525 | the tiles of a churn start at different rows when the grid has at least 219 |

## Left out

- IEEE 754 rounding: samples, percentiles, times and sums are exact reals or integers. So `1 - 0.99` is 0.01 exactly in the choice of the order statistic, amounts and cents are exact, and counts beyond 2^53 do not lose digits.
- The spreadsheet engine: formulas are terms over references, `+`, constants and `SUM`, and the named aggregates are functions on columns; the text of a formula, its parser and the WASM store are not part of this model.
- Input, output and processes: files, git, npm, the host and its commands are state with atomic steps; asking the registry and npm's own errors beyond a refused or unanswered publication are not distinguished.
- The waiting and retrying of `verifyPublishedArtifacts`, the reading of provenance documents, and all hash functions but FNV-1a, which are left to the registry's and the host's state.
- Flat checks of a manifest's fields (paths, sizes, file lists, digests, version syntax), of the size report, of benchmark artifacts and of `validateClosedSchema`, each settled by one branch.
- Texts of error messages: errors are constructors or short reasons, and the order in which errors win is modelled, their wording is not.
- Import scanning by regular expression and path resolution: the import graph is given.
- Formula workloads with lookups, spills, cross-sheet ranges, text, `LET` and finance, and `SUMPRODUCT` over a matrix.
- PublishRun.PublishArtifactsIdempotently: one run alone on the registry, which answers truthfully unless a command fails; overlapping and crashing runs and stale queries are the steps of `PublishProtocol`, whose steps this run is shown to take.
- ReleaseManifest.ChecksGiveOrder: assumes that the dependencies a manifest records are among those the workspace declares for the package, as the code that writes the manifest takes them from there.
- ReleaseManifest.ValidateReleaseManifest: the part on order, names and internal dependencies only; the texts that inherited values turn into when compared are a parameter, and are taken not to be numerals.
- PackageTags.Host.EnsurePackageReleases: packages have tags of their own, as the parser of the list guarantees (`ReleaseIdentities.AcceptedTagsAreDistinct`), and the checkout starts with no tag that the host lacks.
- TagHistory.PerformRuns: runs follow each other, each from a fresh checkout; two tagging runs at the same time are not modelled.
- LcovMergeLoop.MergeLcovRecords: `localeCompare` is any total preorder of paths, without its collation rules; that composed and decomposed accents compare equal is a hypothesis of `LcovOrder.AccentsDependOnOrder`.
- LcovFormat.ParseLcov: line numbers and counts are unbounded, so rounding beyond 2^53 and the refusal of numbers too large for a double are not modelled.
- LcovPaths.NormalizeIdempotent: paths with "/" as separator, so not Windows, and a repository root without empty or dot segments.
- CanonicalJson.CanonicalIffSame: numbers are decimals with the digits that the host prints; that these digits determine the floating-point number is the host's part.
- CanonicalJson.ReadPrinted: the reader is for printed texts; it also takes some texts that are not JSON, such as a trailing comma, and no blanks. That printed texts are JSON is `JsonGrammar.CanonicalIsJson`.
- ClockAdvance.AdvanceEnds: callbacks are deterministic functions of what happened so far, with delays that are not negative, and act between two turns; advances do not overlap.
- LogicalClock.LogicalClock.Advance: an advance that ends, as some advances with zero delays do not; its journey is a ghost argument, which `LogicalClock.LogicalClock.AdvanceAtPace` obtains itself when callbacks wait.
- PairedBootstrap.RunBootstrap: resamples with a baseline percentile of zero, whose change is infinite or not a number, are not modelled; both sides have as many rounds, as both are collected from the same rounds.
- PairedBootstrap.NeverSlowerPasses: for one percentile; the gate on allocations is left out.
- LogicalBytes.WalkLogicalBytes: a tree that does not change while it is walked; hard links are files of their own, and the limit of the operating system on the length of link chains is not modelled.
- Checksum.HashLogicalValue: values of other kinds and non-finite numbers, which the code refuses, are not values of the model.
- Dataset.MakeColumnar: the pools of cities and days are parameters, without the calendar that produces the days.
- FormulaSchema.RunCleanIffSatisfied: `pattern` and `uri` are predicates, the length of a string is that of a Dafny string, and properties of one object that read like array indices are not moved to the front.
- FormulaSchema.DistinctBySize: items are compared as the same value, which is comparing their texts when field order counts.
- SchemaNames.OwnFieldsOnly: a sufficient condition on the names in a whole value and schema; for a required name and for a field the conditions are exact (`SchemaNames.RequiredAgreesIff`, `SchemaNames.ChildAgreesIff`).
- GridWindows.EditsAreDistinct: for grids of at least 100 rows; the traffic counters and the datasource are not part of this model.
