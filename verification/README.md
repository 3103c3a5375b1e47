# A verified model of GuardianBot's control-plane algorithms

GuardianBot reviews pull requests, collects scanner evidence and gates releases. Most of
that is plumbing around services; this project models the parts that decide something on
their own and proves what they promise.

| files | what they model |
|---|---|
| `RepositoryIndex`, `FetchWorkers` | refreshing the default-branch index, in full or from a previous head, with concurrent reads under a byte budget |
| `EditDistance`, `VersionOrder`, `SbomIndex`, `SbomDiff`, `Typosquat`, `SbomReport` | the SBOM difference: bounded edit distance, version order, component index, change and downgrade signals, typosquat search, and the whole from two documents to the report |
| `PathGlob`, `FindingRecords`, `Observations`, `FindingsLifecycle`, `FindingStreams` | the finding lifecycle: ownership globs, watermarked merge of scanner runs, capacity eviction, and what all runs converge to |
| `ReleaseGatePolicy`, `ReleaseGate`, `ReleaseGateEvaluator` | the release gate: policy parsing, the gate's meaning and its monotonicity, the evaluator |
| `ZipFormat`, `ArchivePath`, `ZipArchive`, `ZipRoundTrip` | the hand-written ZIP reader of evidence archives |
| `CanonicalJson`, `CanonicalIdentity`, `EvidenceManifest`, `AttestationLimiter` | the canonical JSON a manifest digest is taken of, the manifest parser, the 60-second limiter |
| `UnifiedDiff`, `PatchApplication` | the two unified-diff line counters and the files a patch connects |
| `ReviewFindings`, `ReviewRuns` | the advisory finding lifecycle, one update at a time and over whole runs |
| `ReviewBundle` | greedy selection of review input under budgets |
| `RemediationDraft` | the remediation draft validator and its line splice |
| `Wrappers`, `Sorting`, `Texts` | optional values, a stable sort, strings as UTF-16 code units |

Code that walks, accumulates or updates in place is a method with loops, or a class, proved
against a specification; code made of expressions is functions with lemmas about them.
`dafny verify dfyconfig.toml` checks everything.

## Conventions

- A string is a sequence of UTF-16 code units and an array of bytes a sequence of integers
  below 256. Integers are unbounded; where the source bounds one, so does the model.
- `localeCompare` is modelled as the order by code unit. The default sort, which orders the
  keys of canonical JSON, is that order in JavaScript too.
- Hashes, inflate, UTF-8 decoding, the lower-casing of signer identities, the model's
  answers, file reads, the compare response, the clock and the well-known package table are
  arguments.

## Results that differ from what one might expect

- **The incremental refresh can publish more than the byte budget.** The budget is applied to
  what one refresh reads, not to the index. `RepositoryIndex.IncrementalIsFaithful` holds
  without it, `RepositoryIndex.IncrementalExactIff` says exactly when the refreshed index equals
  the full rebuild, and `RepositoryIndex.IncrementalCanExceedBudget` is a head where it does not.
- **A stale save takes a merge back.** A review reads a row once; if the head moves after its
  merge is saved, the stale save starts again from that read. First sightings and dismissals
  survive (`ReviewRuns.RetainedKeeps`), but findings first reported by the merge vanish
  (`ReviewRuns.StaleErasesMerge`), and the counters of a retained record go back exactly when the
  merge reopened it and the stale save keeps it (`ReviewRuns.StepKeeps`);
  `ReviewRuns.ReopeningUndone` is such a run. A record the merge closed is closed again by the
  stale save with the same counters, so closing alone does no harm.
- **The order of delivery can matter.** A stream whose highest-ordered run observed it completely
  converges to that run. If that run was incomplete, all orders agree exactly when it reports
  whatever any delivery reports (`FindingStreams.OrderIrrelevantExactly`);
  `FindingStreams.IncompleteOrderMatters` has two deliveries whose order matters.
- **Moving between streams can open a new episode.** When one run first observes completely the
  only stream that carried a finding and then reports it in another, the finding's episode, and
  with it the due date, starts again; in the other order it does not
  (`FindingsLifecycle.EpisodeDependsOnOrder`; `FindingsLifecycle.ReportedRecord` has the exact condition).
- **A newline in a version hides a change.** Version lists are compared after joining them with
  newlines, so they coincide exactly when they have the same lines
  (`SbomDiff.JoinTellsLinesApart`, and `SbomDiff.ChangedExactly` for documents);
  `SbomDiff.NewlineHidesChange` has two documents whose versions differ and whose difference
  reports nothing.
- **Lines that begin with three marks are read as context.** `PatchApplication.ExactIffHarmless`
  gives the exact condition under which the counters are still right, and
  `PatchApplication.TripledLineIsLost` a patch whose only addition is not counted.
- **The ZIP reader does not check the CRC** and ignores what lies between the payloads, so
  `ZipRoundTrip` leaves those bytes arbitrary.

## Model

| member | source | states |
|---|---|---|
| `RepositoryIndex.SelectedPrefers` | apps/control-plane/src/repository-index-service.ts:284-299 | a supported file is left out only when the index is full, and then every file taken has a better priority, or the same priority and an earlier path |
| `RepositoryIndex.PlansExactly` | apps/control-plane/src/repository-index-service.ts:428-508 | a refresh is incremental exactly when the published commit is another one of 7 to 40 hexadecimal digits with an index of the same repository and embedding, the response says ahead and lists fewer than 300 files, and few enough files must be re-read; what is re-read are the selected paths it names under either name and those the index lacks |
| `RepositoryIndex.IncrementalIsFaithful` | apps/control-plane/src/repository-index-service.ts:322-376 | given that a response that says ahead with fewer than 300 files names every path whose read differs, from a faithful previous index an incremental refresh holds only selected paths with their content at the new head, whatever their sizes |
| `RepositoryIndex.IncrementalEqualsFull` | apps/control-plane/src/repository-index-service.ts:310-376 | when the selected bytes fit the budget, an incremental refresh publishes exactly the full rebuild: every readable selected path with its content |
| `RepositoryIndex.EveryRunPublishesFaithfully` | apps/control-plane/src/repository-index-service.ts:237-420 | after any sequence of full and incremental refreshes, every published index is faithful and, where its commit fits the budget, equal to a full rebuild |
| `RepositoryIndex.PublishedUnlessRefused` | apps/control-plane/src/repository-index-service.ts:325-366 | a readable selected path is missing from an incremental index exactly when the re-reads refuse it for lack of budget |
| `RepositoryIndex.PassesAgree` | apps/control-plane/src/repository-index-service.ts:781-793 | while the budget guard of the full pass carries over to the re-reads, re-reading uses no more bytes and refuses nothing that the full pass keeps |
| `RepositoryIndex.IncrementalExactIff` | apps/control-plane/src/repository-index-service.ts:322-376 | without the budget assumption: equal to the full rebuild if and only if, for every selected file at which the full pass's budget guard fires, the file is re-read and the guard fires at it among the re-reads too |
| `RepositoryIndex.IncrementalCanExceedBudget` | apps/control-plane/src/repository-index-service.ts:781-793 | a head whose incremental index holds a file the full rebuild refuses |
| `RepositoryIndex.PartialIffSomethingSkipped` | apps/control-plane/src/repository-index-service.ts:399-405 | a refresh is complete exactly when no candidate was cut and every read loaded |
| `RepositoryIndex.SkipsAdd` | apps/control-plane/src/repository-index-service.ts:328-341 | each read that did not load is counted once under its own kind, wherever it stands |
| `RepositoryIndex.RepositoryIndexService.PlanRefresh` | apps/control-plane/src/repository-index-service.ts:428-508 | the loop over the compare response and the selected paths grows exactly the planned set of changed paths, or declines |
| `RepositoryIndex.RepositoryIndexService.ReadFiles` | apps/control-plane/src/repository-index-service.ts:325-341 | reads are sorted into the map of loaded files and one skip count each |
| `RepositoryIndex.RepositoryIndexService.Refresh` | apps/control-plane/src/repository-index-service.ts:237-420 | the published state after a refresh, the reported counts, and that a head that is not 40 lower-case hexadecimal digits, or an abort, publishes nothing |
| `FetchWorkers.EveryStepIsProgress` | apps/control-plane/src/repository-index-service.ts:755-779 | every step of every worker reduces the remaining work by one |
| `FetchWorkers.EverySchedule` | apps/control-plane/src/repository-index-service.ts:753-779 | under every interleaving the workers finish, each index is claimed exactly once and in order, and result i is the read of candidate i |
| `FetchWorkers.LoadedBytesAdd` | apps/control-plane/src/repository-index-service.ts:781-793 | the bytes of a loaded read count once towards the budget, wherever it stands, and no other read counts |
| `FetchWorkers.BudgetIsGreedy` | apps/control-plane/src/repository-index-service.ts:781-793 | the ordered budget pass keeps at most the budget and refuses a read exactly when it does not fit beside those kept before it |
| `FetchWorkers.EverythingFits` | apps/control-plane/src/repository-index-service.ts:781-793 | reads that fit together are all kept |
| `FetchWorkers.FetchAll` | apps/control-plane/src/repository-index-service.ts:753-779 | the worker loop fills the results with every read, whatever schedule it meets |
| `FetchWorkers.ReadIndexedFiles` | apps/control-plane/src/repository-index-service.ts:745-793 | the reads returned are the budget pass over the candidates' reads, independent of the schedule |
| `EditDistance.DistanceIsLeastScriptCost` | packages/core/src/sbom-diff.ts:291-335 | the recurrence is the least cost of an edit script of insertions, deletions, replacements and adjacent swaps |
| `EditDistance.DistanceSymmetric` | packages/core/src/sbom-diff.ts:291-335 | the distance is the same both ways |
| `EditDistance.DistanceZeroIffEqual` | packages/core/src/sbom-diff.ts:291-335 | the distance is zero exactly for equal strings |
| `EditDistance.DistanceAtLeastLengthGap` | packages/core/src/sbom-diff.ts:304-305 | the distance is at least the difference in length, so the early answer on lengths is right |
| `EditDistance.RowMinimaNeverShrink` | packages/core/src/sbom-diff.ts:325-331 | once a row lies above the bound every later row does, although a swap reaches back two rows |
| `EditDistance.NextRow` | packages/core/src/sbom-diff.ts:308-330 | one pass of the inner loop computes the next row and its minimum |
| `EditDistance.BoundedEditDistanceWithWork` | packages/core/src/sbom-diff.ts:295-335 | the result is the smaller of the distance and the bound plus one, for every bound, in at most one unit of work per pair of positions |
| `VersionOrder.VersionTokens` | packages/core/src/sbom-diff.ts:342-348 | a version that can be compared has tokens, and the first of them is a number |
| `VersionOrder.TokensOfTight` | packages/core/src/sbom-diff.ts:342-347 | a trimmed text reads as a version exactly when it starts with a digit, or with v or V and a digit, and its tokens are those from that digit on |
| `VersionOrder.TokensSpellText` | packages/core/src/sbom-diff.ts:346 | the tokens of a text, joined, are its digits and letters in order: none is lost, invented or moved |
| `VersionOrder.TokensBreak` | packages/core/src/sbom-diff.ts:346 | a text breaks into tokens wherever a digit, a letter and any other character meet, and the tokens are those of the two parts |
| `VersionOrder.DigitsAreOneToken` | packages/core/src/sbom-diff.ts:346-347 | digits in a row are one numeric token |
| `VersionOrder.LettersAreOneToken` | packages/core/src/sbom-diff.ts:346-347 | letters in a row are one token that is not numeric |
| `VersionOrder.TokensIgnoreWhitespace` | packages/core/src/sbom-diff.ts:344 | surrounding whitespace does not change the tokens of a version |
| `VersionOrder.TokensIgnoreV` | packages/core/src/sbom-diff.ts:344 | one leading v or V before a digit does not change them |
| `VersionOrder.VersionsTotal` | packages/core/src/sbom-diff.ts:355-379 | any two versions compare one way or are level |
| `VersionOrder.VersionsTransitive` | packages/core/src/sbom-diff.ts:355-379 | the order is transitive, with the end of a version between words and numbers |
| `VersionOrder.LevelIffSameUpToLeadingZeros` | packages/core/src/sbom-diff.ts:355-379 | versions are level exactly when their tokens agree up to leading zeros |
| `VersionOrder.CompareTokens` | packages/core/src/sbom-diff.ts:359-378 | the index loop decides the order on token lists |
| `VersionOrder.CompareComponentVersions` | packages/core/src/sbom-diff.ts:355-379 | the sign returned is the order, and absent exactly when a version has no tokens |
| `VersionOrder.DowngradesAreOneWay` | packages/core/src/sbom-diff.ts:416-428 | no pair of versions is a downgrade in both directions |
| `VersionOrder.LaterPartDecides` | packages/core/src/sbom-diff.ts:355-379 | versions with the same text up to a part after a separator go by that part, whatever follows: a word is lower than no part, no part lower than a number, words go by their first difference and numbers by value |
| `PathGlob.TokensExactly` | apps/control-plane/src/findings-lifecycle.ts:211-227 | every pattern has exactly one reading: it spells the pattern, takes `*` and `?` for wildcards only, and pairs stars from the left |
| `PathGlob.AcceptsExactly` | apps/control-plane/src/findings-lifecycle.ts:208-264 | what a pattern accepts, in its text: leading slashes are dropped, nothing is accepted without a rest, a rest without a slash may also match after any slash of the path, after a final slash anything follows, and `*` and `?` do not cross a slash while `**` does |
| `PathGlob.ReachesPastRepeat` | apps/control-plane/src/findings-lifecycle.ts:232-257 | what the language of a repeating token allows, one code unit at a time |
| `PathGlob.StepReachesState` | apps/control-plane/src/findings-lifecycle.ts:241-262 | one left-to-right closure pass marks exactly the reachable states |
| `PathGlob.Tokenize` | apps/control-plane/src/findings-lifecycle.ts:211-228 | the tokens of a pattern, with `**` read as one token and a trailing slash standing for everything below |
| `PathGlob.Closure` | apps/control-plane/src/findings-lifecycle.ts:232-237 | the in-place pass closes the state set over repeating tokens |
| `PathGlob.Step` | apps/control-plane/src/findings-lifecycle.ts:243-261 | consuming one code unit takes the reachable states to the reachable states |
| `PathGlob.PathMatchesPattern` | apps/control-plane/src/findings-lifecycle.ts:197-264 | a path matches exactly when it, or for an unanchored pattern a suffix of it after a slash, lies in the pattern's language |
| `FindingRecords.EvictionPartitions` | apps/control-plane/src/findings-lifecycle.ts:680-714 | kept, retired and dropped records partition the table, and kept ones are unchanged |
| `FindingRecords.OnlyFixedRetired` | apps/control-plane/src/findings-lifecycle.ts:686-701 | only fixed records without an open ticket retire, and nothing is dropped while one could |
| `FindingRecords.EvictionMeetsBound` | apps/control-plane/src/findings-lifecycle.ts:680-714 | the final size is the smaller of the size and the bound, and no more is lost than the overflow |
| `FindingRecords.CriticalLossExact` | apps/control-plane/src/findings-lifecycle.ts:661-714 | the open Critical or High findings lost are exactly those over the bound |
| `FindingRecords.CriticalLossMinimal` | apps/control-plane/src/findings-lifecycle.ts:661-714 | no way of keeping that many records loses fewer of them |
| `FindingRecords.DroppedIsNotWorthMore` | apps/control-plane/src/findings-lifecycle.ts:661-714 | no record is dropped that is worth more than one kept: open Critical or High ones first, then open ones, then the graver, then those known longer |
| `FindingRecords.RetiredAreFixedLongest` | apps/control-plane/src/findings-lifecycle.ts:686-699 | of the fixed records without a ticket the ones fixed longest retire |
| `FindingRecords.PrefixIsFirst` | apps/control-plane/src/findings-lifecycle.ts:692-711 | a prefix of the sorted records is the first so many of the table in that order |
| `FindingRecords.RecordTable.RemoveFirst` | apps/control-plane/src/findings-lifecycle.ts:692-712 | deleting from the map in sorted order removes the first so many of the pool and nothing else |
| `FindingRecords.RecordTable.RetireFixed` | apps/control-plane/src/findings-lifecycle.ts:684-699 | retires the longest-fixed records while over the bound |
| `FindingRecords.RecordTable.DropOverflow` | apps/control-plane/src/findings-lifecycle.ts:700-713 | drops what is still over the bound, in the drop order |
| `FindingRecords.RecordTable.EnforceBound` | apps/control-plane/src/findings-lifecycle.ts:680-714 | the table after the call is the eviction of the table before it |
| `Observations.CompleteMergeLosesNothing` | apps/control-plane/src/findings-lifecycle.ts:440-458 | a merged observation marked complete holds the fingerprints of 64 hexadecimal digits that any part reported for its stream, and no other |
| `Observations.CompleteExactly` | apps/control-plane/src/findings-lifecycle.ts:440-458 | a merged observation is complete exactly when every part is and together they report at most 500 valid fingerprints |
| `Observations.StreamOrderUnique` | apps/control-plane/src/findings-lifecycle.ts:441-450 | each stream observed appears once |
| `Observations.MergeObservations` | apps/control-plane/src/findings-lifecycle.ts:440-459 | the grouping loops yield one observation per stream: complete only if every part was and none was cut, findings first-reported and valid, at most 500 |
| `FindingsLifecycle.RunOrderIsTotal` | apps/control-plane/src/findings-lifecycle.ts:461-470 | a run is newer by a later start, at one start by a greater id, and then by a greater attempt; this orders runs totally |
| `FindingsLifecycle.MarksAfter` | apps/control-plane/src/findings-lifecycle.ts:546-560 | each stream a run names takes the run as its watermark unless a newer run has decided it, and the streams so decided are the ones returned as stale |
| `FindingsLifecycle.ReportedRecord` | apps/control-plane/src/findings-lifecycle.ts:562-603 | a reported finding carries the stream, keeps its first sighting, takes this run as its last, and opens a new episode exactly when it is new or the observations before its first report took every stream from it |
| `FindingsLifecycle.EpisodeDependsOnOrder` | apps/control-plane/src/findings-lifecycle.ts:562-610 | a finding that leaves its only stream and enters another in one run keeps its episode in one order of the two observations and starts a new one in the other |
| `FindingsLifecycle.UnreportedRecord` | apps/control-plane/src/findings-lifecycle.ts:604-610 | a finding no observation reports loses exactly the streams observed completely |
| `FindingsLifecycle.SettledMeans` | apps/control-plane/src/findings-lifecycle.ts:612-651 | a finding no stream carries is fixed since the run that found it so; any other is open or as an unexpired suppression says; the due date runs from the opening of its episode |
| `FindingsLifecycle.StepInvariant` | apps/control-plane/src/findings-lifecycle.ts:541-659 | a delivery keeps records keyed and fixed exactly when no stream reports them, and no watermark gives way to an older run |
| `FindingsLifecycle.StepOnStream` | apps/control-plane/src/findings-lifecycle.ts:541-651 | what a delivery does to one stream: a newer run replaces or extends its findings, an older one changes nothing |
| `FindingStreams.StreamOfRun` | apps/control-plane/src/findings-lifecycle.ts:541-651 | in every run a stream's watermark and findings are the fold of its own deliveries: outdated ones change nothing, complete ones replace, incomplete ones add |
| `FindingStreams.MarkIsHighest` | apps/control-plane/src/findings-lifecycle.ts:546-552 | whatever was delivered, the watermark is a run delivered for the stream than which no other is newer by start, id and attempt |
| `FindingStreams.MergeConverges` | apps/control-plane/src/findings-lifecycle.ts:541-651 | when the newest deliveries of a stream are complete and agree, its findings and watermark are theirs, after any order with any repeats and any other deliveries |
| `FindingStreams.DeliveryOrderIrrelevant` | apps/control-plane/src/findings-lifecycle.ts:541-651 | two stores that received the same deliveries in different orders have the same watermark for every stream and the same findings for every such stream |
| `FindingStreams.OpenSetIrrelevantToOrder` | apps/control-plane/src/findings-lifecycle.ts:636-651 | and then the same findings as not fixed |
| `FindingStreams.OrderIrrelevantExactly` | apps/control-plane/src/findings-lifecycle.ts:546-610 | all orders, and all orders with repeats, leave a stream alike if and only if nothing reports it, its highest-ordered delivery is complete, or that delivery reports whatever any delivery does |
| `FindingStreams.IncompleteOrderMatters` | apps/control-plane/src/findings-lifecycle.ts:604-610 | a complete older and an incomplete newer delivery that leave different findings in their two orders |
| `FindingStreams.FittingRun` | apps/control-plane/src/findings-lifecycle.ts:661-714 | deliveries that together mention no more findings than the bound run without loss in every order |
| `FindingsLifecycle.LifecycleStore.Observe` | apps/control-plane/src/findings-lifecycle.ts:562-610 | applying one observation in place: what it reports is carried, what a complete one omits is not |
| `FindingsLifecycle.LifecycleStore.MergeAccepted` | apps/control-plane/src/findings-lifecycle.ts:553-651 | the mutating merge realises the step relation |
| `FindingsLifecycle.LifecycleStore.Ingest` | apps/control-plane/src/findings-lifecycle.ts:524-659 | unless the run is enabled, of an active repository, a push or a schedule and of the default branch, nothing changes; otherwise the store takes one step, each named stream gets the newer of its watermark and the run, and the stale streams are those a newer run has decided |
| `SbomIndex.AcceptableExactly` | packages/core/src/sbom-diff.ts:224-267 | the limits on a document, by its chains of nested components: each ends in a well-formed component, what is nested there is a list, and no list is deeper than level 8 |
| `SbomIndex.FlattenExactly` | packages/core/src/sbom-diff.ts:224-267 | the components walked are exactly those some chain of nested components ends in |
| `SbomIndex.IndexIsUnion` | packages/core/src/sbom-diff.ts:253-267 | the index holds exactly the keys of the components, each with exactly the versions they carry |
| `SbomIndex.EntryNamedByFirst` | packages/core/src/sbom-diff.ts:253-265 | an entry has the name and ecosystem of the first component of its key, and no empty version |
| `SbomIndex.IndexSbom` | packages/core/src/sbom-diff.ts:210-272 | the recursive walk succeeds exactly for supported documents whose nesting, components and count are within the limits, and then indexes every component |
| `SbomDiff.DiffReverses` | packages/core/src/sbom-diff.ts:389-445 | swapping the documents swaps added with removed, keeps the changed keys and never leaves a downgrade both ways |
| `SbomDiff.AddedLessRemoved` | packages/core/src/sbom-diff.ts:398-445 | additions less removals is the change in size |
| `SbomDiff.JoinTellsVersionsApart` | packages/core/src/sbom-diff.ts:274-276 | sorted version lists without newlines join to the same text exactly when they hold the same versions |
| `SbomDiff.JoinTellsLinesApart` | packages/core/src/sbom-diff.ts:405-407 | for all lists of non-empty versions, the joined texts coincide if and only if the lists have the same lines |
| `SbomDiff.ChangedExactly` | packages/core/src/sbom-diff.ts:398-415 | a component of both documents is reported as changed exactly when the lines of its sorted versions differ, and only if the versions do |
| `SbomDiff.NewlineHidesChange` | packages/core/src/sbom-diff.ts:405-415 | two documents whose only component has different versions and whose difference is empty |
| `SbomDiff.CompareKey` | packages/core/src/sbom-diff.ts:398-428 | one component is classified as added, changed, downgraded or none |
| `SbomDiff.DiffComponents` | packages/core/src/sbom-diff.ts:389-445 | the lists returned are the added, removed and changed components in key order and exactly the downgraded ones |
| `Typosquat.KnownByEcosystem` | packages/core/src/sbom-diff.ts:470-481 | the known names of an ecosystem are exactly those of previous components and of the well-known table |
| `Typosquat.BucketEcosystems` | packages/core/src/sbom-diff.ts:484-496 | the buckets hold exactly the comparable known names of each ecosystem, by length |
| `Typosquat.SearchBucket` | packages/core/src/sbom-diff.ts:516-531 | one bucket is searched in order for the first near name, counting work |
| `Typosquat.SearchCandidate` | packages/core/src/sbom-diff.ts:508-532 | searching the buckets within the threshold of a name's length finds what searching every known name would |
| `Typosquat.FindTyposquats` | packages/core/src/sbom-diff.ts:470-543 | while neither cap fires the flagged components are exactly those near a known name, and the work never exceeds the cap by a whole pair |
| `SbomReport.DiffCycloneDxSboms` | packages/core/src/sbom-diff.ts:389-543 | from two documents to the report: it fails exactly when one cannot be indexed; else added, removed, changed and downgraded components are those of the two indexes, every flagged name is new and near a known one, and all such names are flagged unless a cap stops the search |
| `SbomReport.ComparedKeys` | packages/core/src/sbom-diff.ts:398-428 | changed and downgraded in terms of the two indexes, whatever order keys and versions are listed in |
| `SbomReport.SuspiciousMeans` | packages/core/src/sbom-diff.ts:504-532 | a component is searched for and matched exactly when its name is new, comparable, unknown in its ecosystem and near a known name |
| `ReleaseGatePolicy.ParseReleaseGatePolicy` | apps/control-plane/src/release-gate-policy.ts:262-327 | exactly the malformed policies are refused; an accepted one is in fixed order, keeps the mandatory values and adds what the document asks for |
| `ReleaseGatePolicy.UniqueSortedIncreasing` | apps/control-plane/src/release-gate-policy.ts:253-260 | parsed lists are strictly increasing in the fixed order |
| `ReleaseGatePolicy.InScopeMeans` | apps/control-plane/src/release-gate-policy.ts:351-366 | tags are in scope exactly when none contradicts the candidate and its digest, or lacking digests its commit, is named |
| `ReleaseGate.StricterPolicyNeverHelps` | apps/control-plane/src/release-gate-policy.ts:413-768 | more blocking severities, more required evidence or not excusing unverified findings never turn fail into pass |
| `ReleaseGate.MoreFindingsNeverHelp` | apps/control-plane/src/release-gate-policy.ts:666-747 | one more finding under a fresh id never turns fail into pass |
| `ReleaseGate.DeduplicationPrefers` | apps/control-plane/src/release-gate-policy.ts:666-677 | of the records with one id the first with the most acceptance detail is judged |
| `ReleaseGate.TagsOfTheLast` | apps/control-plane/src/release-gate-policy.ts:599 | the scope of a finding is decided by the tags of the last Test with its Test id, wherever that stands in the list |
| `ReleaseGate.OpenFindingBars` | apps/control-plane/src/release-gate-policy.ts:678-747 | an active, unmitigated and unaccepted finding at a blocking severity, under an id of its own and on a listed Test in scope, bars the release |
| `ReleaseGate.GatePassesExactly` | apps/control-plane/src/release-gate-policy.ts:413-768 | the gate passes exactly when each condition on the evidence, the scans, the records and every distinct finding holds of the raw fields |
| `ReleaseGateEvaluator.CheckSignature` | apps/control-plane/src/release-gate-policy.ts:468-487 | no blocker exactly when the signature is bound to the digest and the trusted identity, else the right one of two |
| `ReleaseGateEvaluator.CheckDeployedRescan` | apps/control-plane/src/release-gate-policy.ts:539-586 | no blocker exactly when the deployed digest is known to be freshly and fully rescanned |
| `ReleaseGateEvaluator.CheckEvidence` | apps/control-plane/src/release-gate-policy.ts:468-586 | no blocker exactly when the evidence is satisfied, and which code is raised when |
| `ReleaseGateEvaluator.ScopeTests` | apps/control-plane/src/release-gate-policy.ts:604-622 | the per-scan-type counts tell whether a Test is in scope or stale |
| `ReleaseGateEvaluator.CheckStaleScans` | apps/control-plane/src/release-gate-policy.ts:633-651 | stale scan types are split into proven and unproven, and exactly the unproven block |
| `ReleaseGateEvaluator.CheckScope` | apps/control-plane/src/release-gate-policy.ts:623-664 | no scope blocker exactly when every stale scan is proven and both sources are covered |
| `ReleaseGateEvaluator.CollectFindings` | apps/control-plane/src/release-gate-policy.ts:666-677 | the loop builds the deduplicated map and notices every malformed record |
| `ReleaseGateEvaluator.JudgeBlocksExactly` | apps/control-plane/src/release-gate-policy.ts:375-400 | a verdict bars the release exactly when the finding is in scope, open, at a blocking or unknown severity and not validly accepted |
| `ReleaseGateEvaluator.JudgeFindings` | apps/control-plane/src/release-gate-policy.ts:678-747 | every distinct finding lands in exactly one of ignored, exception and blocker, in ascending order, so the counts sum |
| `ReleaseGateEvaluator.EvaluateDojo` | apps/control-plane/src/release-gate-policy.ts:588-754 | no blocker exactly when the database's records meet the specification |
| `ReleaseGateEvaluator.EvaluateReleaseGate` | apps/control-plane/src/release-gate-policy.ts:456-768 | the decision is pass exactly when the conditions on the raw input hold, and never with an open blocking finding in scope |
| `ZipFormat.HeaderLayout` | apps/control-plane/src/scanner-evidence.ts:817-843 | a central entry written field by field is the reader's view of it at its offsets |
| `ZipFormat.WriteAfterRead` | apps/control-plane/src/scanner-evidence.ts:817-843 | an entry that is read accounts for every byte of its span |
| `ZipFormat.ReadAfterWrite` | apps/control-plane/src/scanner-evidence.ts:817-843 | reading a written entry gives it back |
| `ZipFormat.ReadAfterWriteLocal` | apps/control-plane/src/scanner-evidence.ts:876-899 | the compared fields of a written local header |
| `ZipFormat.ReadAfterWriteEnd` | apps/control-plane/src/scanner-evidence.ts:774-781 | reading a written end record gives it back |
| `ArchivePath.UnsafeIff` | apps/control-plane/src/scanner-evidence.ts:844-853 | with backslashes read as slashes, the textual test refuses exactly the names with a NUL, the absolute ones and those that climb above the root at some point |
| `ArchivePath.LeafOfSafe` | apps/control-plane/src/scanner-evidence.ts:844-854 | the trusted name of a safe entry is the last segment left after resolving it |
| `ArchivePath.PlainIsItsOwnLeaf` | apps/control-plane/src/scanner-evidence.ts:844-854 | an ordinary file name is safe and stands for itself |
| `ZipArchive.ScanForEnd` | apps/control-plane/src/scanner-evidence.ts:763-769 | the backward scan finds the last end signature, or none exists |
| `ZipArchive.LocateEnd` | apps/control-plane/src/scanner-evidence.ts:759-781 | the record found in the tail is the last one within reach of the end of the file |
| `ZipArchive.FlagsAllowedByBits` | apps/control-plane/src/scanner-evidence.ts:832-839 | the flags accepted are exactly those with every bit clear but bits 3 and 11 |
| `ZipArchive.EntryExactly` | apps/control-plane/src/scanner-evidence.ts:816-853 | an entry is accepted exactly when an acceptable one is written there |
| `ZipArchive.WalkDirectory` | apps/control-plane/src/scanner-evidence.ts:814-870 | the loop over the directory realises the walk, error for error |
| `ZipArchive.WalkSound` | apps/control-plane/src/scanner-evidence.ts:814-870 | whatever the walk accepts tiles the directory exactly and selects distinct allowed files |
| `ZipArchive.WalkComplete` | apps/control-plane/src/scanner-evidence.ts:814-870 | every directory tiled by acceptable entries with distinct allowed files is accepted |
| `ZipArchive.ReadMemberExactly` | apps/control-plane/src/scanner-evidence.ts:872-942 | a member's content is returned exactly when its local header agrees, its payload ends before the directory and its length is right |
| `ZipArchive.ReadSelected` | apps/control-plane/src/scanner-evidence.ts:871-943 | the loop over the selected entries fills the file map |
| `ZipArchive.ParseArtifactArchive` | apps/control-plane/src/scanner-evidence.ts:750-948 | files are returned exactly for the archives some list of entries describes, and they are the files described |
| `ZipRoundTrip.WrittenDescribes` | apps/control-plane/src/scanner-evidence.ts:763-947 | an archive written from at most 64 stored members is described by its own headers |
| `ZipRoundTrip.WriteThenRead` | apps/control-plane/src/scanner-evidence.ts:763-947 | reading it back returns exactly the written files whose names are allowed |
| `CanonicalJson.StringRoundTrip` | apps/control-plane/src/evidence-attestation.ts:277 | an escaped string, lone surrogates included, reads back |
| `CanonicalJson.EscapeForm` | apps/control-plane/src/evidence-attestation.ts:277 | which code units are printed as they stand, which by a letter, and the rest as four hexadecimal digits of their value |
| `CanonicalJson.NumberRoundTrip` | apps/control-plane/src/evidence-attestation.ts:273-276 | a printed integer reads back |
| `CanonicalJson.RoundTrip` | apps/control-plane/src/evidence-attestation.ts:271-287 | reading a printed value gives it back with its keys in order, and leaves what follows |
| `CanonicalIdentity.TextDecidesNormal` | apps/control-plane/src/evidence-attestation.ts:271-287 | two values print the same exactly when their normal forms coincide |
| `CanonicalIdentity.NormalIffSame` | apps/control-plane/src/evidence-attestation.ts:282-286 | normal forms coincide exactly when the values differ in key order only |
| `CanonicalIdentity.SameTextIffSame` | apps/control-plane/src/evidence-attestation.ts:271-287 | the printer is injective up to key order and independent of it |
| `CanonicalIdentity.ListText` | apps/control-plane/src/evidence-attestation.ts:278-280 | a list prints its items in order between brackets, separated by commas |
| `CanonicalIdentity.ObjectText` | apps/control-plane/src/evidence-attestation.ts:282-286 | an object prints each member once, and of two keys first the one that is a proper prefix of the other or has the smaller code unit where they first differ |
| `CanonicalIdentity.CanonicalPaired` | apps/control-plane/src/evidence-attestation.ts:340-345 | the printed text has no lone surrogate, so hashing its UTF-8 form loses nothing |
| `EvidenceManifest.SortedMeansAscending` | apps/control-plane/src/evidence-attestation.ts:309-318 | no duplicate paths in sorted order means strictly ascending paths |
| `EvidenceManifest.ParsesExactly` | apps/control-plane/src/evidence-attestation.ts:289-338 | a document is accepted as a manifest exactly when it is an object whose fields, trimmed and lower-cased where the parser does, spell that manifest |
| `EvidenceManifest.ParsedIsValid` | apps/control-plane/src/evidence-attestation.ts:289-338 | a parsed manifest meets every field's condition |
| `EvidenceManifest.ParseIsIdempotent` | apps/control-plane/src/evidence-attestation.ts:340-345 | the parser returns a manifest unchanged exactly when it is valid, so the digest's second parse changes nothing |
| `EvidenceManifest.DigestTextNamesManifest` | apps/control-plane/src/evidence-attestation.ts:340-345 | accepted documents hash the same text exactly when they describe one manifest |
| `EvidenceManifest.ManifestSpelled` | apps/control-plane/src/evidence-attestation.ts:340-345 | the digest is taken of this text: the ten fields under their names in code-unit order, and the files with theirs |
| `AttestationLimiter.WindowHoldsCapacity` | apps/control-plane/src/evidence-attestation.ts:537-549 | no window of 60 seconds holds more than 120 admissions |
| `AttestationLimiter.Limiter.DropOld` | apps/control-plane/src/evidence-attestation.ts:537-542 | shifting the queue drops only admissions out of the window |
| `AttestationLimiter.Limiter.Admit` | apps/control-plane/src/evidence-attestation.ts:536-549 | with a steady clock a request is admitted exactly when the window has room; the queue never exceeds 120 with any clock |
| `UnifiedDiff.HeaderReads` | apps/control-plane/src/service.ts:3225 | a printed hunk header is recognised with its starts |
| `UnifiedDiff.HeaderExactly` | apps/control-plane/src/service.ts:3225 | a line is a hunk header exactly when it is spelled as one, with either count optional and any text after it, and its starts are the values of their digits |
| `UnifiedDiff.AddedLineRanges` | apps/control-plane/src/service.ts:3220-3251 | the ranges list, in order, exactly the numbers the walk records |
| `UnifiedDiff.RemovedLineNumbers` | apps/control-plane/src/review-value.ts:22-42 | the set is exactly the numbers the walk records |
| `PatchApplication.RecordedIsShown` | apps/control-plane/src/service.ts:3224-3248 | what a counter records for a printed patch, in terms of its edits |
| `PatchApplication.ExactIffHarmless` | apps/control-plane/src/service.ts:3233-3247 | a counter records exactly its side's lines if and only if no own line starts with three marks and none of the other side's precedes an own line in its hunk |
| `PatchApplication.TripledLineIsLost` | apps/control-plane/src/service.ts:3233 | a patch whose only added line is not recorded |
| `PatchApplication.RangesDisjoint` | apps/control-plane/src/service.ts:3234-3238 | ranges that list ascending numbers are disjoint and in order |
| `PatchApplication.HunkKeeps` | apps/control-plane/src/review-value.ts:30-40 | of a hunk's side, what its own lines leave is what the hunk keeps |
| `PatchApplication.PatchConserves` | apps/control-plane/src/review-value.ts:18-42 | away from the added and the removed lines the two files are the same sequence |
| `PatchApplication.CountBothSides` | apps/control-plane/src/service.ts:3220-3251 | run on a harmless patch, the two counters cover exactly the added and the deleted lines and leave equal remainders |
| `ReviewFindings.EvictKeeps` | apps/control-plane/src/store.ts:1429-1491 | eviction keeps every open record the ceiling allows and the most recently observed terminal ones |
| `ReviewFindings.EvictExactly` | apps/control-plane/src/store.ts:1429-1491 | an open record stays exactly under the ceiling; a terminal one exactly when it is also in the retention window and the limit has room for the open records and the terminal ones at least as recent, or the open ones alone exceed it |
| `ReviewFindings.EvictSize` | apps/control-plane/src/store.ts:1464-1491 | the size after eviction: the limit is met whenever the open records allow it, and otherwise only expired ones go |
| `ReviewFindings.PassTerminal` | apps/control-plane/src/store.ts:1464-1485 | the two passes over the sorted terminal records drop a prefix of them |
| `ReviewFindings.EvictTerminalReviewFindings` | apps/control-plane/src/store.ts:1429-1491 | the procedure returns the evicted list and its count |
| `ReviewFindings.CollectRemoved` | apps/control-plane/src/review-value.ts:74-82 | the loop over the changed files maps each previous path with deletions to its deleted lines, the last file winning |
| `ReviewFindings.RemovedByPathMeans` | apps/control-plane/src/review-value.ts:74-82 | a path is mapped to the lines deleted by the last file that deletes any at it, and is absent when none does |
| `ReviewFindings.MarkFixedOutcomes` | apps/control-plane/src/review-value.ts:63-110 | exactly the closed, outcome-free records that were open and whose range was rewritten become fixed, and are counted |
| `ReviewFindings.MarkFixedExactly` | apps/control-plane/src/review-value.ts:82-108 | a record becomes fixed exactly when it was open, is no longer, has no outcome yet, and a line of its range was deleted at its path |
| `ReviewFindings.OutcomeExactly` | apps/control-plane/src/store.ts:522-538 | a dismissal reaches the finding it names and a merged request every open finding without an outcome, and nothing else changes |
| `ReviewFindings.CarryExactly` | apps/control-plane/src/store.ts:1686-1708 | what a save takes over from the row it overwrites: a dismissal over any other outcome, an ignored one over a missing one, nothing else |
| `ReviewRuns.MergeRecordsReport` | apps/control-plane/src/service.ts:3326-3354 | after a merge a reported finding is open with its report's identity and suggestion, this head and time as last seen, its first sighting kept, and its outcome kept unless a fixed finding has returned |
| `ReviewRuns.MergeOpensReported` | apps/control-plane/src/service.ts:3397-3428 | after a merge the open findings are the reported ones, less those past the absolute ceiling |
| `ReviewRuns.MergeClosesUnreported` | apps/control-plane/src/service.ts:3408-3421 | an unreported finding is closed as resolved under the same head and superseded under another, and a closed one is left alone |
| `ReviewRuns.ReappearancesAreReopenings` | apps/control-plane/src/service.ts:3454-3464 | the regression count of a review is the number of its open findings that were closed before it |
| `ReviewRuns.RedeliveryChangesNothing` | apps/control-plane/src/store.ts:522-538 | recording an outcome twice is recording it once |
| `ReviewRuns.OutcomesGood` | apps/control-plane/src/store.ts:522-538 | recording an outcome keeps the record invariants and loses no dismissal |
| `ReviewRuns.MarkFixedGood` | apps/control-plane/src/review-value.ts:82-108 | marking records fixed keeps the invariants: no open record becomes fixed, no dismissal is overwritten |
| `ReviewRuns.CarryGood` | apps/control-plane/src/store.ts:1686-1708 | saving over any row keeps the records sound, changes only outcomes of what was computed and loses no dismissal of the row |
| `ReviewRuns.StepKeeps` | apps/control-plane/src/service.ts:1208-1322 | every step of reading, saving, abandoning or recording keeps the invariant, first sightings and dismissals; it takes no counter back if and only if it does not bring back, still closed, a record the row has open |
| `ReviewRuns.SecondSaveCounts` | apps/control-plane/src/service.ts:1306-1322 | the stale save after a saved merge takes counters back exactly when it keeps a record which the merge reopened |
| `ReviewRuns.FirstSaveCounts` | apps/control-plane/src/service.ts:1257-1279 | the first save of a read never takes a counter back |
| `ReviewRuns.StaleErasesMerge` | apps/control-plane/src/service.ts:2652-2690 | a stale save leaves, outcomes aside, what it would have left without the merge saved before it |
| `ReviewRuns.RunIsSound` | apps/control-plane/src/service.ts:3273-3428 | over all runs fingerprints stay distinct, open records have closed as often as they returned, terminal ones once more, and no open record is fixed |
| `ReviewRuns.RunStep` | apps/control-plane/src/service.ts:1185-1330 | the same of every step of every run |
| `ReviewRuns.RetainedKeeps` | apps/control-plane/src/service.ts:3326-3354 | in every run, while a fingerprint is retained its first sighting is fixed and a dismissal is never lost |
| `ReviewRuns.RetainedFollows` | apps/control-plane/src/service.ts:3326-3354 | and its counters never go back while no stale save undoes a reopening |
| `ReviewRuns.ReopeningUndone` | apps/control-plane/src/service.ts:1306-1322 | a run from the empty store in which the counters 2 and 1 of a saved merge become 1 and 0 |
| `ReviewBundle.GreedyIsFeasible` | packages/core/src/review-bundle.ts:309-326 | every chosen item fitted within every limit when it was reached |
| `ReviewBundle.GreedyIsFirst` | packages/core/src/review-bundle.ts:309-326 | of all choices within the budgets, the greedy one takes the better-ranked item at the first difference |
| `ReviewBundle.SelectedByScore` | packages/core/src/review-bundle.ts:138-143 | a selected candidate fits beside the selected ones of higher score, or of equal score and smaller key; one left out does not |
| `ReviewBundle.ReasonsMean` | packages/core/src/review-bundle.ts:309-326 | the reason given for a candidate left out: no room for its kind beside the selected ones, or none for its cost |
| `ReviewBundle.GreedyIsMaximal` | packages/core/src/review-bundle.ts:309-326 | an item left out still does not fit at the end |
| `ReviewBundle.UsageCounts` | packages/core/src/review-bundle.ts:327-338 | the running totals are the cost and the number of the chosen items |
| `ReviewBundle.SelectionAccounts` | packages/core/src/review-bundle.ts:274-338 | every candidate is selected or dropped, once |
| `ReviewBundle.SelectionIgnoresOrder` | packages/core/src/review-bundle.ts:138-143 | without duplicates and ties the selection does not depend on the order of the input |
| `ReviewBundle.Deduplicate` | packages/core/src/review-bundle.ts:271-305 | the first candidate of each key is kept and the repeats are dropped |
| `ReviewBundle.FirstsMean` | packages/core/src/review-bundle.ts:271-305 | no key is kept twice, every key is kept, and what is kept for it is its first candidate |
| `ReviewBundle.TakeGreedily` | packages/core/src/review-bundle.ts:309-338 | the loop with its counters makes the greedy choice |
| `ReviewBundle.BuildReviewBundle` | packages/core/src/review-bundle.ts:255-355 | the bundle holds the selected items by kind, within every budget, and accounts for every candidate |
| `RemediationDraft.NormalizedPathMeans` | apps/control-plane/src/remediation-draft.ts:122-141 | a path is normalized exactly when it is at most 400 units without backslash or NUL and joins segments none of which is empty, `.` or `..` |
| `RemediationDraft.CrlfReplaced` | apps/control-plane/src/remediation-draft.ts:128 | each carriage return with a newline becomes a newline |
| `RemediationDraft.OutsideIntactExactly` | apps/control-plane/src/remediation-draft.ts:249-259 | the self-check holds of any lines exactly when they are the old ones around lines that join to the suggestion |
| `RemediationDraft.AcceptsExactly` | apps/control-plane/src/remediation-draft.ts:191-261 | a draft is written exactly under the stated conditions, whatever the order of the checks, and is the splice |
| `RemediationDraft.NeverOutOfRange` | apps/control-plane/src/remediation-draft.ts:249-259 | the final self-check cannot fail for any input |
| `RemediationDraft.NoOpExactly` | apps/control-plane/src/remediation-draft.ts:247 | the splice changes the file exactly when it changes the lines of the range |
| `RemediationDraft.SpliceKeepsOutside` | apps/control-plane/src/remediation-draft.ts:238-246 | splitting the new content again gives the old lines around the suggestion, and the final newline stays |
| `RemediationDraft.SpliceInverts` | apps/control-plane/src/remediation-draft.ts:238-246 | splicing the old lines back restores the file exactly |
| `RemediationDraft.DraftTouchesOnlyItsRange` | apps/control-plane/src/remediation-draft.ts:186-261 | an accepted draft changes its range and nothing else, can be undone, and replaces only lines listed as changed |

## Left out

- HTTP servers, GitHub, Jira, Slack, DigitalOcean and DefectDojo clients, polling and timers: I/O.
- JWT and OIDC verification, HMAC, SHA-256 and base64url: library calls; where a digest decides something it is a function argument.
- Store leases, claims and compare-and-set saves: that one review of a pull request is in flight at a time is an assumption of `ReviewRuns`, and every save succeeds or is abandoned.
- Index record contents, embeddings, parsers and retrieval: an index is the map from path to content it was built from.
- RepositoryIndex.RepositoryIndexService.Refresh: models the abort check before publication only; the checks at earlier suspension points abort with the same effect, and deleted vector rows are not modelled.
- RepositoryIndex.IncrementalEqualsFull: assumes the compare response names every path whose read differs, because the two responses come from a service this model cannot see.
- SbomIndex.IndexSbom: a component arrives with its ecosystem, name and key and with one flag for its field checks, because package URL parsing is many flat branches.
- SbomDiff.DiffComponents: leaves out the registry-change and same-name dependency-confusion signals, which are direct comparisons.
- SbomReport.DiffCycloneDxSboms: lists the signals by kind instead of sorting them together, and does not cut the lists to the report's lengths.
- Typosquat.FindTyposquats: takes the table of well-known packages as an argument, because the table is data.
- Ownership resolution, SLA dates, suppression status, ticket state and text clipping in lifecycle records: flat rules that no proved property depends on.
- FindingStreams.MergeConverges: assumes no forced eviction; `FindingsLifecycle.StepOnStream` says what a drop takes from a stream.
- FindingStreams.OrderIrrelevantExactly: assumes that deliveries the run order ties report the stream alike.
- The evidence references, messages and labels of a gate decision: presentation.
- ReleaseGatePolicy.ParseReleaseGatePolicy: the policy document arrives as its fields, so JSON syntax and the byte limit are not modelled.
- ReleaseGateEvaluator.JudgeFindings: takes trimmed, lower-cased tags and parsed severities and instants, because those are library string operations.
- ZipArchive.ParseArtifactArchive: takes the file as a sequence of bytes, so short reads by the operating system are not modelled, and inflate is an argument.
- CanonicalJson.NumberRoundTrip: integers only, because the manifest holds no other numbers; JavaScript's exponent form for huge magnitudes is not modelled.
- CanonicalJson.RoundTrip: values whose numbers are integers, for the same reason.
- Review findings written before provenance existed, whose optional fields are absent: the model's records carry every field.
- ReviewFindings.EvictTerminalReviewFindings: requires distinct fingerprints, which `ReviewRuns.RunIsSound` shows of every row; the source tells records apart by object identity.
- The metric counters and comment rendering of a review: presentation.
- Scores, costs and text wrapping of bundle items, and the bundle's manifest hash: computed before and after the selection.
- The tables of protected paths and binary extensions of a remediation draft: data, passed as predicates.
- Configuration validators, environment parsing, Markdown rendering, monitoring reports: many flat branches with easy properties.
