# Verified models of the operational scripts

This project models seven scripts of the repository in Dafny and proves what they are relied
on for. `dafny verify dfyconfig.toml` checks the whole project; on a slow machine add
`--verification-time-limit 0`.

- **Disk garbage-collection planner** (`scripts/disk_gc_plan.py`). `DiskGcModel` is the guard
  chain for one image row, `DiskGcSort` the stable per-repository sort, `DiskGcPlan` the loops of
  `build_plan`, proved against a definition that needs no loops: an id is removed when no row of
  it is kept outright or ranks among the newest generations of its repository. `DiskGcExact`
  spells that out in terms of the policy, `DiskGcSafety` proves the safety claims from it,
  `DiskGcDocumented` shows where the documentation promises more than the code does and when the
  promise holds, `DiskGcKeepRepos` when listing one more repository is harmless, and `DiskGcAgain`
  that planning again changes nothing. `DiskGcTexts` restates the plan in the texts docker prints.
- **Capability backfill** (`scripts/backfill_capabilities.py`). `BackfillModel` has the rows, the
  `extract_*` functions and the keyset SELECT; `BackfillRuns` is a transition system of any number
  of interleaved runs with crashes and inserts; `BackfillLoop` is the loop of one run, and
  `BackfillScript` has the results for the script's own extraction, whose columns
  `BackfillColumns` reads off the stored JSON.
- **Branch-protection audit** (`scripts/audit_branch_protection_lib.py`). `NeedsClosure` is the
  worklist closure, `CheckRuns` the paginated collector, `GateParity` the context matching and the
  verdict on one gate, `GateManifest` the evaluation of a whole manifest, and
  `GateVerdicts` its findings in terms of the live map.
- **`.env` files** (`scripts/_infisical_util.py`). `LineLexer`, `LineFiling` and `EnvLine` are the
  two readings of one line, `EnvTable` and `EnvRewrite` the theory of last-wins parsing and
  repeated in-place updating over any line grammar, `EnvFile`, `EnvRepeat` and `EnvReadBack` the
  file itself, updated again and parsed again, `EnvQuoting` its values character by character.
- **Dependency provenance** (`scripts/check_dep_provenance.py`). `DepProvenance` has the three
  passes, `DepGate` the exit code and what the passes prove together, `DepTexts` and
  `PinTexts` both in terms of what the file, the requirements and the tickets literally say.
- **Entry points** (`scripts/generate_entry_points.py`). `SectionSplice` is the section pattern
  and its replacement, `SectionSync` writing a section and recognising it again, `EntryPoints` the
  two modes of the command.
- **Schema fingerprint** (`scripts/check_schema_fingerprint.py`). `SchemaFingerprint` has the
  canonical text, the artifact file and the two commands, `SchemaMerging` and `SchemaCollisions`
  what newlines in file names do to it. `GeneratedTexts` has the texts of the last two scripts line
  by line.

`Text`, `TextLines`, `Padding`, `Sequences`, `Ordering`, `Counting`, `Listing`, `LastWins` and `Wrappers`
are shared.

The network, `docker`, `gh` and the clock are parameters: the pull-request lookup, the page
server, the ticket service, the tree resolver, the hash, today's date. A theorem about them holds
for every such function, up to the hypotheses it states on the hash and the page server.

Where code and documentation disagree the model follows the code:

- `scripts/disk_gc_plan.py:43` says an image of a kept repository is never removed; lines 312-333
  reap its old generations, and lines 286-288 its finished pull-request images.
- `scripts/disk_gc_plan.py:46` says nothing younger than `min_age_days` is removed; rows of finished
  pull requests are (`NothingYoungRemovedIff` says when).
- `scripts/disk_gc_plan.py:59-60` says `keep_image_repos` takes precedence over pull-request reaping;
  lines 276-293 never look at it (`KeptReposSurvivePullRequestsIff`).
- `scripts/audit_branch_protection_lib.py:409` says the root is not in its closure; it is when it
  lies on a cycle.
- `scripts/generate_entry_points.py:94-95` says a missing section is added before the next section;
  line 108 appends it at the end (`SectionIsAppended`). The section is also not delimited by a blank line as lines 97-98
  say, but by the last newline before the next bracket.

A property that is false of the code as promised is stated with the exact condition under which it
holds: order independence (`TiesAreHarmless`), kept repositories and young images staying intact,
listing a repository, repeating an env update, the generate/check round trip and idempotence
(`Settled`), context matching (`Settled` contexts), the end of exemptions within the calendar, and
the fingerprint under arbitrary file names.

## Model

| member | source | states |
|---|---|---|
| `DiskGcPlan.BuildPlan` | scripts/disk_gc_plan.py:205-376 | The whole planner over any inventory, keep-list, container list and pull-request lookup: which ids go, in which order, the references listed for each, the old stopped containers, and the exact set of kept ids, each with a reason that some row of it really has |
| `DiskGcPlan.RouteRow` | scripts/disk_gc_plan.py:265-321 | One row through the guard chain: exactly one of kept with its reason, queued, or deferred to the end of its repository's candidate list |
| `DiskGcPlan.RouteRows` | scripts/disk_gc_plan.py:248-321 | The first loop over all rows |
| `DiskGcPlan.NoteReference` | scripts/disk_gc_plan.py:256-261 | After each row every id seen has its distinct repo:tag references in first-seen order, and an entry even when it has none |
| `DiskGcPlan.RetainNewest` | scripts/disk_gc_plan.py:324-333 | Of a sorted candidate list the newest N are recorded as kept and the others queued, in order, for every N including negative ones |
| `DiskGcPlan.RetainGenerations` | scripts/disk_gc_plan.py:324-333 | The retention loop over all repositories |
| `DiskGcPlan.Reconcile` | scripts/disk_gc_plan.py:355-364 | Keep wins: the queue without kept ids and repetitions, first occurrence order |
| `DiskGcPlan.Reconciled` | scripts/disk_gc_plan.py:355-364 | The reconciled list has exactly the queued ids that are not kept, each once |
| `DiskGcPlan.RefsOf` | scripts/disk_gc_plan.py:249-261 | An id's references are exactly the distinct repo:tag references of all of its rows |
| `DiskGcPlan.StoppedContainers` | scripts/disk_gc_plan.py:336-349 | The listed ids stand, in listing order, for exactly the containers that are stopped and at least min_age_days old, each occurrence once |
| `DiskGcPlan.OldStoppedIsUnique` | scripts/disk_gc_plan.py:336-349 | That leaves one possible list of ids |
| `DiskGcSort.StableSortSorted` | scripts/disk_gc_plan.py:326 | The per-repository sort orders by age and only rearranges |
| `DiskGcSort.StableSortPosition` | scripts/disk_gc_plan.py:326 | The sort is stable: a candidate ends up exactly at its rank, the number of younger candidates plus the equally old ones listed before it |
| `DiskGcSort.StableSortOnto` | scripts/disk_gc_plan.py:326 | Every position of the sorted list is the rank of some candidate |
| `DiskGcPlan.SortedAtRank` | scripts/disk_gc_plan.py:315-326 | The rank that decides retention can be counted over the inventory rows themselves, without building or sorting a list |
| `DiskGcPlan.RowAtPosition` | scripts/disk_gc_plan.py:315-326 | ...and each sorted position belongs to a row of that rank |
| `DiskGcPlan.TailExact` | scripts/disk_gc_plan.py:327-333 | Retention queues exactly the ids of candidate rows of rank N or more; rows count, not distinct ids |
| `DiskGcPlan.QueueExact` | scripts/disk_gc_plan.py:248-333 | An id is queued for removal exactly when some row of it is not a keeping row |
| `DiskGcPlan.ReconciledExact` | scripts/disk_gc_plan.py:355-364 | The removed ids are exactly the ids none of whose rows asks to keep them: the three loops refine a one-line definition |
| `DiskGcSafety.PlanPartitionsInventory` | scripts/disk_gc_plan.py:355-368 | Kept and removed ids are disjoint, duplicate-free and together are the ids of the inventory |
| `DiskGcSafety.ProtectedRowProtectsId` | scripts/disk_gc_plan.py:263-270 | One row with a keep tag or a container reference protects the id, whatever its other rows or pull-request states say |
| `DiskGcExact.RemovedIff` | scripts/disk_gc_plan.py:248-364 | Exactly which ids go, from the policy alone: all rows of the id are unprotected, and each is a finished pull-request row, or no pull-request row, old enough, and either dangling or in a kept repository with at least N candidates before it |
| `DiskGcExact.RankIsSize` | scripts/disk_gc_plan.py:323-333 | The sorted position that decides retention is the number of candidate rows that are younger, or equally old and listed earlier |
| `DiskGcSafety.UntaggingSparesKeptIds` | scripts/disk_gc_plan.py:249-261 | When each repo:tag names one id, untagging the references listed for a removed id never unties a kept id |
| `DiskGcSafety.RemovalLeavesNewerGenerations` | scripts/disk_gc_plan.py:323-333 | A removed id with a candidate row leaves at least N candidate rows of that repository, none older, whose ids are all kept |
| `DiskGcSafety.KeptRepoIntactIff` | scripts/disk_gc_plan.py:42-47 | For any inventory: a repository loses no image exactly when every row of it that is reaped, and every candidate behind the N newest, has another row of its id that keeps it; the exact condition for the sentence at line 43 |
| `DiskGcSafety.KeptRepoIntactByCount` | scripts/disk_gc_plan.py:42-47 | With one row per id: exactly when no row is reaped and there are at most N candidates |
| `DiskGcSafety.KeptRowStaysKept` | scripts/disk_gc_plan.py:263-333 | Protected rows leave the ranking, so the remaining rows only move up and keep their slots |
| `DiskGcSafety.StrongerPolicyRemovesLess` | scripts/disk_gc_plan.py:225-364 | More in-use references, more keep tags, protect_running on, more generations or a higher minimum age: the removed ids are a subset of those removed before |
| `DiskGcSafety.FinishingOnlyAddsRemovals` | scripts/disk_gc_plan.py:276-293 | With the lookup on, a pull request that becomes merged or closed only adds removals |
| `DiskGcSafety.OrderDoesNotMatter` | scripts/disk_gc_plan.py:248-364 | Any permutation of the rows keeps and removes the same ids when no tie in age straddles the retention cut |
| `DiskGcSafety.OrderMatters` | scripts/disk_gc_plan.py:248-364 | ...and otherwise two orders of the same rows remove different ids, so that condition is exact |
| `DiskGcDocumented.TiedAgesDisagree` | scripts/disk_gc_plan.py:326 | An input: two images of one repository with equal age and one slot |
| `DiskGcSafety.DistinctAgesAreHarmless` | scripts/disk_gc_plan.py:326 | Ids of a repository that never share an age meet the condition |
| `DiskGcAgain.PlanningAgainRemovesNothing` | scripts/disk_gc_plan.py:248-364 | Once the removed images are gone, planning again removes nothing and keeps the same ids |
| `DiskGcDocumented.KeptRepoImageCanBeRemoved` | scripts/disk_gc_plan.py:43 | The documented sentence that kept repositories are never removed is false: an inventory whose kept-repository image is removed |
| `DiskGcDocumented.KeepingARepoCanRemoveIt` | scripts/disk_gc_plan.py:312-333 | Adding a repository to keep_image_repos can remove an image that was kept before: an inventory that shows it |
| `DiskGcKeepRepos.KeepingARepoIsHarmlessIff` | scripts/disk_gc_plan.py:312-333 | Adding any entry removes nothing new exactly when every newly tracked row behind the retained slots has its id kept all the same |
| `DiskGcKeepRepos.KeepingARepoIsHarmlessByCount` | scripts/disk_gc_plan.py:312-333 | With one row per id: exactly when no newly matched repository has more than N rows that were kept as untracked |
| `DiskGcDocumented.YoungKeptRepoImageCanBeRemoved` | scripts/disk_gc_plan.py:276-293 | The documented sentences at lines 46 and 59-60 are false: an inventory whose one-day-old image, of a kept repository, is removed because its pull request is merged |
| `DiskGcDocumented.NothingYoungRemovedIff` | scripts/disk_gc_plan.py:276-303 | The sentence at line 46 holds of an inventory exactly when every young, unprotected row of a finished pull request shares its id with a row that keeps it |
| `DiskGcDocumented.KeptReposSurvivePullRequestsIff` | scripts/disk_gc_plan.py:276-293 | The sentence at lines 59-60 holds of an inventory exactly when every unprotected finished-PR row of a kept repository shares its id with a row that keeps it |
| `DiskGcDocumented.NothingYoungRemovedByGuard` | scripts/disk_gc_plan.py:263-303 | With one row per id the guards alone decide: exactly when every young row is protected or not of a finished pull request |
| `DiskGcDocumented.KeptReposSurvivePullRequestsByGuard` | scripts/disk_gc_plan.py:263-293 | With one row per id: exactly when every finished-PR row of a kept repository is protected |
| `DiskGcDocumented.TruncatedIdProtects` | scripts/disk_gc_plan.py:123-150 | A 12-digit truncated id in use protects the full id, and the other way round |
| `DiskGcDocumented.ReferenceLooksLikeId` | scripts/disk_gc_plan.py:126-141 | A repo:tag reference is mistaken for an image id exactly when the repository is named sha256 and the tag is hexadecimal |
| `DiskGcTexts.RemovedByTextIff` | scripts/disk_gc_plan.py:248-364 | Exactly which ids go, in texts alone: container references by id, by repo:tag or by twelve shared hexadecimal digits; keep tags; pr-N tags; kept repositories as substrings; dangling rows; the count of newer rows |
| `DiskGcTexts.ContainersProtect` | scripts/disk_gc_plan.py:144-150 | With protect_running, an image whose id, whose repo:tag, or whose twelve digits some container holds is not on the removal list |
| `DiskGcTexts.OthersProtectNothing` | scripts/disk_gc_plan.py:144-150 | ...and when no row is held in one of these three ways the plan is the one without protect_running |
| `DiskGcTexts.ShortIdIff` | scripts/disk_gc_plan.py:126-141 | The short form is the first twelve of 12 to 64 lower-case hexadecimal digits, behind sha256: or not, blanks aside, and of nothing else |
| `DiskGcTexts.PrNumberIff` | scripts/disk_gc_plan.py:158-161 | A tag names pull request N exactly when it is pr- and the numeral of N, zeros in front and a final newline aside |
| `DiskGcTexts.ReasonIff` | scripts/disk_gc_plan.py:265-321 | Which reason keeps a row, for each reason, in texts alone |
| `DiskGcTexts.RefShown` | scripts/disk_gc_plan.py:249-261 | The references listed for an id are exactly repo + ":" + tag of its rows that have both |
| `DiskGcTexts.RefsInRowOrder` | scripts/disk_gc_plan.py:256-261 | ...in the order of the first rows that show them |
| `Padding.NumeralIff` | scripts/disk_gc_plan.py:161 | int() of digits: a text is digits of value N exactly when it is zeros and the numeral of N |
| `BackfillModel.ExtractCapabilityTags` | scripts/backfill_capabilities.py:306-351 | The tags are sorted, distinct, and exactly the flags that are literally true plus the listed custom tags |
| `BackfillModel.Extract` | scripts/backfill_capabilities.py:354-430 | Extraction never leaves contract_type NULL, so a written row leaves the selection |
| `BackfillModel.FetchKeys` | scripts/backfill_capabilities.py:762-795 | A batch is ascending, at most the limit, and only of NULL rows strictly behind the cursor |
| `BackfillModel.FetchSkipsNothing` | scripts/backfill_capabilities.py:762-795 | A fetched batch leaves out no NULL row it has passed: any other one lies behind its last key |
| `BackfillModel.Select` | scripts/backfill_capabilities.py:740-795 | The SELECT returns that batch with the stored source columns |
| `BackfillModel.ApplyBatchAt` | scripts/backfill_capabilities.py:686-729 | A committed batch gives each of its rows exactly the extraction of what was fetched, and changes no source column |
| `BackfillModel.ApplyBatchElsewhere` | scripts/backfill_capabilities.py:686-729 | ...and changes no other row |
| `BackfillRuns.StepKeepsInv` | scripts/backfill_capabilities.py:686-729 | Every step of any run (start, fetch, commit, crash) or of the environment (insert) keeps the invariant and never makes a row NULL again |
| `BackfillRuns.ExecutionKeepsInv` | scripts/backfill_capabilities.py:853-899 | The invariant holds in every reachable state of any number of interleaved runs |
| `BackfillRuns.RowsAreNeverCorrupted` | scripts/backfill_capabilities.py:686-729 | In every reachable state each row is as first stored, or was NULL and carries exactly its extracted columns; rows with a type never change |
| `BackfillRuns.InsertedRowsAreNeverCorrupted` | scripts/backfill_capabilities.py:686-729 | The same for a row inserted while runs are under way |
| `BackfillRuns.CompletedRunLeavesNothing` | scripts/backfill_capabilities.py:838-927 | Once a live run is done, every row that was NULL when it started holds its extracted columns and keeps them, whatever other runs, crashes and inserts did meanwhile |
| `BackfillLoop.Registry.ProcessBatchUpdate` | scripts/backfill_capabilities.py:663-737 | One transaction: the whole batch is applied and counted |
| `BackfillLoop.Registry.Backfill` | scripts/backfill_capabilities.py:798-931 | A lone run terminates, returns the initial NULL count, visits the initially NULL keys in order in full batches (live and dry alike), and leaves every such row filled, or in a dry run the table as it was |
| `BackfillLoop.ChunksCover` | scripts/backfill_capabilities.py:853-899 | The visited batches put together are the work list, each key once, and none is empty or above the limit |
| `BackfillLoop.FetchIsNextChunk` | scripts/backfill_capabilities.py:762-795 | With the cursor after i rows the SELECT sees exactly the rest of the work list, although a live run has changed the selection and a dry run has not |
| `BackfillLoop.CommitNextBatch` | scripts/backfill_capabilities.py:862-889 | Committing that batch extends the filled part of the table to its end and fills nothing else |
| `BackfillLoop.FilledTableIsComplete` | scripts/backfill_capabilities.py:838-847 | After a live run nothing is left to do and a second run changes nothing |
| `BackfillLoop.BatchSizeDoesNotMatter` | scripts/backfill_capabilities.py:853-899 | Any two batch sizes visit the same rows in the same order |
| `BackfillScript.RowsHoldTheirExtraction` | scripts/backfill_capabilities.py:686-729 | At any point of any execution a row is as first stored, or was NULL, keeps its sources, and has each column filled from its own literal keys |
| `BackfillScript.CompletedScriptLeavesNothing` | scripts/backfill_capabilities.py:838-927 | ...and once a live run is done every row that was NULL at its start holds its extraction for good |
| `BackfillScript.QuietRunFillsTheTable` | scripts/backfill_capabilities.py:838-927 | Whatever other runs and crashes do, without inserts since its start a completed live run leaves exactly the table a lone run leaves |
| `BackfillScript.Backfill` | scripts/backfill_capabilities.py:798-931 | ...and a lone run returns the NULL count and fills exactly those rows, each column from its own literal keys |
| `BackfillScript.ScriptIsComplete` | scripts/backfill_capabilities.py:801-806 | ...after which nothing is left to do |
| `BackfillScript.IdleRunEndsAtOnce` | scripts/backfill_capabilities.py:833-847 | A run that counts no NULL rows is done without a SELECT, whatever is inserted afterwards |
| `BackfillColumns.ExtractFillsColumns` | scripts/backfill_capabilities.py:306-430 | Which source fills which column, by literal keys: contract_type, intent_types, protocols, the eight flags and capability_tags, contract_version, each with its fallback, from an object or from JSON text of one |
| `BackfillColumns.ConfigHasIff` | scripts/backfill_capabilities.py:546-570 | A config key is looked up in the config object of the stored object, or of the object its text decodes to, and nowhere else |
| `Ordering.StrLessIff` | scripts/backfill_capabilities.py:351 | Tags sort by their first difference in code points, a proper prefix first |
| `Ordering.EntityFirst` | scripts/backfill_capabilities.py:762-795 | The key order of the SELECT compares entity_id before domain |
| `NeedsClosure.ComputeNeedsClosure` | scripts/audit_branch_protection_lib.py:404-426 | On every finite graph, cycles and dangling names included, the worklist ends with exactly the jobs reachable from the root by one or more needs edges |
| `NeedsClosure.PushNeeds` | scripts/audit_branch_protection_lib.py:416-425 | One popped job: its unseen needs join the closure and the stack, and the search invariant holds again |
| `NeedsClosure.RootInClosureIff` | scripts/audit_branch_protection_lib.py:408-409 | The root is in its closure exactly when it lies on a cycle, although the docstring excludes it |
| `NeedsClosure.SelfNeedIsInClosure` | scripts/audit_branch_protection_lib.py:408-409 | An input: a job that needs itself |
| `NeedsClosure.ReachesGrows` | scripts/audit_branch_protection_lib.py:404-426 | Adding needs edges only adds jobs to the closure |
| `CheckRuns.CollectCommit` | scripts/audit_branch_protection_lib.py:184-209 | The page loop of one commit collects the names of its pages up to the first one that is not full |
| `CheckRuns.CollectSeen` | scripts/audit_branch_protection_lib.py:164-210 | The collector over all scanned commits, with any pattern of failed or malformed answers |
| `CheckRuns.SlicesCover` | scripts/audit_branch_protection_lib.py:184-209 | Against a server that slices a list by PAGE_SIZE the pages from any page on hold exactly the rest of the list, lengths divisible by 100 included |
| `CheckRuns.PaginationIsComplete` | scripts/audit_branch_protection_lib.py:164-210 | Exactly the check-run names of the scanned commits are collected, for every list length |
| `CheckRuns.DegradedSeesLess` | scripts/audit_branch_protection_lib.py:164-210 | Any pattern of lost or garbled pages only shrinks what is seen |
| `CheckRuns.FailuresNeverHideOrphans` | scripts/audit_branch_protection_lib.py:213-221 | ...so failures can only add orphans, never hide one |
| `CheckRuns.OrphanIff` | scripts/audit_branch_protection_lib.py:213-221 | On a healthy server a required context is an orphan exactly when no scanned commit lists it and it is not reported by pull requests only |
| `GateParity.LeafIsSettled` | scripts/audit_branch_protection_lib.py:380-394 | The last " / " segment of a context has no further segment and no outer whitespace |
| `GateParity.MatchIsLeafEquality` | scripts/audit_branch_protection_lib.py:397-401 | On contexts whose leaf survives trimming the form intersection is equality of last segments, hence an equivalence |
| `GateParity.SettledIff` | scripts/audit_branch_protection_lib.py:380-401 | ...and these are exactly the contexts for which it is |
| `GateParity.MatchingIsNotTransitive` | scripts/audit_branch_protection_lib.py:380-401 | With outer whitespace the match is not transitive: a concrete triple |
| `GateParity.RequiredIffSomeLeaf` | scripts/audit_branch_protection_lib.py:397-401 | On settled contexts a gate is directly required exactly when some required context has its last segment |
| `GateParity.EvaluateGate` | scripts/audit_branch_protection_lib.py:429-506 | The finding, or none, for one gate, with the closure computed by the worklist |
| `GateParity.CoveredIff` | scripts/audit_branch_protection_lib.py:429-506 | On settled contexts: no finding exactly when the branch is protected and the gate is required itself, or its aggregator is and the gate's job is upstream of the aggregator's |
| `GateParity.CoveredStaysCovered` | scripts/audit_branch_protection_lib.py:469-504 | A covered gate stays covered when required contexts or needs edges are added, whatever the spelling of the contexts |
| `GateManifest.EvaluateBranch` | scripts/audit_branch_protection_lib.py:624-650 | The findings of one declared branch, gates before merge policy |
| `GateManifest.EvaluateRepo` | scripts/audit_branch_protection_lib.py:624-650 | ...of one repository |
| `GateManifest.EvaluateManifest` | scripts/audit_branch_protection_lib.py:606-652 | ...and of the whole manifest, in order |
| `GateManifest.PolicyFindingsIff` | scripts/audit_branch_protection_lib.py:509-603 | No policy finding exactly when the declared queue and strict settings are well-formed and are the live ones |
| `GateManifest.ManifestFindingsIff` | scripts/audit_branch_protection_lib.py:606-652 | No finding at all exactly when every declared branch was fetched with its gates covered and its policy live |
| `GateManifest.CleanManifestStaysClean` | scripts/audit_branch_protection_lib.py:606-652 | More required contexts or needs edges never make a clean manifest report anything, branches that were not fetched included |
| `GateVerdicts.ManifestShowsIff` | scripts/audit_branch_protection_lib.py:606-652 | The findings are exactly the declared gates and settings that fail against live[repo:branch], each in its class, under its own name or merge_policy |
| `GateVerdicts.FailsUnlessSatisfied` | scripts/audit_branch_protection_lib.py:429-506 | A gate fails in exactly one class, or is satisfied: required itself, or behind a required aggregator in that aggregator's own workflow |
| `GateVerdicts.OneGateIsSilentIff` | scripts/audit_branch_protection_lib.py:429-506 | A manifest with one gate draws no finding exactly when the gate is satisfied |
| `GateVerdicts.NeedsChildIsSilentIff` | scripts/audit_branch_protection_lib.py:631-640 | A needs_child gate of a fetched branch draws no finding exactly when its aggregator is required, has a fetched workflow, and the gate's job is reachable from the aggregator's job in that workflow |
| `GateVerdicts.LeafIsLastPart` | scripts/audit_branch_protection_lib.py:380-394 | The leaf of a context is what stands behind its last " / ", or all of it, trimmed |
| `NeedsClosure.NamesIff` | scripts/audit_branch_protection_lib.py:417-422 | A needs edge is a job named alone or in the list behind needs |
| `CheckRuns.HundredsAreServed` | scripts/audit_branch_protection_lib.py:184-209 | The page server of these results: page p holds the p-th hundred of the listed runs, and is full exactly when there are that many |
| `CheckRuns.OrphansAppend` | scripts/audit_branch_protection_lib.py:213-221 | Orphans are listed in the order of the required contexts and as often as these repeat |
| `CheckRuns.OrphansOfOne` | scripts/audit_branch_protection_lib.py:213-221 | ...one context at a time: none when it was seen or is main-target-guard |
| `LineLexer.PartsKeyIsFiledKey` | scripts/_infisical_util.py:57-66 | Whatever key the parser binds, the updater files the line under the same key, although the two compute it differently |
| `LineLexer.KeysDisagreeOnlyOnBareWord` | scripts/_infisical_util.py:129-136 | They disagree on one shape only: export directly before the equals sign |
| `LineLexer.FreshParts` | scripts/_infisical_util.py:150-154 | A written KEY=value line splits into that key and value again, up to trailing blanks |
| `LineLexer.WordParts` | scripts/_infisical_util.py:138-148 | ...with an export prefix too |
| `LineFiling.OwnKeyIsFiled` | scripts/_infisical_util.py:131-136 | A new line for a trimmed key without =, export prefix or leading # is filed under that key |
| `LineFiling.OtherKeyIsLost` | scripts/_infisical_util.py:131-136 | ...and for any other key under a shorter one, or none |
| `LineFiling.FoundStaysFiled` | scripts/_infisical_util.py:138-148 | An overwritten line stays filed under its key, whatever the key and the value |
| `LineFiling.RewriteOverwrites` | scripts/_infisical_util.py:138-148 | Overwriting it again leaves nothing of the earlier value |
| `EnvTable.ParseAll` | scripts/_infisical_util.py:57-97 | The parser's loop: the last line that binds a key wins |
| `EnvTable.IndexLines` | scripts/_infisical_util.py:129-136 | The updater's index map holds the last line filed under each key |
| `EnvTable.ApplyUpdates` | scripts/_infisical_util.py:138-154 | In-place overwriting and collecting missing keys, over the whole list of updates |
| `EnvTable.UpdatedKeysReadBack` | scripts/_infisical_util.py:125-156 | Every updated key parses to its new value, duplicates and appended lines included |
| `EnvTable.OtherKeysUntouched` | scripts/_infisical_util.py:125-156 | Every other key parses as before |
| `EnvRewrite.PlaceIsFound` | scripts/_infisical_util.py:129-154 | After an update every key is found again on the line the update wrote |
| `EnvRewrite.UpdateOverwrites` | scripts/_infisical_util.py:129-156 | A later update of the same keys appends nothing and gives the file the later update alone would have given |
| `EnvRewrite.StillMissing` | scripts/_infisical_util.py:129-154 | With a key that is neither in the file nor filed under itself, some key is still missing afterwards |
| `EnvTable.UnnamedLineKept` | scripts/_infisical_util.py:138-148 | A line that is not the last one of an updated key is untouched |
| `EnvLine.CommentRule` | scripts/_infisical_util.py:76-93 | The three-marker inline-comment rule equals: cut at the first # at index 1 or later, then strip |
| `EnvLine.UnquotedHasNoComment` | scripts/_infisical_util.py:76-93 | An unquoted parsed value has no # behind its first character |
| `EnvLine.StableValueIff` | scripts/_infisical_util.py:67-95 | A value reads back unchanged exactly when it has no outer whitespace, is not wrapped in quotes and has no # behind its first character |
| `EnvLine.SkippedIffBareExport` | scripts/_infisical_util.py:61-95 | A line the updater files is skipped by the parser exactly when it has the shape export =... |
| `EnvLine.WrittenLineParses` | scripts/_infisical_util.py:138-154 | Every line the updater writes for a well-formed key, export kept or not, parses to that key and the trimmed value |
| `EnvLine.EnvGrammarIsCoherent` | scripts/_infisical_util.py:57-156 | The line grammar of the two functions meets everything the file-level results ask of it |
| `EnvFile.RewriteLines` | scripts/_infisical_util.py:129-154 | The line array the updater writes, section header and separator included |
| `EnvFile.EnvFile.Parse` | scripts/_infisical_util.py:23-97 | _parse_env_file over the file's text; a missing file is empty |
| `EnvFile.EnvFile.Update` | scripts/_infisical_util.py:100-156 | update_env_file replaces the whole text by the updated lines |
| `EnvReadBack.UpdateThenParse` | scripts/_infisical_util.py:57-156 | For well-formed one-line keys and values on one line, a final carriage return aside, written text read back: every updated key has its new value as the parser trims it |
| `EnvReadBack.UpdateKeepsOtherKeys` | scripts/_infisical_util.py:57-156 | ...and every other key is present or absent, with its value, as before |
| `EnvReadBack.SeveralLinesBindAnotherKey` | scripts/_infisical_util.py:138-156 | A value of two lines can bind another key: the family of inputs for which the frame fails |
| `EnvReadBack.OtherKeysSurviveIff` | scripts/_infisical_util.py:57-156 | One update of a well-formed one-line key, with any value, to a new file binds no other key exactly when no later line of the value parses to another key |
| `EnvRepeat.FileLines` | scripts/_infisical_util.py:125-156 | Lines written to the file are read back as at least as many, and as many exactly when each is on one line, a final carriage return aside |
| `EnvRepeat.UpdateIsIdempotentIff` | scripts/_infisical_util.py:125-156 | For any file and any updates: updating twice leaves the file text identical exactly when every key is on one line and is in the file or is filed under itself, and every value is on one line, a final carriage return aside |
| `EnvRepeat.SeveralLinesLeaveATail` | scripts/_infisical_util.py:138-156 | The failing values: one of several lines changes the file on every run |
| `EnvRepeat.CommentKeyIsAppendedAgain` | scripts/_infisical_util.py:129-154 | The failing keys: one that begins with # and is not in the file is appended again |
| `EnvFile.UpdateKeepsOtherLines` | scripts/_infisical_util.py:138-156 | Every line not named by an update keeps its index and content |
| `EnvReadBack.ParsedValuesOnOneLine` | scripts/_infisical_util.py:57-97 | No parsed value contains a line break |
| `EnvReadBack.ValueSurvivesIff` | scripts/_infisical_util.py:57-156 | For a well-formed one-line key: writing a value and reading it back gives that value exactly when it is on one line, trimmed, not quoted and without an inline # |
| `TextLines.SplitJoin` | scripts/_infisical_util.py:156 | Joining unbroken lines with a final newline and splitting gives the lines back |
| `Text.LineBreaks` | scripts/_infisical_util.py:57 | The ten characters splitlines breaks at |
| `Text.Spaces` | scripts/_infisical_util.py:58 | The 29 characters strip removes |
| `EnvQuoting.EntryIsRead` | scripts/_infisical_util.py:57-97 | In any file the last entry for a key decides: a value in quotes is read verbatim, whatever stands between them; a bare one ends at its comment; blanks around either, export in front and indentation make no difference |
| `EnvQuoting.QuotedLineIsRead` | scripts/_infisical_util.py:66-75 | A file of one line with a quoted value, blanks around the quotes, parses to that one binding |
| `EnvQuoting.UpdateUnquotes` | scripts/_infisical_util.py:57-156 | Writing a value in quotes into any file and reading it back gives what is between the quotes |
| `EnvQuoting.CommentIsSkipped` | scripts/_infisical_util.py:58-60 | Nothing is read from a comment line |
| `EnvQuoting.OverwritesInPlace` | scripts/_infisical_util.py:138-148 | Updating a key the file has replaces its last line by KEY=value, with export in front exactly when it had it |
| `EnvQuoting.AppendsAtTheEnd` | scripts/_infisical_util.py:150-156 | Otherwise the entry goes to the end under the literal heading, an empty line in front unless the file is empty or ends in a blank line |
| `EnvQuoting.NewFileReads` | scripts/_infisical_util.py:150-156 | The text of a new file, character by character |
| `DepProvenance.FindViolations` | scripts/check_dep_provenance.py:289-326 | The first pass: one finding per git-sourced first-party package without an escape token, in order |
| `DepProvenance.FindEscapeTokenViolations` | scripts/check_dep_provenance.py:644-769 | The token pass with its guards in order: unreadable date, expired, no live condition, unresolved ticket, closed ticket |
| `DepProvenance.DeclaredVersionSpecs` | scripts/check_dep_provenance.py:334-372 | The specs map filled by project dependencies, then overrides |
| `DepProvenance.FindLineageViolations` | scripts/check_dep_provenance.py:462-558 | The lineage pass over that map and the tree resolver |
| `DepGate.SourcesCleanIff` | scripts/check_dep_provenance.py:289-326 | Empty exactly when every git-sourced first-party package carries a token |
| `DepGate.TokensCleanIff` | scripts/check_dep_provenance.py:644-769 | Empty exactly when every token of such a package still justifies its override today |
| `LastWins.CollectIsLast` | scripts/check_dep_provenance.py:362-372 | Last entry wins: a key is in the map exactly when some requirement is the last to name it, with that one's spec |
| `DepGate.LineageKindIff` | scripts/check_dep_provenance.py:497-558 | A package passes exactly when it is not pinned, or the last requirement naming it (if any) is an exact == pin whose v-tag tree is the pinned ref's tree |
| `DepGate.LineageCleanIff` | scripts/check_dep_provenance.py:462-558 | An empty lineage result means exactly that for every package, whatever escape token the line carries |
| `DepGate.CleanYesterday` | scripts/check_dep_provenance.py:690-767 | What is clean on one day was clean on every earlier day |
| `DepGate.ExemptionEnds` | scripts/check_dep_provenance.py:690-767 | No permanent exemption: without the ticket service any git-sourced first-party package makes the gate fail on every day after some day |
| `DepGate.FailsByTheLastDayIff` | scripts/check_dep_provenance.py:690-767 | Within the calendar the gate has failed by 9999-12-31 exactly unless every such package carries a token dated on that very day |
| `DepGate.ExitCode` | scripts/check_dep_provenance.py:887-1005 | The command's exit code for every combination of flags: CI refusal, missing file, the standalone movable check, and --allow-undetermined-lineage, which passes every finding whose message contains the words |
| `DepGate.SuccessMeans` | scripts/check_dep_provenance.py:922-1005 | All passes together: success without the ticket service leaves only dated, unexpired tokens on packages of proven lineage |
| `DepGate.LoosenedPinIsCaught` | scripts/check_dep_provenance.py:513-525 | Loosening an exact pin does not evade the lineage pass, token or not |
| `DepGate.WordsInSpecAreLabelled` | scripts/check_dep_provenance.py:954-956 | A spec that contains the words the command searches messages for is no exact pin, yet is counted as undetermined |
| `DepGate.OnlyUndeterminedIsWavedThroughIff` | scripts/check_dep_provenance.py:954-956 | The flag waves through undetermined lineage only, exactly when, for every pinned package and the last requirement naming it, the words are not in the ref or spec of a loose pin, the URL of an unknown repository, or the ref and trees of diverged content |
| `DepGate.WordsAreWavedThrough` | scripts/check_dep_provenance.py:887-1005 | A document with such a finding for which the command returns 0 |
| `DepTexts.ClosedIff` | scripts/check_dep_provenance.py:210-212 | A ticket is closed exactly when its status is done, completed, canceled, cancelled or duplicate, in any letter case, outer blanks aside |
| `DepTexts.TokenFindingsIff` | scripts/check_dep_provenance.py:690-767 | The token findings are exactly the failing tokens of git-sourced omnibase-core, -spi and -compat, each with its kind |
| `DepTexts.SourceFindingsIff` | scripts/check_dep_provenance.py:289-326 | The source findings are exactly those packages with a git, rev, branch or tag key and no token |
| `DepTexts.ClosedTicketFails` | scripts/check_dep_provenance.py:887-1005 | With token expiry checked, a token that cites a closed ticket makes the command return 1, whatever its date and whatever else is in order |
| `DepTexts.OpenTokenIsSilent` | scripts/check_dep_provenance.py:690-767 | An unexpired or undated token whose ticket has any other status causes no finding |
| `DepTexts.OpenTicketsPass` | scripts/check_dep_provenance.py:887-1005 | ...and with only such tokens and no lineage check the command returns 0 |
| `PinTexts.ExactPinIff` | scripts/check_dep_provenance.py:200 | An exact pin is ==, blanks, and a version of letters, digits, underscores, dots, plus and minus signs |
| `PinTexts.PinnedRefIff` | scripts/check_dep_provenance.py:503-505 | The pinned ref is rev, else tag, else branch, empty or false ones passed over |
| `PinTexts.RequirementIff` | scripts/check_dep_provenance.py:362-372 | A requirement string declares the normalised longest run of name characters, with the trimmed rest of its line as spec |
| `PinTexts.LineageFindingsIff` | scripts/check_dep_provenance.py:497-558 | The lineage findings are exactly the pinned packages that fail against the last requirement declaring them, each with its kind and what it quotes |
| `PinTexts.AsksAboutOne` | scripts/check_dep_provenance.py:777-823 | Asked about one package, quotes and blanks around its name aside, the command returns 0 exactly when no source of that name has a git key |
| `PinTexts.HasWordsIff` | scripts/check_dep_provenance.py:954-956 | The words are UNDETERMINED lineage, anywhere in a quoted text |
| `EntryPoints.BuildSection` | scripts/generate_entry_points.py:66-80 | The generated section: header, then one entry line per node in order, each with its newline |
| `EntryPoints.Pyproject.Check` | scripts/generate_entry_points.py:111-146 | check_mode: 0 exactly when the file exists and its first section, trailing newlines aside, is the generated one |
| `EntryPoints.Pyproject.Generate` | scripts/generate_entry_points.py:149-157 | generate_mode: a missing file is an error, otherwise the file is rewritten |
| `SectionSplice.BodyLength` | scripts/generate_entry_points.py:99-102 | The greedy group match: the longest run of whole lines without an opening bracket |
| `SectionSplice.FirstMatch` | scripts/generate_entry_points.py:99-103 | pattern.search: the text taken apart at the leftmost header, with the section as long as possible |
| `SectionSplice.LeftmostIsFirst` | scripts/generate_entry_points.py:99-103 | There is only one such way of taking a text apart |
| `SectionSplice.ReplaceKeepsGaps` | scripts/generate_entry_points.py:103-104 | Replacing keeps all text before, between and after the sections element for element and turns every section into the new one |
| `SectionSplice.ReplaceOverwrites` | scripts/generate_entry_points.py:103-104 | On every text: replacing by a bracket-free section and then by any other gives what the second replacement alone would have given |
| `SectionSplice.BracketsGrow` | scripts/generate_entry_points.py:103-104 | With a bracket among the entries every further replacement makes the text grow |
| `SectionSync.SyncIffSettles` | scripts/generate_entry_points.py:91-135 | For any text: the new section is recognised afterwards exactly when there are no entries, or no entry has a bracket and the text has a section or does not end in a bare header |
| `SectionSync.TwiceIffSettles` | scripts/generate_entry_points.py:91-108 | A second rewrite, of the text as it is read back, gives the same text under exactly the same condition |
| `SectionSync.UnterminatedLineStays` | scripts/generate_entry_points.py:99-104 | A last line without a newline is not part of the section and stays behind the new one |
| `EntryPoints.GenerateThenCheck` | scripts/generate_entry_points.py:111-157 | After generating, the check returns 0 exactly when there are no nodes, or no name has a bracket or carriage return and the file has a section or does not end in a bare header line |
| `EntryPoints.GenerateTwice` | scripts/generate_entry_points.py:149-157 | Generating twice equals generating once exactly for such files, carriage returns in names included |
| `EntryPoints.BareHeaderNeverSettles` | scripts/generate_entry_points.py:106-108 | The failing family: a file without a section that ends in the bare header, for any nodes |
| `EntryPoints.CurrentIdentifiesNodes` | scripts/generate_entry_points.py:131-135 | A file passes the check for one list of nodes only: after a node is added, removed, renamed or reordered it returns 1 |
| `EntryPoints.TextIsKept` | scripts/generate_entry_points.py:99-108 | A file without carriage returns keeps all text outside its sections, and every section becomes the generated one |
| `EntryPoints.FrontIsKeptIff` | scripts/generate_entry_points.py:83-108 | In any file with a section the text in front of it is kept as it is exactly when it has no carriage return |
| `EntryPoints.SectionIsAppended` | scripts/generate_entry_points.py:106-108 | A missing section is added at the end of the right-trimmed text |
| `EntryPoints.AppendKeepsTextIff` | scripts/generate_entry_points.py:83-108 | For names without carriage returns, the right-trimmed file is then kept as it is exactly when it has none |
| `EntryPoints.ReturnsAreLost` | scripts/generate_entry_points.py:83-88 | For such names no carriage return of the file survives |
| `GeneratedTexts.SectionLines` | scripts/generate_entry_points.py:66-80 | The generated section split into lines: the literal header and, for each node in order, name = "package.nodes.name" |
| `GeneratedTexts.EntryReadsBack` | scripts/generate_entry_points.py:66-80 | Such a line reads back: the node in front of its first equals sign, the quoted module path behind it |
| `SchemaFingerprint.ComputeFingerprint` | scripts/check_schema_fingerprint.py:45-94 | The fingerprint and file count of a directory, computed over the sorted file names |
| `SchemaFingerprint.EntryInjective` | scripts/check_schema_fingerprint.py:78-94 | An entry's name and content digest can be read off again, whatever colons the name contains |
| `SchemaFingerprint.CanonicalInjective` | scripts/check_schema_fingerprint.py:78-94 | Equal canonical texts come from equal directories; the [] of the empty directory never collides |
| `SchemaFingerprint.FingerprintIdentifies` | scripts/check_schema_fingerprint.py:78-94 | Without a hash collision the fingerprint identifies the directory |
| `SchemaFingerprint.ArtifactRoundTrip` | scripts/check_schema_fingerprint.py:97-151 | The artifact reads back as the fingerprint it was written for, behind its comment lines |
| `SchemaFingerprint.Artifact.Verify` | scripts/check_schema_fingerprint.py:154-221 | cmd_verify: its exit code for every directory and artifact, missing ones included |
| `SchemaFingerprint.Artifact.Stamp` | scripts/check_schema_fingerprint.py:224-262 | cmd_stamp: what is written, and that a dry run or a missing directory writes nothing |
| `SchemaFingerprint.StampThenVerify` | scripts/check_schema_fingerprint.py:180-221 | Stamp, then verify: 0 for the same directory and 2 after any file is added, removed, renamed or edited |
| `SchemaMerging.SeveralFilesCollide` | scripts/check_schema_fingerprint.py:78-94 | Newline-free names are needed: any directory of several .sql files has the fingerprint of another one, with one .sql file for its last two, whose name holds the line of the first; no hash collision is involved |
| `SchemaMerging.MergedLength` | scripts/check_schema_fingerprint.py:85-92 | That name is 66 characters longer than the two names |
| `SchemaMerging.NewlineInNameCollides` | scripts/check_schema_fingerprint.py:78-94 | For a.sql and b.sql with any content |
| `SchemaCollisions.OneLineIdentifies` | scripts/check_schema_fingerprint.py:78-94 | The canonical text of at most one file, its name free of newlines, belongs to no other directory, whatever the names there |
| `SchemaCollisions.NewlineFreeSwallowsNothing` | scripts/check_schema_fingerprint.py:85-92 | A name without a newline swallows no line |
| `SchemaCollisions.AloneAndPlainIsUnmistakable` | scripts/check_schema_fingerprint.py:78-94 | Without hash collisions, at most one stamped file, whose name swallows no line, is never mistaken, whatever .sql names up to any limit on their length another directory has |
| `SchemaCollisions.UnmistakableIff` | scripts/check_schema_fingerprint.py:78-94 | ...and where the merged name of the last two stamped files fits the limit, every other directory has another fingerprint exactly for such a directory |
| `SchemaCollisions.EveryChangeIsDetectedIff` | scripts/check_schema_fingerprint.py:180-221 | Verify returns 2 for every such directory under exactly that condition |
| `GeneratedTexts.CanonicalText` | scripts/check_schema_fingerprint.py:78-94 | The canonical text grows by one name:hash line for each file in name order |
| `GeneratedTexts.EmptyCanonicalText` | scripts/check_schema_fingerprint.py:80-83 | ...and is [] for no file |
| `GeneratedTexts.ArtifactTextLines` | scripts/check_schema_fingerprint.py:128-151 | The artifact split into its six literal lines |
| `GeneratedTexts.CountReads` | scripts/check_schema_fingerprint.py:150 | The file count it holds reads back as the number of files, without a leading zero |
| `GeneratedTexts.FirstMarkedIff` | scripts/check_schema_fingerprint.py:97-125 | Reading takes the value of the first line that begins with sha256:, blanks aside, and PENDING is none |
| `GeneratedTexts.VerifyReadsFirstMark` | scripts/check_schema_fingerprint.py:154-221 | Verify returns 0 exactly when that value is the fingerprint of the directory |

## Left out

- EntryPoints.Pyproject.Generate: the replacement text is inserted literally, while `re.sub` would expand backslash escapes in it; a package or directory name with a backslash is not modelled.
- DiskGcPlan.BuildPlan: `kept_reasons` records which rule kept an id, not the rendered text, and the age of a row is a real number of days; parsing `CreatedAt` and the JSON rows is not modelled, and a container's State and Status fields are reduced to whether it is stopped.
- DepProvenance.DeclaredVersionSpecs: `\d`, `\s` and `str.lower` are modelled on ASCII letters and digits and on Python's whitespace table; other Unicode digits and case mappings are not.
- SchemaFingerprint.FingerprintIdentifies: asks that the finitely many texts involved do not collide under the hash; SHA-256 itself is any function to 64 hexadecimal digits, and contents are texts rather than bytes.
- DepProvenance.FindLineageViolations: a finding carries the texts its message quotes rather than the message, and the repository behind a git URL is a parameter.
- DepGate.ExitCode: the words that mark an undetermined finding are looked for in the quoted texts as they are, not as `repr` renders them.
- BackfillRuns.CompletedRunLeavesNothing: other programs insert rows but do not edit or delete existing ones; the database's unique key is the key of a map.
- EnvFile.EnvFile.Update: atomic replacement and file permissions of the written file are not modelled.
- SchemaCollisions.UnmistakableIff: a limit on file names counts characters, not bytes; of several stamped files whose last two names do not fit one within the limit, nothing is said.
- General TOML, YAML and JSON parsing: the models start from parsed values, dictionary order is list order, and a workflow job's needs are a name or a list of names.
- Ticket identifiers: reading the ticket number out of a token is part of the ticket service parameter.
- The audit's approval queries, fix payloads and command-line report; only verdicts are modelled.
- Printing, logging, diffs, exit-message texts, retries and timeouts.
- The topic, lane and census gates, the wheel and version-pin checks and the report generators: single passes that would only add easy members.
- Kafka topic creation, dead-letter replay, release identity and the ACL generators: their logic is in modules that are not part of this model.
