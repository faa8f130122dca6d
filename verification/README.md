# Verified model of the NFL player-prop pipeline's stores, calibration and scores

A Dafny model of six parts of the pipeline, each with the properties it exists
for proved over all inputs, all runs or all reachable states.

* **Partitioned append store** (`WarehouseRows`, `WarehouseParts`,
  `WarehouseAppend`, `WarehouseCompaction`, `WarehouseBound`, `Warehouse`). A table is an optional
  base file plus range-named parts. Every atomic file step is an action on the
  directory; `Warehouse.Table` carries the actions out and is proved to take
  only such steps, so a property of every run of actions covers every crash
  point. Rows are maps from column names to values; key, sort order and prune
  column are a parameter of the table.
* **Prequential calibration** (`OofSpec`, `OofTheorems`, `OofReference`, `Oof`).
  The loop over as-of times, its pending table and its output arrays refine a
  calibration of each row that is defined from earlier outcomes alone, and that
  in turn a reference without groups, tables or times. Fitting, transforming and
  the log loss are uninterpreted functions.
* **Versioned outcome history** (`OutcomeVersions`, `OutcomeTheorems`,
  `OutcomeChain`, `OutcomeRepeats`, `OutcomeMeaning`, `OutcomeStore`). Append-only versions, the
  point-in-time selections over them, what every run of appends keeps, when the
  history of a key is a chain, what a batch does when it is offered again, and
  the append itself, step by step.
* **Calibration registry** (`RegistrySpec`, `RegistryTheorems`,
  `RegistryChampions`, `Registry`). A lifecycle state machine over four tables, including registrations and
  promotions that stop between their two writes, and the fail-closed resolver.
* **Exact distributions and proper scores** (`RealSums`, `Crps`, `ExactPmf`,
  `WeightedPmf`, `EntropyTilting`, `CompactGame`, `EmpiricalCrps`, `Odds`,
  `LivePricing`, `Quantiles`), over exact reals and an abstract positive exponential.
* **Codec, raw store and folds** (`BigEndian`, `PmfCodec`, `RawStore`, `Folds`).
  Bytes, 64-bit floating-point patterns (section 3.4 of IEEE 754-2008), files in
  two formats, and microsecond times.

`StableSorting` holds the sorting and filtering facts several parts share.
`dafny verify dfyconfig.toml` checks the whole project.

## Where the code does not do what it says

The model follows the code. Each of these is a theorem with the exact condition
under which the documented behaviour does hold.

* An appended batch is lost to every reader once the next sequence number needs
  ten digits, because part names are matched on exactly nine
  (`WarehouseAppend.PublishIsRewrite`, `WarehouseAppend.SequenceOverflowLosesBatch`).
* An incremental append reads like the full rewrite only while the stored rows
  outside the batch repeat no key; the rewrite drops such repeats, the new part
  leaves them (`WarehouseRows.RunIsRewrite`, `Warehouse.RepeatedKeyIsKept`).
* The past as known at T changes when a batch first seen after T holds a row for
  a key without a final version that was already available at T and ranks above
  what was visible of its key, and over a run exactly when some accepted append
  holds one (`OutcomeTheorems.PastIsFrozen`, `OutcomeTheorems.PastIsFrozenOverRuns`,
  `OutcomeTheorems.BackdatedKeyChangesThePast`).
* Appends compare only against versions with a null or "Final" status. A stored
  version with another status can have an older row, or one that says the same,
  appended behind it: exactly when a taken row of its key was first seen no later,
  or repeats it (`OutcomeChain.AddedIsLater`, `OutcomeChain.AddedDiffers`,
  `OutcomeChain.NonFinalStatusBreaksChain`).
* An accepted batch that is offered again after any later appends is written
  again exactly when some row is no longer what the latest final version of its
  key says, no such row is stale, and none repeats an id
  (`OutcomeRepeats.RepeatExactly`). That takes a later append that contradicts a
  row with a version first seen before it (`OutcomeRepeats.RepeatNeedsOlderVersion`,
  `OutcomeRepeats.RepeatIsWrittenAfterOlderCorrection`), so it never happens while
  later batches arrive in order (`OutcomeRepeats.RepeatInOrderIsNeverWritten`).
* Fetching the same contents again later is a no-op exactly while they are what
  the latest final versions say; if nothing else was appended for their keys, that
  is when every version first added was final (`OutcomeRepeats.RefetchWritesNothing`,
  `OutcomeRepeats.RefetchIsWrittenAgain`).
* Candidate selection can score a candidate on a row it was fitted on: exactly
  when a row's outcome was available before its own as-of time, which nothing
  checks (`OofTheorems.OutOfSampleExactly`, `OofTheorems.EarlyOutcomeIsScoredOnOwnFit`).
* Recording a validation with other content under the same artifact, manifest and
  window reports success and stores nothing
  (`RegistryTheorems.ValidationIsStoredExactly`,
  `RegistryTheorems.CorrectedValidationIsDropped`).
* Compatibility digests hash fields joined by bars without escaping, so another
  slot of the same model profile shares a champion key if and only if one of the
  five version strings holds a bar (`RegistryTheorems.KeyIsSharedExactly`,
  `RegistryTheorems.BarsCollide`). Slots of different profiles never do
  (`RegistryTheorems.ProfilesAreApart`).
* A registration that stops between its two writes is afterwards taken as
  complete, and its artifact is one that never gets a registration event
  (`RegistryTheorems.RegisteredExactly`,
  `RegistryTheorems.TornRegistrationIsNeverRecorded`).
* A distribution accepted with a total slightly above one can have a negative
  score (`Crps.NonNegativeExactly`).
* On a collapsed touchdown prop, an over or under priced from raw counts differs
  in win or push from the published distribution exactly when the line lies
  between one and some draw of two or more (`LivePricing.CollapsedLineAgreesExactly`,
  `LivePricing.TwoTouchdownsPassTheLine`, `LivePricing.TwoTouchdownsPushTheLine`);
  the means differ exactly when some draw is above one
  (`LivePricing.CollapsedMeanAgreesExactly`).
* A quantile is the smallest outcome whose cumulative mass reaches q, and the
  order statistic of a counted sample, exactly when no cumulative mass falls short
  of q by at most 1e-12 (`Quantiles.QuantileReachesExactly`,
  `Quantiles.QuantileIsOrderStatistic`, `Quantiles.SlackLosesHalf`).
* A triggered compaction bounds the number of parts by the rows of the table, but
  need not merge any: thirty-two parts of 30,000 rows trigger every pass and stay
  (`WarehouseBound.CompactionBoundsParts`, `WarehouseBound.TriggeredPassMergesNothing`).
* Calibrated weights pass their health check with a total up to 1e-12 above one,
  but a fair price refuses a probability above one: every event can be priced if
  and only if the total is at most one (`LivePricing.PricedExactly`,
  `LivePricing.HealthyWeightsRefuseCertainty`).
* American odds strictly between -100 and 100, and -100 itself, do not survive
  conversion to decimal odds and back (`Odds.AmericanRoundTrip`).
* A pair of probabilities within the slack above one has a fair price that does
  not break even (`Odds.FairPriceBreaksEven`).
* A limited migration pass makes no progress while mismatched legacy files are
  listed first (`RawStore.LimitedPassProgresses`,
  `RawStore.MismatchHoldsUpMigration`).

## Model

| member | source | states |
|---|---|---|
| StableSorting.StableSortMeaning | src/nflprops/data/warehouse.py:196-204 | sorting a logical table is a sorted permutation of it that keeps tied rows in their stored order |
| StableSorting.FilterSort | src/nflprops/data/warehouse.py:202-204 | a stable sort commutes with row filtering, which is what lets a filtered read be the filter of the read |
| WarehouseRows.SortedAscends | src/nflprops/data/warehouse.py:196-204 | a sorted table comes with missing values of its first sort column first, then in ascending time, or in ascending code points |
| WarehouseRows.KeepLastRows | src/nflprops/data/warehouse.py:402 | keep-last leaves exactly the rows that no later row with their key replaces |
| WarehouseRows.KeepLastKeys | src/nflprops/data/warehouse.py:402 | keep-last leaves one row for each key that occurs and loses no key |
| WarehouseRows.KeepLastInOrder | src/nflprops/data/warehouse.py:402 | the rows keep-last leaves stand in input order |
| WarehouseRows.KeepFirstRows | src/nflprops/data/warehouse.py:377 | keep-first leaves exactly the rows that no earlier row with their key precedes |
| WarehouseRows.KeepFirstKeys | src/nflprops/data/warehouse.py:377 | keep-first leaves one row for each key that occurs and loses no key |
| WarehouseRows.KeepFirstInOrder | src/nflprops/data/warehouse.py:377 | the rows keep-first leaves stand in input order |
| WarehouseRows.RunIsRewrite | src/nflprops/data/warehouse.py:388-392 | removing superseded rows and adding the sorted batch reads exactly like concatenating, keeping the last row of each key and sorting everything, if and only if the stored rows outside the batch repeat no key |
| WarehouseRows.RewrittenMeaning | src/nflprops/data/warehouse.py:389-391 | whatever was stored, the rewritten table is sorted, has unique keys, and holds the last stored row of each key the batch does not replace plus the last row of each batch key |
| WarehouseRows.RewriteAfterPartialDrop | src/nflprops/data/warehouse.py:429-436 | a full rewrite started after only some superseded rows were dropped gives the same table |
| WarehouseParts.LiveDisjoint | src/nflprops/data/warehouse.py:138-150 | live parts are pairwise disjoint and listed in sequence order |
| WarehouseParts.InsideLive | src/nflprops/data/warehouse.py:145-149 | every part, superseded or not, lies inside a live one |
| WarehouseParts.ShapeOverRuns | src/nflprops/data/warehouse.py:126-161 | over every run of rewrites, appends, merges, removals and replacements, ranges stay nested or disjoint, live parts disjoint and ordered, superseded parts inside live ones, and the next sequence number above every range |
| WarehouseParts.PublishMergedInvisible | src/nflprops/data/warehouse.py:473-480 | publishing a merged part leaves the logical row sequence unchanged, inputs still present |
| WarehouseParts.RemovePartInvisible | src/nflprops/data/warehouse.py:481-482 | unlinking a superseded part leaves the logical row sequence unchanged |
| WarehouseParts.CompactionInvisible | src/nflprops/data/warehouse.py:139-141 | stopping after any prefix of any compaction reads the same row sequence |
| WarehouseParts.PublishBatchContent | src/nflprops/data/warehouse.py:439-446 | a batch part lands behind everything stored exactly while its sequence number still fits nine digits; beyond that it is published under a name no listing matches |
| WarehouseAppend.PruningIsSound | src/nflprops/data/warehouse.py:407-410 | a file skipped by its stored range holds no row that shares a key with the batch |
| WarehouseAppend.PrunedExactly | src/nflprops/data/warehouse.py:407-410 | a file is skipped if and only if all its values of the prune column come before all of the batch's, or all after |
| WarehouseAppend.CollisionCheckIsExact | src/nflprops/data/warehouse.py:411-420 | the range-filtered collision count is positive if and only if the file holds a key of the batch |
| WarehouseAppend.PublishIsRewrite | src/nflprops/data/warehouse.py:437-446 | once superseded rows are gone, publishing the part equals the full rewrite if and only if the sequence number fits its name and the rows that stay repeat no key |
| WarehouseAppend.SequenceOverflowLosesBatch | src/nflprops/data/warehouse.py:115-123 | a store whose next sequence number has ten digits: the appended batch is not readable |
| WarehouseCompaction.PlanGroups | src/nflprops/data/warehouse.py:460-471 | groups are consecutive small parts within 50,000 rows, leave out no small part, and break only at a full-size part or where the next part would overflow |
| WarehouseBound.CompactionBoundsParts | src/nflprops/data/warehouse.py:105-109 | after a triggered pass there are at most two live parts for each 50,000 stored rows, and one more |
| WarehouseBound.TriggeredPassMergesNothing | src/nflprops/data/warehouse.py:105-109 | 32 parts of 30,000 rows trigger a pass, and every plan for them merges nothing |
| Warehouse.Table.AllParts | src/nflprops/data/warehouse.py:126-135 | the sorted listing of the part ranges |
| Warehouse.Table.LiveParts | src/nflprops/data/warehouse.py:138-150 | the parts no other part covers, in sequence order |
| Warehouse.Table.TableFiles | src/nflprops/data/warehouse.py:153-161 | the base file, if any, then the live parts |
| Warehouse.Table.ReadTable | src/nflprops/data/warehouse.py:207-221 | the files concatenated and stably sorted; with a predicate, exactly the filter of the unfiltered read |
| Warehouse.Table.ReadTableScoped | src/nflprops/data/warehouse.py:293-317 | filtering file by file gives exactly the filter of the full read |
| Warehouse.Table.DropSuperseded | src/nflprops/data/warehouse.py:406-436 | each superseded row leaves the file holding it, no other file is rewritten, and a raising scan stops part-way with every intermediate state still rewriting to the same table |
| Warehouse.Table.MergeGroup | src/nflprops/data/warehouse.py:472-482 | one merge: the run of steps is maintenance only, content is unchanged, and exactly the inputs are replaced by one part |
| Warehouse.Table.Compact | src/nflprops/data/warehouse.py:450-482 | below 32 small parts nothing changes; otherwise every planned group is merged, content is unchanged at every step, a merged part holds exactly the rows of the live parts it covers and no more than 50,000, and any two neighbouring parts are left with at least 50,000 between them |
| Warehouse.Table.IncrementalAppend | src/nflprops/data/warehouse.py:380-448 | an accepted incremental append reads exactly like the full rewrite of what was read before, if and only if the sequence number fits and the stored rows outside the batch repeat no key |
| Warehouse.Table.Write | src/nflprops/data/warehouse.py:335-356 | full replacement leaves one sorted base file and no part |
| Warehouse.Table.Append | src/nflprops/data/warehouse.py:358-378 | for every frame, key, keep and sort: incremental exactly when call and frame match the spec and no scan raises, and then like the full rewrite under the two conditions above; other calls de-duplicate and rewrite; keep-first behind rows that repeat no key loses none of them and adds a batch row exactly if its key is neither stored nor earlier in the batch |
| Warehouse.AppendedRows | src/nflprops/data/warehouse.py:371-378 | a rewriting append leaves all rows without a key, and otherwise one for each key, the last of them or the first, sorted if it is to be |
| Warehouse.KeepFirstAppend | src/nflprops/data/warehouse.py:377 | appending keep-first: every row read before is still there, and a batch row is added if and only if its key was neither stored nor earlier in the batch |
| Warehouse.FallbackIsRewrite | src/nflprops/data/warehouse.py:371-378 | falling back after an interrupted incremental pass still gives the rewrite of the original table |
| Warehouse.RepeatedKeyIsKept | src/nflprops/data/warehouse.py:380-448 | a stored table with a repeated key for which publishing the batch as a part differs from the full rewrite |
| OofSpec.HierarchyCandidates | src/nflprops/calibration/hierarchy.py:35-77 | candidates follow the fallback order, without a position level for rows that have none; an unsupported level is refused |
| OofSpec.CandidateHoldsRow | src/nflprops/calibration/hierarchy.py:54-75 | a row belongs to each of its own candidate groups, so it is found among the rows predicted for it |
| OofTheorems.NoLeakage | src/nflprops/calibration/oof.py:331-338 | two inputs that agree on the rows predicted by t or available before t, up to outcomes available from t on and when those become available, calibrate every row predicted at or before t identically; later rows may be added, removed or changed |
| OofTheorems.VisibleSuffices | src/nflprops/calibration/oof.py:331-344 | a row predicted by t is calibrated the same from only the rows predicted by t or available before it |
| OofTheorems.SelectionScores | src/nflprops/calibration/oof.py:542-564 | selection at t scores exactly the candidate predictions made before t whose outcomes were available before t, and the row of one is in its fit if and only if it was available before its own as-of time |
| OofTheorems.OutOfSampleExactly | src/nflprops/calibration/oof.py:12-14 | some candidate is scored on a row it was fitted on if and only if a row of the group was available before its own as-of time and predicted, earlier, from a fitted group |
| OofTheorems.EarlyOutcomeIsScoredOnOwnFit | src/nflprops/calibration/oof.py:12-14 | a row known at 4 and predicted at 5 is scored at 10 on a candidate fitted on it |
| OofTheorems.EvidenceIsPrior | src/nflprops/calibration/oof.py:134-138 | all fitting and selection evidence of a calibrated row became available strictly before its as-of time, with at least the minimum number of rows of each |
| OofTheorems.EveryRowJustified | src/nflprops/calibration/oof.py:493-540 | each result is the raw probability untouched, or comes from the first hierarchy level that qualifies, with prior evidence and the earliest method of least prior loss |
| OofTheorems.TimesMeaning | src/nflprops/calibration/oof.py:324-329 | the loop visits each as-of time once, in ascending order |
| OofReference.CalibrationIsReference | src/nflprops/calibration/oof.py:324-564 | every row is calibrated by the first configured level that has enough known rows of its own prop, position or at all, and enough earlier predictions to judge the methods on; fitted on exactly those rows, by the earliest method of least loss on exactly those predictions |
| OofReference.ReferenceUnique | src/nflprops/calibration/oof.py:493-540 | the reference allows one result only |
| OofReference.OwnRowsSuffice | src/nflprops/calibration/oof.py:82-110 | with only the prop-family level a row is calibrated the same from only the rows of its own prop; with the position level too, from only those of its own prop or position |
| Oof.NeededGroups | src/nflprops/calibration/oof.py:346-367 | the groups fitted at one time are exactly the candidates of the rows predicted then |
| Oof.FitGroups | src/nflprops/calibration/oof.py:374-491 | exactly the needed groups with enough known outcomes of both classes are fitted, each on its own history and pending table |
| Oof.ResolveRow | src/nflprops/calibration/oof.py:496-540 | the first candidate with a fit and a selected method decides, with its evidence recorded |
| Oof.ExtendPending | src/nflprops/calibration/oof.py:542-564 | after each time the pending table holds exactly the candidate predictions made so far |
| Oof.PrequentialOofCalibrate | src/nflprops/calibration/oof.py:185-564 | accepted exactly for positive minimum, some method, probabilities and outcomes in range and known levels; then the loop over times writes, at every index, the value of the reference calibration |
| Oof.ValidationExactly | src/nflprops/calibration/oof.py:200-258 | which input is refused for which reason, each after the checks before it passed |
| OutcomeTheorems.SelectIsFilter | src/nflprops/data/outcome_versions.py:116-126 | keeping one row per key keeps exactly the greatest version of each, in stored row order |
| OutcomeTheorems.LatestFinalMeaning | src/nflprops/data/outcome_versions.py:129-133 | the latest final version of a key is its greatest version with a null or "Final" status, and is absent only when it has none |
| OutcomeMeaning.LatestFinalExactly | src/nflprops/data/outcome_versions.py:129-161 | a version is selected if and only if it is stored, its status is null or starts with "Final", and no other such version of its key was seen later, or then ingested, available or numbered later |
| OutcomeMeaning.OvertimeIsFinal | src/nflprops/data/outcome_versions.py:129-133 | a version with status "Final/OT" is selected, one with status "Live" is not |
| OutcomeMeaning.KnownAtExactly | src/nflprops/data/outcome_versions.py:136-153 | a version is what was known at a time if and only if it was available by then, not estimated in strict use, and no other such version of its key is later |
| OutcomeMeaning.AddedSays | src/nflprops/data/outcome_versions.py:324-345 | every added version says what a row of the batch says, seen when that was ingested; a correction becomes available no earlier than it was seen |
| OutcomeMeaning.CountsAre | src/nflprops/data/outcome_versions.py:346-363 | the counts reported are the rows of keys without a final version, the rows that change a latest final version, the rest of the batch, and the versions stored |
| OutcomeMeaning.MigratedSays | src/nflprops/data/outcome_versions.py:215-232 | a row stored before versioning keeps its columns, is seen when it was ingested or else available, and counts as final |
| OutcomeMeaning.StoredAscends | src/nflprops/data/outcome_versions.py:238-240 | the stored table ascends in available time, then game, entity, first seen time and id |
| OutcomeTheorems.StoredVersionsSurvive | src/nflprops/data/outcome_versions.py:366-376 | with distinct ids every stored version survives an append unchanged, so the re-read check cannot fail |
| OutcomeTheorems.PastIsFrozen | src/nflprops/data/outcome_versions.py:136-153 | for a batch first seen after T, what was known at T is identical before and after the append if and only if no taken row of a key without a final version was already available at T and ranks above all that was visible of its key; with final statuses that is any backdated new key |
| OutcomeTheorems.PastIsFrozenOverRuns | src/nflprops/data/outcome_versions.py:329-343 | over every run of appends first seen after T, from any table, migrated or not, and whatever the statuses, what was known at T is the same at the end if and only if no accepted append held such a row; later appends never restore it |
| OutcomeTheorems.NothingIsLost | src/nflprops/data/outcome_versions.py:366-376 | over every run of appends no stored version is lost or changed, ids stay unique and the table stays sorted |
| OutcomeTheorems.BackdatedKeyChangesThePast | src/nflprops/data/outcome_versions.py:136-153 | a key first seen at 10 and available at 3 appears in what was known at 5 |
| OutcomeChain.AddedIsLater | src/nflprops/data/outcome_versions.py:324-334 | every version an accepted append adds is first seen after every stored version of its key, if and only if no stored version without a final status was first seen as late as a taken row of its key |
| OutcomeChain.AddedDiffers | src/nflprops/data/outcome_versions.py:312-334 | every added version differs in content from the latest stored one of its key, if and only if no taken row repeats a latest version without a final status |
| OutcomeChain.ChainKept | src/nflprops/data/outcome_versions.py:344-363 | one accepted append under those two conditions keeps the chain: every version later than all earlier ones of its key and different from the one it follows |
| OutcomeChain.HistoryIsAChain | src/nflprops/data/outcome_versions.py:242-363 | over every run, each append extends its keys with later and different versions if and only if none finds such a hidden version in its way, and then the whole table is a chain |
| OutcomeChain.FinalRunIsClear | src/nflprops/data/outcome_versions.py:129-133 | while every stored and offered status is null or "Final", nothing is ever hidden |
| OutcomeChain.MigratedHistoryIsAChain | src/nflprops/data/outcome_versions.py:215-232 | the same when the run starts from rows stored before versioning, with no condition on them |
| OutcomeRepeats.RepeatExactly | src/nflprops/data/outcome_versions.py:299-357 | an accepted batch offered again after any later appends writes nothing if and only if every row is what the latest final version of its key says, is refused as stale or for a repeated id exactly when such a row is one or the other, and is written exactly otherwise |
| OutcomeRepeats.RepeatNeedsOlderVersion | src/nflprops/data/outcome_versions.py:326-357 | a batch written again holds a row that was already known at first, and that a later append contradicted with a final version first seen before it |
| OutcomeRepeats.RepeatInOrderIsNeverWritten | src/nflprops/data/outcome_versions.py:326-357 | while no later accepted final row was seen before a row of the batch for the same key, the batch is never written again |
| OutcomeRepeats.RepeatIsWrittenAfterOlderCorrection | src/nflprops/data/outcome_versions.py:326-348 | three batches, every status final, the third being the first again and written again |
| OutcomeRepeats.RepeatOfUntouchedKeys | src/nflprops/data/outcome_versions.py:326-357 | after appends that left its keys alone an accepted batch writes nothing if every version it added has a final status, and is refused for a duplicate id otherwise |
| OutcomeRepeats.TakenAgain | src/nflprops/data/outcome_versions.py:312-334 | a row offered again after it was accepted is taken again if and only if it was taken under a status that is not final |
| OutcomeRepeats.RefetchWritesNothing | src/nflprops/data/outcome_versions.py:326-348 | the same keys and contents offered again at any times, after any later appends, write nothing if and only if each is still what the latest final version of its key says and no estimated time is refused; if the later appends left those keys alone, if and only if every version first added has a final status |
| OutcomeRepeats.RefetchIsWrittenAgain | src/nflprops/data/outcome_versions.py:312-325 | the content of a version without a final status, fetched again later, is stored a second time |
| OutcomeChain.HiddenVersionsAreIgnored | src/nflprops/data/outcome_versions.py:312-325 | a key is taken as new if and only if none of its stored versions has a final status, and the row is then added, in any table and batch |
| OutcomeChain.NonFinalStatusBreaksChain | src/nflprops/data/outcome_versions.py:129-133 | a concrete batch appended behind a later version because that version was not final |
| OutcomeChain.FirstKnownIsStable | src/nflprops/data/outcome_versions.py:164-168 | the first known version of a key stays first if and only if no taken row of the key becomes a version ordered before it, which no append does without a hidden version in its way |
| OutcomeStore.OutcomeTable.AppendOutcomeVersions | src/nflprops/data/outcome_versions.py:242-363 | migrating, de-duplicating, joining, checking, sorting and re-reading step by step: refused for the first reason in order, and otherwise the sorted union of every stored version unchanged and exactly one version of each taken row, with the counts adding up |
| OutcomeStore.RefusalOrder | src/nflprops/data/outcome_versions.py:242-363 | a batch is refused for an estimated time, else two contents of one key, else a changed row seen no later than the latest final version, else a repeated id, and for nothing else |
| OutcomeStore.DropRepeats | src/nflprops/data/outcome_versions.py:304-305 | identical repeats of a key and content collapse to the first |
| OutcomeStore.SplitByLatest | src/nflprops/data/outcome_versions.py:312-325 | the loop over the joined rows separates the new keys from the changed contents and leaves out the known ones |
| RegistryTheorems.StepKeepsInv | src/nflprops/calibration/registry.py:173-526 | every operation, also when it stops between its two writes, keeps events and champion rows well founded |
| RegistryTheorems.RunKeepsInv | src/nflprops/calibration/registry.py:173-526 | every run keeps that, and replaces nothing but champion rows |
| RegistryTheorems.RunKeepsEvidence | src/nflprops/calibration/registry.py:319-490 | over every run each approval and promotion names a stored validation of its own artifact that passes the gates of its kind |
| RegistryTheorems.ResolvedIsEligible | src/nflprops/calibration/registry.py:643-706 | in every reachable state a resolved champion equals the requested slot, has an approval by a stored validation of its own that passes the approval gates, the promotion its champion row names by one that passes the promotion gates, no terminal event and a verified payload; and its registration event exactly when its registration was not torn |
| RegistryChampions.ResolvesExactly | src/nflprops/calibration/registry.py:579-706 | in every reachable registry a slot resolves to an artifact if and only if scope and checkpoint are supported, the champion row names it, it is stored with exactly that slot, has no terminal event, and its payload verifies |
| RegistryChampions.PromotedResolvesUntilTerminated | src/nflprops/calibration/registry.py:393-490 | after an accepted promotion into a supported slot, in every continuation that accepts no promotion of another artifact under the same key, the slot resolves to the artifact if and only if that was not terminated and its payload verifies |
| RegistryChampions.LifecycleResolves | src/nflprops/calibration/registry.py:173-490 | an artifact registered, validated by evidence that passes every gate, approved and promoted resolves for its supported slot, in every reachable registry |
| RegistryChampions.AcceptedExactly | src/nflprops/calibration/registry.py:173-529 | when each operation is accepted, in terms of stored rows, events and passed gates |
| RegistryChampions.AcceptedLeaves | src/nflprops/calibration/registry.py:173-529 | what an accepted operation stores: its row and its event with the details given, the champion row of a promotion, and nothing else |
| RegistryTheorems.TerminalIsForever | src/nflprops/calibration/registry.py:143-167 | after an invalidation or retirement the artifact never resolves again, for any slot, in any continuation |
| RegistryTheorems.TerminateRecords | src/nflprops/calibration/registry.py:496-529 | invalidating or retiring a registered artifact does record that terminal event |
| RegistryTheorems.OnlyPromotionOrTerminationChangesResolution | src/nflprops/calibration/registry.py:403-405 | registering, recording a validation, approving, and a promotion that stops before its champion row leave every resolution unchanged |
| RegistryTheorems.TerminationIsLocal | src/nflprops/calibration/registry.py:496-529 | terminating an artifact leaves the resolution of a slot unchanged if and only if that was nothing or another artifact |
| RegistryTheorems.PromotionIsLocal | src/nflprops/calibration/registry.py:472-490 | an accepted promotion leaves another slot's resolution unchanged if and only if that slot resolved to nothing or has a different champion key |
| RegistryTheorems.BarFreeSlotsAreApart | src/nflprops/calibration/artifact.py:198-211 | a slot with no bar in any field shares its champion key with no other slot, whatever the other holds |
| RegistryTheorems.ProfilesAreApart | src/nflprops/calibration/artifact.py:198-211 | slots of different model profiles never share a champion key, bars or not |
| RegistryTheorems.PromotionKeepsOtherProfiles | src/nflprops/calibration/registry.py:393-405 | an accepted promotion never changes what a slot of another model profile resolves to |
| RegistryTheorems.BarsCollide | src/nflprops/calibration/artifact.py:290-314 | every slot with a bar in any of its five version strings shares its key with a different slot of its profile |
| RegistryTheorems.KeyIsSharedExactly | src/nflprops/calibration/artifact.py:290-314 | with a scope and checkpoint from their closed lists, another slot shares the key if and only if one of the five version strings holds a bar |
| RegistryTheorems.RegisteredExactly | src/nflprops/calibration/registry.py:195-223 | after any run an artifact it stored has its registration event if and only if the operation that first stored it was not interrupted between its two writes |
| RegistryTheorems.RegistrationStaysSettled | src/nflprops/calibration/registry.py:195-223 | once an artifact is stored no run changes whether its registration event exists |
| RegistryTheorems.TornRegistrationIsNeverRecorded | src/nflprops/calibration/registry.py:195-223 | an interrupted and retried registration: stored, and in no continuation recorded |
| Registry.CalibrationRegistry.Register | src/nflprops/calibration/registry.py:173-223 | hash mismatch, idempotent retry, conflict and insertion, against the state machine |
| Registry.CalibrationRegistry.RecordValidation | src/nflprops/calibration/registry.py:226-307 | the first row for a validation id is kept, and other content under that id dropped with the same reply; missing artifacts and overlapping label sets are refused |
| RegistryTheorems.ValidationIsStoredExactly | src/nflprops/calibration/registry.py:255-303 | an accepted validation is the stored one after any later operations if and only if its id was new or held the same content |
| RegistryTheorems.CorrectedValidationIsDropped | src/nflprops/calibration/registry.py:255-303 | corrected evidence under the same manifest and window: the call reports success, and an approval by it is still refused in every continuation |
| Registry.CalibrationRegistry.Approve | src/nflprops/calibration/registry.py:319-387 | the guards in order, then exactly one approval event |
| Registry.CalibrationRegistry.Promote | src/nflprops/calibration/registry.py:393-490 | the guards in order, then the promotion event and the champion row of the artifact's own slot |
| Registry.CalibrationRegistry.Invalidate | src/nflprops/calibration/registry.py:532-551 | a terminal event for a registered artifact, champion rows untouched |
| Registry.CalibrationRegistry.Retire | src/nflprops/calibration/registry.py:554-573 | the same for retirement |
| Registry.CalibrationRegistry.ResolveCalibrationChampion | src/nflprops/calibration/registry.py:579-706 | every guard in order; the artifact that is installed for the slot, and nothing unless all guards hold |
| Registry.IsTerminallyIneligible | src/nflprops/calibration/registry.py:143-153 | true if and only if a terminal event exists |
| Registry.HasApprovedEvent | src/nflprops/calibration/registry.py:156-167 | true if and only if an approval is newer than every terminal event |
| Crps.CumulativeIsPairwise | src/nflprops/calibration/scoring.py:65-72 | on an ascending support twice the one-pass form from running sums equals the pairwise double sum of masses times distances |
| Crps.CrpsRegret | src/nflprops/calibration/scoring.py:40-52 | reporting p when outcomes follow q costs exactly the sum of squared differences of the cumulative distributions times the support gaps |
| Crps.CrpsIsStrictlyProper | src/nflprops/calibration/scoring.py:1 | the expected score is least at the true distribution, and only there |
| Crps.CrpsLowerBound | src/nflprops/calibration/scoring.py:65-74 | the score is at least the mean distance times the mass missing from one |
| Crps.RefusedExactly | src/nflprops/calibration/scoring.py:55-66 | scored exactly for as many masses as outcomes, at least one, within a billionth of one in total and all positive; otherwise refused for the first of these that fails |
| Crps.NonNegativeExactly | src/nflprops/calibration/scoring.py:59-63 | within the accepted tolerance, no distribution of a given total mass scores negatively if and only if that total is at most one |
| Crps.ExcessMassGoesNegative | src/nflprops/calibration/scoring.py:60-61 | an accepted distribution, for every accepted total above one, whose score is negative |
| EmpiricalCrps.CollapsedScoreIsSampleScore | src/nflprops/backtest/metrics.py:44-55 | the score of the distribution obtained by counting equals the signed-rank score of the sorted draws, for every sample and observation |
| EmpiricalCrps.CumulativeIsRanked | src/nflprops/backtest/metrics.py:50-54 | under equal masses the one-pass form is the signed-rank sum over the squared sample size |
| ExactPmf.PushForward | src/nflprops/calibration/weighted_pmf.py:105 | summing any function over distinct outcomes with their masses equals summing it over draws with their weights |
| ExactPmf.OutcomesMeaning | src/nflprops/distributions/pmf.py:138 | the support is strictly ascending and holds exactly the drawn values |
| ExactPmf.RawPmfIsBuilt | src/nflprops/distributions/pmf.py:114-166 | counting is refused only for zero draws; otherwise masses are positive and add up to one |
| ExactPmf.SupportEnds | src/nflprops/distributions/pmf.py:136-137 | the least and greatest draws are the ends of the support |
| WeightedPmf.BuildWeightedPmf | src/nflprops/calibration/weighted_pmf.py:95-149 | in-place accumulation gives each outcome the weights of its draws; once the weights are valid no later check can fail |
| WeightedPmf.RefusedExactly | src/nflprops/calibration/weighted_pmf.py:76-92 | built exactly for at least one draw and a weight for each, all positive and within a billionth of one in total; otherwise refused for the first of these that fails |
| WeightedPmf.WeightedPmfMeaning | src/nflprops/calibration/weighted_pmf.py:14-22 | the support is the raw support, all masses are positive, they add up to the weights' total, and the score accepts the result against any observation |
| WeightedPmf.BuildWeightedFirstTdSimplex | src/nflprops/calibration/weighted_pmf.py:152-177 | the field gives each label that occurs the weights of its draws |
| WeightedPmf.FieldMeaning | src/nflprops/calibration/weighted_pmf.py:155-161 | the field covers exactly the labels that occur, with positive masses that add up to the weights' total |
| CompactGame.CompactFromLabeledGame | src/nflprops/calibration/compact_game.py:102-159 | one support and one narrowed code vector per label; refuses an unsimulated player, and a game without labels |
| CompactGame.GameLosslessExactly | src/nflprops/calibration/compact_game.py:96-99 | a compacted game keeps every code if and only if no support exceeds 2^32 outcomes |
| CompactGame.TwoBytesExactly | src/nflprops/calibration/compact_game.py:96-99 | two bytes a code are used if and only if they would keep every code, but for a support of exactly 65,536 outcomes |
| CompactGame.TdCodesStoredExactly | src/nflprops/calibration/compact_game.py:96-99 | narrowed first-touchdown codes keep every label if and only if there are at most 2^32 distinct ones |
| CompactGame.CompactWeightedPmf | src/nflprops/calibration/compact_game.py:162-195 | binned masses, checked like the full builder |
| CompactGame.CompactEqualsFull | src/nflprops/calibration/compact_game.py:162-164 | from codes kept without loss, every weight vector gives the same distribution or the same refusal as the full draws |
| CompactGame.CompactFirstTdSimplex | src/nflprops/calibration/compact_game.py:198-210 | from the codes of any label vector as they are stored, narrowed, the same field or refusal as the full builder while at most 2^32 labels occur |
| EntropyTilting.SoftmaxIsValid | src/nflprops/calibration/entropy_tilting.py:81-115 | for every fitting parameter vector and at least one draw the weights pass validation, one positive weight for each draw |
| EntropyTilting.ZeroThetaIsRaw | src/nflprops/calibration/entropy_tilting.py:20-23 | the zero vector gives every draw weight 1/n, and the weighted distribution is exactly the raw one |
| EntropyTilting.TiltFollowsScore | src/nflprops/calibration/entropy_tilting.py:4-8 | with a strictly increasing exponential a draw outweighs another if and only if its score is higher |
| EntropyTilting.DotGrows | src/nflprops/calibration/entropy_tilting.py:75 | a score is the sum of the products of parameters and features |
| EntropyTilting.TiltingLaw | src/nflprops/calibration/entropy_tilting.py:94-101 | under a positive exponential that turns sums into products, the weights of two draws stand to each other as the exponential of the difference of their scores |
| EntropyTilting.SoftmaxIsExponential | src/nflprops/calibration/entropy_tilting.py:94-101 | every weight is the exponential of its score over the total of the exponentials of all scores, whatever the shift |
| LivePricing.PriceLine | src/nflprops/distributions/pmf.py:205-219 | the accumulation loop splits the mass into over, under and push |
| LivePricing.PropsAre | src/nflprops/simulation/props.py:181-187 | which props collapse to "at least one", which have a hit market, and which keep their counts; an over or under is undefined exactly without a line |
| LivePricing.LinePricesAgree | src/nflprops/calibration/live_application.py:462-475 | for props without binary collapse, masking draws gives the distribution's over, under and push for any line, the three add up to the total weight, and the means agree |
| LivePricing.HitPricesAgree | src/nflprops/calibration/live_application.py:467-470 | a hit is the mass at one or more, collapsed or not; the event is undefined exactly for props that are not hit props |
| LivePricing.CollapsedLineAgreesExactly | src/nflprops/calibration/live_application.py:462-475 | on a collapsed prop the win and push of a line, over or under, equal those of the collapsed distribution if and only if no draw of two or more has the line between one and itself |
| LivePricing.TwoTouchdownsPassTheLine | src/nflprops/calibration/live_application.py:462-475 | a draw of two touchdowns against a line of 1.5 is priced as a certain over that the collapsed distribution does not have |
| LivePricing.TwoTouchdownsPushTheLine | src/nflprops/calibration/live_application.py:462-475 | the same draw against a line of 2 is priced as a certain push, where the collapsed distribution has a certain under |
| LivePricing.CollapsedMeanAgreesExactly | src/nflprops/calibration/live_application.py:532 | on a collapsed prop the calibrated mean of the draws is that of the collapsed distribution if and only if no draw is above one |
| LivePricing.PricedExactly | src/nflprops/calibration/live_application.py:452-458 | under weights that pass the health check every event has a pair of probabilities a fair price accepts, if and only if the weights add up to at most one |
| LivePricing.HealthyWeightsRefuseCertainty | src/nflprops/calibration/live_application.py:452-458 | two healthy weights under which a certain event is refused |
| LivePricing.CalibratePricedRows | src/nflprops/calibration/live_application.py:478-541 | one row per quote with the win, push, fair prices, edge, expected value and means of its own draws; otherwise the first quote that has no event, no valid probabilities or zero odds refuses the whole list |
| LivePricing.RowMeaning | src/nflprops/calibration/live_application.py:495-541 | under healthy weights of total at most one a quote is refused only for an undefined event or zero odds, each fair price exists exactly when finite and is the same price, and the expected value is the winning chance times the distance of the quote from it |
| LivePricing.RowMeans | src/nflprops/calibration/live_application.py:530-533 | a row holds its own event, the mean of the reweighted and of the counted distribution, and an edge that adds up with the market probability to its win |
| Odds.AmericanRoundTrip | src/nflprops/market/odds.py:54-70 | American odds survive the trip through decimal odds if and only if they are at least 100 or below -100 |
| Odds.DecimalRoundTrip | src/nflprops/market/odds.py:54-70 | decimal odds above one survive the trip through American odds |
| Odds.FairPricesAgree | src/nflprops/market/odds.py:160-186 | when each fair price is finite, undefined or refused, and that the American and decimal fair prices are the same price |
| Odds.ExpectedValueExactly | src/nflprops/market/odds.py:91-112 | there is an expected value exactly for probabilities that are not negative and together exceed one by at most a billionth; it is the pay of a win times its chance, less the chance of losing, which is never below zero |
| Odds.ValueIsDistanceFromFair | src/nflprops/market/odds.py:91-112 | the expected value of any quote is the winning chance times its distance from the fair decimal price, less any excess of the two probabilities over one |
| Odds.FairPriceBreaksEven | src/nflprops/market/odds.py:160-171 | for a pair of at most one a quote gains if and only if it pays more than the fair price, and only for such a pair does the fair price break even |
| Odds.FairSidesComplete | src/nflprops/market/odds.py:137-157 | the fair probabilities of the two sides of a line that can be lost add up to one |
| Quantiles.WeightedInverseCdfQuantile | src/nflprops/distributions/pmf.py:177-195 | the first outcome whose cumulative mass reaches q within the slack, or the last; refused outside [0, 1] |
| Quantiles.QuantileIsLeast | src/nflprops/distributions/pmf.py:180-186 | an outcome is at or above the quantile if and only if its cumulative mass reaches q less the slack of 1e-12 |
| Quantiles.QuantileReachesExactly | src/nflprops/distributions/pmf.py:178-195 | the quantile is the smallest outcome whose cumulative mass reaches q if and only if some outcome does and no cumulative mass lies within 1e-12 below q |
| Quantiles.QuantileIsOrderStatistic | src/nflprops/projections/summarize.py:65-80 | for every sample and q the quantile of the counted distribution is the order statistic at ceil(q n) - 1 if and only if no cumulative mass lies within 1e-12 below q |
| Quantiles.SlackLosesHalf | src/nflprops/distributions/pmf.py:178-195 | outcomes 0 and 1 of equal mass and q just above a half: the quantile is 0, the smallest outcome reaching q and the order statistic are 1 |
| Quantiles.QuantilesRise | src/nflprops/distributions/pmf.py:180-186 | quantiles rise with q and are unique |
| PmfCodec.ValidatePmfSequence | src/nflprops/distributions/pmf_codec.py:85-117 | the first problem in the order of the checks |
| PmfCodec.ValidExactly | src/nflprops/distributions/pmf_codec.py:85-117 | no problem is found if and only if there are as many probabilities as outcomes, at least one, every two outcomes ascend, every pattern is finite and positive, and the running total is near one |
| PmfCodec.PositiveIsInterval | src/nflprops/distributions/pmf_codec.py:105-111 | finite and strictly positive patterns are exactly the integers between zero and the infinity pattern |
| PmfCodec.EncodePmf | src/nflprops/distributions/pmf_codec.py:120-136 | packing at a moving offset produces the header and the records in order |
| PmfCodec.DecodePmf | src/nflprops/distributions/pmf_codec.py:139-177 | reading at a moving offset, with every refusal in order |
| PmfCodec.EncodesExactly | src/nflprops/distributions/pmf_codec.py:120-125 | encoded if and only if valid, every outcome fits 64 signed bits and the count fits 32 bits |
| PmfCodec.LayoutIs | src/nflprops/distributions/pmf_codec.py:12-25 | the bytes "NFPM", version 1 and the length, then each outcome in two's complement and the 64 bits of its probability, most significant byte first |
| PmfCodec.DecodeInvertsEncode | src/nflprops/distributions/pmf_codec.py:19-24 | decoding gives back every encoded sequence bit for bit |
| PmfCodec.EncodeInvertsDecode | src/nflprops/distributions/pmf_codec.py:139-144 | encoding gives back every accepted payload byte for byte |
| PmfCodec.AcceptedPayloadsArePrefixFree | src/nflprops/distributions/pmf_codec.py:158-163 | an accepted payload cut short or extended is never accepted |
| PmfCodec.PayloadsAndSequencesCorrespond | src/nflprops/distributions/pmf_codec.py:33-40 | accepted payloads correspond one to one to the valid sequences they decode to |
| RawStore.Store.WriteVerified | src/nflprops/data/raw_store.py:48-60 | published only if the compressed bytes restore exactly and hash to the address |
| RawStore.Store.WriteJson | src/nflprops/data/raw_store.py:110-184 | existing compressed or legacy copies are compared, otherwise one verified copy is published; metadata is kept from the first write |
| RawStore.Store.ReadBytes | src/nflprops/data/raw_store.py:186-195 | the stored bytes in whichever form holds them |
| RawStore.Store.ConvertLegacy | src/nflprops/data/raw_store.py:258-275 | a legacy file is removed only after its compressed copy restores exactly its bytes |
| RawStore.Store.CompressLegacyPayloads | src/nflprops/data/raw_store.py:246-277 | the loop converts, skips or refuses in listing order; converted, skipped and remaining add up to the files pending |
| RawStore.ReferencesStayReadable | src/nflprops/data/raw_store.py:6-14 | every reference a write returns reads back the written bytes after any later run of writes and conversions, interrupted or not |
| RawStore.StepKeepsCompressed | src/nflprops/data/raw_store.py:86-93 | no operation ever changes a compressed payload |
| RawStore.RewriteIsIdempotent | src/nflprops/data/raw_store.py:89-91 | bytes stored once can be written again after any run, changing nothing |
| RawStore.FreshWriteStores | src/nflprops/data/raw_store.py:117-132 | bytes at a fresh address are stored if and only if they survive compression, and nothing else changes |
| RawStore.WriteSucceedsExactly | src/nflprops/data/raw_store.py:110-184 | after any run from an empty store a write is accepted if and only if its bytes survive compression and no other bytes of the same hash are in the directory; otherwise it is refused for the one or the other |
| RawStore.BatchIsRun | src/nflprops/data/raw_store.py:246-254 | a finished pass is a run of single conversions |
| RawStore.BatchAccounting | src/nflprops/data/raw_store.py:246-277 | exactly the listed files whose bytes match their address are gone, each restored by its copy, and the others are reported |
| RawStore.FinishesExactly | src/nflprops/data/raw_store.py:246-277 | a pass finishes if and only if no listed matching file has another payload in place or fails to survive compression, and otherwise stops at the first that does |
| RawStore.BytesAddUp | src/nflprops/data/raw_store.py:270-275 | the byte counts reported are those of the converted files and of their copies |
| RawStore.SecondPassIsIdle | src/nflprops/data/raw_store.py:251-253 | a second full pass converts nothing and reports the same files |
| RawStore.LimitedPassProgresses | src/nflprops/data/raw_store.py:257-263 | a limited pass converts something if and only if its first files include one that matches its address |
| RawStore.MismatchHoldsUpMigration | src/nflprops/data/raw_store.py:257-263 | a mismatched file listed before a convertible one: a pass limited to one file changes nothing |
| Folds.BuildSeasonBoundaryFolds | src/nflprops/calibration/phase10c3a_runner.py:410-459 | one fold per pair of neighbouring seasons, refused exactly for fewer than two seasons or when some season does not start after the one before it ended |
| Folds.GroupBySeason | src/nflprops/calibration/phase10c3a_runner.py:420-425 | each season's games, in order; games without a season are left out |
| Folds.SeasonsMeaning | src/nflprops/calibration/phase10c3a_runner.py:427 | the season list holds exactly the seasons that label a game, ascending, and is the only such list |
| Folds.ValidateExpandingFolds | src/nflprops/backtest/protocol.py:81-127 | accepted if and only if names are distinct, the origin is shared, windows never shrink and each score window follows its neighbour |
| Folds.AcceptedExactly | src/nflprops/backtest/protocol.py:81-127 | well-formed folds are accepted if and only if every two of them, not just neighbours, have different names, one origin, windows that never shrink and disjoint score windows |
| Folds.NeighboursSuffice | src/nflprops/backtest/protocol.py:121-125 | in any accepted list of well-formed folds any two score windows are disjoint, not just neighbours |
| Folds.BuiltFoldsAreValid | src/nflprops/backtest/protocol.py:66-78 | whatever is built passes each fold's own checks and the list's |
| Folds.BuiltFoldLies | src/nflprops/calibration/phase10c3a_runner.py:427-459 | a built fold trains from the first game of all to the midpoint between its two seasons, to the microsecond with ties to even, and scores from the first to the last game of its season |
| Folds.FitBeforeScore | src/nflprops/calibration/challenger.py:294-309 | for any well-formed fold, everything fitted was played and known before anything scored |
| Folds.FittedExactly | src/nflprops/calibration/challenger.py:294-309 | a game with a season is fitted by a built fold if and only if its season is trained through and it was known by the end of the training |
| Folds.ScoredExactlyOnce | src/nflprops/calibration/phase10c3a_runner.py:436-457 | a game with a season is scored by exactly the fold named after its season, and first-season games by none |
| Folds.OverlapIsUnlabelled | src/nflprops/calibration/challenger.py:337-341 | an identifier both fitted and scored by a built fold has no season |
| Folds.BuiltFoldsAreScored | src/nflprops/calibration/challenger.py:334-341 | every built fold has games to score, and is never refused for an overlap when every game has a season |
| Folds.PlanWalkForward | src/nflprops/calibration/challenger.py:323-341 | planned if and only if the folds are valid and each has fit games, score games and no shared identifier |
| Folds.UsableExactly | src/nflprops/calibration/challenger.py:334-341 | a fold is usable if and only if some game is fitted, some is scored, and no identifier is both |

## Left out

- Parquet, DuckDB, Polars, object storage, the scan index, the file-range cache
  and page-cache handling: files are sequences and maps, with atomic replace,
  publish and unlink steps. Schema drift between files, column projection and
  tables without their sort columns are not modelled.
- Warehouse.Table.Write: claims nothing about a crash inside a full
  replacement, which parks the parts before publishing the new base file.
- Warehouse.Table.Append: the two values of `keep` modelled are first and last;
  unspecified ties of the rewrite's own sort are modelled as stable.
- Oof.PrequentialOofCalibrate: null checks are carried by the types, and an
  unknown calibrator name raised by the fitting library is not modelled.
- OutcomeStore.OutcomeTable.AppendOutcomeVersions: missing columns, null keys
  and null times are carried by the types; content hashing is one uninterpreted
  function and the eligibility clock is always `available_at`.
- Event, validation and champion ids are identified with the parts they hash, and
  SHA-256 with its input; unknown model-profile names and rows stored before
  profiles existed are excluded by the type of a profile.
- Floating-point rounding in scores, weights and probabilities: these are exact
  reals, so non-finite values and the drift that the softmax renormalization
  corrects do not occur. `RawStore` and `PmfCodec` keep exact bytes.
- LivePricing.CalibratePricedRows: the columns a row only passes through are not
  modelled; the per-player cache is keyed by the pair of player and prop instead
  of their joined text.
- CompactGame.CompactFromLabeledGame: position groups, feature matrices and the
  on-disk form of a compact game are not modelled.
- RawStore.Store.WriteJson: canonical JSON, request redaction and the metadata
  beyond the recorded hash are not modelled; an endpoint is its directory.
- RawStore.Store.CompressLegacyPayloads: takes the listing of legacy files as an
  argument, in whatever order the file system and the sort give.
- Folds.BuildSeasonBoundaryFolds: fold names are pairs of seasons rather than
  text, and time zones are not modelled.
- `skill_score`, the multiclass log loss, calibration error, challenger training,
  live calibrator resolution, devigging, the collection service, promotion
  gates and every report: flat checks or plumbing, or uninterpreted fitting.
