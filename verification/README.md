# Verified model of the renquant-common numeric and date core

This project models the part of `renquant_common` that computes: variance and backtest-overfitting
statistics, purged cross-validation, the model-content fingerprint, notification truncation, business-day
walk-forward dates, the session calendar, the parallel runner, the training-panel freshness gate, the top-N
spread, cost accounting and the cost specification, the fetch budget and two one-pass scans. Each module of
the model follows one source file (or one concern of it), and proves what that file promises for all inputs or
all runs.

`dafny verify dfyconfig.toml` checks everything.

## How the source is represented

* Floats are real numbers; NaN, a missing cell and `None` are `Option.None`. Rounding is not modelled.
* Dates are integers, day numbers since 1970-01-01 where a weekday matters; instants are minutes on the
  calendar's own clock.
* Exceptions are `Result.Err` with one constructor for each way the source raises.
* Code that changes state or loops is a method with invariants (`HacMean`, both PBO estimators, both splitters
  with their narrowing masks, `CanonicalOf`, `AssignSplitColumn`, the cached calendar and its day walk, the
  freshness gate, `TopNSpreadByDate`, `MakeSpec`, `TurnoverBreakdown`, `ApplyCosts`, `FetchBudget`, the flat
  scan). Pure expressions are functions. The parallel runner is a state machine over the steps of its threads.
* What the source delegates is a parameter: SHA-256 and the Sharpe ratio are arbitrary functions, the square
  root is any function that takes square roots, a random draw of combinations is any list of distinct indices,
  `np.argsort` is any function that sorts (its default algorithm is unstable), the exchange dataset is an
  arbitrary schedule, the walking order of a set of symbols is any order, thread interleavings and clocks are
  arbitrary.

| file | models |
|---|---|
| `HacMean.dfy`, `Sums.dfy` | `hac_mean`; finite sums |
| `Combinations.dfy`, `Cscv.dfy`, `PboScores.dfy`, `PboStats.dfy`, `PboMetrics.dfy`, `PboAgreement.dfy` | `itertools.combinations` and the two PBO estimators |
| `PurgedCv.dfy`, `PurgedLaws.dfy`, `Extrema.dfy` | `PurgedKFold`, `CombinatorialPurgedCV`; when their documented properties hold; sorted lists |
| `PyText.dfy`, `JsonPrinter.dfy`, `JsonReader.dfy`, `CanonicalJson.dfy`, `PrintedAlike.dfy`, `Payloads.dfy`, `Fingerprint.dfy`, `FingerprintTables.dfy` | the fingerprint, down to the characters `json.dumps` prints |
| `Utf8.dfy`, `Notify.dfy` | UTF-8 and `truncate_body` |
| `BusinessDays.dfy`, `WalkForward.dfy` | `BDay`, split labels, fold selection |
| `MarketCalendar.dfy` | session lookups |
| `ParallelRunner.dfy`, `ParallelSafety.dfy`, `ParallelReport.dfy`, `ParallelProgress.dfy` | `run_parallel`, `resolve_workers` |
| `TrainingFreshness.dfy` | the freshness gate |
| `HarvestStats.dfy` | `top_n_spread` |
| `CostSpec.dfy`, `CostModel.dfy`, `NetSafety.dfy` | the cost specification, turnover and costs; the fetch budget |
| `RiskMetrics.dfy`, `CalibratorQuality.dfy` | `max_drawdown`; the flat-region scan |

## Where the code and its documentation differ

The code is modelled as it is. Each of these has a lemma that says exactly when the documented property holds.

* `purged_cv.py:9` pins `max(train) + lookahead < min(val)` for every fold. The splitters train after test
  blocks too. For any combination of test groups, lookahead and embargo the form holds exactly when every gap
  after a test group is covered (`PinnedFormIffGapsCovered`), which without negative bounds means that the
  embargo reaches the purge before the next test group, or the end of the panel after the last
  (`CoveredByEmbargo`; for one group `PinnedFormIffNothingAfter`; an input that fails in `PinnedFormExample`).
  What every fold with a non-negative embargo does satisfy is separation by rank (`MaskedIsSeparated`).
* A negative embargo makes the Python slice wrap around. The masks then separate train from test exactly when
  every rank a wrapped slice masks is tested or purged anyway (`SeparatedIffWrapHarmless`; for one group, when
  no slice wraps, `KFoldSeparatedIffNoWrap`; an input that fails in `WrapExample`).
* `notify.py:176-178` calls `truncate_body` a cap and idempotent. Below the size of its own marker it is
  neither (`CapHoldsIff`, `IdempotentIff`, `TinyLimitExample`).
* The fingerprint distinguishes contents except that a surrogate pair prints like the astral character it
  spells. Two values print alike exactly when they agree once all pairs are joined, dictionaries position by
  position in key order (`DumpsIffAlike`, `HashIffAlike`); a text differs from its joined form exactly when it
  holds a pair (`PairsCollide`), and on text without pairs, lone surrogates included, the fingerprint is exact
  (`DumpsIffSame`, `HashIffSameContent`).
* `walk_forward_splits.py:71-90` keeps train before validation only while the embargo does not move the end of
  train past it (`TrainPrecedesValidationIff`, `ZeroEmbargoExample`). Its docstring also lists the value `oos`,
  which the code never writes.
* `training_freshness.py:139-142` bounds the gaps between consecutive dates in the window. The code also
  counts the step from the last window day to the first day at or after the required date: the floor holds
  exactly when the documented gaps are in bounds and so is that step (`GapFloorIffBoth`,
  `BoundaryGapExample`). What the floor means for folds is in `GapFloorIffFresh`.
* `risk_metrics.py:235-236` puts the drawdown in [0, 1]. It is at most one exactly for curves that do not fall
  below zero from zero or above (`AtMostOneIff`, `FallBelowZeroExample`).
* `risk_metrics.py:238-243` gives a curve that only rises, and a constant one, drawdown 0. Two or more points
  that never fall give 0 exactly when some point is not 0, and NaN otherwise (`RisingIsZeroIff`,
  `ConstantIsZeroIff`).
* `calibrator_quality.py:60-62` reads a fraction of 1 as one flat curve. For non-decreasing x it means that a
  flat stretch spans all of x (`FullIffSpanned`), which is the whole curve exactly when neither end of x is a
  repeated value (`FullIffConstant`, `RepeatedEnd`).
* `pipeline.py:165-181` reports as pending what was pending when the driver last looked. An item of the report
  has finished by then exactly when no wait after its finish collected it (`UnseenIffLateFinish`,
  `FinishedReportedIff`; a run in `LateFinishIsReported`), which means that it finished after the last wait if
  waits take all that has finished (`UnseenIffSinceWait`).
* `market_calendar.py:327` promises the most recent completed session. For a timestamp of another zone the
  code looks up that zone's date: the promise is kept exactly when no session before that date is still to end
  and none after it has ended (`LastCompletedIff`, `ResultHasClosedIff`; an input that fails in
  `AheadOfTheExchangeExample`), which always holds on the exchange's own clock
  (`LastCompletedIsLatestClosed`).
* `stats.py:156` describes the rank as the share of scores at or below the winner's. For a finite winner it
  never exceeds that share, and is that share for every sorting function exactly when no other strategy has
  the winner's score (`RankAsDocumentedIff`).
* `harvest_stats.py:55-58` requires tie keys to be unique within each date and fails closed. The code skips
  dates with too few names first, and refuses exactly when a date with enough names has a shared key
  (`RefusedIff`, `ThinDateExample`).
* `market_calendar.py:276-282` equates always-open mode with the general lookup. They agree exactly for a
  lookback of at least one day (`AlwaysOpenAgreesIff`, `AlwaysOpenCompletedIff`).

## Model

| member | source | states |
|---|---|---|
| `HacMean.HacMeanOf` | src/renquant_common/stats.py:193-219 | n times the returned mean is the sum of the points; n times the squared standard error is the mean energy of the sliding windows of the centred series (or the 1e-18 floor); from two points on the error is positive, so t is never NaN, and t times it is the mean; lag and short series as returned |
| `HacMean.CenteredSumsToZero` | src/renquant_common/stats.py:208-209 | Each centred point and the mean add up to the point, and the centred series sums to zero |
| `HacMean.BartlettIsSumOfSquares` | src/renquant_common/stats.py:210-215 | For every series and lag, the Bartlett accumulation times n(lag+1) is the sum of squares of all length-(lag+1) window sums of the zero-padded centred series |
| `HacMean.EnergyIsWeightedCorr` | src/renquant_common/stats.py:212-215 | The window energy is the triangularly weighted sum of autocovariances, by induction on the lag |
| `HacMean.VarianceZeroIffConstant` | src/renquant_common/stats.py:210-216 | The estimate is never negative and is zero exactly for a constant series, so the floor never hides a negative variance |
| `HacMean.DefaultLagNeedsNoClamp` | src/renquant_common/stats.py:205-207 | The default lag is the rounded cube root of n: at least 1, below n, and unaffected by the clamp for every n >= 2 |
| `Combinations.CombosComplete` | src/renquant_common/metrics/pbo.py:77-79 | Every k-subset of the slices, in increasing order, is enumerated |
| `Combinations.CombosSound` | src/renquant_common/metrics/pbo.py:77-79 | Only increasing k-subsets are enumerated |
| `Combinations.CombosDistinct` | src/renquant_common/metrics/pbo.py:77-79 | No subset is enumerated twice |
| `Combinations.CombosOrdered` | src/renquant_common/metrics/pbo.py:77-79 | The combinations come in lexicographic order |
| `Combinations.ComboCount` | src/renquant_common/purged_cv.py:187 | There are exactly C(n, k) combinations |
| `Combinations.CountContainingIndex` | src/renquant_common/purged_cv.py:187-203 | Every index lies in exactly C(n-1, k-1) of them |
| `Cscv.RowsPartition` | src/renquant_common/stats.py:138-148 | For any combination of slices the in-sample and out-of-sample rows partition the sliced rows, each list increasing |
| `Cscv.SidesAreGathered` | src/renquant_common/stats.py:138-148 | The only increasing lists of the rows of the chosen slices and of all other rows are what the loop gathers |
| `Cscv.DoubleArgsortIsPosition` | src/renquant_common/stats.py:155-158 | Double argsort gives every item its position in the sorted order, whatever sorting algorithm breaks the ties |
| `Cscv.RankByCount` | src/renquant_common/stats.py:155-158 | A rank exceeds the number of values that sort below, and without a tie it is the next number |
| `Cscv.RankAtMost` | src/renquant_common/stats.py:155-158 | A rank is at most the number of values at or below, and without a tie it is that number |
| `Cscv.RankIsCountIff` | src/renquant_common/stats.py:155-158 | A rank is the number of values at or below for every sorting function exactly when no other value is equal |
| `PboScores.NanArgmax` | src/renquant_common/stats.py:153-154 | The first position of the largest score that is not NaN |
| `PboScores.LogitSign` | src/renquant_common/stats.py:158-163 | The logit is at most zero exactly when the relative rank is at most one half |
| `PboScores.Fraction` | src/renquant_common/metrics/pbo.py:112-113 | The estimate lies in [0, 1] whenever some combination is valid, and is NaN otherwise |
| `PboScores.FractionIsShare` | src/renquant_common/metrics/pbo.py:112-113 | The estimate times the number of combinations that voted is the number that voted overfit |
| `PboStats.PboCscv` | src/renquant_common/stats.py:101-163 | A requested chunk count is used as given: an error unless even and at least 2, NaN for fewer observations; otherwise, and for the default count, the share of overfit votes over all half-size chunk combinations |
| `PboStats.Partitions` | src/renquant_common/stats.py:128-130 | The requested chunk count itself; without one the smaller of the cap and the observation count, rounded down to even |
| `PboStats.ChunkCuts` | src/renquant_common/stats.py:133-138 | Equal chunks of n_obs // p observations; fewer than p trailing observations are dropped |
| `PboStats.VoteOverCombos` | src/renquant_common/stats.py:138-163 | The loop that records logits computes exactly that share |
| `PboStats.VoteByRank` | src/renquant_common/stats.py:155-163 | A vote is overfit exactly when twice the winner's out-of-sample rank is at most N; the clip never changes it |
| `PboStats.ComboVoteMeans` | src/renquant_common/stats.py:138-163 | The vote of a combination in terms of the rows of its chunks and the remaining rows: the in-sample winner is overfit exactly when twice its rank on the others is at most N |
| `PboStats.VoteSkippedIff` | src/renquant_common/stats.py:151-152 | A combination does not vote exactly when one side has no score at all |
| `PboStats.RankAsDocumentedIff` | src/renquant_common/stats.py:155-157 | For a finite winner the rank never exceeds the number of scores at or below the winner's, and is that number for every sorting function exactly when no other strategy has the winner's score |
| `PboMetrics.SplitIndices` | src/renquant_common/metrics/pbo.py:36-44 | The cursor loop yields the consecutive slices of the cut points |
| `PboMetrics.SplitCuts` | src/renquant_common/metrics/pbo.py:36-44 | The slices cover all rows; the first T mod S of them are one longer than the rest |
| `PboMetrics.ScatterRanks` | src/renquant_common/metrics/pbo.py:106-108 | The scatter assigns every strategy its position in the sort order plus one |
| `PboMetrics.Pbo` | src/renquant_common/metrics/pbo.py:53-113 | Guards as coded; the result is the share of overfit votes over all combinations, or over those drawn when max_combinations is smaller than their number; a negative size is refused there |
| `PboMetrics.ChosenCombos` | src/renquant_common/metrics/pbo.py:78-85 | The combinations visited are among the enumerated ones, without repeats, as many as asked for; all of them if no fewer are asked for |
| `PboMetrics.VoteOverCombos` | src/renquant_common/metrics/pbo.py:90-113 | The counting loop computes the share of overfit votes over the combinations it is given |
| `PboMetrics.VoteOn` | src/renquant_common/metrics/pbo.py:91-112 | One pass of the loop is the vote of its combination, skipped for all-NaN sides and for a winner without a score |
| `PboMetrics.VoteOnScores` | src/renquant_common/metrics/pbo.py:98-112 | From the scores of both sides, argsort, scatter and logit test give the vote |
| `PboMetrics.VoteByRank` | src/renquant_common/metrics/pbo.py:47-50 | A vote is overfit exactly when twice the rank is at most N + 1 |
| `PboMetrics.ComboVoteMeans` | src/renquant_common/metrics/pbo.py:91-112 | The vote of a combination in terms of the rows of its slices and the remaining rows |
| `PboMetrics.VoteSkippedIff` | src/renquant_common/metrics/pbo.py:98-104 | A combination does not vote exactly when one side has no score at all or the winner has none out of sample |
| `PboMetrics.SymmetricSplit` | src/renquant_common/metrics/pbo.py:84-97 | In every combination the two sides partition all T rows, the complement is also enumerated, and each slice is in-sample in half of the combinations |
| `PboAgreement.VotesCompare` | src/renquant_common/stats.py:155-163 | On finite scores the two rank tricks agree; a stats overfit vote is a metrics overfit vote, and they differ exactly when N is odd and the winner has the exact middle rank |
| `PboAgreement.RanksDiffer` | src/renquant_common/stats.py:156 | A finite winner with a score of its own ranks lower for pbo_cscv than for pbo.py by exactly the number of NaN scores, for every sorting function |
| `PboAgreement.VotesCompareWithNaN` | src/renquant_common/stats.py:151-163 | With NaN among the out-of-sample scores: a NaN winner is skipped by pbo.py and voted on by pbo_cscv, robust once half of the others have scores; for a winner with its own score a metrics overfit vote is a stats overfit vote, and the exact ranks at which they differ |
| `PboAgreement.EstimatesCompare` | src/renquant_common/metrics/pbo.py:84-113 | On the same returns cut alike, with finite out-of-sample scores in every combination, the stats estimate never exceeds the metrics estimate, and they are equal for an even number of strategies |
| `PurgedCv.PurgedKFold.Split` | src/renquant_common/purged_cv.py:41-76 | Error cases as coded; fold g tests group g, which holds days // n dates (the last group the remainder too), and trains on what the masks leave |
| `PurgedCv.PurgedKFold.SplitOne` | src/renquant_common/purged_cv.py:61-76 | Narrowing the mask array in place leaves exactly the rows outside the group, before its purge and after its embargo |
| `PurgedCv.GroupSize` | src/renquant_common/purged_cv.py:57-59 | Group g holds days // n ranks, the last one days mod n more |
| `PurgedCv.FoldTestSize` | src/renquant_common/purged_cv.py:57-76 | A fold tests as many distinct dates as its groups are to hold, by counting the dates of its test rows |
| `PurgedCv.CombinatorialPurgedCV.Split` | src/renquant_common/purged_cv.py:163-203 | One fold for each combination of test groups, in enumeration order, testing as many dates as its groups hold, with the error cases as coded |
| `PurgedCv.CombinatorialPurgedCV.SplitOne` | src/renquant_common/purged_cv.py:187-203 | The masks of all the combination's groups together leave exactly the unmasked rows |
| `PurgedCv.MaskedIsSeparated` | src/renquant_common/purged_cv.py:61-76 | No leakage: a row is in train exactly when its date rank is more than lookahead before or more than embargo after every test rank, for adjacent and overlapping groups too |
| `PurgedLaws.SeparatedIffWrapHarmless` | src/renquant_common/purged_cv.py:69-71 | For any test groups and any embargo, train is the separated rows exactly when the embargo is not negative or every rank its wrapped slices mask is tested or purged anyway |
| `PurgedLaws.KFoldSeparatedIffNoWrap` | src/renquant_common/purged_cv.py:69-71 | A k-fold split leaks or wastes rows exactly when a negative embargo makes its slice wrap around |
| `PurgedLaws.PinnedFormIffGapsCovered` | src/renquant_common/purged_cv.py:9-11 | For any combination of test groups and any lookahead and embargo, negative ones included, the documented form max(train) + lookahead < min(val) holds exactly when nothing is left to train on in any gap after a test group from the purge of the first on |
| `PurgedLaws.CoveredByEmbargo` | src/renquant_common/purged_cv.py:61-71 | Without negative bounds a gap is covered exactly when the embargo reaches the purge before the next test group, or the end of the panel after the last |
| `PurgedLaws.PinnedFormIffNothingAfter` | src/renquant_common/purged_cv.py:9-11 | For one test group: exactly when it or its embargo reaches the end of the panel, or the lookahead is so far below zero that the whole panel is allowed |
| `PurgedLaws.PinnedFormExample` | src/renquant_common/purged_cv.py:9-11 | Three dates with the first and the last tested: the documented form fails |
| `PurgedLaws.WrapExample` | src/renquant_common/purged_cv.py:69-71 | Four dates in two groups: an embargo of -3 masks a row that is separated from the test rows |
| `PurgedCv.CpcvCounts` | src/renquant_common/purged_cv.py:187-203 | CPCV yields C(n, k) folds and every row is tested in exactly C(n-1, k-1) of them |
| `PurgedCv.CpcvDistinct` | src/renquant_common/purged_cv.py:187-203 | No two folds have the same test rows |
| `PurgedCv.CpcvOneIsKFold` | src/renquant_common/purged_cv.py:187-203 | With one test group the fold sequence is that of the purged k-fold, and every row is tested once |
| `JsonPrinter.PrintInjective` | src/renquant_common/model_fingerprint.py:483-490 | The compact JSON text determines the printed tree: strings, numbers, lists and dictionaries at any depth (RFC 8259 sections 4 to 7) |
| `JsonPrinter.PrintCancels` | src/renquant_common/model_fingerprint.py:483-490 | The text of a value is self-delimiting: followed by anything no number absorbs, it can be split off in one way only |
| `JsonPrinter.EscapeCancels` | src/renquant_common/model_fingerprint.py:483-490 | String escapes form a prefix code over UTF-16 units |
| `JsonReader.ReadPrint` | src/renquant_common/model_fingerprint.py:483-490 | A reader written from the JSON grammar (RFC 8259 sections 2 to 7) reads every printed value back and leaves what follows |
| `JsonReader.RoundTrip` | src/renquant_common/model_fingerprint.py:483-490 | Printing and reading back is the identity |
| `CanonicalJson.CanonicalOf` | src/renquant_common/model_fingerprint.py:421-460 | The recursion with its dictionary loop computes the canonical value or the first error with its key path |
| `CanonicalJson.CanonicalAccepts` | src/renquant_common/model_fingerprint.py:421-460 | Canonicalisation succeeds exactly on values with finite floats, string keys and known types at every depth |
| `CanonicalJson.CanonicalRepresents` | src/renquant_common/model_fingerprint.py:421-460 | What canonicalisation returns represents the value: scalars as they are, lists, tuples and arrays element by element, dictionaries item by item |
| `CanonicalJson.CanonicalFaults` | src/renquant_common/model_fingerprint.py:421-460 | A refusal names the first part that cannot be represented, what is wrong with it, and its key path |
| `Payloads.CanonicalKeeps` | src/renquant_common/model_fingerprint.py:421-460 | The canonical form of a value has distinct keys at every depth if the value has, and no surrogate pair if the value has none |
| `CanonicalJson.SortKeyedSorts` | src/renquant_common/model_fingerprint.py:484-489 | Sorting distinct keys keeps the entries and puts the keys in increasing order |
| `CanonicalJson.NormalIffSame` | src/renquant_common/model_fingerprint.py:421-490 | On text without surrogate pairs two canonical values have the same printed tree exactly when they are the same value, dictionaries compared as mappings |
| `CanonicalJson.DumpsIffSame` | src/renquant_common/model_fingerprint.py:483-490 | On text without surrogate pairs, lone surrogates included, two values have the same JSON text exactly when they are the same value |
| `PyText.SameUnitsIff` | src/renquant_common/model_fingerprint.py:483-490 | Two texts are escaped alike exactly when they agree once every surrogate pair is joined to the character it spells |
| `PyText.TextLessIff` | src/renquant_common/model_fingerprint.py:484-489 | The key order is lexicographic by code point: at the first difference one text is below or has ended |
| `PrintedAlike.NormalShows` | src/renquant_common/model_fingerprint.py:483-490 | The printed tree shows the value: scalars as they are, text by its code units, each dictionary item at its position in key order |
| `PrintedAlike.DumpsReadsBack` | src/renquant_common/model_fingerprint.py:483-490 | The hashed text, read as JSON, gives back a tree that shows the value |
| `PrintedAlike.DumpsIffAlike` | src/renquant_common/model_fingerprint.py:483-490 | For all values with distinct keys: the JSON texts are equal exactly when the values are alike, strings up to joined pairs and dictionaries position by position in key order |
| `PrintedAlike.PairsCollide` | src/renquant_common/model_fingerprint.py:483-490 | Every text prints like its joined form, and that is a different text exactly when it holds a surrogate pair |
| `PrintedAlike.SurrogatesCollide` | src/renquant_common/model_fingerprint.py:483-490 | A surrogate pair and the astral character it spells print alike |
| `Fingerprint.HashIffAlike` | src/renquant_common/model_fingerprint.py:493-507 | Under an injective hash two accepted payloads with distinct keys have equal fingerprints exactly when their canonical predictive maps are alike, surrogates of any kind included |
| `Fingerprint.HashIffSameContent` | src/renquant_common/model_fingerprint.py:493-507 | If the predictive parts of the payloads hold no surrogate pair: exactly when the maps agree at every key |
| `Payloads.RepresentedSame` | src/renquant_common/model_fingerprint.py:421-460 | Canonical forms are the same value exactly when what they represent is the same input, lists and tuples identified and dictionaries compared as mappings |
| `Fingerprint.HashIffSamePredictive` | src/renquant_common/model_fingerprint.py:493-507 | Two accepted payloads without surrogate pairs in their predictive parts have equal fingerprints exactly when the payloads themselves agree at every predictive key |
| `Fingerprint.ContentAccepts` | src/renquant_common/model_fingerprint.py:463-480 | Accepted exactly for a dictionary of classified keys, some predictive, whose predictive values can be represented; refused in the source's order, with the unclassified keys or the first fault |
| `Fingerprint.ContentIsPredictivePart` | src/renquant_common/model_fingerprint.py:463-480 | The hashed content holds exactly the payload's predictive keys, each with its canonical value |
| `Fingerprint.ContentKeeps` | src/renquant_common/model_fingerprint.py:463-480 | The hashed content has distinct keys if the payload has, and no surrogate pair if the payload's predictive part has none |
| `Fingerprint.FieldDigestsIffAlike` | src/renquant_common/model_fingerprint.py:510-518 | Per-field digests agree at a key exactly when the fields are present alike and alike in value, surrogates of any kind included |
| `Fingerprint.FieldDigestsLocalise` | src/renquant_common/model_fingerprint.py:510-518 | If the predictive parts of the payloads hold no surrogate pair, per-field digests differ exactly at the fields that differ |
| `Fingerprint.DigestIffSameField` | src/renquant_common/model_fingerprint.py:510-518 | Per-field digests agree at a predictive key exactly when the payloads do |
| `Fingerprint.ExtensionPreservesContent` | src/renquant_common/model_fingerprint.py:463-480 | Extending the operational table leaves the hash of every accepted payload alone |
| `Fingerprint.OperationalKeysInvisible` | src/renquant_common/model_fingerprint.py:463-480 | Setting an operational key changes neither the content nor a refusal |
| `Fingerprint.FieldAfterSet` | src/renquant_common/model_fingerprint.py:521-531 | Setting a key of a payload changes that field and no other |
| `Fingerprint.VerifyIffAlike` | src/renquant_common/model_fingerprint.py:534-576 | Verification against a stamp succeeds exactly for the schema version and an alike predictive map; the version gap is raised first, anything else is a mismatch |
| `Fingerprint.VerifyIffSameContent` | src/renquant_common/model_fingerprint.py:534-576 | If the predictive parts of the payloads hold no surrogate pair: exactly for the schema version and a predictive map that agrees at every key |
| `Fingerprint.VerifyIffSamePredictive` | src/renquant_common/model_fingerprint.py:534-576 | The outcome of verification in full: version gap, the payload's own refusal, success exactly for agreement at every predictive key, else a mismatch with both hashes and the per-field digests |
| `Fingerprint.StampVerifies` | src/renquant_common/model_fingerprint.py:521-531 | Merging a payload's own stamp into it and verifying succeeds |
| `FingerprintTables.StampKeysAreOperational` | src/renquant_common/model_fingerprint.py:165-326 | In the shipped tables the stamp's two keys are operational and not predictive |
| `FingerprintTables.TablesDisjoint` | src/renquant_common/model_fingerprint.py:165-326 | No key is in both shipped tables, so every classified key is either hashed or ignored |
| `Utf8.DecodeCut` | src/renquant_common/notify.py:192 | Cutting the bytes of a text anywhere and decoding with errors ignored yields the longest character prefix that fits (RFC 3629) |
| `Utf8.DecodeEncode` | src/renquant_common/notify.py:185-192 | Decoding inverts encoding on text without surrogates |
| `Utf8.DecodeOneSound` | src/renquant_common/notify.py:192 | Only well-formed sequences decode: the character read is no surrogate and encodes to exactly the bytes read (RFC 3629 section 4) |
| `Utf8.StandardExamples` | src/renquant_common/notify.py:185-192 | The examples of RFC 3629 section 7, two to four bytes long |
| `Utf8.CutCharacterDropped` | src/renquant_common/notify.py:192 | A character cut short is dropped entirely |
| `Notify.KeepsLongestPrefix` | src/renquant_common/notify.py:190-194 | An over-long body keeps its longest prefix that fits in the reserved room; kept plus dropped bytes is the original size |
| `Notify.MarkerStates` | src/renquant_common/notify.py:190-194 | The marker is the fixed text around decimal digits that read as the number it states |
| `Notify.CutSize` | src/renquant_common/notify.py:188-194 | The size of the result: within the limit if the marker fits, otherwise the bare marker |
| `Notify.CapHoldsIff` | src/renquant_common/notify.py:175-194 | At most limit bytes come back exactly when the body fits or the limit has room for the marker |
| `Notify.IdempotentIff` | src/renquant_common/notify.py:175-194 | Truncating twice is truncating once exactly when the cap holds, or for a body of 62 bytes |
| `Notify.TinyLimitExample` | src/renquant_common/notify.py:175-194 | Under a zero limit a ten-byte body is neither capped nor stable |
| `Notify.TruncatedIsText` | src/renquant_common/notify.py:184-194 | The call is refused exactly for text that cannot be encoded, and its result can be encoded |
| `BusinessDays.AfterCounts` | src/renquant_common/walk_forward_fold_selection.py:107-111 | A business-day offset forward lands on the business day with exactly n business days passed |
| `BusinessDays.BeforeCounts` | src/renquant_common/walk_forward_splits.py:93 | Likewise backwards |
| `BusinessDays.OffsetAdjoint` | src/renquant_common/walk_forward_splits.py:93-95 | d lies before v minus e business days exactly when d plus e business days lies before v |
| `BusinessDays.ClosedFormCorrect` | src/renquant_common/walk_forward_fold_selection.py:107-111 | The weeks-then-days closed form equals the n-th business day for every date and offset, negative and zero included |
| `WalkForward.AssignSplitColumn` | src/renquant_common/walk_forward_splits.py:91-102 | The overwritten column ends with the label each date calls for |
| `WalkForward.TrainEndCounts` | src/renquant_common/walk_forward_splits.py:93 | Train ends on the business day with exactly the embargo's business days up to validation; a negative embargo counts forward, a zero one rolls forward |
| `WalkForward.TrainIffLabelSafe` | src/renquant_common/walk_forward_splits.py:93-102 | For an embargo of at least one day a row is train exactly when its label window ends before validation, and test exactly from the end of validation on |
| `WalkForward.NoLabelReachesValidation` | src/renquant_common/walk_forward_splits.py:84-86 | No label horizon within the embargo reaches validation from a training row |
| `WalkForward.TrainPrecedesValidationIff` | src/renquant_common/walk_forward_splits.py:93-102 | For any embargo, no date from validation on is labelled train exactly when the end of train is not past both ends of validation |
| `WalkForward.ZeroEmbargoExample` | src/renquant_common/walk_forward_splits.py:93-102 | A zero embargo over an empty validation window that starts on a Saturday trains on that Saturday |
| `WalkForward.SafeDateBounds` | src/renquant_common/walk_forward_fold_selection.py:92-111 | The safe date lies between L and L + 2*ceil(L/5) calendar days after its base |
| `WalkForward.EligibleIffRealised` | src/renquant_common/walk_forward_fold_selection.py:74-129 | A fold is eligible exactly when at least L business days lie strictly between its cutoff and today, the effective cutoff if there is one; for L <= 0 when that cutoff is before today |
| `WalkForward.SelectLatest` | src/renquant_common/walk_forward_fold_selection.py:132-160 | The first entry with maximal cutoff among exactly the eligible ones, or None exactly when none is eligible |
| `WalkForward.SelectionMonotone` | src/renquant_common/walk_forward_fold_selection.py:149-160 | The chosen cutoff never decreases as today advances or as entries are added |
| `MarketCalendar.SessionsBetween` | src/renquant_common/market_calendar.py:374-398 | Exactly the sessions of the range, in order; empty when start is after end |
| `MarketCalendar.PreviousSession` | src/renquant_common/market_calendar.py:269-292 | The latest session in the lookback window, an error exactly when there is none |
| `MarketCalendar.NyseSessionCalendar.constructor` | src/renquant_common/market_calendar.py:192-194 | A new calendar has an empty cache |
| `MarketCalendar.NyseSessionCalendar.SessionBounds` | src/renquant_common/market_calendar.py:196-212 | The answer is the backend's; the day is cached, other entries stay, and the backend is asked at most once for each day |
| `MarketCalendar.NyseSessionCalendar.PreviousSessionByWalk` | src/renquant_common/market_calendar.py:295-318 | The day walk through the cache returns what the range query returns, errors included |
| `MarketCalendar.LatestDetermined` | src/renquant_common/market_calendar.py:286-292 | At most one result is the latest session of a window, and a shorter window has the same one whenever it has any |
| `MarketCalendar.AlwaysOpenAgreesIff` | src/renquant_common/market_calendar.py:279-282 | The always-open shortcut agrees with the day walk exactly for a lookback of at least one day |
| `MarketCalendar.AlwaysOpenTiles` | src/renquant_common/market_calendar.py:215-229 | Every instant lies in exactly one always-open session, that of its own day |
| `MarketCalendar.SearchRight` | src/renquant_common/market_calendar.py:423 | searchsorted from the right: everything before the position is at most x, everything from it on is above |
| `MarketCalendar.KeyIsDayOrPrevious` | src/renquant_common/market_calendar.py:401-429 | The key is the day itself if it is a session, otherwise its previous session, errors included |
| `MarketCalendar.KeyMonotone` | src/renquant_common/market_calendar.py:401-429 | Keys never go backwards |
| `MarketCalendar.KeyIdempotent` | src/renquant_common/market_calendar.py:401-429 | A key is its own key |
| `MarketCalendar.SessionKeysAgree` | src/renquant_common/market_calendar.py:432-470 | The vectorised form succeeds exactly when the scalar form does on the earliest date, and agrees with it wherever that has a key |
| `MarketCalendar.LastCompletedIff` | src/renquant_common/market_calendar.py:328-368 | For a timestamp of any zone: the result is the latest session that is over, up to the later of the timestamp's and the calendar's date, exactly when no session of the window before the timestamp's date is still to end and none after it has ended |
| `MarketCalendar.ResultHasClosedIff` | src/renquant_common/market_calendar.py:346-368 | The session returned is over exactly when no session of the window before the timestamp's own date is still to end |
| `MarketCalendar.LastCompletedIsLatestClosed` | src/renquant_common/market_calendar.py:346-368 | On the calendar's own clock, as for a naive timestamp, the result is the latest session of the window that has closed by now; failure means none has |
| `MarketCalendar.AheadOfTheExchangeExample` | src/renquant_common/market_calendar.py:346-368 | Noon at the exchange, stamped by a clock 13 hours ahead: the session still open is returned |
| `MarketCalendar.AlwaysOpenCompletedIff` | src/renquant_common/market_calendar.py:341-344 | The always-open shortcut is the general form over an always-open schedule exactly for a positive lookback |
| `ParallelRunner.ResolveWorkers` | src/renquant_common/pipeline.py:53-61 | Zero workers exactly for no items and never more than items; an explicit positive setting wins; otherwise two cores stay free when more than one worker runs |
| `ParallelSafety.RunKeeps` | src/renquant_common/pipeline.py:153-218 | The invariant (books, thread slots, start order, phase) holds after every run of steps |
| `ParallelSafety.AlwaysSafe` | src/renquant_common/pipeline.py:153-218 | At every moment of every interleaving: completed plus pending is the number of items, no item starts twice, starts are in submission order, and no more items run than there are workers |
| `ParallelSafety.NeverMoreThanResolved` | src/renquant_common/pipeline.py:53-61 | At every moment of every run at most as many items run as resolve_workers answers |
| `ParallelSafety.ReturnMeansAllDone` | src/renquant_common/pipeline.py:162-218 | Normal return means every item started once and succeeded or failed |
| `ParallelSafety.DrainingIsIdle` | src/renquant_common/pipeline.py:216-218 | The final waiting shutdown has no item to wait for |
| `ParallelSafety.TimeoutReport` | src/renquant_common/pipeline.py:165-181 | A raise needs a configured timeout; it reports, sorted, each label once for every item pending after the last wait, and everything else is done |
| `ParallelSafety.ReportIsExact` | src/renquant_common/pipeline.py:166 | Sorting keeps every pending label with its multiplicity |
| `ParallelSafety.NothingStartsAfterTimeout` | src/renquant_common/pipeline.py:167-181 | After the raise no queued item starts and the report stays as it is, whatever the workers still do |
| `ParallelSafety.ShutdownCancelsNothing` | src/renquant_common/pipeline.py:167-179 | After the cancel loop no item is queued, so the pool's own cancellation finds nothing |
| `ParallelReport.UnseenIffLateFinish` | src/renquant_common/pipeline.py:162-181 | Over every run: an item is done but still pending exactly when its finish was followed by no wait that collected it |
| `ParallelReport.UnseenIffSinceWait` | src/renquant_common/pipeline.py:162-186 | If every wait takes all that has finished, an item is done but still pending exactly when it finished after the last wait |
| `ParallelReport.FinishedReportedIff` | src/renquant_common/pipeline.py:165-181 | A timeout after any run reports what is pending, and some of it has finished exactly when there is such a finish |
| `ParallelReport.OutcomeIffEnded` | src/renquant_common/pipeline.py:186-200 | Over every run an item has succeeded, or failed, exactly when a step finished it so |
| `ParallelSafety.LateFinishIsReported` | src/renquant_common/pipeline.py:165-181 | A run in which that happens |
| `ParallelProgress.RunsAreBounded` | src/renquant_common/pipeline.py:162-218 | Idle waits aside, a call on n items takes at most 4n + 2 steps |
| `ParallelProgress.NeverStuck` | src/renquant_common/pipeline.py:162-218 | Until the call has returned or raised, some step other than an idle wait can be taken |
| `TrainingFreshness.Assess` | src/renquant_common/training_freshness.py:186-290 | The reasons are those of the violated checks, in order; ok means there are none; dates, counts and observed values as reported |
| `TrainingFreshness.CheckCoverage` | src/renquant_common/training_freshness.py:195-229 | Coverage, recency and row-floor reasons exactly when the panel falls short |
| `Extrema.CountLessCounts` | src/renquant_common/training_freshness.py:191-192 | Rows in the window are counted row by row, repeated dates included |
| `TrainingFreshness.CheckTickers` | src/renquant_common/training_freshness.py:231-255 | The ticker reason exactly when a window day is thin or cannot be checked, with the number of thin days and the least count |
| `TrainingFreshness.TickersOn` | src/renquant_common/training_freshness.py:234-237 | The distinct tickers of a day's rows, missing ones left aside |
| `TrainingFreshness.CheckGap` | src/renquant_common/training_freshness.py:257-276 | The gap reason exactly when a window day has no successor in time, with the widest step |
| `TrainingFreshness.OkIffPasses` | src/renquant_common/training_freshness.py:154-157 | The verdict is ok exactly when the panel has rows and every enabled check holds, each stated over the rows alone |
| `TrainingFreshness.GapFloorIffBoth` | src/renquant_common/training_freshness.py:257-276 | The gap floor holds exactly when the steps between consecutive window days are within g, as documented, and so is the step that leaves the window |
| `TrainingFreshness.BoundaryGapExample` | src/renquant_common/training_freshness.py:257-276 | Days 1, 2, 3 and 20 with required day 10 and g 5: the documented floor passes and the gate refuses |
| `TrainingFreshness.GapFloorIffFresh` | src/renquant_common/training_freshness.py:257-276 | The gap floor holds exactly when every fold end up to the first day at or after the required date has data in the g days before it |
| `TrainingFreshness.PassMeansFresh` | src/renquant_common/training_freshness.py:257-276 | A passing panel has data within g days before every fold end after its first day and up to the required date |
| `TrainingFreshness.PassMeansEnoughRows` | src/renquant_common/training_freshness.py:231-255 | A passing panel with ticker floor m has at least m rows in the window for every distinct window day |
| `HarvestStats.TopNSpreadByDate` | src/renquant_common/metrics/harvest_stats.py:68-91 | The loop over dates computes the series; it is refused exactly when some date has enough names and a shared tie key, for the first such date |
| `HarvestStats.RowOrderIrrelevant` | src/renquant_common/metrics/harvest_stats.py:55-63 | Series and refusal (its date and keys) are the same for every order of the input rows |
| `HarvestStats.SpreadOfTopSet` | src/renquant_common/metrics/harvest_stats.py:83-90 | For the k names ahead of all others (higher score, then smaller tie key), k times m times the spread is m times their summed labels minus k times all labels summed |
| `HarvestStats.PointOfTopSet` | src/renquant_common/metrics/harvest_stats.py:70-91 | The same for every point of the series, on its date's rows with labels winsorized first |
| `HarvestStats.SpreadIsRankBased` | src/renquant_common/metrics/harvest_stats.py:83-90 | The spread is the mean label of the k entries that fewer than k entries beat, minus the mean of all; no sort involved; NaN exactly when the slice is empty |
| `HarvestStats.GroupCounts` | src/renquant_common/metrics/harvest_stats.py:69-70 | A date's group holds each entry as often as complete rows of that date give it |
| `HarvestStats.SpreadPermutation` | src/renquant_common/metrics/harvest_stats.py:83-90 | One date's spread does not depend on the order of its rows |
| `HarvestStats.RefusedIff` | src/renquant_common/metrics/harvest_stats.py:70-80 | The call is refused exactly when some date with complete rows has at least min_names of them and two that share a tie key; it names the least such date and the keys that occur there at least twice |
| `HarvestStats.ThinDateExample` | src/renquant_common/metrics/harvest_stats.py:71-80 | Two equal rows on a date with too few names pass |
| `HarvestStats.AmbiguousIffShared` | src/renquant_common/metrics/harvest_stats.py:73-80 | Of one date's rows, some tie key is reported exactly when two rows share one |
| `HarvestStats.SharedIffTwice` | src/renquant_common/metrics/harvest_stats.py:74-75 | The reported keys are those that occur at least twice |
| `HarvestStats.SeriesPoints` | src/renquant_common/metrics/harvest_stats.py:70-91 | The series has a point for each date with enough names and no other, in date order |
| `HarvestStats.SpreadBounded` | src/renquant_common/metrics/harvest_stats.py:81-90 | With labels winsorized at w no spread exceeds 2|w| in size |
| `HarvestStats.AllNamesNoSpread` | src/renquant_common/metrics/harvest_stats.py:89-90 | Asking for every name, or more, leaves a spread of zero |
| `CostSpec.MakeSpec` | src/renquant_common/cost_model.py:92-122 | The loop over the fields builds the specification with exactly the given components, or names the first component that is missing or negative, every earlier one being fine |
| `CostSpec.BuildsOnce` | src/renquant_common/cost_model.py:92-122 | That description has one solution: the components decide the specification or the name reported |
| `CostSpec.FromDict` | src/renquant_common/cost_model.py:136-160 | Unknown keys are refused first, all of them named; accepted exactly when there are none and every given component is finite and not negative |
| `CostSpec.ReadBack` | src/renquant_common/cost_model.py:124-160 | The dictionary form of a specification reads back as that specification and as nothing else |
| `CostSpec.WrittenBack` | src/renquant_common/cost_model.py:136-160 | Whatever a payload reads back as, the dictionary form of that is the payload with its missing components as zeros |
| `CostSpec.HashIffSameSpec` | src/renquant_common/cost_model.py:163-186 | Under an injective hash and a float text that round-trips on floats, two specifications with float components have the same content hash exactly when they are the same |
| `CostSpec.HashIffSameComponents` | src/renquant_common/cost_model.py:136-186 | Two accepted payloads of floats have the same content identity exactly when they give the same components |
| `CostSpec.CostModelSpec.RoundTripBps` | src/renquant_common/cost_model.py:189-199 | A round trip pays the full quoted spread once and every other component twice |
| `CostModel.TurnoverBreakdown` | src/renquant_common/cost_model.py:236-256 | The loop, in any walking order, adds up the increases and the decreases; refused exactly for a weight that is not finite |
| `CostModel.BuysMinusSells` | src/renquant_common/cost_model.py:236-256 | Buys minus sells is the change in total weight, whatever the walking orders |
| `CostModel.TradedIsAbsoluteChange` | src/renquant_common/cost_model.py:217-219 | What is traded is the sum of the absolute changes over any list that has every symbol |
| `CostModel.CostSymmetric` | src/renquant_common/cost_model.py:259-270 | The cost depends neither on the walking order nor on the direction of the trade |
| `CostModel.FreeIffNothingMoves` | src/renquant_common/cost_model.py:259-270 | The cost is never negative, and zero exactly when the rate is zero or the holdings are the same |
| `CostModel.CostTriangle` | src/renquant_common/cost_model.py:259-270 | Going through an intermediate portfolio never costs less |
| `CostModel.RoundTripCost` | src/renquant_common/cost_model.py:197-199 | Out and back costs the round-trip rate on what was traded |
| `CostModel.ChargeInBps` | src/renquant_common/cost_model.py:189-219 | 20000 times a charge is the round trip's basis points times what is traded |
| `CostModel.ApplyCosts` | src/renquant_common/cost_model.py:291-319 | Net of costs period by period; errors exactly as coded, naming the first bad period with the return checked first |
| `CostModel.NetConserves` | src/renquant_common/cost_model.py:291-319 | Summed net return is summed gross return minus the rate times the summed traded fraction |
| `NetSafety.FetchBudget.constructor` | src/renquant_common/net_safety.py:76-79 | A new budget has consumed nothing |
| `NetSafety.FetchBudget.Charge` | src/renquant_common/net_safety.py:81-82 | Charging adds the seconds |
| `NetSafety.FetchBudget.Remaining` | src/renquant_common/net_safety.py:94-95 | What remains is never negative, and positive exactly while the budget is not exhausted |
| `NetSafety.FetchBudget.Call` | src/renquant_common/net_safety.py:98-172 | A call on an exhausted budget starts and charges nothing; any other waits for the lesser of its timeout and what remains (a second at least), charges the time until the caller looks, and answers the worker's value exactly when the worker had ended by then |
| `NetSafety.CallByClock` | src/renquant_common/net_safety.py:116-172 | A worker that ends within the wait is answered and charged its duration, one that outlasts it is charged the wait and answered only if it has ended when the caller looks |
| `NetSafety.CallExhausted` | src/renquant_common/net_safety.py:116-117 | On an exhausted budget a call answers nothing and charges nothing |
| `NetSafety.FetchAll` | src/renquant_common/net_safety.py:46-53 | The recommended loop consumes and starts what the run of all calls would, and the calls it leaves out would all have answered None |
| `NetSafety.ConsumptionBounded` | src/renquant_common/net_safety.py:113-122 | Over every run in which callers wake up at most eps late, the consumed time never falls and is zero or below total + 1 + eps |
| `NetSafety.ExhaustedForGood` | src/renquant_common/net_safety.py:113-117 | Once the budget is exhausted no later call starts or charges anything |
| `NetSafety.OvershootReached` | src/renquant_common/net_safety.py:119-122 | The one-second minimum wait makes the bound tight |
| `RiskMetrics.MaxDrawdownIsLargestFall` | src/renquant_common/risk_metrics.py:247-252 | For positive equity the result is the maximum over i <= j of (s_i - s_j)/s_i and lies in [0, 1); NaN for fewer than two points |
| `RiskMetrics.DeepestIsLargestFall` | src/renquant_common/risk_metrics.py:250-252 | The running-maximum scan finds that maximum, by induction on the curve |
| `RiskMetrics.DeepestReads` | src/renquant_common/risk_metrics.py:250-252 | For any curve the result is the greatest of the points' readings against the largest point so far, divided as floats do |
| `RiskMetrics.PresentKeepsOrder` | src/renquant_common/risk_metrics.py:247 | Missing points are dropped and every present one keeps its place |
| `RiskMetrics.NeverNegative` | src/renquant_common/risk_metrics.py:241-252 | A numeric result is never negative, and a curve that does not start at zero always has one |
| `RiskMetrics.RisingIsZeroIff` | src/renquant_common/risk_metrics.py:238-252 | A curve of two or more points that never falls has drawdown zero exactly when some point is not zero, and NaN otherwise |
| `RiskMetrics.ConstantIsZeroIff` | src/renquant_common/risk_metrics.py:243-252 | A constant curve of two or more points has drawdown zero exactly when its value is not zero, and NaN otherwise |
| `RiskMetrics.AtMostOneIff` | src/renquant_common/risk_metrics.py:232-252 | The result is at most one exactly when the curve does not fall below zero from zero or above |
| `RiskMetrics.FallBelowZeroExample` | src/renquant_common/risk_metrics.py:232-252 | A curve from 1 to -1 has drawdown 2 |
| `CalibratorQuality.FlatRegionStats` | src/renquant_common/calibrator_quality.py:11-46 | Zeros for unusable input; otherwise the widest run of equal y, its share of the x range, and zeros for an x range that is not positive |
| `CalibratorQuality.LongestRun` | src/renquant_common/calibrator_quality.py:29-43 | The one-pass scan finds the widest of the maximal runs |
| `CalibratorQuality.SpanIsWidest` | src/renquant_common/calibrator_quality.py:29-44 | For non-decreasing x the longest span is the maximum of x_j - x_i over all stretches of equal y |
| `CalibratorQuality.FractionInUnit` | src/renquant_common/calibrator_quality.py:45-62 | For non-decreasing x the fraction lies in [0, 1], and is zero exactly when no flat stretch has a width |
| `CalibratorQuality.FullIffSpanned` | src/renquant_common/calibrator_quality.py:49-62 | For non-decreasing x the fraction is one exactly when some stretch of equal y runs from the least x to the largest |
| `CalibratorQuality.FullIffConstant` | src/renquant_common/calibrator_quality.py:60-62 | A constant curve has fraction one, and if neither end of x is repeated no other has |
| `CalibratorQuality.RepeatedEnd` | src/renquant_common/calibrator_quality.py:60-62 | Whenever an end of x is repeated, a curve that is not constant has a flat stretch over all of x |
| `CalibratorQuality.UnorderedFractionAboveOne` | src/renquant_common/calibrator_quality.py:56-62 | Without the order of x the fraction can exceed one |

## Left out

- HacMean.HacMeanOf: the square root is exact, and the series holds no NaN or infinity.
- PboStats.Vote: the logarithm is replaced by its sign test, so only the sign of each logit is recorded; `stats.py:161` compares nothing else.
- PboMetrics.Pbo: which combinations a random generator draws is an input, any list of distinct indices; a score is a real number or NaN, never infinite.
- PboStats.Scores: the Sharpe ratio is an arbitrary function of a return series, so `_row_sharpe` and `_slice_sharpe` themselves are not modelled; 2-D shape checks become the requirement that the matrix is rectangular.
- PurgedCv.MaskedIsSeparated: NaT dates are left out.
- Fingerprint.HashIffSameContent: asks for predictive parts without surrogate pairs, as does `HashIffSamePredictive` (`Fingerprint.HashIffAlike` is the law for all payloads); all ask for an injective hash, and a finite float is represented by its `repr`, which round-trips.
- CanonicalJson.CanonicalOf: a value with `tolist()` is a constructor holding the plain value; a `tolist()` that returns itself for ever is left out.
- Notify.TruncateBody: the `send` retry loop, topic resolution, headers and HTTP are not modelled.
- WalkForward.AssignSplitColumn: NaT dates, which compare false everywhere and keep the value test, are left out; so are `build_default_cuts` and `verify_regime_coverage`.
- MarketCalendar.LastCompleted: a timestamp is an instant and the offset of its zone at that instant; how a zone gives its offset and the exchange dataset are left out. That sessions close on their own day is a hypothesis of `LastCompletedIff`.
- MarketCalendar.NyseSessionCalendar.SessionBounds: an unavailable backend (`CalendarUnavailableError`) and the shared default calendar are left out.
- ParallelRunner.Apply: progress logging, elapsed times and the wall clock are abstract; a worker that raises outside `Exception` (an interrupt, an exit) is left out; all items are submitted before the first step, and starts before the last submission appear as later starts.
- ParallelProgress.NeverStuck: asks for the pool size `resolve_workers` gives; a job that never finishes is a run that stops taking steps.
- TrainingFreshness.Assess: reading parquet files and the message texts are left out; a reason carries its kind and its numbers. NaT dates are left out.
- HarvestStats.TopNSpreadByDate: tie keys and dates are numbers; NaN and infinite winsorize bounds are left out. For a negative bound the clip limits are swapped, as pandas does.
- CostModel.TurnoverBreakdown: symbols are strings already; keys that collide only after conversion to strings are left out, and so is `realized_traded_fraction`, a checked product.
- CostSpec.MakeSpec: components are numbers already; text that `float()` would convert, payloads that are no mapping or have keys that are no text, and -0.0 (equal to 0.0, but printed apart) are left out. The unknown keys are reported as a set.
- NetSafety.FetchBudget.Call: threads, logging and the exception object are left out; how long the worker takes, what it leaves and how late the caller looks are inputs, and the clock is read when the caller looks. A call without a budget only waits for its timeout and is left out.
- RiskMetrics.MaxDrawdown: infinite equity values are left out; the other ratios of the file rest on square roots and library statistics.
- `Job.run` and `Pipeline.run` (`pipeline.py:90-125`): sequential loops with an early stop, which would add only easy members.
- `shuffle_labels_within_date`, `per_date_rank_ic`, `moving_block_ci`, `paired_clean_series` (`metrics/harvest_stats.py`): random permutation, Spearman correlation and library resampling.
- `hurst.py`, `block_bootstrap.py`, `hac_se.py`, `deflated_sharpe.py`, `perf_summary.py` and the model-fitting half of `purged_cv.py`: square roots, logarithms, normal quantiles and fitted models.
- `contracts/*`, `hmm_regime_labels.py`, `regime_labels.py`, `row_coverage.py`, `pair_slug.py`, `config_consistency.py`: each settled by reading one branch.
- `decision_ledger.py`, `training_runs.py`, `registry/mlflow_registry.py`: SQLite, filesystem, git and MLflow calls.
- The legacy fingerprint shims and file hashing (`model_fingerprint.py:579-782`): deprecated, or file I/O.
