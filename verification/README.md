# Verified models of the telemetry stack's scripts

A Dafny model of the algorithms inside the repository's Python scripts, with proofs of what those
algorithms are for. `dafny verify dfyconfig.toml` checks everything. Each core has the files that
define the model and the files that prove laws about it.

| core | model | laws |
|---|---|---|
| Shared WAF allowlist: many shards edit one IPSet and one WebACL under optimistic locking | `WafServer`, `WafProtocol` | `WafAttempts`, `WafInterleaving`, `WafBudget`, `WafTightBudget`, `WafMixed`, `WafHistory`, `WafVerdicts` |
| Load driver: reservoir sampler, aggregator, lazy schedule, bounded pump | `Reservoir`, `Percentiles`, `LoadStats`, `Aggregator`, `Schedule`, `Pump` | `LoadStatsLaws`, `ScheduleLaws`, `ScheduleOrder`, `ScheduleDraws` |
| Merging shard results | `MergeResults` | `MergeLaws`, `MergeLatencyLaws`, `MergeMeanLaws`, `MergeStages` |
| HCL masking and variable-block parsing | `HclMask`, `HclParse` | `HclMaskLaws`, `HclRoundTrip`, `HclBodyLaws`, `HclRoundTripLaws`, `HclReadBack`, `HclHeaderComments` |
| Size-bounded request packing and the manifest | `Chunking` | `ChunkingLaws` |
| Version derivation from tags | `Versions` | `VersionLaws` |
| CI filter and per-account matrix | `UnitFlags`, `UnitAccounts` | `UnitLaws` |
| Release scope of a changeset | `ScopeDetection` | `ScopeDetection` |

`Common` and `Sums` hold sequence, set, white-space, tally and sorting facts.

How the original's form carries over: loops are methods with invariants, proved against a specification
function or property; `_Reservoir` and `ResultsAggregator` are classes; the masker overwrites an array.
Concurrency is a step machine: one step per service call and one for the return of `ensure_ip_set`
(allowlist), or one per semaphore and recording
action (pump), and every interleaving is some sequence of moves. Random values are oracle sequences,
floating-point numbers are reals, and the service's errors are answers chosen freely at every step.

Where code and documentation disagree, the model follows the code:

- A shard minimum of exactly 0.0 is dropped when latencies are merged, although the merged minimum is
  called exact; `MinIsExactIff` says when it is.
- The merged mean weighs shards by kept samples; `MergedMeanIsExactIff` says for which shard sizes that is
  exact, and `WrongMeanExample` shows the loss.
- The packing allows a body of exactly the maximum size, although its documentation says strictly below;
  `ExactFitIsOneRequest` shows it.
- Only `jitter >= 0` is checked before scheduling. Due times that never decrease need it not to exceed the
  log interval (`AlwaysInTimeIff`), strict order and termination need it below (`AlwaysOrderedIff`,
  `AlwaysEndsIff`). The documentation admits local reordering between events close in time.
- A header in whose raw text no name is found is said not to happen in well-formed files. A comment inside
  the header does it: `variable "x"/**/{}` is refused, which makes the guard skip the file
  (`CommentAfterNameIsRefused`), and in `variable/* variable "y" { */"x"{}` the name is read out of the comment (`NameIsReadFromComment`).
  `HeadersDecide` and `CommentsDecide` give the exact conditions.
- An apply looks for its rule by name only, so a rule left over from another IPSet makes it return without
  effect, and so does an earlier rule that blocks the IPSet; `AllowlistIsEffective` gives the exact condition and `StaleRuleExample` the input.
- Masking is said to preserve newlines; it loses one that is escaped by a backslash inside a string, and no
  other (`NewlineIsLostIff`, `EscapedNewlineIsLost`).
- The WebACL write-back drops optional fields that are unlisted or falsy; `EchoVerbatim` says exactly
  when it is verbatim, and `UnlistedFieldIsLost` shows a loss.
- Creating the IPSet is not retried or re-listed, so concurrent first applies can fail; `CreateIsSafeIff`
  gives the exact condition.
- A file directly under a module root is given a module path, although a comment says it is configuration.

## Model

| member | source | states |
|---|---|---|
| `WafServer.ComputeDedupe` | scripts/perf_waf_allowlist.py:488-496 | the list-and-set loop computes the order-stable de-duplication |
| `WafServer.DedupeIsASet` | scripts/perf_waf_allowlist.py:488-496 | no repeats, and exactly the items given |
| `WafServer.DedupeKeepsPrefix` | scripts/perf_waf_allowlist.py:263-280 | a duplicate-free list stays a prefix whatever is merged after it; unchanged if nothing is new |
| `WafServer.WithLockRetry` | scripts/perf_waf_allowlist.py:143-190 | at most retries + 1 attempts, each repeated only after a retryable error; exhausted if and only if every allowed attempt failed retryably, else the first other outcome |
| `WafServer.EchoVerbatim` | scripts/perf_waf_allowlist.py:298-314 | the write-back is verbatim if and only if every optional field is listed and truthy; listed truthy fields always survive; a second round trip changes nothing |
| `WafServer.UnlistedFieldIsLost` | scripts/perf_waf_allowlist.py:298-314 | an unlisted optional field does not survive the write-back |
| `WafServer.ScanMeaning` | scripts/perf_waf_allowlist.py:345-362 | the scan is clear if and only if neither name nor priority is taken; otherwise the first rule that carries either decides, present by its name and a clash by its priority alone |
| `WafServer.OthersMeaning` | scripts/perf_waf_allowlist.py:411-425 | filtering by name removes all of it and nothing else, and keeps the length exactly when there was nothing to remove |
| `WafAttempts.AttemptsBounded` | scripts/perf_waf_allowlist.py:143-190 | in every interleaving and under any errors, the fetches a call makes in any of its retry loops number at most retries + 1 |
| `WafAttempts.FailureHasACause` | scripts/perf_waf_allowlist.py:143-190 | in any mix and interleaving of calls a failure has its cause: a bad priority is too high or taken by another rule, a refusal is the service's, and a call out of retries met a retryable error or a stale token after beginning all its retries + 1 attempts in one loop |
| `WafInterleaving.StepGuarantee` | scripts/perf_waf_allowlist.py:241-280 | rely-guarantee: each service call re-establishes its own call's assertion and respects what all others rely on |
| `WafInterleaving.NoLostUpdate` | scripts/perf_waf_allowlist.py:241-280 | for any calls, interleaving and errors: the addresses only grow, stay duplicate-free, hold nothing nobody asked for, and hold a call's CIDRs from the moment its `ensure_ip_set` returned, whatever happens to the call afterwards |
| `WafInterleaving.RuleAddedOnce` | scripts/perf_waf_allowlist.py:317-367 | under any interleaving: original rules unchanged and in order, at most one perf rule, distinct priorities, at most one call reports an add and exactly one if any returns |
| `WafBudget.BudgetSuffices` | scripts/perf_waf_allowlist.py:143-190 | with n concurrent applies and n - 1 retries each, and no injected errors, no interleaving exhausts a retry budget |
| `WafTightBudget.BudgetRunsOut` | scripts/perf_waf_allowlist.py:143-190 | with fewer retries a concrete interleaving of n calls exhausts one of them: a rival writes between each of its fetches and stores |
| `WafTightBudget.BudgetIsExact` | scripts/perf_waf_allowlist.py:143-190 | so a retry budget is enough for n concurrent applies if and only if it is at least n - 1 |
| `WafBudget.CreateRace` | scripts/perf_waf_allowlist.py:241-260 | two calls that both list before either creates: the second create is refused |
| `WafBudget.CreateIsSafeIff` | scripts/perf_waf_allowlist.py:241-260 | when the service injects no error of its own, no apply is ever refused if and only if the IPSet already exists or there is at most one call |
| `WafMixed.OtherRulesNeverChange` | scripts/perf_waf_allowlist.py:317-425 | for any mix of concurrent applies and removes, from any state and under any errors, the rules of every other name, their order, the default action and the visibility never change |
| `WafHistory.CrashSafety` | scripts/perf_waf_allowlist.py:370-397 | at every crash point of every sequential history of applies and removes, a perf rule refers to an existing IPSet and the other rules are untouched |
| `WafHistory.ApplyThenRemoveRestores` | scripts/perf_waf_allowlist.py:405-480 | a complete apply then a complete remove, after any history, leaves the original other rules and no IPSet; the original list exactly when it held no perf rule |
| `WafHistory.FaultlessApplyCompletes` | scripts/perf_waf_allowlist.py:370-397 | completions exist: with nothing going wrong, a first apply to a WebACL without the rule or a priority clash returns after four service calls |
| `WafHistory.FaultlessRemoveCompletes` | scripts/perf_waf_allowlist.py:405-480 | and so does a remove of an existing rule and IPSet, after five |
| `WafVerdicts.VerdictIsAFunction` | scripts/perf_waf_allowlist.py:283-295 | with distinct priorities, first terminating match gives every request exactly one verdict |
| `WafVerdicts.OutsideIsUntouched` | scripts/perf_waf_allowlist.py:337-362 | adding the ALLOW rule changes no verdict for a request from outside the IPSet |
| `WafVerdicts.InsideEscapesTheRateRule` | scripts/perf_waf_allowlist.py:337-362 | a request from inside is decided before the rate rule, and by the added rule exactly when nothing earlier matches |
| `WafVerdicts.InsideIsAllowed` | scripts/perf_waf_allowlist.py:283-295 | the verdict on a request from inside that no rule before the added one stops is Allow and nothing else |
| `WafVerdicts.OutsideKeepsItsVerdict` | scripts/perf_waf_allowlist.py:370-397 | at every moment of every interleaving, a request from outside the IPSet gets the verdict it got before any call, provided no rule refers to an IPSet yet to be created |
| `WafVerdicts.AllowlistIsEffective` | scripts/perf_waf_allowlist.py:317-397 | over every interleaving and from any WebACL, also one that carries the rule: once an apply has returned, its CIDRs are decided before the rate rule, and allowed unless another rule there stops them, if and only if a rule before it allows the current IPSet and none up to it blocks that; always so if the WebACL began without the rule and blocked the IPSet nowhere, and decided early even if it did |
| `WafVerdicts.FirstApplyIsBacked` | scripts/perf_waf_allowlist.py:283-362 | from a WebACL without the rule, a return means that one call added its rule: everyone outside the IPSet gets the verdict the WebACL without the rule would give, everyone inside is decided before the rate rule, and allowed if no original rule before the added one stops them |
| `WafVerdicts.ReRunIsEffective` | scripts/perf_waf_allowlist.py:345-352 | a re-run on a WebACL whose rule allows the IPSet has its effect |
| `WafVerdicts.RepeatedApplyIsANoOp` | scripts/perf_waf_allowlist.py:263-268 | an apply whose CIDRs and rule are there already returns without change |
| `WafVerdicts.StaleRuleHasNoEffect` | scripts/perf_waf_allowlist.py:345-352 | with a rule of the name that does not allow the current IPSet, an apply returns normally and has no effect |
| `WafVerdicts.StaleRuleExample` | scripts/perf_waf_allowlist.py:345-352 | such a state exists: the rule was left over when its IPSet was deleted and made again |
| `Reservoirs.Reservoir.Create` | scripts/perf_loadgen.py:289-296 | a capacity below 1 is refused, otherwise an empty sampler |
| `Reservoirs.Reservoir.Offer` | scripts/perf_loadgen.py:297-304 | the samples become those of one more offer, and remain those of the whole stream of offered values under the draws consulted |
| `Reservoirs.Reservoir.HoldsKeptPositions` | scripts/perf_loadgen.py:297-313 | a full sampler holds the offered values at the positions, and under one of the draw sequences, that the uniformity results count |
| `Reservoirs.OfferExtendsSample` | scripts/perf_loadgen.py:297-304 | one more offer gives the sample of the longer stream |
| `Reservoirs.SampleIsKept` | scripts/perf_loadgen.py:297-304 | the values held are the values at the positions held, slot by slot |
| `Reservoirs.KeptAreDistinct` | scripts/perf_loadgen.py:277-304 | a full reservoir holds as many different stream positions as its capacity |
| `Reservoirs.EachPositionIsKeptEquallyOften` | scripts/perf_loadgen.py:289-304 | for every n >= capacity and position i, the draw sequences keeping i, times n, equal capacity times all draw sequences |
| `Reservoirs.EachSubsetIsKeptEquallyOften` | scripts/perf_loadgen.py:289-304 | stronger: every set of positions of the right size is what the reservoir holds for exactly (n - capacity)! draw sequences |
| `LoadStats.ExtremesMeaning` | scripts/perf_loadgen.py:390-399 | the running minimum and maximum are attained and bound every latency |
| `LoadStatsLaws.OrderDoesNotMatter` | scripts/perf_loadgen.py:370-465 | permuting the recorded outcomes changes no exact field, including the whole bucket series |
| `LoadStatsLaws.Conservation` | scripts/perf_loadgen.py:370-465 | bucket accumulators add up field by field to the totals; status and kind counts each add up to the requests |
| `LoadStatsLaws.MeanIsBetween` | scripts/perf_loadgen.py:414-465 | the mean lies between the reported minimum and maximum |
| `LoadStatsLaws.RowSpeaksForItsBucket` | scripts/perf_loadgen.py:401-446 | a row counts what was observed in its own interval, its rates per second and per request give the counts back, and its mean latency lies between the bucket's extremes |
| `Aggregator.ResultsAggregator.Create` | scripts/perf_loadgen.py:345-368 | refused exactly for a width that is not positive or a sampler capacity below 1 |
| `Aggregator.ResultsAggregator.Record` | scripts/perf_loadgen.py:370-412 | every running figure and dictionary equals the specification of everything recorded, and every bucket's sampler holds a reservoir sample of the latencies recorded in that bucket; raises exactly when the per-bucket capacity is below 1 |
| `Aggregator.ResultsAggregator.TakeSnapshot` | scripts/perf_loadgen.py:414-465 | totals, latency figures and bucket rows are those specified for the recorded outcomes, and the percentiles those of the run's and each bucket's samples; fails exactly when something was recorded and the per-bucket capacity is below 1 |
| `Aggregator.ResultsAggregator.ReportHangsTogether` | scripts/perf_loadgen.py:414-465 | min <= p50 <= p90 <= p99 <= max in every report, whichever samples were kept; the percentiles are those of all latencies while these fit the sampler |
| `Aggregator.ResultsAggregator.RowHangsTogether` | scripts/perf_loadgen.py:409-446 | the same for every row against the latencies of the row's own bucket |
| `Aggregator.SampledSnoc` | scripts/perf_loadgen.py:409-412 | offering an outcome's latency to its own bucket's sampler keeps every sampler a sample of its bucket's latencies |
| `Percentiles.PercentileIsBetween` | scripts/perf_loadgen.py:247-268 | a percentile lies between the least and the greatest sample |
| `Percentiles.PercentileGrows` | scripts/perf_loadgen.py:247-268 | it grows with the percentage |
| `Percentiles.PercentileEnds` | scripts/perf_loadgen.py:247-268 | it is the least sample at 0 and the greatest at 100 |
| `Percentiles.PercentileIsLinear` | scripts/perf_loadgen.py:257-268 | linear between neighbouring samples: whichever two enclose the rank, the percentile is the value there |
| `Percentiles.PctsSit` | scripts/perf_loadgen.py:271-274 | the three reported figures sit at 50, 90 and 99 percent of the way through the sorted samples |
| `Percentiles.PercentileOfPermutation` | scripts/perf_loadgen.py:271-274 | the order in which the samples are held does not matter |
| `Aggregator.RunningIsExact` | scripts/perf_loadgen.py:370-412 | the one-by-one running figures equal the sums, tallies and extremes of the whole list |
| `Aggregator.GroupedIsExact` | scripts/perf_loadgen.py:401-412 | the incrementally filled bucket dictionary is the grouping of the outcomes by time bucket |
| `MergeResults.AddInto` | scripts/perf_merge_results.py:54-60 | adding a dictionary key by key, in any order, is the key-wise sum |
| `MergeResults.MergeCounts` | scripts/perf_merge_results.py:54-60 | merged counts are the key-wise sums over all shards |
| `MergeResults.MergeTotals` | scripts/perf_merge_results.py:133-161 | totals are added and the error rate recomputed |
| `MergeResults.MergeBuckets` | scripts/perf_merge_results.py:91-130 | one merged row per start that any shard reports, in time order |
| `MergeResults.MergeLatency` | scripts/perf_merge_results.py:63-88 | least truthy minimum, greatest truthy maximum, mean weighted by sample counts |
| `MergeResults.Merge` | scripts/perf_merge_results.py:133-161 | refused for no shards, otherwise the merge of all columns |
| `MergeLaws.MergeIsExact` | scripts/perf_merge_results.py:91-161 | homomorphism: with equal bucket widths, merged totals, counts and every bucket's counts, rates, error rate and average latency are those of one aggregator fed all outcomes |
| `MergeStages.StagesDoNotMatter` | scripts/perf_merge_results.py:133-161 | merging groups first and then the group results gives the same whole result as merging at once, the inexact minimum and mean included |
| `MergeStages.LatencyInStages` | scripts/perf_merge_results.py:63-88 | for any latency blocks, a group's block stands for its shards': a skipped zero is skipped again, and a mean times its weight is the weighted sum |
| `MergeLatencyLaws.MinIsExactIff` | scripts/perf_merge_results.py:63-88 | the merged minimum is the true one if and only if no shard's zero is hidden by another's positive minimum |
| `MergeLatencyLaws.MaxIsExactIff` | scripts/perf_merge_results.py:63-88 | the merged maximum is the true one unless a zero maximum stands beside a negative one and no positive one, so always for latencies that are not negative |
| `MergeLatencyLaws.HiddenZeroExample` | scripts/perf_loadgen.py:657-681 | an internal error, recorded with latency 0.0 in one shard, is such a hidden zero |
| `MergeMeanLaws.MergedMeanIsExactIff` | scripts/perf_merge_results.py:63-88 | for shards of given sizes and a given reservoir capacity, the merged mean is the mean of all requests for all latencies if and only if every shard kept the same fraction |
| `MergeMeanLaws.ExactWhenUnsaturatedOrEqual` | scripts/perf_merge_results.py:79-81 | so it is exact when no reservoir is saturated, and when all shards are of one size |
| `MergeMeanLaws.WrongMeanExample` | scripts/perf_merge_results.py:79-81 | reservoirs of one sample, shards of one and two requests: 150 ms is reported and 200 ms is true |
| `MergeMeanLaws.HeadlineFigures` | scripts/perf_merge_results.py:63-88 | for real shard reports: exact conditions for minimum and maximum; the mean is exact under equal fractions and otherwise wrong for some shards of the same sizes |
| `Schedule.SessionWindows` | scripts/perf_loadgen.py:103-144 | refused exactly for bad arguments; windows start and stop evenly spaced, in session order, within the ramps, and last at least the hold time |
| `Schedule.IterSchedule` | scripts/perf_loadgen.py:147-217 | refused exactly for bad arguments; yields what the specified queue yields and says whether it is exhausted |
| `ScheduleDraws.ScheduleIsDetermined` | scripts/perf_loadgen.py:196-217 | told without the queue and for any jitter: each event yielded is what its stream has coming after the events before it and no stream has anything earlier; exhausted exactly when nothing coming fits its window |
| `ScheduleDraws.OnlyOneSchedule` | scripts/perf_loadgen.py:196-217 | there is only one such list of events of each length |
| `ScheduleDraws.FirstBurstIsDrawn` | scripts/perf_loadgen.py:202-205 | a session's first log burst uses the session's own draw and is not before its start |
| `ScheduleDraws.EveryBurstIsDrawn` | scripts/perf_loadgen.py:213-217 | a later burst is one interval after its predecessor plus the draw whose number is the sessions plus the bursts yielded before that predecessor |
| `ScheduleDraws.DrawsAreFresh` | scripts/perf_loadgen.py:202-217 | so no draw is used twice |
| `ScheduleLaws.ScheduleIsOrdered` | scripts/perf_loadgen.py:188-217 | with jitter below the log interval: strictly sorted by (due, session, kind), at most one pending entry per stream, every event on its cadence and in its window |
| `ScheduleLaws.MetricsOnTheGrid` | scripts/perf_loadgen.py:197-217 | a session's k-th metrics export is due k intervals after its start |
| `ScheduleLaws.ScheduleIsComplete` | scripts/perf_loadgen.py:197-217 | once exhausted no grid point in a window is missing, and a session's last log burst is less than one interval plus the jitter before its window's end |
| `ScheduleLaws.ScheduleEnds` | scripts/perf_loadgen.py:197-217 | exhausted after at most the initial budget of shortest steps, which also bounds the events yielded |
| `ScheduleOrder.PopsTheLeast` | scripts/perf_loadgen.py:207-217 | whatever the random source does, no pending entry is before the one popped next |
| `ScheduleOrder.OutOfOrder` | scripts/perf_loadgen.py:207-217 | with jitter at the log interval or above and least draws, two pulls are already in no strict order, and above it the second is due before the first |
| `ScheduleOrder.AlwaysInTimeIff` | scripts/perf_loadgen.py:180-217 | due times never decrease, for every random source and number of pulls, if and only if the jitter does not exceed the log interval or no session has a window |
| `ScheduleOrder.AlwaysOrderedIff` | scripts/perf_loadgen.py:188-217 | strict order by due time, session and kind holds for every random source and number of pulls if and only if the jitter is below the log interval or no session has a window |
| `ScheduleLaws.AlwaysEndsIff` | scripts/perf_loadgen.py:188-217 | ends for every random source if and only if the jitter is below the log interval or no session has a window |
| `Pump.PermitsAndEventsAreConserved` | scripts/perf_loadgen.py:640-693 | in every interleaving free permits plus events in flight is the limit, each event is waiting, in flight or recorded once, and events are submitted in schedule order |
| `Pump.EveryEventIsRecordedOnce` | scripts/perf_loadgen.py:657-693 | at shutdown every event, also one whose dispatch raised, was recorded once, so the reported requests and kind counts are the schedule's and the errors those of one dispatch per event |
| `Pump.AnswersAreReported` | scripts/perf_loadgen.py:588-681 | at every moment the reported errors are as many as dispatches that raised or came back with one; records, status counts and latencies are those of the answers, with 0 for a raised one; every outcome tells its own answer and time |
| `Pump.PumpEnds` | scripts/perf_loadgen.py:683-693 | no deadlock: some move is possible until the run is finished, after exactly three moves per event |
| `HclMask.MaskHcl` | scripts/check_required_var_wiring.py:97-160 | the in-place scanner with its moving index computes the masked form |
| `HclMaskLaws.MaskAt` | scripts/check_required_var_wiring.py:97-160 | for every text and index: a character read as code, quote or line end is kept, an escaped one becomes a blank, any other in a comment or string becomes a blank unless it is a newline; how it is read is defined by a left-to-right reader of its own |
| `HclMaskLaws.NewlineIsLostIff` | scripts/check_required_var_wiring.py:97-160 | a newline is lost if and only if it is the second character of an escape read inside a string |
| `HclMaskLaws.EscapedNewlineIsLost` | scripts/check_required_var_wiring.py:143-155 | a string continued by a backslash at its line's end is such an input |
| `HclMask.MaskIsIdempotent` | scripts/check_required_var_wiring.py:97-160 | masking a masked text changes nothing |
| `HclParse.ScanBody` | scripts/check_required_var_wiring.py:198-223 | the depth-counting loop finds the body's end and its top-level default, or reports imbalance |
| `HclParse.IsDefaultAt` | scripts/check_required_var_wiring.py:207-216 | the word test and look-ahead decide whether a default assignment begins here |
| `HclParse.ParseVariableBlocks` | scripts/check_required_var_wiring.py:170-225 | the header loop computes the specified parse, errors included |
| `HclParse.MaskDecides` | scripts/check_required_var_wiring.py:187-223 | texts that mask equally and agree on header names parse equally |
| `HclRoundTrip.MaskPiece` | scripts/check_required_var_wiring.py:97-160 | each printed piece masks by itself, whatever may follow it |
| `HclBodyLaws.BodyOfBlock` | scripts/check_required_var_wiring.py:198-223 | the scan of any printed block finds its end, and a default exactly if one stands at its top level |
| `HclRoundTripLaws.ParserOutcome` | scripts/check_required_var_wiring.py:170-225 | for every printed file, any layout, strings, comments, nested blocks and variable blocks, comments inside headers and before the equals sign of a default included: exactly what is read, header by header, or the error |
| `HclReadBack.ParserReadsBackThePrinter` | scripts/check_required_var_wiring.py:170-225 | round trip: the declared names and defaults are read back as long as every header shows its own name |
| `HclReadBack.HeadersDecide` | scripts/check_required_var_wiring.py:187-225 | the exact condition: with distinct names, a file is read back as declared whatever its blocks hold, if and only if in every header the name found first is its own |
| `HclReadBack.DistinctNamesAreReadBack` | scripts/check_required_var_wiring.py:170-225 | then the parse has exactly the declared names, each with its own block's flag |
| `HclReadBack.NewRequiredIsExact` | scripts/check_required_var_wiring.py:228-255 | on any printed revisions, or with no base file: nothing if a header of either hides its name, otherwise the names read as required and not read before; the declared ones if every header shows its own name |
| `HclHeaderComments.CommentsDecide` | scripts/check_required_var_wiring.py:165-196 | a header in which the keyword occurs once shows its own name if and only if no comment stands in it; with one, no name is found |
| `HclHeaderComments.CommentFreeShowsItsName` | scripts/check_required_var_wiring.py:165-196 | a header without comments always shows its own name |
| `HclHeaderComments.SpelledNameIsRead` | scripts/check_required_var_wiring.py:190-196 | a comment after the keyword that spells a header has that header's name read instead |
| `HclHeaderComments.CommentAfterNameIsRefused` | scripts/check_required_var_wiring.py:190-195 | the input for which no name is found |
| `HclHeaderComments.NameIsReadFromComment` | scripts/check_required_var_wiring.py:190-196 | the input for which another name is read |
| `Chunking.ChunkIntoRequests` | scripts/otlp_e2e_loadgen.py:384-433 | plans are numbered, encoded and carry the chunks of the specified packing; an unknown encoding fails unless there are no events |
| `Chunking.PopulateManifest` | scripts/otlp_e2e_loadgen.py:1233-1280 | counts by type, total, the records of the first five events and the status summary are those of the accepted events and all results |
| `ChunkingLaws.GreedyIsASplit` | scripts/otlp_e2e_loadgen.py:401-433 | all events in order, no empty chunk, every chunk within the limit unless it is a single event |
| `ChunkingLaws.ExactFitIsOneRequest` | scripts/otlp_e2e_loadgen.py:406-406 | two events whose joint size is exactly the limit travel in one request |
| `ChunkingLaws.FewestRequests` | scripts/otlp_e2e_loadgen.py:401-433 | for a monotone size function, no split of the same events into sendable chunks is shorter |
| `ChunkingLaws.TheOnlyPacking` | scripts/otlp_e2e_loadgen.py:401-433 | for any size function, it is the one split that grows within the limit and cuts only where it must |
| `ChunkingLaws.RequestsSayWhatTheyCarry` | scripts/otlp_e2e_loadgen.py:384-433 | request i carries the events of chunk i in the encoding asked for, with its content type, number and endpoint, and within the limit if it carries more than one |
| `ChunkingLaws.ManifestAccounts` | scripts/otlp_e2e_loadgen.py:1189-1280 | for any answers the manifest counts exactly the delivered events, and accounts for every planned event if and only if the exit code is 0 |
| `ChunkingLaws.SamplesAreDelivered` | scripts/otlp_e2e_loadgen.py:1244-1275 | the samples are the first five delivered events, each with the run id and the hashes of its own rendering and payload |
| `Versions.FindLatestVersion` | scripts/calculate_version.py:85-119 | the filtering, parsing and maximum loops compute the latest version of the prefix |
| `VersionLaws.VersionReadsBack` | scripts/calculate_version.py:122-134 | printing and parsing a version are inverse |
| `VersionLaws.LatestIsTheMaximum` | scripts/calculate_version.py:85-119 | what is found is carried by a tag and none is above it; nothing is found exactly when no tag carries a version |
| `VersionLaws.BumpIsTheLeastRaise` | scripts/calculate_version.py:137-153 | a bump is above its version and is the least version that raises it at that level (sections 6 to 8 and 11 of Semantic Versioning 2.0.0) |
| `VersionLaws.BuiltPrefixes` | scripts/calculate_version.py:42-82 | a prefix is built exactly for a module or config scope with a non-empty name, and is that name followed by "/v" |
| `VersionLaws.DerivationSucceeds` | scripts/calculate_version.py:156-210 | for any tags and prefix both errors are unreachable, the tag is new and carries its version |
| `VersionLaws.NextIsAbove` | scripts/calculate_version.py:156-210 | the derived version is above every version of its prefix |
| `VersionLaws.TagsNeverRepeat` | scripts/calculate_version.py:156-210 | over any history of releases under any prefixes no tag is derived twice |
| `VersionLaws.VersionsGoUp` | scripts/calculate_version.py:156-210 | over any history the versions of a prefix strictly increase |
| `VersionLaws.OtherPrefix` | scripts/calculate_version.py:85-119 | a tag of one prefix carries no version for another, even when one extends the other |
| `VersionLaws.PrefixesAreIndependent` | scripts/calculate_version.py:156-210 | in any history each release gets what it would get had only its own prefix's releases been made |
| `UnitFlags.ReassembleFlags` | scripts/partition_units_by_account.py:144-149 | the loop builds the specified flags string |
| `UnitFlags.FlagMeaning` | scripts/resolve_deploy_role.py:57-57 | a flag is matched at the start of a text exactly if the text is the token, white space, a path without any, and white space or the end |
| `UnitFlags.ExtractReassembled` | scripts/resolve_deploy_role.py:169-179 | reassembling non-empty, blank-free paths and extracting them gives them back, even if a path contains the flag itself |
| `UnitFlags.ReassemblyKeepsTheScope` | scripts/filter_ci_deployable_units.py:116-121 | whatever the flags were, taking them apart and together keeps the scope |
| `UnitAccounts.PartitionByCiDeploy` | scripts/filter_ci_deployable_units.py:73-113 | the loop computes the specified filter, with the error of the first failing path |
| `UnitAccounts.Partition` | scripts/partition_units_by_account.py:152-214 | grouping, sorting and row loops compute the specified matrix, with the first error in the code's order |
| `UnitAccounts.GroupByAccount` | scripts/partition_units_by_account.py:188-194 | the two dictionaries are filled as specified, or the first unresolvable path decides |
| `UnitLaws.TierRules` | scripts/resolve_deploy_role.py:200-262 | the documented tiers, read off the branches of the resolver, with the one further fact that a role directory names its env by its suffix alone |
| `UnitLaws.UncoveredIsRefused` | scripts/resolve_deploy_role.py:182-262 | what no tier covers is refused: an unreadable path, a bootstrap path without a role, an env, DNS owner or domain that is not configured |
| `UnitLaws.RolesAreGranted` | scripts/partition_units_by_account.py:98-141 | the roles handed out are exactly those the registry grants: to apply, the deploy role of an account CI applies; to plan, the plan role of any registered account, never gated on ci_deploy |
| `UnitLaws.ArnTells` | scripts/resolve_deploy_role.py:265-267 | a role ARN names one account and one role |
| `UnitLaws.DeployableIff` | scripts/resolve_deploy_role.py:148-161 | a path of the scope is left by the filter if and only if its account has ci_deploy true, or the run is on demand and the account is eligible |
| `UnitLaws.OnDemandOnlyAdds` | scripts/resolve_deploy_role.py:148-161 | both lanes fail alike; the on-demand lane keeps what the normal lane keeps and, besides, exactly the paths of local-only accounts that declare themselves eligible |
| `UnitLaws.FilterFailsIff` | scripts/filter_ci_deployable_units.py:107-113 | the filter fails exactly when some path does not resolve to a registered account whose row has ci_deploy |
| `UnitLaws.FilterIsExact` | scripts/filter_ci_deployable_units.py:107-113 | kept are exactly the paths of accounts that the registry lets CI apply in the lane, and skipped exactly the others, both in order |
| `UnitLaws.SkippedRightly` | scripts/filter_ci_deployable_units.py:107-113 | each skipped path is listed with its resolved account, which the registry does not let CI apply in the lane |
| `UnitLaws.FilterConserves` | scripts/filter_ci_deployable_units.py:107-113 | every path is kept or skipped as often as it was given |
| `UnitLaws.GroupsAreExact` | scripts/partition_units_by_account.py:188-194 | each account has its paths in order and the region of its first path |
| `UnitLaws.FilterThenPartition` | scripts/partition_units_by_account.py:98-214 | partitioning a filtered scope meets no forbidden account; it fails if and only if some kept path's account has no deploy role, and otherwise gives one row per account, sorted |
| `UnitLaws.EachPathInOneRow` | scripts/partition_units_by_account.py:186-214 | every kept path is in exactly one row, that of its account, in order and as often as in the scope |
| `UnitLaws.PlanPartition` | scripts/partition_units_by_account.py:152-214 | in plan mode any scope, unfiltered: blank gives no rows and tokenless is refused; otherwise a matrix is built if and only if every path runs in a registered account with a plan role, and it is an exact partition under those roles |
| `UnitLaws.EachRowStandsAlone` | scripts/resolve_deploy_role.py:371-412 | resolving any row's flags as a scope of its own gives the row's account, role and region and is never a mixed scope |
| `UnitLaws.ChoiceIs` | scripts/resolve_deploy_role.py:389-411 | two service accounts are a mixed scope; one is chosen, with the DNS writer exactly if the DNS owner's account occurs beside it; the DNS owner's own if none occurs |
| `UnitLaws.TargetMeaning` | scripts/resolve_deploy_role.py:365-429 | the role resolved for a scope is granted in the one account that holds all paths but the DNS owner's, with the first path's region and the DNS owner's role exactly if needed |
| `UnitLaws.TargetIsFound` | scripts/resolve_deploy_role.py:365-429 | and whenever there is such a role it is the one resolved |
| `ScopeDetection.DetectScope` | scripts/detect_scope.py:106-226 | valid if and only if at most one scope is touched, named after that scope; violations name what was touched |
| `ScopeDetection.ModuleOfFile` | scripts/detect_scope.py:36-53 | a file belongs to the directory right below its root, however deep; a file right below the root to a module of its own name |
| `ScopeDetection.LabelMeaning` | scripts/detect_scope.py:119-146 | every file: ignored exactly if it is markdown under the terragrunt root, terragrunt exactly if otherwise under it, else a module exactly if a name follows the first root it is under, else configuration |
| `ScopeDetection.ModuleLabel` | scripts/detect_scope.py:128-143 | the module is the first matching root and the name that follows it |
| `ScopeDetection.StripMeaning` | scripts/detect_scope.py:52-53 | exactly the trailing slashes of the root are stripped |
| `ScopeDetection.ClassificationIsDetermined` | scripts/detect_scope.py:148-226 | what the files belong to leaves one possible result |
| `ScopeDetection.OnlyLabelledFilesMatter` | scripts/detect_scope.py:119-146 | order, repetition and terragrunt documentation files do not influence the result |
| `ScopeDetection.InvalidStaysInvalid` | scripts/detect_scope.py:148-198 | adding files never makes an invalid changeset valid |

## Left out

- boto3, HTTP, subprocesses, git, argument parsing, JSON files and console output; they become service steps, parameters or nothing.
- Scripts that only probe AWS, render reports, download tools or wrap processes.
- WAF: one IPSet name and one rule name for all calls; the default name depends on whether a WebACL name is given (scripts/perf_waf_allowlist.py:499-502).
- WAF: an error answer never takes effect on the service, and a delete is not refused because the IPSet is referenced.
- WAF: back-off sleeps between attempts, and the lookup of the WebACL before the calls.
- Floating-point rounding, including the rounding of bucket starts and rates; reals are used.
- MergeResults.MergeBuckets: the merged per-bucket percentiles, documented as approximate, are left out.
- MergeResults.MergeLatency: the merged percentiles and the block that repeats each shard's figures are left out.
- MergeResults.Merge: run metadata and percentiles are left out, and a field missing from a shard file has no default.
- Status codes are counted as integers instead of their decimal strings.
- Schedule.IterSchedule: the binary heap is a list kept in order, so the model has the order of pops but not heapq's array layout.
- Pump: clock reads and waiting for a due time; recorded times are free.
- Aggregator.ResultsAggregator.Record: the per-bucket samplers are values inside a dictionary instead of objects.
- HclRoundTripLaws.ParserOutcome: a printed word that ends in `variable` is not followed by a string; a line comment ends in a newline; strings and blocks are closed; white space is ASCII.
- The sorted listing of newly required variables (a set here), and the search for where they are wired.
- Chunking: the protobuf and JSON encoders, the record rendering and the hash are arbitrary functions.
- Versions: digits are ASCII with an optional sign; underscores, blanks and Unicode digits that int() accepts, and glob characters in prefixes, are not modelled; bump types are given, not read from titles.
- UnitAccounts: the regular expression that takes a unit path apart is a parameter, so the results hold for any reader of paths; a missing account id inside an env entry is not modelled.
- ScopeDetection: the wording of violations, and the module discovery on disk.
