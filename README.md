# chrome-clearBrowserCache-slow, modelled in Dafny

`main.js` is a benchmarking script. It measures how long Chrome's
`Network.clearBrowserCache` DevTools command takes.

In its main mode it does the following:
- It launches one browser build `n` times: either the browser named by `CHROME_PATH`, or downloaded snapshots of the catalog revisions it selects.
- On every launch it times the command through the lighthouse-logger time-entry log.
- It reads the browser's version on the first launch.
- It averages the durations and prints one result per build.
- In exit-code mode it exits with status 1 when the single result averages above 1000 ms.

In its graph mode it derives chart points from saved result files. Each point is a
product string and a mean duration, and the points are sorted by product string.

This project models that logic and proves what the script promises about it.

- `Basics`: `Option`, `Result` and the three ways the modelled code throws.
  - `EmptyReduce`: `reduce` with no seed on an empty array.
  - `MissingVersion`: reading a property of an undefined `version`.
  - `UnexpectedArgs`: `'unexpected args'`.
- `Sequences`: `Array.prototype.filter` (whose callback also sees the index), `map`, and pushing whole arrays onto one. It holds the facts about them that the other modules use: membership, order (subsequence) and permutation.
- `Stats`: `sum` as a seedless `reduce`, and `average`.
- `ChromeVersion`: `getChromeVersion`. It scans for the leftmost match of `/\/(\d+)/` and reads the milestone with `parseInt`.
- `Timing`: the time-entry log as the script uses it. It is a `TimingLog` class. `Record` appends one entry per timed command; `TakeTimeEntries` hands everything back and empties the log.
- `Runner`: the `runForChrome` loop, proved against the specification function `Experiment`.
- `Revisions`: which catalog revisions `main` benchmarks.
- `Bench`: `main`.
  - The results loop over the selected revisions, proved against `RevisionRuns`.
  - The exit-code decision.
  - The whole of `main` as `RunMain`, proved against `MainOutcome`.
- `Graph`: the data steps of `makeGraph`.
  - The push loop `MakeGraphData`, proved against `GraphPoints`.
  - The mapping to points.
  - The sort, under an abstract order `le` that stands for `localeCompare`.

The model takes these things as inputs:
- What each launch of a build reports: `launches(build)(i)`, the browser's `Browser.getVersion` answer and the duration of the cache-clearing command.
- The revision catalog.
- The parsed command line.
- The loaded result files.
- The comparison behind the sort.

## Model

| member | source | states |
|---|---|---|
| Sequences.Filter | main.js:208-209 | Defines `Array.prototype.filter` with a callback that also sees the index, keeping the order. `FilterMembership` proves an element is kept exactly when it stands at an index its callback accepts; `FilterIsSubsequence` proves the result is a subsequence of the input. |
| Sequences.Map | main.js:131 | Defines `Array.prototype.map` (also at main.js:176-181): the result has the input's length and element `i` is the callback applied to input `i`. `MapPermutation` proves that mapping a permutation gives a permutation. |
| Sequences.Concat | main.js:171-174 | Defines the array that `graphData.push(...)` builds: every file's results, file after file. `MakeGraphData`'s loop invariant ties the push loop to it; `ConcatAppend` proves that loading two lists of files one after the other gives the first list's results followed by the second's; `ConcatPermutation` proves that loading permuted files permutes the results. |
| Stats.FoldSum | main.js:64 | A seedless `reduce` that starts from the first value yields that value plus the total of the rest. |
| Stats.Sum | main.js:63-65 | `sum` throws (EmptyReduce) exactly on an empty array; otherwise it is the total of the values. |
| Stats.Average | main.js:70-72 | `average` throws exactly on an empty array, before any division; otherwise its result times the count is the total. |
| Stats.AverageSingleton | main.js:70-72 | A single duration averages to itself. |
| Stats.TotalBounds | main.js:63-65 | The total of `k` values within [lo, hi] lies within [k*lo, k*hi]. |
| Stats.AverageBounds | main.js:70-72 | The average of a non-empty array lies between any lower and upper bound of its values. |
| Stats.MeanAbove | main.js:226 | A mean exceeds a threshold exactly when the total exceeds count times the threshold. |
| ChromeVersion.FindSlashDigit | main.js:82 | The search finds the leftmost `/` directly followed by a digit, and reports no match only when there is no such pair. |
| ChromeVersion.DigitRun | main.js:82 | The captured group is the longest run of digits starting right after the slash: all digits, and not followed by a digit. |
| ChromeVersion.DigitsValue | main.js:83 | Defines `parseInt` of a digit string as its decimal value. `DecimalValue` proves it inverts printing a number; `MilestoneOfDigits` proves it is the milestone read from the first captured digit run. |
| ChromeVersion.DecimalValue | main.js:83 | `parseInt` of a number's decimal numeral gives the number back. |
| ChromeVersion.DigitRunOf | main.js:82 | A digit string in the product that is not followed by a digit is exactly what the greedy group captures there. |
| ChromeVersion.FirstMatchAfter | main.js:82 | When a prefix holds no slash-digit pair, the first match is the slash-digit pair right after it. |
| ChromeVersion.Milestone | main.js:82-83 | A product string with no slash-digit pair gives milestone 0. |
| ChromeVersion.MilestoneOfDigits | main.js:82-83 | For `prefix + "/" + d + suffix`, where `prefix` has no slash-digit pair, `d` is any non-empty digit string (leading zeros included) and `suffix` does not start with a digit, the milestone is `parseInt(d)` (`DigitsValue(d)`). |
| ChromeVersion.MilestoneOfProduct | main.js:82-83 | For `prefix + "/" + String(n) + suffix` under the same conditions, the milestone is `n`. |
| ChromeVersion.MilestoneOfQuotedProduct | main.js:82 | "Chrome/71.0.3577.0" gives milestone 71. |
| ChromeVersion.MilestoneWithLeadingZero | main.js:82-83 | "Chrome/078.1" gives milestone 78: `parseInt` ignores leading zeros. |
| ChromeVersion.MilestoneWithoutMatch | main.js:83 | "Chrome" and "Chrome/beta" give milestone 0. |
| ChromeVersion.GetChromeVersion | main.js:80-85 | Every field of the browser's answer is kept, the milestone of its product is added, and no revision is attached. |
| Timing.TimingLog.constructor | main.js:44 | The log starts empty. |
| Timing.TimingLog.Record | main.js:53-57 | A timed command appends exactly one entry and leaves the earlier entries unchanged. |
| Timing.TimingLog.TakeTimeEntries | main.js:127 | Taking the entries returns everything recorded, in order, and empties the log. |
| Timing.Durations | main.js:131 | Defines `timings.map(t => t.duration)` (also `d.timings.map(...)` at main.js:179). Its length and elements follow from `Sequences.Map`. `ExperimentOutcome` and `PointOf` prove that the averages are the means of these durations. |
| Runner.ProbeEntries | main.js:101-125 | `n` launches (none when `n <= 0`) log one cache-clearing entry each; entry `i` carries launch `i`'s duration. |
| Runner.ProbeEntriesStep | main.js:121 | One more launch appends its own entry after the earlier ones. |
| Runner.Experiment | main.js:127-132 | Defines what `runForChrome` returns: the version read on launch 0, the old log entries plus one per launch, and the `average` of their durations (EmptyReduce when there are none). `RunForChrome` is proved to compute it; `ExperimentOutcome` proves its failure case, timings, mean and version. |
| Runner.RunForChrome | main.js:97-133 | The loop leaves the log empty and returns `Experiment` of the log's old entries: the version read on launch 0, every timing, and their mean. |
| Runner.ExperimentOutcome | main.js:97-133 | `runForChrome` throws exactly when the log held nothing and no launch happened (EmptyReduce). Otherwise `timings` is the old entries followed by one entry per launch, and `average` is their mean. `version` is set exactly when `n > 0`, and is then `getChromeVersion` of launch 0's answer (so it carries that answer's milestone). |
| Runner.FreshExperimentBounds | main.js:127-132 | From an empty log, `n > 0` launches with durations in [lo, hi] give exactly `n` timings and an average in [lo, hi]. |
| Revisions.InRange | main.js:208 | Defines the range filter `r >= begin && r <= end` over the catalog. `InRangeSnoc` proves it decides each entry on its own; `SelectionWithinCatalog` proves its result lies in [begin, end] in catalog order. |
| Revisions.Decimate | main.js:209 | Defines the thinning filter on the range-filtered list: keep a bound, or an index that is a multiple of `delta` (never for `delta == 0`). `DecimateSnoc` and `SelectionMembership` prove which entries it keeps. |
| Revisions.SelectRevisions | main.js:203-209 | Defines the revisions `main` loops over: a truthy `--revision` alone, otherwise the thinned range. `ExplicitRevisionWins`, `ZeroRevisionIgnored`, `SelectionMembership` and `SelectionWithinCatalog` prove what it selects. |
| Revisions.ExplicitRevisionWins | main.js:204-205 | A non-zero `--revision` is the whole selection; the catalog is ignored. |
| Revisions.ZeroRevisionIgnored | main.js:204 | A revision of 0 is falsy, so the selection is the one made without `--revision`. |
| Revisions.SelectionMembership | main.js:207-209 | A revision is selected exactly when it stands at some position `k` of the range-filtered list where it equals `begin` or `end`, or `k` is a multiple of `delta`. |
| Revisions.SelectionWithinCatalog | main.js:207-209 | Every selected revision is a catalog entry within [begin, end], and the selection is a subsequence of the catalog in catalog order. |
| Revisions.BoundsAlwaysKept | main.js:209 | A catalog entry equal to `begin` or `end` is selected whatever `delta` is, provided `begin <= end`. |
| Revisions.StrideCountsRangePositions | main.js:208-209 | Position `k` of the range-filtered list (not of the catalog) is kept when `k` is a multiple of `delta`. |
| Revisions.UnitStrideKeepsRange | main.js:208-209 | With `delta == 1` every in-range catalog revision is selected. |
| Revisions.ZeroStrideKeepsBoundsOnly | main.js:209 | With `delta == 0` the remainder is NaN, so exactly the in-range entries equal to a bound survive. |
| Revisions.InRangeSnoc | main.js:208 | The range filter decides each catalog entry on its own. |
| Revisions.DecimateSnoc | main.js:209 | The thinning filter decides each entry by its own position in the range-filtered list. |
| Revisions.RangeExample | main.js:208 | Catalog 1..7 cut to [2, 7] gives [2, 3, 4, 5, 6, 7]. |
| Revisions.DecimateExample | main.js:209 | Thinning [2, 3, 4, 5, 6, 7] with stride 2 keeps [2, 4, 6, 7]. |
| Revisions.StrideExample | main.js:207-209 | Catalog 1..7 with bounds 2 and 7 and stride 2 selects [2, 4, 6, 7]. Counting catalog positions would select 3 and 5 instead. |
| Bench.RunRevision | main.js:216-217 | Defines one pass of the revision loop: `runForChrome` on the snapshot, then `result.version.r = revision`, which throws MissingVersion when no version was read. `RunRevisionOutcome` and `RunRevisionShape` prove its outcome. |
| Bench.RevisionRuns | main.js:213-219 | Defines the results loop: passes in revision order, stopping at the first throw; only the first pass sees the entries logged before. `RunRevisions` is proved to compute it; `RevisionRunsShape`, `RunsFailurePersists` and `NoLaunchesFail` prove its outcome. |
| Bench.MainOutcome | main.js:196-229 | Defines what `main` yields: the results of the chrome-path run or of the revision loop, then the exit-code decision. `RunMain` is proved to compute it; `ExplicitRevisionMain`, `RevisionModeExit` and `ChromePathExit` prove its outcome in each mode. |
| Bench.RunRevisionOutcome | main.js:216-217 | A loop pass throws exactly when `runForChrome` throws (same error) or returns no version (MissingVersion). Otherwise the result is `runForChrome`'s, with only `version.r` set to the revision. |
| Bench.RunOneRevision | main.js:215-218 | The loop body leaves the log empty and yields the pass that `RunRevision` specifies. |
| Bench.RunsStep | main.js:213-219 | One more pass either throws or grows the results by exactly that pass's result. |
| Bench.RunsFailurePersists | main.js:213-219 | Once a pass throws, the loop throws with that error, whatever revisions follow. |
| Bench.RunRevisions | main.js:213-219 | The loop returns `RevisionRuns` of the log's old entries. The log is unchanged when there is no revision, and empty otherwise. |
| Bench.ExitDecision | main.js:224-228 | Without `--exitCode` there is no status. With it, fewer or more than one result throw 'unexpected args'. Otherwise the status is 1 exactly when the average is above 1000 (strictly), and 0 exactly when it is at most 1000. |
| Bench.Runs | main.js:200-220 | Defines what `results` holds before the exit decision: the single `runForChrome` of the `CHROME_PATH` branch, or the revision loop over the selected revisions, with the first throw ending `main`. `RunMain` is proved to compute it inside `MainOutcome`; `ChromePathExit` and `RevisionRunsShape` prove its outcome in each branch. |
| Bench.RunMain | main.js:196-229 | `main` yields `MainOutcome` of the log's old entries. The log is empty after any run, and unchanged when no revision was selected. |
| Bench.RunRevisionShape | main.js:213-219 | With at least one launch, a loop pass succeeds. Its version is `getChromeVersion` of the first launch's answer with `r` set to the revision. Its timings are the old entries plus one per launch, and its average is their mean. |
| Bench.RunsOfExtend | main.js:218 | Pushing a result that matches the next revision keeps every result matched to its revision. |
| Bench.RunsSnoc | main.js:218 | When the earlier passes and the last pass succeed, the results are the earlier ones followed by the last. |
| Bench.RevisionRunsShape | main.js:213-219 | With `n > 0` the loop never throws and gives exactly one result per selected revision, in revision order. Result `i` carries the version of revision `i`'s first launch with `r` set to revision `i`; only the first run sees entries logged before `main`. |
| Bench.NoLaunchesFail | main.js:213-219 | With `n <= 0` and at least one revision, `main` throws at the first revision. The error is EmptyReduce from an empty log, or MissingVersion when older entries let `average` succeed and `version` stays undefined. |
| Bench.ExplicitRevisionMain | main.js:204-205 | With a non-zero `--revision` and `n > 0`, `main` yields a single result tagged with that revision. In exit-code mode its average alone decides the status. |
| Bench.RevisionModeExit | main.js:224-225 | In exit-code mode over catalog revisions, `main` throws 'unexpected args' exactly when the selection does not hold one revision. |
| Bench.FreshRun | main.js:127-131 | One run from an empty log with `n > 0` launches succeeds, with one duration per launch and their mean. |
| Bench.FreshRunAboveThreshold | main.js:226 | For such a run, the average is above 1000 exactly when the durations total more than `n` times 1000. |
| Bench.ChromePathExit | main.js:200-227 | With `--use-chrome-path` and `--exitCode` from an empty log, the status is 1 exactly when the `n` durations total more than `1000*n`, and 0 otherwise. |
| Bench.ThresholdIsNotSlow | main.js:226 | An average of exactly 1000 exits with 0. |
| Bench.TwoResultsAreUnexpected | main.js:225 | Two results in exit-code mode throw 'unexpected args'. |
| Graph.PointOf | main.js:176-181 | A result maps to a point exactly when it has a version (otherwise MissingVersion, checked first) and non-empty timings (otherwise EmptyReduce). The point is the product string and the mean of the durations. |
| Graph.ToPoints | main.js:176-181 | The mapping succeeds exactly when every result maps to a point, and then point `i` is result `i`'s point. |
| Graph.ToPointsFirstError | main.js:176-181 | A failed mapping reports the error of the first result whose callback throws; every earlier result maps to a point. |
| Graph.Versions | main.js:162 | The labels are the points' product strings, in order. |
| Graph.Insert | main.js:182 | Inserting adds exactly the one point. |
| Graph.SortByVersion | main.js:182 | The sorted data is a permutation of the points. |
| Graph.GraphPoints | main.js:171-182 | Defines the chart data: the concatenated results mapped to points (first throw wins), then sorted. `MakeGraphData` is proved to compute it; `GraphPointsSorted` and `GraphIgnoresFileOrder` prove it is sorted, holds one point per result, and does not depend on file order. |
| Graph.InsertSorted | main.js:182 | Inserting into ascending points keeps them ascending under a total preorder. |
| Graph.SortSorted | main.js:182 | The sorted points ascend in product order under a total preorder. |
| Graph.MakeGraphData | main.js:171-182 | Pushing every file's results, mapping and sorting yields `GraphPoints` of the files. |
| Graph.GraphPointsSorted | main.js:171-182 | The chart data has one point per loaded result and ascends in product order. |
| Graph.SortedUnique | main.js:182 | Under an antisymmetric total order, two ascending label sequences holding the same labels are equal. |
| Graph.PointsOfPermutation | main.js:176-181 | Permuting the results preserves whether the mapping succeeds, and permutes the points. |
| Graph.GraphIgnoresFileOrder | main.js:171-182 | Loading the same files in any order derives the chart data in both orders or in neither. The labels come out in the same sequence, and the points are the same up to the order of points with equal labels. |

## Left out

- `downloadChrome` (HTTP download, zip extraction, file-system checks) is I/O. A snapshot is identified only by its revision.
- Launching the browser, the DevTools connection, `sendCommand`, `disconnect` and `kill` are foreign-library calls. What each launch reports is the input `launches(build)(i)`. A launch or command that throws is not modelled, nor is the missing cleanup that would follow it.
- lighthouse-logger internals and the wall clock are not modelled. `wrapLog` and `getTiming` appear only as the one entry they append per launch, with the measured duration as an input. `takeTimeEntries` returns the logger's own entry objects, which also carry a start time and an entry type; `TimingEntry` keeps only the name and the duration, so `Outcome.results` leaves those fields out of each timing.
- Floating point is left out. Durations, sums and averages are exact reals, so rounding in `sum / length` and in the comparison with 1000 is not modelled.
- ChromeVersion.Milestone: the milestone is the exact value of the digit run. `parseInt` loses precision for runs longer than about 15 digits, which real product strings never reach.
- The command line is modelled as already parsed, and yargs and its defaults are left out. `n`, `delta`, `begin`, `end` and `revision` are integers. Non-integer or non-numeric values (a fractional `n`, a NaN revision) are not modelled. Revision 0 is the only falsy revision.
- `console.log` output is left out. `Outcome.results` is what the script prints as JSON, less the timing fields named above. When exit-code mode then throws, the printed results are not part of the model's failure value.
- `process.exit` is modelled only as the status in `Outcome.exit`. A thrown error is a `Failure` value; the unhandled promise rejection it causes is not modelled.
- The contents of `mac-revisions.json` are an input sequence, and no ordering of it is relied on.
- `result.version.r = revision` mutates the object `runForChrome` returned. The model replaces the result by an updated value, so aliasing between results is not captured.
- `require` of the graph files is left out. A file is modelled as the list of results it parsed to. Results lacking a `timings` array, or holding a non-numeric duration, are not modelled.
- The HTML page, the Plotly `render` function and `fs.writeFileSync` are output only.
- `localeCompare` is locale dependent. The sort compares through an input `le`, which the lemmas require to be a total preorder (an antisymmetric one for order independence).
- Graph.SortByVersion: the engine's in-place `Array.prototype.sort` is modelled as a stable insertion sort on values. Its stability is not stated as a lemma; only sortedness and permutation are proved.
- Graph.GraphIgnoresFileOrder: points with equal labels but different averages may come out in another order when the files are loaded in another order. Only the label sequence and the multiset of points are proved equal.
