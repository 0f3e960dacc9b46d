/** `main` (main.js): benchmark either the browser at `CHROME_PATH` once, or every
    selected catalog revision in turn, collecting one result per run; in exit-code mode
    the single result decides whether the process exits with status 1 (slow) or 0.
    Downloading a revision and launching it are outside the model: what launch `i` of a
    build reports is the input `launches(build)(i)`. */
module Bench {
  import opened Basics
  import opened Sequences
  import opened Stats
  import opened ChromeVersion
  import opened Timing
  import opened Runner
  import opened Revisions

  /** Which browser a run launches: the one named by `CHROME_PATH`, or a downloaded
      snapshot of a catalog revision. */
  datatype Build = ChromePath | Snapshot(revision: int)

  /** The parsed command line `main` reads. */
  datatype Args = Args(
    useChromePath: bool,
    revision: Option<int>,
    begin: int,
    end: int,
    delta: int,
    n: int,
    exitCode: bool)

  /** What `main` leaves behind when it does not throw: the results it printed, and the
      status it exits with in exit-code mode (`None` when it just returns). */
  datatype Outcome = Outcome(results: seq<ExperimentResult>, exit: Option<int>)

  /** The threshold, in milliseconds, above which a cache clear counts as slow. */
  const SlowThreshold: real := 1000.0

  /** The revisions `main` benchmarks for these arguments. */
  function Selection(args: Args, catalog: seq<int>): seq<int>
  {
    SelectRevisions(catalog, args.revision, args.begin, args.end, args.delta)
  }

  /** One pass of the revision loop body: `runForChrome` on the snapshot, then
      `result.version.r = revision`, which throws when no launch set a version. */
  function RunRevision(prior: seq<TimingEntry>, rev: int, n: int, launches: Build -> nat -> Probe): Result<ExperimentResult>
  {
    match Experiment(prior, n, launches(Snapshot(rev)))
    case Failure(e) => Failure(e)
    case Success(res) =>
      if res.version.None? then Failure(MissingVersion)
      else Success(res.(version := Some(res.version.value.(r := Some(rev)))))
  }

  /** A pass throws exactly when `runForChrome` throws or returns no version; otherwise its
      result is the one `runForChrome` returned with `version.r` set to the revision and
      nothing else changed. */
  lemma RunRevisionOutcome(prior: seq<TimingEntry>, rev: int, n: int, launches: Build -> nat -> Probe)
    ensures var e := Experiment(prior, n, launches(Snapshot(rev)));
      var r := RunRevision(prior, rev, n, launches);
      && (r.Success? <==> e.Success? && e.value.version.Some?)
      && (e.Failure? ==> r == Failure(e.error))
      && (e.Success? && e.value.version.None? ==> r == Failure(MissingVersion))
      && (r.Success? ==>
            && r.value.timings == e.value.timings
            && r.value.average == e.value.average
            && r.value.version.Some?
            && r.value.version.value.info == e.value.version.value.info
            && r.value.version.value.milestone == e.value.version.value.milestone
            && r.value.version.value.r == Some(rev))
  {
  }

  /** The results the revision loop collects: the runs in revision order, stopping at the
      first run that throws. Only the first run can see entries logged before `main`;
      every run drains the log. */
  function RevisionRuns(prior: seq<TimingEntry>, revisions: seq<int>, n: int, launches: Build -> nat -> Probe): Result<seq<ExperimentResult>>
    decreases |revisions|
  {
    if revisions == [] then Success([])
    else
      var last := |revisions| - 1;
      match RevisionRuns(prior, revisions[..last], n, launches)
      case Failure(e) => Failure(e)
      case Success(rs) =>
        match RunRevision(if last == 0 then prior else [], revisions[last], n, launches)
        case Failure(e) => Failure(e)
        case Success(x) => Success(rs + [x])
  }

  /** The exit-code decision: nothing to decide unless `--exitCode` is given; then there
      must be exactly one result, and the process exits with 1 when its average is above
      the threshold and with 0 otherwise. */
  function ExitDecision(exitCode: bool, results: seq<ExperimentResult>): (r: Result<Option<int>>)
    ensures r.Failure? <==> exitCode && |results| != 1
    ensures r.Failure? ==> r.error == UnexpectedArgs
    ensures r.Success? ==> (r.value.Some? <==> exitCode)
    ensures r == Success(Some(1)) <==> exitCode && |results| == 1 && results[0].average > SlowThreshold
    ensures r == Success(Some(0)) <==> exitCode && |results| == 1 && results[0].average <= SlowThreshold
  {
    if !exitCode then Success(None)
    else if |results| != 1 then Failure(UnexpectedArgs)
    else if results[0].average > SlowThreshold then Success(Some(1))
    else Success(Some(0))
  }

  /** The runs `main` makes before printing: one run of the `CHROME_PATH` browser, or the
      revision loop. */
  function Runs(prior: seq<TimingEntry>, args: Args, catalog: seq<int>, launches: Build -> nat -> Probe): Result<seq<ExperimentResult>>
  {
    if args.useChromePath then
      match Experiment(prior, args.n, launches(ChromePath))
      case Failure(e) => Failure(e)
      case Success(res) => Success([res])
    else RevisionRuns(prior, Selection(args, catalog), args.n, launches)
  }

  /** What `main(argv)` does, started with `prior` in the timing log. */
  function MainOutcome(prior: seq<TimingEntry>, args: Args, catalog: seq<int>, launches: Build -> nat -> Probe): Result<Outcome>
  {
    match Runs(prior, args, catalog, launches)
    case Failure(e) => Failure(e)
    case Success(results) =>
      match ExitDecision(args.exitCode, results)
      case Failure(e) => Failure(e)
      case Success(code) => Success(Outcome(results, code))
  }

  /** If a prefix of the revisions already throws, the loop throws with that error. */
  lemma {:induction false} RunsFailurePersists(prior: seq<TimingEntry>, revisions: seq<int>, k: nat, n: int, launches: Build -> nat -> Probe)
    requires k <= |revisions|
    requires RevisionRuns(prior, revisions[..k], n, launches).Failure?
    ensures RevisionRuns(prior, revisions, n, launches) == RevisionRuns(prior, revisions[..k], n, launches)
    decreases |revisions| - k
  {
    if k < |revisions| {
      var last := |revisions| - 1;
      assert revisions[..last][..k] == revisions[..k];
      RunsFailurePersists(prior, revisions[..last], k, n, launches);
      assert revisions[..|revisions|] == revisions;
    } else {
      assert revisions[..k] == revisions;
    }
  }

  /** One more pass of the revision loop: the run of revision `i` decides whether the
      results grow by one or the loop throws. */
  lemma RunsStep(prior: seq<TimingEntry>, revisions: seq<int>, i: nat, n: int, launches: Build -> nat -> Probe,
                 results: seq<ExperimentResult>)
    requires i < |revisions| && RevisionRuns(prior, revisions[..i], n, launches) == Success(results)
    ensures RevisionRuns(prior, revisions[..i + 1], n, launches) ==
      match RunRevision(if i == 0 then prior else [], revisions[i], n, launches)
      case Failure(e) => Failure(e)
      case Success(x) => Success(results + [x])
  {
    var prefix := revisions[..i + 1];
    assert prefix[..i] == revisions[..i] && prefix[i] == revisions[i];
  }

  /** The body of the revision loop: `runForChrome` on the snapshot, then
      `result.version.r = revision` on the result it returned. */
  method RunOneRevision(log: TimingLog, revision: int, n: int, launches: Build -> nat -> Probe)
    returns (r: Result<ExperimentResult>)
    modifies log
    ensures r == RunRevision(old(log.entries), revision, n, launches)
    ensures log.entries == []
  {
    var res := RunForChrome(log, n, launches(Snapshot(revision)));
    if res.Failure? {
      return Failure(res.error);
    }
    var result := res.value;
    if result.version.None? {
      return Failure(MissingVersion);
    }
    result := result.(version := Some(result.version.value.(r := Some(revision))));
    r := Success(result);
  }

  /** The `for (const revision of revisions)` loop: each pass runs one snapshot and pushes
      its result; a throw ends `main`. */
  method RunRevisions(log: TimingLog, revisions: seq<int>, n: int, launches: Build -> nat -> Probe)
    returns (r: Result<seq<ExperimentResult>>)
    modifies log
    ensures r == RevisionRuns(old(log.entries), revisions, n, launches)
    ensures log.entries == if revisions == [] then old(log.entries) else []
  {
    var results: seq<ExperimentResult> := [];
    var i := 0;
    while i < |revisions|
      invariant 0 <= i <= |revisions|
      invariant RevisionRuns(old(log.entries), revisions[..i], n, launches) == Success(results)
      invariant log.entries == if i == 0 then old(log.entries) else []
    {
      RunsStep(old(log.entries), revisions, i, n, launches, results);
      var result := RunOneRevision(log, revisions[i], n, launches);
      if result.Failure? {
        RunsFailurePersists(old(log.entries), revisions, i + 1, n, launches);
        return Failure(result.error);
      }
      results := results + [result.value];
      i := i + 1;
    }
    assert revisions[..i] == revisions;
    r := Success(results);
  }

  /** `main(argv)`, with the timing log as the only state it changes. */
  method RunMain(log: TimingLog, args: Args, catalog: seq<int>, launches: Build -> nat -> Probe)
    returns (r: Result<Outcome>)
    modifies log
    ensures r == MainOutcome(old(log.entries), args, catalog, launches)
    ensures log.entries == if args.useChromePath || Selection(args, catalog) != [] then [] else old(log.entries)
  {
    var results: Result<seq<ExperimentResult>>;
    if args.useChromePath {
      var res := RunForChrome(log, args.n, launches(ChromePath));
      if res.Failure? {
        return Failure(res.error);
      }
      results := Success([res.value]);
    } else {
      var revisions: seq<int>;
      if args.revision.Some? && args.revision.value != 0 {
        revisions := [args.revision.value];
      } else {
        revisions := Decimate(InRange(catalog, args.begin, args.end), args.begin, args.end, args.delta);
      }
      results := RunRevisions(log, revisions, args.n, launches);
      if results.Failure? {
        return Failure(results.error);
      }
    }
    var code := ExitDecision(args.exitCode, results.value);
    if code.Failure? {
      return Failure(code.error);
    }
    r := Success(Outcome(results.value, code.value));
  }

  /** `x` is what a pass over revision `rev` yields when the log held `prior` and each
      snapshot is launched `n` times: the version the first launch reports with the
      revision set in `version.r`, the old entries followed by one entry per launch, and
      their mean. */
  ghost predicate RunOf(x: ExperimentResult, prior: seq<TimingEntry>, rev: int, n: int, launches: Build -> nat -> Probe)
  {
    var probe := launches(Snapshot(rev));
    && x.version.Some?
    && x.version.value == GetChromeVersion(probe(0).info).(r := Some(rev))
    && x.timings == prior + ProbeEntries(n, probe)
    && IsMean(x.average, Durations(x.timings))
  }

  /** With at least one launch, one pass of the revision loop succeeds. */
  lemma RunRevisionShape(prior: seq<TimingEntry>, rev: int, n: int, launches: Build -> nat -> Probe)
    requires n > 0
    ensures RunRevision(prior, rev, n, launches).Success?
    ensures RunOf(RunRevision(prior, rev, n, launches).value, prior, rev, n, launches)
  {
    ExperimentOutcome(prior, n, launches(Snapshot(rev)));
  }

  /** Results that match the revisions before the last one still match after one more
      pass matching the last one. */
  lemma RunsOfExtend(rs: seq<ExperimentResult>, x: ExperimentResult, front: seq<int>, revisions: seq<int>,
                     prior: seq<TimingEntry>, n: int, launches: Build -> nat -> Probe)
    requires |rs| + 1 == |revisions| && front == revisions[..|rs|]
    requires forall i :: 0 <= i < |rs| ==> RunOf(rs[i], if i == 0 then prior else [], front[i], n, launches)
    requires RunOf(x, if rs == [] then prior else [], revisions[|rs|], n, launches)
    ensures forall i :: 0 <= i < |revisions| ==>
      RunOf((rs + [x])[i], if i == 0 then prior else [], revisions[i], n, launches)
  {
    forall i | 0 <= i < |revisions|
      ensures RunOf((rs + [x])[i], if i == 0 then prior else [], revisions[i], n, launches)
    {
      if i < |rs| {
        assert (rs + [x])[i] == rs[i] && front[i] == revisions[i];
      }
    }
  }

  /** The loop's results after the last revision, when the earlier ones and the last
      pass succeed. */
  lemma RunsSnoc(prior: seq<TimingEntry>, revisions: seq<int>, n: int, launches: Build -> nat -> Probe,
                 rs: seq<ExperimentResult>, x: ExperimentResult)
    requires revisions != []
    requires RevisionRuns(prior, revisions[..|revisions| - 1], n, launches) == Success(rs)
    requires RunRevision(if |revisions| == 1 then prior else [], revisions[|revisions| - 1], n, launches) == Success(x)
    ensures RevisionRuns(prior, revisions, n, launches) == Success(rs + [x])
  {
  }

  /** With at least one launch per build, the revision loop never throws and yields one
      result per selected revision, in order: result `i` is the pass over revision `i`,
      which alone sees entries logged before `main` when it is the first. */
  lemma {:induction false} RevisionRunsShape(prior: seq<TimingEntry>, revisions: seq<int>, n: int, launches: Build -> nat -> Probe)
    requires n > 0
    ensures RevisionRuns(prior, revisions, n, launches).Success?
    ensures var results := RevisionRuns(prior, revisions, n, launches).value;
      && |results| == |revisions|
      && forall i :: 0 <= i < |results| ==> RunOf(results[i], if i == 0 then prior else [], revisions[i], n, launches)
    decreases |revisions|
  {
    if revisions != [] {
      var last := |revisions| - 1;
      var front := revisions[..last];
      RevisionRunsShape(prior, front, n, launches);
      var p := if last == 0 then prior else [];
      RunRevisionShape(p, revisions[last], n, launches);
      var rs := RevisionRuns(prior, front, n, launches).value;
      var x := RunRevision(p, revisions[last], n, launches).value;
      RunsSnoc(prior, revisions, n, launches, rs, x);
      RunsOfExtend(rs, x, front, revisions, prior, n, launches);
    }
  }

  /** With no launch per build, the first selected revision throws: `average` of an empty
      log throws inside `runForChrome`, and when the log held older entries the average
      succeeds but `result.version` is undefined, so setting `version.r` throws. */
  lemma NoLaunchesFail(prior: seq<TimingEntry>, revisions: seq<int>, n: int, launches: Build -> nat -> Probe)
    requires n <= 0 && revisions != []
    ensures RevisionRuns(prior, revisions, n, launches) ==
      Failure(if prior == [] then EmptyReduce else MissingVersion)
  {
    ExperimentOutcome(prior, n, launches(Snapshot(revisions[0])));
    assert revisions[..1][..0] == [];
    RunsFailurePersists(prior, revisions, 1, n, launches);
  }

  /** `--revision` set to a non-zero value benchmarks exactly that revision, whatever the
      catalog holds; in exit-code mode its average alone decides the status. */
  lemma ExplicitRevisionMain(prior: seq<TimingEntry>, args: Args, catalog: seq<int>, launches: Build -> nat -> Probe)
    requires !args.useChromePath && args.revision.Some? && args.revision.value != 0 && args.n > 0
    ensures var o := MainOutcome(prior, args, catalog, launches);
      && o.Success?
      && |o.value.results| == 1
      && o.value.results[0].version.value.r == args.revision
      && (args.exitCode ==> (o.value.exit == Some(1) <==> o.value.results[0].average > SlowThreshold))
  {
    ExplicitRevisionWins(catalog, args.revision.value, args.begin, args.end, args.delta);
    RevisionRunsShape(prior, Selection(args, catalog), args.n, launches);
  }

  /** In exit-code mode over catalog revisions, `main` throws 'unexpected args' exactly
      when the selection does not hold a single revision. */
  lemma RevisionModeExit(prior: seq<TimingEntry>, args: Args, catalog: seq<int>, launches: Build -> nat -> Probe)
    requires !args.useChromePath && args.exitCode && args.n > 0
    ensures MainOutcome(prior, args, catalog, launches).Failure? <==> |Selection(args, catalog)| != 1
    ensures MainOutcome(prior, args, catalog, launches).Failure? ==>
      MainOutcome(prior, args, catalog, launches).error == UnexpectedArgs
  {
    RevisionRunsShape(prior, Selection(args, catalog), args.n, launches);
  }

  /** One run from a fresh log with at least one launch succeeds with one entry per launch. */
  lemma FreshRun(n: int, probe: nat -> Probe) returns (res: ExperimentResult, ds: seq<real>)
    requires n > 0
    ensures Experiment([], n, probe) == Success(res)
    ensures ds == Durations(ProbeEntries(n, probe)) && |ds| == n && IsMean(res.average, ds)
  {
    ExperimentOutcome([], n, probe);
    res := Experiment([], n, probe).value;
    assert res.timings == ProbeEntries(n, probe) by {
      assert [] + ProbeEntries(n, probe) == ProbeEntries(n, probe);
    }
    ds := Durations(res.timings);
  }

  /** One run from a fresh log with at least one launch succeeds, and its average is above
      the threshold exactly when the durations total more than `n` times the threshold. */
  lemma FreshRunAboveThreshold(n: int, probe: nat -> Probe) returns (res: ExperimentResult)
    requires n > 0
    ensures Experiment([], n, probe) == Success(res)
    ensures res.average > SlowThreshold <==>
      Total(Durations(ProbeEntries(n, probe))) > SlowThreshold * n as real
  {
    var ds;
    res, ds := FreshRun(n, probe);
    MeanAbove(res.average, ds, SlowThreshold);
  }

  /** Benchmarking `CHROME_PATH` from a fresh log in exit-code mode: the process exits with
      status 1 exactly when the `n` cache-clearing durations total more than `n` times the
      threshold, and with 0 otherwise. */
  lemma ChromePathExit(args: Args, catalog: seq<int>, launches: Build -> nat -> Probe)
    requires args.useChromePath && args.exitCode && args.n > 0
    ensures var o := MainOutcome([], args, catalog, launches);
      var ds := Durations(ProbeEntries(args.n, launches(ChromePath)));
      && o.Success?
      && o.value.exit == Some(if Total(ds) > SlowThreshold * args.n as real then 1 else 0)
  {
    var res := FreshRunAboveThreshold(args.n, launches(ChromePath));
    assert Runs([], args, catalog, launches) == Success([res]);
  }

  /** An average of exactly the threshold is not slow: the comparison is strict. */
  lemma ThresholdIsNotSlow(res: ExperimentResult)
    requires res.average == SlowThreshold
    ensures ExitDecision(true, [res]) == Success(Some(0))
  {
  }

  /** Exit-code mode with two results throws instead of picking one. */
  lemma TwoResultsAreUnexpected(a: ExperimentResult, b: ExperimentResult)
    ensures ExitDecision(true, [a, b]) == Failure(UnexpectedArgs)
  {
  }
}
