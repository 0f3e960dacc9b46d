/** `runForChrome` (main.js): launch one browser build `n` times, read its version on
    the first launch, time `Network.clearBrowserCache` on every launch, then drain the
    timing log and average the durations. Launching, connecting and the command itself
    are outside the model: what each launch reports is the input `probe`. */
module Runner {
  import opened Basics
  import opened Sequences
  import opened Stats
  import opened ChromeVersion
  import opened Timing

  /** What launch number `i` of a build reports: the browser's `Browser.getVersion`
      answer and how long the cache-clearing command took. */
  datatype Probe = Probe(info: VersionInfo, duration: real)

  /** `{version, timings, average}`; `version` stays undefined when no launch happened. */
  datatype ExperimentResult = ExperimentResult(
    version: Option<Version>,
    timings: seq<TimingEntry>,
    average: real)

  /** The entries that launches 0 .. n-1 append to the log, in launch order. */
  function ProbeEntries(n: int, probe: nat -> Probe): (es: seq<TimingEntry>)
    ensures |es| == if n > 0 then n else 0
    ensures forall i :: 0 <= i < |es| ==> es[i] == TimingEntry(CacheClearId, probe(i).duration)
    decreases n
  {
    if n <= 0 then [] else ProbeEntries(n - 1, probe) + [TimingEntry(CacheClearId, probe(n - 1).duration)]
  }

  /** What `runForChrome(path, n)` returns when the log already holds `prior`. */
  function Experiment(prior: seq<TimingEntry>, n: int, probe: nat -> Probe): Result<ExperimentResult>
  {
    var timings := prior + ProbeEntries(n, probe);
    var version := if n > 0 then Some(GetChromeVersion(probe(0).info)) else None;
    match Average(Durations(timings))
    case Failure(e) => Failure(e)
    case Success(avg) => Success(ExperimentResult(version, timings, avg))
  }

  /** `runForChrome`: the loop restarts the browser for every iteration, keeps the version
      read on iteration 0 only, and records one timing per iteration. */
  method RunForChrome(log: TimingLog, n: int, probe: nat -> Probe) returns (r: Result<ExperimentResult>)
    modifies log
    ensures log.entries == []
    ensures r == Experiment(old(log.entries), n, probe)
  {
    var version: Option<Version> := None;
    var i := 0;
    while i < n
      invariant 0 <= i && (n > 0 ==> i <= n) && (n <= 0 ==> i == 0)
      invariant log.entries == old(log.entries) + ProbeEntries(i, probe)
      invariant version == if i > 0 then Some(GetChromeVersion(probe(0).info)) else None
    {
      var launch := probe(i);
      if i == 0 {
        version := Some(GetChromeVersion(launch.info));
      }
      log.Record(CacheClearId, launch.duration);
      ProbeEntriesStep(old(log.entries), i, probe);
      i := i + 1;
    }
    var timings := log.TakeTimeEntries();
    assert ProbeEntries(i, probe) == ProbeEntries(n, probe);
    var average := Average(Durations(timings));
    if average.Failure? {
      return Failure(average.error);
    }
    r := Success(ExperimentResult(version, timings, average.value));
  }

  /** One more launch appends its entry after those of the launches before it. */
  lemma ProbeEntriesStep(prior: seq<TimingEntry>, i: nat, probe: nat -> Probe)
    ensures prior + ProbeEntries(i + 1, probe) ==
      (prior + ProbeEntries(i, probe)) + [TimingEntry(CacheClearId, probe(i).duration)]
  {
  }

  /** An experiment fails exactly when it has no duration to average: no earlier entries
      in the log and no launch. Otherwise it carries the log's old entries followed by one
      cache-clearing entry per launch, their mean, and the version of launch 0. */
  lemma ExperimentOutcome(prior: seq<TimingEntry>, n: int, probe: nat -> Probe)
    ensures Experiment(prior, n, probe).Failure? <==> prior == [] && n <= 0
    ensures Experiment(prior, n, probe).Failure? ==> Experiment(prior, n, probe).error == EmptyReduce
    ensures Experiment(prior, n, probe).Success? ==>
      var res := Experiment(prior, n, probe).value;
      && res.timings == prior + ProbeEntries(n, probe)
      && IsMean(res.average, Durations(res.timings))
      && (res.version.Some? <==> n > 0)
      && (n > 0 ==> res.version.value == GetChromeVersion(probe(0).info))
  {
    var timings := prior + ProbeEntries(n, probe);
    var ds := Durations(timings);
    assert |ds| == |timings| == |prior| + (if n > 0 then n else 0);
    assert ds == [] <==> prior == [] && n <= 0;
  }

  /** Run from an empty log, `n` launches whose durations all lie in [lo, hi] average to a
      value in [lo, hi]; the result holds exactly `n` entries. */
  lemma FreshExperimentBounds(n: int, probe: nat -> Probe, lo: real, hi: real)
    requires n > 0
    requires forall i: nat :: i < n ==> lo <= probe(i).duration <= hi
    ensures Experiment([], n, probe).Success?
    ensures |Experiment([], n, probe).value.timings| == n
    ensures lo <= Experiment([], n, probe).value.average <= hi
  {
    var timings := [] + ProbeEntries(n, probe);
    var ds := Durations(timings);
    forall i | 0 <= i < |ds|
      ensures lo <= ds[i] <= hi
    {
      assert ds[i] == timings[i].duration == probe(i).duration;
    }
    AverageBounds(ds, lo, hi);
  }
}
