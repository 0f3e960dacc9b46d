/** The process-wide time-entry log of lighthouse-logger as the script uses it:
    `wrapLog` appends one entry per timed command, and `log.takeTimeEntries()` hands
    back everything recorded so far and empties the log. */
module Timing {
  import opened Sequences

  /** One timed command: the status id it was logged under and how long it took. */
  datatype TimingEntry = TimingEntry(name: string, duration: real)

  /** The id `getTiming` logs the `Network.clearBrowserCache` command under. */
  const CacheClearId: string := "lh:driver:cleanBrowserCaches"

  /** `timings.map(t => t.duration)`. */
  function Durations(entries: seq<TimingEntry>): seq<real>
  {
    Map((e: TimingEntry) => e.duration, entries)
  }

  class TimingLog {
    var entries: seq<TimingEntry>

    constructor ()
      ensures entries == []
    {
      entries := [];
    }

    /** `wrapLog(status, fn)`: the command ran and took `duration`; its entry is appended. */
    method Record(name: string, duration: real)
      modifies this
      ensures entries == old(entries) + [TimingEntry(name, duration)]
    {
      entries := entries + [TimingEntry(name, duration)];
    }

    /** `log.takeTimeEntries()`: everything recorded so far, in order; the log is left empty,
        so a second call straight after returns nothing. */
    method TakeTimeEntries() returns (taken: seq<TimingEntry>)
      modifies this
      ensures taken == old(entries)
      ensures entries == []
    {
      taken := entries;
      entries := [];
    }
  }
}
