/** The error-print throttle shared by the controller and axis pollers:
    at most one error report per `ERROR_PRINT_TIME` seconds, unless the
    previous poll asked for the next error to be reported regardless. */
module ErrorThrottle {

  /** Seconds between error reports. */
  const ERROR_PRINT_TIME: int := 1

  /** `lastTimeSecs_` and `printNextError_` of a poller. Time is whole
      seconds past the epoch. */
  datatype Throttle = Throttle(lastTimeSecs: int, printNextError: bool)

  /** Whether errors found by this poll are reported, and the throttle after
      the check. */
  datatype Decision = Decision(report: bool, next: Throttle)

  /** The start of a poll at time `now`: the clock is re-armed only when a
      full period has elapsed; a pending forced report also prints but does
      not re-arm the clock. */
  function Check(t: Throttle, now: int): (d: Decision)
    ensures d.report <==> now - t.lastTimeSecs >= ERROR_PRINT_TIME || t.printNextError
    ensures d.next.printNextError == t.printNextError
    ensures now - t.lastTimeSecs >= ERROR_PRINT_TIME ==> d.next.lastTimeSecs == now
    ensures now - t.lastTimeSecs < ERROR_PRINT_TIME ==> d.next == t
    ensures d.next.lastTimeSecs >= t.lastTimeSecs
  {
    if now - t.lastTimeSecs < ERROR_PRINT_TIME then Decision(t.printNextError, t)
    else Decision(true, t.(lastTimeSecs := now))
  }

  /** Successive checks at the given times, with no forced report in between:
      which of them print. */
  function Run(t: Throttle, times: seq<int>): (r: (seq<bool>, Throttle))
    ensures |r.0| == |times|
    ensures r.1.printNextError == t.printNextError
    decreases |times|
  {
    if times == [] then ([], t)
    else
      var d := Check(t, times[0]);
      var rest := Run(d.next, times[1..]);
      ([d.report] + rest.0, rest.1)
  }

  predicate NonDecreasing(times: seq<int>) {
    forall i, j :: 0 <= i < j < |times| ==> times[i] <= times[j]
  }

  /** Without forced reports, two prints of a run at non-decreasing times are
      at least `ERROR_PRINT_TIME` seconds apart. */
  lemma {:induction false} RunSpacing(t: Throttle, times: seq<int>)
    requires !t.printNextError && NonDecreasing(times)
    ensures var prints := Run(t, times).0;
            forall i, j :: 0 <= i < j < |times| && prints[i] && prints[j] ==>
              times[j] - times[i] >= ERROR_PRINT_TIME
    decreases |times|
  {
    if times != [] {
      var d := Check(t, times[0]);
      var rest := times[1..];
      assert NonDecreasing(rest);
      RunSpacing(d.next, rest);
      var prints := Run(t, times).0;
      var prints' := Run(d.next, rest).0;
      forall j | 0 < j < |times| && prints[0] && prints[j]
        ensures times[j] - times[0] >= ERROR_PRINT_TIME
      {
        assert prints[j] == prints'[j - 1];
        FirstPrintAfter(d.next, rest, j - 1);
      }
      forall i, j | 0 < i < j < |times| && prints[i] && prints[j]
        ensures times[j] - times[i] >= ERROR_PRINT_TIME
      {
        assert prints[i] == prints'[i - 1] && prints[j] == prints'[j - 1];
      }
    }
  }

  /** Without forced reports, a print at position `j` of a run happens at
      least a period after the clock the run started with. */
  lemma {:induction false} FirstPrintAfter(t: Throttle, times: seq<int>, j: nat)
    requires !t.printNextError && NonDecreasing(times)
    requires j < |times| && Run(t, times).0[j]
    ensures times[j] - t.lastTimeSecs >= ERROR_PRINT_TIME
    decreases j
  {
    var d := Check(t, times[0]);
    if j > 0 {
      var rest := times[1..];
      assert NonDecreasing(rest);
      assert Run(t, times).0[j] == Run(d.next, rest).0[j - 1];
      FirstPrintAfter(d.next, rest, j - 1);
      assert d.next.lastTimeSecs >= t.lastTimeSecs;
    }
  }
}
