/** The sampling task's edge detector.  It remembers whether the previous
    reading was an alert, posts one alert unit when a reading crosses from
    at or below the exposure threshold to above it, and re-arms on any
    reading at or below the threshold. */
module Sensor {

  /** Readings strictly above this value are over the threshold (12-bit scale). */
  const EXPOSURE_THRESHOLD: int := 3000

  predicate High(reading: int) {
    reading > EXPOSURE_THRESHOLD
  }

  /** One detector step: the new `lastAlert` flag and whether an alert is posted. */
  datatype Edge = Edge(lastAlert: bool, post: bool)

  /** One reading through the detector.  An alert is posted only on the
      crossing into the high range; the flag after the step always says
      whether this reading was high, so a reading of exactly the threshold
      never posts and always re-arms. */
  function Detect(lastAlert: bool, reading: int): (e: Edge)
    ensures e.post <==> High(reading) && !lastAlert
    ensures e.lastAlert <==> High(reading)
  {
    if reading > EXPOSURE_THRESHOLD && !lastAlert then Edge(true, true)
    else if reading <= EXPOSURE_THRESHOLD then Edge(false, false)
    else Edge(lastAlert, false)
  }

  /** For each reading of a trace, whether the detector posted an alert on it. */
  function AlertTrace(lastAlert: bool, readings: seq<int>): (t: seq<bool>)
    ensures |t| == |readings|
    decreases |readings|
  {
    if |readings| == 0 then []
    else
      var e := Detect(lastAlert, readings[0]);
      [e.post] + AlertTrace(e.lastAlert, readings[1..])
  }

  /** The number of `true` entries. */
  function CountTrue(bs: seq<bool>): nat
    decreases |bs|
  {
    if |bs| == 0 then 0 else (if bs[0] then 1 else 0) + CountTrue(bs[1..])
  }

  /** Reference definition: reading `i` starts a maximal run of high readings,
      given whether the reading before the trace was high. */
  predicate StartsRunAfter(prevHigh: bool, readings: seq<int>, i: int)
    requires 0 <= i < |readings|
  {
    High(readings[i]) && (if i == 0 then !prevHigh else !High(readings[i - 1]))
  }

  /** Reading `i` starts a maximal run of high readings of a trace that
      starts with the detector armed. */
  predicate StartsRun(readings: seq<int>, i: int)
    requires 0 <= i < |readings|
  {
    StartsRunAfter(false, readings, i)
  }

  /** Drops the leading high readings, that is the rest of the current run. */
  function DropRun(readings: seq<int>): (r: seq<int>)
    ensures |r| <= |readings|
    decreases |readings|
  {
    if |readings| == 0 || !High(readings[0]) then readings else DropRun(readings[1..])
  }

  /** Reference definition: the number of maximal contiguous runs of high readings. */
  function Runs(readings: seq<int>): nat
    decreases |readings|
  {
    if |readings| == 0 then 0
    else if !High(readings[0]) then Runs(readings[1..])
    else 1 + Runs(DropRun(readings[1..]))
  }

  /** The detector posts on reading `i` exactly when reading `i` starts a
      maximal run of high readings. */
  lemma {:induction false} AlertTraceMarksRunStartsAfter(lastAlert: bool, readings: seq<int>)
    ensures forall i :: 0 <= i < |readings| ==>
      (AlertTrace(lastAlert, readings)[i] <==> StartsRunAfter(lastAlert, readings, i))
    decreases |readings|
  {
    if |readings| > 0 {
      var e := Detect(lastAlert, readings[0]);
      var rest := readings[1..];
      AlertTraceMarksRunStartsAfter(e.lastAlert, rest);
      forall i | 0 <= i < |readings|
        ensures AlertTrace(lastAlert, readings)[i] <==> StartsRunAfter(lastAlert, readings, i)
      {
        if i > 0 {
          assert AlertTrace(lastAlert, readings)[i] == AlertTrace(e.lastAlert, rest)[i - 1];
          assert StartsRunAfter(e.lastAlert, rest, i - 1) <==> StartsRunAfter(lastAlert, readings, i);
        }
      }
    }
  }

  /** From an armed start, the alert posts are exactly the run starts. */
  lemma AlertTraceMarksRunStarts(readings: seq<int>)
    ensures forall i :: 0 <= i < |readings| ==>
      (AlertTrace(false, readings)[i] <==> StartsRun(readings, i))
  {
    AlertTraceMarksRunStartsAfter(false, readings);
  }

  /** Counting posts from either detector state: an armed detector posts once
      per run; a disarmed one first waits out the run in progress. */
  lemma {:induction false} AlertCountMatchesRunsFrom(lastAlert: bool, readings: seq<int>)
    ensures CountTrue(AlertTrace(lastAlert, readings))
         == if lastAlert then Runs(DropRun(readings)) else Runs(readings)
    decreases |readings|
  {
    if |readings| > 0 {
      var e := Detect(lastAlert, readings[0]);
      AlertCountMatchesRunsFrom(e.lastAlert, readings[1..]);
      assert AlertTrace(lastAlert, readings)[1..] == AlertTrace(e.lastAlert, readings[1..]);
    }
  }

  /** Over any trace, the number of alert posts equals the number of maximal
      contiguous runs of readings above the threshold. */
  lemma AlertCountIsRuns(readings: seq<int>)
    ensures CountTrue(AlertTrace(false, readings)) == Runs(readings)
  {
    AlertCountMatchesRunsFrom(false, readings);
  }

  /** The sampling loop over a finite trace of readings, starting armed:
      how many alert units it posts and its final `lastAlert` flag. */
  method CountAlertPosts(readings: seq<int>) returns (posts: nat, lastAlert: bool)
    ensures posts == Runs(readings)
    ensures lastAlert <==> |readings| > 0 && High(readings[|readings| - 1])
  {
    AlertCountIsRuns(readings);
    posts, lastAlert := 0, false;
    var i := 0;
    while i < |readings|
      invariant 0 <= i <= |readings|
      invariant posts + CountTrue(AlertTrace(lastAlert, readings[i..])) == Runs(readings)
      invariant lastAlert <==> i > 0 && High(readings[i - 1])
      decreases |readings| - i
    {
      var e := Detect(lastAlert, readings[i]);
      assert readings[i..][1..] == readings[i + 1..];
      if e.post {
        posts := posts + 1;
      }
      lastAlert := e.lastAlert;
      i := i + 1;
    }
    assert readings[i..] == [];
  }
}
