/** runProgress (main.js:293-320): a progress bar that advances with the
    time since the start over 90 seconds, stays at 99% until the completion
    check succeeds, then shows 100%, stops and calls `onDone` once; a check
    that throws stops the bar and shows the error.

    The interval timer is the caller, which invokes `Tick` every 150 ms
    while the ticker is running, with the milliseconds elapsed and what the
    completion check came back with. */
module Progress {
  import opened Options

  /** `DURATION`. */
  const DurationMs: nat := 90000

  /** The percentage a tick shows: `floor(elapsed / 90000 * 100)`, capped at
      100, and held at 99 while the output is not there yet. */
  function Percent(elapsed: nat, finished: bool): (p: nat)
    ensures p <= 100
    ensures !finished ==> p <= 99
    ensures p <= elapsed * 100 / DurationMs
  {
    var raw := elapsed * 100 / DurationMs;
    var capped := if raw >= 100 then 100 else raw;
    if !finished && capped >= 99 then 99 else capped
  }

  /** The bar never moves back as time passes. */
  lemma PercentMonotone(e1: nat, e2: nat, finished: bool)
    requires e1 <= e2
    ensures Percent(e1, finished) <= Percent(e2, finished)
  {
    MulDivMonotone(e1, e2);
  }

  lemma MulDivMonotone(e1: nat, e2: nat)
    requires e1 <= e2
    ensures e1 * 100 / DurationMs <= e2 * 100 / DurationMs
  {
    assert e1 * 100 <= e2 * 100;
  }

  /** The bar follows the clock exactly until 99%, and then waits there:
      from 89.1 seconds on an unfinished bar shows 99, a finished one 100
      from 90 seconds on. */
  lemma PercentSchedule(elapsed: nat)
    ensures elapsed < 89100 ==> Percent(elapsed, false) == elapsed * 100 / DurationMs
    ensures elapsed >= 89100 ==> Percent(elapsed, false) == 99
    ensures elapsed >= 90000 ==> Percent(elapsed, true) == 100
  {
    if elapsed < 89100 {
      MulDivMonotone(elapsed, 89099);
    } else {
      MulDivMonotone(89100, elapsed);
    }
  }

  /** What `checkFn()` came back with on a tick. */
  datatype Check = Done | NotDone | Threw(error: string)

  class Ticker {
    /** The interval has not been cleared. */
    var running: bool
    /** The local `finished`. */
    var finished: bool
    /** The percentage on the bar and its label. */
    var shown: nat
    /** How many times `onDone` has been called. */
    var doneCalls: nat
    /** The error passed to `showError`, if any. */
    var failure: Option<string>

    /** `onDone` is called once, exactly when the bar finished at 100%; a
        finished or failed bar is stopped; an unfinished bar is below 100. */
    ghost predicate Valid()
      reads this
    {
      && shown <= 100
      && (finished <==> doneCalls == 1)
      && doneCalls <= 1
      && (finished ==> !running && shown == 100 && failure.None?)
      && (!finished ==> shown <= 99)
      && (failure.Some? ==> !running)
    }

    /** Starting the interval: nothing shown yet, nothing finished. */
    constructor ()
      ensures Valid()
      ensures running && !finished && shown == 0 && doneCalls == 0 && failure.None?
    {
      running, finished, shown, doneCalls, failure := true, false, 0, 0, None;
    }

    /** One firing of the interval (main.js:297-319). */
    method Tick(elapsed: nat, check: Check)
      requires Valid() && running
      modifies this
      ensures Valid()
      ensures check.Done? ==> finished && !running && shown == 100
                              && doneCalls == old(doneCalls) + 1 && failure.None?
      ensures check.NotDone? ==> running && !finished && shown == Percent(elapsed, false)
                                 && doneCalls == old(doneCalls) && failure == old(failure)
      ensures check.Threw? ==> !running && !finished && shown == Percent(elapsed, false)
                               && doneCalls == old(doneCalls) && failure == Some(check.error)
    {
      shown := Percent(elapsed, finished);
      if !finished {
        match check
        case Done =>
          finished := true;
          shown := 100;
          running := false;
          doneCalls := doneCalls + 1;
        case NotDone =>
        case Threw(e) =>
          running := false;
          failure := Some(e);
      }
    }
  }

  /** The position of the first check that decides the bar (done or an
      error), or `|checks|` when every check came back not done. */
  function FirstDecisive(checks: seq<Check>): (d: nat)
    ensures d <= |checks|
    ensures forall k :: 0 <= k < d ==> checks[k].NotDone?
    ensures d < |checks| ==> !checks[d].NotDone?
  {
    if checks == [] || !checks[0].NotDone? then 0
    else 1 + FirstDecisive(checks[1..])
  }

  /** The interval firing once per entry of `elapsed` while the bar runs.
      The first check that is not "not done" decides: done finishes the bar
      at 100% with one call of `onDone`; an error stops it where it was,
      without `onDone`; with neither the bar keeps running at the last
      percentage. A stopped ticker does not fire. */
  method Run(t: Ticker, elapsed: seq<nat>, checks: seq<Check>)
    requires |elapsed| == |checks|
    requires t.Valid()
    modifies t
    ensures t.Valid()
    ensures t.doneCalls <= 1 && (t.shown == 100 <==> t.doneCalls == 1)
    ensures !old(t.running) ==> unchanged(t)
    ensures old(t.running) && FirstDecisive(checks) < |checks| && checks[FirstDecisive(checks)].Done? ==>
              t.finished && !t.running && t.shown == 100
              && t.doneCalls == old(t.doneCalls) + 1 && t.failure.None?
    ensures old(t.running) && FirstDecisive(checks) < |checks| && checks[FirstDecisive(checks)].Threw? ==>
              !t.running && !t.finished && t.shown == Percent(elapsed[FirstDecisive(checks)], false)
              && t.doneCalls == old(t.doneCalls) && t.failure == Some(checks[FirstDecisive(checks)].error)
    ensures old(t.running) && FirstDecisive(checks) == |checks| ==>
              t.running && !t.finished
              && t.shown == (if checks == [] then old(t.shown) else Percent(elapsed[|elapsed| - 1], false))
              && t.doneCalls == old(t.doneCalls) && t.failure == old(t.failure)
  {
    var d := FirstDecisive(checks);
    var i := 0;
    while i < |elapsed| && t.running
      invariant 0 <= i <= |elapsed|
      invariant t.Valid()
      invariant !old(t.running) ==> i == 0 && unchanged(t)
      invariant old(t.running) ==> i <= d + 1
      invariant old(t.running) && i <= d ==>
                  t.running && !t.finished && t.doneCalls == old(t.doneCalls) && t.failure == old(t.failure)
                  && t.shown == (if i == 0 then old(t.shown) else Percent(elapsed[i - 1], false))
      invariant old(t.running) && i == d + 1 && checks[d].Done? ==>
                  t.finished && !t.running && t.shown == 100
                  && t.doneCalls == old(t.doneCalls) + 1 && t.failure.None?
      invariant old(t.running) && i == d + 1 && checks[d].Threw? ==>
                  !t.running && !t.finished && t.shown == Percent(elapsed[d], false)
                  && t.doneCalls == old(t.doneCalls) && t.failure == Some(checks[d].error)
    {
      t.Tick(elapsed[i], checks[i]);
      i := i + 1;
    }
  }
}
