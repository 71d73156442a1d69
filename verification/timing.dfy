/** The control behaviour of the timing harness: the trial-count check,
    the number of calls, and which result is returned. Durations are not
    modelled. */
module Timing {
  import opened Types

  /** Runs `func` on `s` once per trial. `func(k, s)` is the outcome of the
      k-th call (counting from 0), so a callee whose answer varies between
      calls is covered; a Failure is an exception, which ends the harness
      at that call. `calls` is how many times `func` was invoked. */
  method MeasureTime<R>(func: (nat, string) -> Result<R>, s: string, trials: int)
    returns (r: Result<R>, calls: nat)
    ensures trials < 1 ==> r == Failure(InvalidTrials) && calls == 0
    ensures trials >= 1 ==> 1 <= calls <= trials && r == func(calls - 1, s)
    ensures trials >= 1 ==> forall k :: 0 <= k < calls - 1 ==> func(k, s).Success?
    ensures calls < trials ==> r.Failure?
    ensures r.Success? ==> calls == trials
  {
    if trials < 1 {
      return Failure(InvalidTrials), 0;
    }
    calls := 0;
    r := Failure(InvalidTrials); // no result yet; overwritten by the first call
    while calls < trials
      invariant 0 <= calls <= trials
      invariant calls > 0 ==> r == func(calls - 1, s)
      invariant forall k :: 0 <= k < calls ==> func(k, s).Success?
    {
      r := func(calls, s);
      calls := calls + 1;
      if r.Failure? {
        return;
      }
    }
  }

  /** Timing a checker that answers the same on every call returns that
      answer, after `trials` calls if it succeeds and after one if it
      raises. */
  method MeasureChecker(check: string -> Result<Label>, s: string, trials: int)
    returns (r: Result<Label>, calls: nat)
    ensures trials < 1 ==> r == Failure(InvalidTrials) && calls == 0
    ensures trials >= 1 ==> r == check(s)
    ensures trials >= 1 ==> calls == (if check(s).Success? then trials else 1)
  {
    var sameEveryCall := (k: nat, x: string) => check(x);
    r, calls := MeasureTime(sameEveryCall, s, trials);
    assert trials >= 1 && calls > 1 ==> sameEveryCall(0, s).Success?;
  }

  /** The harness with its default trial count: a succeeding checker is
      called five times, a raising one once. */
  method MeasureCheckerDefault(check: string -> Result<Label>, s: string)
    returns (r: Result<Label>, calls: nat)
    ensures r == check(s)
    ensures check(s).Success? ==> calls == 5
    ensures check(s).Failure? ==> calls == 1
  {
    r, calls := MeasureChecker(check, s, DEFAULT_TRIALS);
  }
}
