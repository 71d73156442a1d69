/** The iterative checker: one left-to-right pass over the adjacent pairs,
    with two flags and an early exit. */
module Iterative {
  import opened Types
  import opened Validation
  import opened Classification

  /** Extending the window by one position adds exactly the pair it closes. */
  lemma WithinStep(s: string, i: int)
    requires 0 < i < |s|
    ensures RiseWithin(s, i + 1) <==> RiseWithin(s, i) || Rise(s, i)
    ensures FallWithin(s, i + 1) <==> FallWithin(s, i) || Fall(s, i)
  {
    if RiseWithin(s, i + 1) {
      var j :| 0 < j < i + 1 && Rise(s, j);
      if j < i { assert RiseWithin(s, i); }
    }
    if FallWithin(s, i + 1) {
      var j :| 0 < j < i + 1 && Fall(s, j);
      if j < i { assert FallWithin(s, i); }
    }
  }

  /** Validates `raw`, then classifies it. `examined` is how many digits
      the scan read before answering: on an early NotMonotonic answer it is
      the length of the shortest prefix that already holds both a rise and a
      fall; otherwise the whole input was read. */
  method CheckMonotonicIterative(raw: string) returns (r: Result<Label>, examined: nat)
    ensures r == ClassifyInput(raw)
    ensures r.Failure? ==> examined == 0
    ensures r.Success? && r.value != NotMonotonic ==>
      Validate(raw).Success? && examined == |Validate(raw).value|
    ensures r == Success(NotMonotonic) ==>
      Validate(raw).Success? && ShortestMixedPrefix(Validate(raw).value, examined)
  {
    var v := Validate(raw);
    if v.Failure? {
      return Failure(v.error), 0;
    }
    var s := v.value;
    if |s| <= 1 {
      ShortOrFlatIsNonDecreasing(s);
      return Success(NonDecreasing), |s|;
    }
    var answer;
    answer, examined := ScanPairs(s);
    r := Success(answer);
  }

  /** `s[..n]` holds both a rise and a fall, and `s[..n-1]` does not. */
  predicate ShortestMixedPrefix(s: string, n: int) {
    && 2 < n <= |s|
    && RiseWithin(s, n) && FallWithin(s, n)
    && !(RiseWithin(s, n - 1) && FallWithin(s, n - 1))
  }

  /** The scan over adjacent pairs of a string of at least two digits, with
      the flags `hasIncrease` and `hasDecrease` and the early exit. */
  method ScanPairs(s: string) returns (answer: Label, examined: nat)
    requires |s| >= 2
    ensures answer == Classify(s)
    ensures answer != NotMonotonic ==> examined == |s|
    ensures answer == NotMonotonic ==> ShortestMixedPrefix(s, examined)
  {
    var hasIncrease, hasDecrease := false, false;
    var i := 1;
    while i < |s|
      invariant 1 <= i <= |s|
      invariant hasIncrease == RiseWithin(s, i)
      invariant hasDecrease == FallWithin(s, i)
      invariant !(hasIncrease && hasDecrease)
    {
      WithinStep(s, i);
      if s[i] > s[i - 1] {
        hasIncrease := true;
      } else if s[i] < s[i - 1] {
        hasDecrease := true;
      }
      if hasIncrease && hasDecrease {
        WithinWhole(s, i + 1);
        return NotMonotonic, i + 1;
      }
      i := i + 1;
    }

    if hasDecrease {
      return NonIncreasing, |s|;
    }
    return NonDecreasing, |s|;
  }

  /** A rise or fall inside a prefix is a rise or fall of the whole string. */
  lemma WithinWhole(s: string, n: int)
    requires n <= |s|
    ensures RiseWithin(s, n) ==> HasRise(s)
    ensures FallWithin(s, n) ==> HasFall(s)
  {
  }
}
