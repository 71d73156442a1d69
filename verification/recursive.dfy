/** The recursive checker: a tail-recursive helper that carries a trend
    code from pair to pair, a length cap, and the rule by which the
    interpreter's recursion limit is raised before recursing. */
module Recursive {
  import opened Types
  import opened Validation
  import opened Classification

  /** The helper's trend state. The program encodes it as an integer; see
      `Code`. Mixed is absorbing. */
  datatype Trend = Flat | Up | Down | Mixed {

    /** 0 = flat or unknown, 1 = non-decreasing, -1 = non-increasing,
        2 = not monotonic. */
    function Code(): int {
      match this
      case Flat => 0
      case Up => 1
      case Down => -1
      case Mixed => 2
    }

    /** The trend records a strict rise. */
    predicate SawRise() {
      this == Up || this == Mixed
    }

    /** The trend records a strict fall. */
    predicate SawFall() {
      this == Down || this == Mixed
    }
  }

  /** Least upper bound of two pieces of evidence: Flat adds nothing, Up
      and Down together make Mixed. */
  function Join(a: Trend, b: Trend): (t: Trend)
    ensures t.SawRise() <==> a.SawRise() || b.SawRise()
    ensures t.SawFall() <==> a.SawFall() || b.SawFall()
  {
    if a == Flat then b
    else if b == Flat || a == b then a
    else Mixed
  }

  lemma JoinAssociative(a: Trend, b: Trend, c: Trend)
    ensures Join(a, Join(b, c)) == Join(Join(a, b), c)
  {
  }

  /** Reference trend of a whole string, from its rises and falls. */
  function TrendOf(s: string): (t: Trend)
    ensures t.SawRise() <==> HasRise(s)
    ensures t.SawFall() <==> HasFall(s)
  {
    if HasRise(s) && HasFall(s) then Mixed
    else if HasRise(s) then Up
    else if HasFall(s) then Down
    else Flat
  }

  /** The trend a single adjacent pair contributes. */
  function PairTrend(prev: char, curr: char): Trend {
    if curr > prev then Up
    else if curr < prev then Down
    else Flat
  }

  /** Peeling the first character off: the trend of `t` is the first
      pair's trend joined with the trend of the rest. */
  lemma {:induction false} TrendOfCons(t: string)
    requires |t| >= 2
    ensures TrendOf(t) == Join(PairTrend(t[0], t[1]), TrendOf(t[1..]))
  {
    var u := t[1..];
    assert HasRise(t) <==> Rise(t, 1) || HasRise(u) by {
      if HasRise(t) {
        var j :| 0 < j < |t| && Rise(t, j);
        if j > 1 { assert Rise(u, j - 1); }
      }
      if HasRise(u) {
        var j :| 0 < j < |u| && Rise(u, j);
        assert Rise(t, j + 1);
      }
    }
    assert HasFall(t) <==> Fall(t, 1) || HasFall(u) by {
      if HasFall(t) {
        var j :| 0 < j < |t| && Fall(t, j);
        if j > 1 { assert Fall(u, j - 1); }
      }
      if HasFall(u) {
        var j :| 0 < j < |u| && Fall(u, j);
        assert Fall(t, j + 1);
      }
    }
  }

  /** The program's nested helper: compares `s[pos]` with `s[pos-1]`,
      returns Mixed at once when the new pair contradicts the trend so far,
      and otherwise moves on to `pos + 1`. The precondition `trend != Mixed`
      is discharged at every recursive call: Mixed is only ever returned,
      never passed on. */
  function Helper(s: string, pos: nat, trend: Trend): (r: Trend)
    requires 1 <= pos <= |s|
    requires trend != Mixed
    ensures r == Join(trend, TrendOf(s[pos - 1..]))
    decreases |s| - pos
  {
    var rest := s[pos - 1..];
    if pos >= |s| then
      assert !HasRise(rest) && !HasFall(rest);
      trend
    else
      assert rest[1..] == s[pos..];
      TrendOfCons(rest);
      JoinAssociative(trend, PairTrend(s[pos - 1], s[pos]), TrendOf(s[pos..]));
      if s[pos] > s[pos - 1] then
        if trend == Down then Mixed else Helper(s, pos + 1, Up)
      else if s[pos] < s[pos - 1] then
        if trend == Up then Mixed else Helper(s, pos + 1, Down)
      else
        Helper(s, pos + 1, trend)
  }

  /** The final mapping from trend code to label. */
  function LabelOf(t: Trend): (l: Label)
    ensures l == NotMonotonic <==> t.Code() == 2
    ensures l == NonIncreasing <==> t.Code() == -1
    ensures l == NonDecreasing <==> t.Code() == 0 || t.Code() == 1
    ensures t.Code() == 2 ==> l.Text() == "tidak monotonik"
    ensures t.Code() == -1 ==> l.Text() == "turun"
    ensures t.Code() == 0 || t.Code() == 1 ==> l.Text() == "naik"
  {
    match t
    case Mixed => NotMonotonic
    case Down => NonIncreasing
    case _ => NonDecreasing
  }

  /** Starting the helper at position 1 with a flat trend yields the
      reference classification. */
  lemma HelperClassifies(s: string)
    requires |s| >= 1
    ensures LabelOf(Helper(s, 1, Flat)) == Classify(s)
  {
    assert s[0..] == s;
  }

  /** The recursion-limit preparation: raise the limit to the depth the
      input needs, but never above the cap; leave a sufficient limit alone. */
  function RaiseRecursionLimit(current: int, len: nat): (limit: int)
    ensures len + RECURSION_LIMIT_BUFFER <= current ==> limit == current
    ensures limit >= current || current > RECURSION_LIMIT_CAP
    ensures limit >= len + RECURSION_LIMIT_BUFFER || limit == RECURSION_LIMIT_CAP
    ensures limit <= current || limit <= RECURSION_LIMIT_CAP
    ensures current < len + RECURSION_LIMIT_BUFFER <= RECURSION_LIMIT_CAP ==>
      limit == len + RECURSION_LIMIT_BUFFER
  {
    var desired := len + RECURSION_LIMIT_BUFFER;
    if desired > current then
      if desired < RECURSION_LIMIT_CAP then desired else RECURSION_LIMIT_CAP
    else
      current
  }

  /** Within the length cap the requested depth stays below the cap, so the
      limit never goes down and ends up at least the requested depth. */
  lemma RaiseWithinCapNeverLowers(current: int, len: nat)
    requires len <= MAX_RECURSIVE_LEN
    ensures RaiseRecursionLimit(current, len) >= current
    ensures RaiseRecursionLimit(current, len) >= len + RECURSION_LIMIT_BUFFER
  {
  }

  /** Repeating the preparation, for the same or a shorter input, changes
      nothing. */
  lemma RaiseIdempotent(current: int, len: nat, shorter: nat)
    requires shorter <= len
    ensures RaiseRecursionLimit(RaiseRecursionLimit(current, len), shorter)
         == RaiseRecursionLimit(current, len)
  {
  }

  /** Without the length cap the rule could lower a limit that is already
      above the cap: the cap on length is what keeps the limit monotonic. */
  lemma RaiseCanLowerWithoutLengthCap()
    ensures RaiseRecursionLimit(3100, 3000) == 3000 < 3100
  {
  }

  /** The outcome of one call of the recursive checker: its answer and the
      recursion limit the interpreter is left with. */
  datatype RecursiveRun = RecursiveRun(result: Result<Label>, limit: int)

  /** The checker after validation: answers NonDecreasing for length at
      most one before the cap is consulted, refuses inputs over the cap,
      raises the recursion limit, and runs the helper from position 1. */
  function RecursiveOnDigits(s: string, limit: int): (run: RecursiveRun)
    ensures run.limit >= limit
    ensures |s| <= MAX_RECURSIVE_LEN ==> run.result == Success(Classify(s))
    ensures |s| > MAX_RECURSIVE_LEN ==> run == RecursiveRun(Failure(TooLongForRecursion), limit)
    ensures run.limit != limit ==>
      2 <= |s| <= MAX_RECURSIVE_LEN && run.limit == |s| + RECURSION_LIMIT_BUFFER
    ensures 2 <= |s| <= MAX_RECURSIVE_LEN ==> run.limit >= |s| + RECURSION_LIMIT_BUFFER
  {
    if |s| <= 1 then
      ShortOrFlatIsNonDecreasing(s);
      RecursiveRun(Success(NonDecreasing), limit)
    else if |s| > MAX_RECURSIVE_LEN then
      RecursiveRun(Failure(TooLongForRecursion), limit)
    else
      HelperClassifies(s);
      RaiseWithinCapNeverLowers(limit, |s|);
      RecursiveRun(Success(LabelOf(Helper(s, 1, Flat))), RaiseRecursionLimit(limit, |s|))
  }

  /** The recursive checker on raw input: validation errors pass through
      with the limit untouched; otherwise the classification or, past the
      cap, TooLongForRecursion. The limit is raised to `len + 200` exactly
      when the helper runs and needs more than the current limit. */
  function CheckMonotonicRecursive(raw: string, limit: int): (run: RecursiveRun)
    ensures Validate(raw).Failure? ==> run == RecursiveRun(Failure(Validate(raw).error), limit)
    ensures Validate(raw).Success? ==>
      run.result == Success(Classify(Validate(raw).value))
      || run.result == Failure(TooLongForRecursion)
    ensures run.result == Failure(TooLongForRecursion) <==>
      Validate(raw).Success? && |Validate(raw).value| > MAX_RECURSIVE_LEN
    ensures run.limit ==
      if Validate(raw).Success? && 2 <= |Validate(raw).value| <= MAX_RECURSIVE_LEN
         && limit < |Validate(raw).value| + RECURSION_LIMIT_BUFFER
      then |Validate(raw).value| + RECURSION_LIMIT_BUFFER
      else limit
  {
    match Validate(raw)
    case Failure(e) => RecursiveRun(Failure(e), limit)
    case Success(s) => RecursiveOnDigits(s, limit)
  }

  /** Whenever the recursive checker answers, it agrees with the iterative
      one (both compute `ClassifyInput`), and it answers for every valid
      input within the cap. */
  lemma RecursiveAgreesWhenItAnswers(raw: string, limit: int)
    ensures CheckMonotonicRecursive(raw, limit).result.Success? ==>
      CheckMonotonicRecursive(raw, limit).result == ClassifyInput(raw)
    ensures ClassifyInput(raw).Success? && |Validate(raw).value| <= MAX_RECURSIVE_LEN ==>
      CheckMonotonicRecursive(raw, limit).result.Success?
  {
  }

  /** An input one digit over the cap is refused. */
  lemma OverCapRefused(raw: string, limit: int)
    requires Validate(raw).Success? && |Validate(raw).value| == MAX_RECURSIVE_LEN + 1
    ensures CheckMonotonicRecursive(raw, limit) == RecursiveRun(Failure(TooLongForRecursion), limit)
  {
  }
}
