/** The meaning of the three labels, stated on adjacent digit pairs. Both
    checkers are proved against `ClassifyInput`. */
module Classification {
  import opened Types
  import opened Validation

  /** Position `j` closes a strictly rising pair `s[j-1] < s[j]`. */
  predicate Rise(s: string, j: int) {
    0 < j < |s| && s[j - 1] < s[j]
  }

  /** Position `j` closes a strictly falling pair `s[j-1] > s[j]`. */
  predicate Fall(s: string, j: int) {
    0 < j < |s| && s[j - 1] > s[j]
  }

  /** Some rising pair lies inside the first `n` characters. */
  predicate RiseWithin(s: string, n: int) {
    exists j :: 0 < j < n && Rise(s, j)
  }

  /** Some falling pair lies inside the first `n` characters. */
  predicate FallWithin(s: string, n: int) {
    exists j :: 0 < j < n && Fall(s, j)
  }

  predicate HasRise(s: string) {
    RiseWithin(s, |s|)
  }

  predicate HasFall(s: string) {
    FallWithin(s, |s|)
  }

  /** Every adjacent pair satisfies `s[i-1] <= s[i]`. */
  predicate IsNonDecreasing(s: string) {
    forall i :: 0 < i < |s| ==> s[i - 1] <= s[i]
  }

  /** Every adjacent pair satisfies `s[i-1] >= s[i]`. */
  predicate IsNonIncreasing(s: string) {
    forall i :: 0 < i < |s| ==> s[i - 1] >= s[i]
  }

  lemma NonDecreasingIffNoFall(s: string)
    ensures IsNonDecreasing(s) <==> !HasFall(s)
  {
    if !IsNonDecreasing(s) {
      var i :| 0 < i < |s| && !(s[i - 1] <= s[i]);
      assert Fall(s, i);
    }
  }

  lemma NonIncreasingIffNoRise(s: string)
    ensures IsNonIncreasing(s) <==> !HasRise(s)
  {
    if !IsNonIncreasing(s) {
      var i :| 0 < i < |s| && !(s[i - 1] >= s[i]);
      assert Rise(s, i);
    }
  }

  /** The reference classification. All-equal strings and strings of length
      at most one are NonDecreasing; NonIncreasing needs a strict fall. */
  function Classify(s: string): (l: Label)
    ensures l == NonDecreasing <==> IsNonDecreasing(s)
    ensures l == NonIncreasing <==> IsNonIncreasing(s) && HasFall(s)
    ensures l == NotMonotonic <==> HasRise(s) && HasFall(s)
  {
    NonDecreasingIffNoFall(s);
    NonIncreasingIffNoRise(s);
    if IsNonDecreasing(s) then NonDecreasing
    else if IsNonIncreasing(s) then NonIncreasing
    else NotMonotonic
  }

  /** What both checkers compute from raw input: the validation error, or
      the classification of the stripped digits. */
  function ClassifyInput(raw: string): Result<Label> {
    match Validate(raw)
    case Failure(e) => Failure(e)
    case Success(s) => Success(Classify(s))
  }

  /** Strings of length at most one, and all-equal strings, are
      NonDecreasing. */
  lemma ShortOrFlatIsNonDecreasing(s: string)
    requires |s| <= 1 || forall i :: 0 <= i < |s| ==> s[i] == s[0]
    ensures Classify(s) == NonDecreasing
  {
  }

  /** Worked examples: the documented all-equal case "1111", the usage
      example "12345", and one string of each other shape. */
  lemma ClassifyExamples()
    ensures Classify("5") == NonDecreasing
    ensures Classify("1111") == NonDecreasing
    ensures Classify("12345") == NonDecreasing
    ensures Classify("54321") == NonIncreasing
    ensures Classify("1213") == NotMonotonic
  {
    assert Fall("54321", 1);
    assert Rise("1213", 1) && Fall("1213", 2);
  }

  /** Rejected and accepted raw inputs. */
  lemma ClassifyInputExamples()
    ensures ClassifyInput("") == Failure(EmptyInput)
    ensures ClassifyInput("12a") == Failure(NonDigitInput)
    ensures ClassifyInput(" 1213\n") == Success(NotMonotonic)
  {
    RejectsLetter();
    AcceptsPaddedRun();
  }

  lemma RejectsLetter()
    ensures ClassifyInput("12a") == Failure(NonDigitInput)
  {
    var bad := "12a";
    assert StrippedAt(bad, bad, 0) by {
      assert bad[0..3] == bad && bad[..0] == [] && bad[3..] == [];
    }
    StripUnique(bad, bad, Strip(bad));
    assert !IsDigit(bad[2]);
    assert !AllWhitespace(bad) by { assert !IsWhitespace(bad[0]); }
  }

  lemma AcceptsPaddedRun()
    ensures ClassifyInput(" 1213\n") == Success(NotMonotonic)
  {
    var good, d := " 1213\n", "1213";
    assert good[1..5] == d;
    assert good[..1] == " " && good[5..] == "\n";
    assert AllDigits(d);
    assert StrippedAt(good, d, 1);
    StripUnique(good, d, Strip(good));
    assert !AllWhitespace(good) by { assert !IsWhitespace(good[1]); }
    assert Validate(good) == Success(d);
    ClassifyExamples();
  }
}
