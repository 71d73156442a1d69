/** Input normalisation: strip surrounding whitespace, then accept the
    remainder only if it is a non-empty string of decimal digits. */
module Validation {
  import opened Types

  /** The characters below 0x80 that count as whitespace when stripping:
      tab, line feed, vertical tab, form feed, carriage return, the four
      information separators 0x1C..0x1F, and space. */
  predicate IsWhitespace(c: char) {
    c == ' ' || ('\t' <= c <= '\r') || ('\U{1C}' <= c <= '\U{1F}')
  }

  predicate IsDigit(c: char) {
    '0' <= c <= '9'
  }

  predicate AllWhitespace(s: string) {
    forall i :: 0 <= i < |s| ==> IsWhitespace(s[i])
  }

  predicate AllDigits(s: string) {
    forall i :: 0 <= i < |s| ==> IsDigit(s[i])
  }

  /** `r` sits in `s` at offset `i`, only whitespace surrounds it, and it
      neither starts nor ends with whitespace. */
  predicate StrippedAt(s: string, r: string, i: int) {
    && 0 <= i && i + |r| <= |s|
    && s[i..i + |r|] == r
    && AllWhitespace(s[..i])
    && AllWhitespace(s[i + |r|..])
    && (r == [] || (!IsWhitespace(r[0]) && !IsWhitespace(r[|r| - 1])))
  }

  /** Reference definition of stripping: `r` is `s` with its surrounding
      whitespace removed. */
  ghost predicate IsStripOf(s: string, r: string) {
    exists i :: StrippedAt(s, r, i)
  }

  /** Removes leading whitespace. */
  function StripStart(s: string): (r: string)
    ensures |r| <= |s|
    ensures r == s[|s| - |r|..]
    ensures AllWhitespace(s[..|s| - |r|])
    ensures r == [] || !IsWhitespace(r[0])
  {
    if |s| > 0 && IsWhitespace(s[0]) then
      var r := StripStart(s[1..]);
      assert s[..|s| - |r|] == [s[0]] + s[1..][..|s[1..]| - |r|];
      r
    else
      s
  }

  /** Removes trailing whitespace. */
  function StripEnd(s: string): (r: string)
    ensures |r| <= |s|
    ensures r == s[..|r|]
    ensures AllWhitespace(s[|r|..])
    ensures r == [] || !IsWhitespace(r[|r| - 1])
  {
    if |s| > 0 && IsWhitespace(s[|s| - 1]) then
      var r := StripEnd(s[..|s| - 1]);
      assert s[|r|..] == s[..|s| - 1][|r|..] + [s[|s| - 1]];
      r
    else
      s
  }

  /** Both ends stripped, as Python's `str.strip()` with no argument. */
  function Strip(s: string): (r: string)
    ensures IsStripOf(s, r)
  {
    var t := StripStart(s);
    var r := StripEnd(t);
    StrippedCore(s, t, r);
    r
  }

  /** If `t` is `s` without leading whitespace and `r` is `t` without
      trailing whitespace, then `r` is the stripped core of `s`. */
  lemma StrippedCore(s: string, t: string, r: string)
    requires |t| <= |s| && t == s[|s| - |t|..] && AllWhitespace(s[..|s| - |t|])
    requires t == [] || !IsWhitespace(t[0])
    requires |r| <= |t| && r == t[..|r|] && AllWhitespace(t[|r|..])
    requires r == [] || !IsWhitespace(r[|r| - 1])
    ensures StrippedAt(s, r, |s| - |t|)
  {
    var i := |s| - |t|;
    assert s[i..i + |r|] == r;
    assert s[i + |r|..] == t[|r|..];
    if r != [] {
      assert r[0] == t[0];
    }
  }

  /** There is only one way to strip a string. */
  lemma {:induction false} StripUnique(s: string, r1: string, r2: string)
    requires IsStripOf(s, r1) && IsStripOf(s, r2)
    ensures r1 == r2
  {
    var i1 :| StrippedAt(s, r1, i1);
    var i2 :| StrippedAt(s, r2, i2);
    if r1 == [] && r2 != [] {
      // s would be all whitespace, yet r2 starts with a non-whitespace character.
      AllWhitespaceAround(s, i1);
      assert false;
    } else if r1 != [] && r2 == [] {
      AllWhitespaceAround(s, i2);
      assert false;
    } else if r1 != [] {
      // Both start at the first non-whitespace character of s: a start
      // further right would leave r1[0] or r2[0] in whitespace.
      if i1 < i2 {
        assert false;
      } else if i2 < i1 {
        assert false;
      }
      // Both end at its last one, by the same argument on the right.
      var e1, e2 := i1 + |r1|, i1 + |r2|;
      if e1 < e2 {
        assert false;
      } else if e2 < e1 {
        assert false;
      }
    }
  }

  /** An empty strip at offset `i` means the whole string is whitespace. */
  lemma AllWhitespaceAround(s: string, i: int)
    requires StrippedAt(s, [], i)
    ensures AllWhitespace(s)
  {
    forall k | 0 <= k < |s|
      ensures IsWhitespace(s[k])
    {
      if k < i {
        assert s[..i][k] == s[k];
      } else {
        assert s[i..][k - i] == s[k];
      }
    }
  }

  /** Stripping yields nothing exactly for all-whitespace strings. */
  lemma StripEmptyIffAllWhitespace(s: string)
    ensures Strip(s) == [] <==> AllWhitespace(s)
  {
    if Strip(s) == [] {
      var i :| StrippedAt(s, [], i);
      AllWhitespaceAround(s, i);
    } else {
      var r := Strip(s);
      var i :| StrippedAt(s, r, i);
      assert s[i] == r[0];
    }
  }

  /** Stripping twice changes nothing. */
  lemma StripIdempotent(s: string)
    ensures Strip(Strip(s)) == Strip(s)
  {
    var r := Strip(s);
    assert StrippedAt(r, r, 0) by {
      assert r[0..|r|] == r;
      assert r[..0] == [] && r[|r|..] == [];
    }
    StripUnique(r, r, Strip(r));
  }

  /** Validation: the stripped input when it is a non-empty digit string,
      otherwise the error that rejected it. */
  function Validate(raw: string): (r: Result<string>)
    ensures r.Success? ==> IsStripOf(raw, r.value) && |r.value| >= 1 && AllDigits(r.value)
    ensures r == Failure(EmptyInput) <==> AllWhitespace(raw)
    ensures r == Failure(NonDigitInput) <==> !AllWhitespace(raw) && !AllDigits(Strip(raw))
    ensures r.Failure? ==> r.error == EmptyInput || r.error == NonDigitInput
  {
    StripEmptyIffAllWhitespace(raw);
    var s := Strip(raw);
    if s == [] then Failure(EmptyInput)
    else if !AllDigits(s) then Failure(NonDigitInput)
    else Success(s)
  }

  /** `raw` is a non-empty run of digits `raw[i..j]` padded by whitespace. */
  predicate PaddedDigits(raw: string, i: int, j: int) {
    && 0 <= i < j <= |raw|
    && AllWhitespace(raw[..i])
    && AllDigits(raw[i..j])
    && AllWhitespace(raw[j..])
  }

  /** Validation accepts exactly the whitespace-padded digit runs, and
      returns the run itself. */
  lemma ValidateAcceptsPaddedDigits(raw: string)
    ensures Validate(raw).Success? <==> exists i, j :: PaddedDigits(raw, i, j)
    ensures forall i, j :: PaddedDigits(raw, i, j) ==> Validate(raw) == Success(raw[i..j])
  {
    forall i, j | PaddedDigits(raw, i, j)
      ensures Validate(raw) == Success(raw[i..j])
    {
      ValidatePaddedRun(raw, i, j);
    }
    var r := Validate(raw);
    if r.Success? {
      var i :| StrippedAt(raw, r.value, i);
      StrippedDigitsArePadded(raw, r.value, i);
    }
  }

  /** A stripped all-digit core is a padded digit run. */
  lemma StrippedDigitsArePadded(raw: string, v: string, i: int)
    requires StrippedAt(raw, v, i) && |v| >= 1 && AllDigits(v)
    ensures PaddedDigits(raw, i, i + |v|)
  {
  }

  /** A single padded digit run is what validation returns. */
  lemma ValidatePaddedRun(raw: string, i: int, j: int)
    requires PaddedDigits(raw, i, j)
    ensures Validate(raw) == Success(raw[i..j])
  {
    var d := raw[i..j];
    assert StrippedAt(raw, d, i) by {
      assert IsDigit(d[0]) && IsDigit(d[|d| - 1]);
    }
    StripUnique(raw, d, Strip(raw));
    assert !AllWhitespace(raw) by {
      assert raw[i] == d[0];
    }
  }
}
