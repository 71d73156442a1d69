# Monotonic digit checker: a Dafny model

This project models the core of a small Python tool. The tool decides whether the digits of a numeric string are
non-decreasing (`"naik"`), non-increasing (`"turun"`) or neither (`"tidak monotonik"`). It has two implementations,
an iterative one and a recursive one, and a harness that times them.

The model covers the following:

- **Validation** (`Validation.Validate`). It strips surrounding whitespace. It raises "empty" when nothing is left and
  "non-digit" when the remainder holds a character outside `'0'..'9'`. Otherwise it returns the stripped string.
  Stripping is specified independently by `IsStripOf`: the result sits in the input with only whitespace around it,
  and it neither starts nor ends with whitespace. That result is unique.
- **Meaning of the labels** (`Classification.Classify`). It is stated on adjacent pairs. `NonDecreasing` means every
  pair satisfies `s[i-1] <= s[i]`. `NonIncreasing` means every pair satisfies `s[i-1] >= s[i]` and at least one pair
  strictly falls. `NotMonotonic` means some pair rises and some pair falls. All-equal strings and strings of length at
  most one are `NonDecreasing`.
- **Iterative checker** (`Iterative.CheckMonotonicIterative`). It is a loop over adjacent pairs with the flags
  `hasIncrease` and `hasDecrease`, and it stops early once both are set. The loop invariants tie each flag to "a rise
  (fall) lies in the prefix read so far". The method also reports how many digits it read. On an early exit, that is
  the length of the shortest prefix that holds both a rise and a fall.
- **Recursive checker** (`Recursive.CheckMonotonicRecursive`). Its tail-recursive helper carries a trend code: 0 flat,
  1 up, -1 down, 2 mixed. The helper's contract says it returns the join of the trend so far with the reference trend
  of the unread suffix. Its precondition `trend != Mixed` is met at every recursive call, so code 2 is only ever
  returned, never passed on. The checker answers for length at most one before it looks at the length cap of 950.
  It refuses longer inputs with "too long". Before recursing it raises the interpreter's recursion limit. That limit
  is an explicit integer here: the checker takes it as an argument and returns the new value.
- **Recursion-limit rule** (`Recursive.RaiseRecursionLimit`). When `len + 200` exceeds the current limit, the limit
  becomes `min(len + 200, 3000)`. Otherwise it is left alone. With the length cap in force, the limit never goes down.
  Repeating the rule for the same or a shorter input changes nothing.
- **Timing harness** (`Timing.MeasureTime`), control behaviour only. It raises when `trials < 1`. Otherwise it calls
  the checker once per trial and returns the result of the last call. An exception raised by the checker ends the
  harness at that call.

`Classification.ClassifyInput` is the validation error, or the classification of the stripped digits. The iterative
checker is proved to compute it on every input. The recursive checker computes it on every input within the length cap
and refuses the rest. So the two agree on every input the recursive checker accepts. `Recursive.RecursiveOnDigits` is
the recursive checker after validation, stated on the validated digits alone.

Two details of the code are worth stating. The recursive checker answers "naik" for length at most one before it
looks at the length cap (`monotonic_cli.py:55-60`). A string of length one is within the cap, so the order of these
two checks cannot be observed. The limit rule sets `min(len + 200, 3000)` whenever `len + 200` exceeds the current
limit (`monotonic_cli.py:62-65`). If the limit were above 3000 and `len + 200` larger still, the rule would lower the
limit to 3000. That needs `len + 200` above 3000, and the length cap of 950 refuses every such input first. `Recursive.RaiseCanLowerWithoutLengthCap` and
`Recursive.RaiseWithinCapNeverLowers` state both sides.

## Model

| member | source | states |
|---|---|---|
| Validation.Validate | monotonic_cli.py:11-19 | A successful result is a whitespace-strip of the input, is non-empty, and is all digits. It fails with EmptyInput exactly when the input is all whitespace. It fails with NonDigitInput exactly when the stripped input holds a non-digit. There is no other outcome. |
| Validation.ValidateAcceptsPaddedDigits | monotonic_cli.py:11-19 | Validation succeeds exactly when the input is a non-empty run of digits padded by whitespace, and then it returns that run. |
| Validation.ValidatePaddedRun | monotonic_cli.py:11-19 | For any whitespace-padded digit run, validation returns exactly that run. |
| Validation.Strip | monotonic_cli.py:14 | The result satisfies the independent definition of stripping: whitespace only around it, no whitespace at either of its ends. |
| Validation.StripStart | monotonic_cli.py:14 | The result is a suffix of the input, only whitespace was removed, and it does not start with whitespace. |
| Validation.StripEnd | monotonic_cli.py:14 | The result is a prefix of the input, only whitespace was removed, and it does not end with whitespace. |
| Validation.StripUnique | monotonic_cli.py:14 | Any two strips of the same string are equal. |
| Validation.StripEmptyIffAllWhitespace | monotonic_cli.py:14-16 | Stripping leaves nothing exactly when the input is all whitespace. |
| Validation.StripIdempotent | monotonic_cli.py:14 | Stripping a stripped string changes nothing. |
| Classification.Classify | monotonic_cli.py:22-50 | NonDecreasing iff every pair is `<=`. NonIncreasing iff every pair is `>=` and some pair strictly falls. NotMonotonic iff some pair rises and some pair falls. |
| Classification.NonDecreasingIffNoFall | monotonic_cli.py:48-50 | "Every pair is `<=`" is the same as "no pair falls", which justifies answering from the flags after the scan. |
| Classification.NonIncreasingIffNoRise | monotonic_cli.py:48-49 | "Every pair is `>=`" is the same as "no pair rises". |
| Classification.ShortOrFlatIsNonDecreasing | monotonic_cli.py:29-34 | Strings of length at most one, and all-equal strings, are NonDecreasing. |
| Classification.ClassifyExamples | monotonic_cli.py:22-50 | The classifier labels the all-equal "1111" (the case its docstring documents at line 29) NonDecreasing. It also labels the usage example "12345" (line 118) and "5" NonDecreasing, "54321" NonIncreasing, and "1213" NotMonotonic; these last three are illustrative inputs, not taken from the program. |
| Classification.ClassifyInputExamples | monotonic_cli.py:11-19 | "" is rejected as empty, "12a" as non-digit, and " 1213\n" is stripped and classified NotMonotonic. |
| Iterative.CheckMonotonicIterative | monotonic_cli.py:22-50 | The result is the validation error or the reference classification of the stripped digits. It reads the whole input unless it answers NotMonotonic. On that early exit it stops at the first index where both a rise and a fall have been seen. |
| Iterative.ScanPairs | monotonic_cli.py:36-50 | On a string of two or more characters, the flag loop yields the reference classification. Its loop invariants say each flag is set exactly when a rise (fall) lies in the prefix read so far. It reads everything unless it answers NotMonotonic. On that early exit it stops at the first index where both have been seen. |
| Recursive.Join | monotonic_cli.py:75-82 | The combined trend records a rise (fall) exactly when either part does. |
| Recursive.TrendOf | monotonic_cli.py:67 | The reference trend of a string records a rise (fall) exactly when the string has one. |
| Recursive.TrendOfCons | monotonic_cli.py:72-84 | A string's trend is its first pair's trend joined with the trend of the rest. |
| Recursive.Helper | monotonic_cli.py:68-84 | From position `pos` with trend `t`, the result is `t` joined with the reference trend of `s[pos-1..]`. Mixed is never passed into a recursive call, and `len(s) - pos` decreases. |
| Recursive.LabelOf | monotonic_cli.py:86-91 | Code 2 maps to NotMonotonic, printed "tidak monotonik"; -1 to NonIncreasing, printed "turun"; 0 or 1 to NonDecreasing, printed "naik"; and each label comes from exactly those codes. |
| Recursive.HelperClassifies | monotonic_cli.py:86-91 | Running the helper from position 1 with a flat trend and mapping the code gives the reference classification. |
| Recursive.RaiseRecursionLimit | monotonic_cli.py:62-65 | A sufficient limit is left alone. When `len + 200` exceeds the limit and is at most the cap, the limit becomes exactly `len + 200`. A limit at or below the cap is never lowered. The new limit covers the requested depth unless it was clipped to the cap. The limit is never raised above the cap. |
| Recursive.RaiseWithinCapNeverLowers | monotonic_cli.py:57-65 | For inputs within the length cap, the limit never goes down and ends at least at `len + 200`. |
| Recursive.RaiseIdempotent | monotonic_cli.py:62-65 | Repeating the update for the same or a shorter input leaves the limit unchanged. |
| Recursive.RaiseCanLowerWithoutLengthCap | monotonic_cli.py:62-65 | For a length past the cap and a limit above 3000, the rule would lower the limit (3100 becomes 3000). |
| Recursive.RecursiveOnDigits | monotonic_cli.py:55-91 | Within the cap the answer is the reference classification, including "naik" for length at most one. Past the cap it fails with TooLongForRecursion and leaves the limit alone. The limit never decreases. For 2 to 950 digits the limit afterwards covers `len + 200`. It changes only when the helper runs, and then it becomes `len + 200`. |
| Recursive.CheckMonotonicRecursive | monotonic_cli.py:53-91 | Validation errors pass through with the limit untouched. A valid input gets its reference classification or TooLongForRecursion. TooLongForRecursion happens exactly when the valid input is longer than 950. The new limit is exactly `len + 200` when the valid input has 2 to 950 digits and `len + 200` exceeds the old limit. In every other case the limit is unchanged: validation errors, one digit, over the cap, or a limit that is already sufficient. So the limit never decreases. |
| Recursive.RecursiveAgreesWhenItAnswers | monotonic_cli.py:22-91 | Whenever the recursive checker answers, its answer is the iterative checker's. It does answer for every valid input within the cap. |
| Recursive.OverCapRefused | monotonic_cli.py:57-60 | A valid input of 951 digits is refused as too long, and the limit is unchanged. |
| Timing.MeasureTime | monotonic_cli.py:94-108 | With `trials < 1` it fails with InvalidTrials and calls nothing. Otherwise the checker is called in order until it raises or `trials` calls are made. The result is the last call's. Success means exactly `trials` calls. |
| Timing.MeasureChecker | monotonic_cli.py:94-108 | For a checker that answers the same on every call, the harness returns the direct answer. It makes `trials` calls on success and one call on an exception. |
| Timing.MeasureCheckerDefault | monotonic_cli.py:94-108 | With the default of five trials, the harness returns the checker's answer after five calls, or after one call when the checker raises. |

## Left out

- The `s is None` branch of the validator (`monotonic_cli.py:12-13`) is left out: every parameter is a string here. That branch raises the same "empty" error as an all-whitespace input.
- Unicode: `str.strip()` also removes non-ASCII whitespace, and `str.isdigit()` accepts non-ASCII digits. The model strips only the ASCII whitespace characters and accepts only `'0'..'9'`.
- The text of each ValueError message is not modelled. The source has five `raise` sites (lines 13, 16, 18, 58 and 96). Lines 13 and 16 raise the same message and share `EmptyInput`; line 13 is the `None` branch left out above. Each of the other three has its own `Error` kind.
- Timing values: `time.perf_counter`, the millisecond durations and their mean are clock readings and floating point. Only the call count, the trials check and the returned result are modelled.
- The real `sys.getrecursionlimit` and `sys.setrecursionlimit` calls become an integer passed in and returned. Stack exhaustion (`RecursionError`) is not modelled, so the model does not relate the limit to the actual stack depth.
- `Timing.MeasureTime`: the recursion limit is not threaded through repeated calls of the recursive checker. `Recursive.RaiseIdempotent` shows that the calls after the first one leave it unchanged.
- `main` (`monotonic_cli.py:111-145`) is argument parsing, prompting and printing. The dashboard in `monotonic_app.py` is presentation, plotting and random sample generation. Both are outside the core.
