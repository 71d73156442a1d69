/** Shared vocabulary of the monotonic-digit checker: the classification
    labels, the error kinds the checker raises, a result wrapper, and the
    configuration constants. */
module Types {

  /** Longest input the recursive checker accepts. */
  const MAX_RECURSIVE_LEN: nat := 950

  /** Stack frames reserved on top of the input length when the recursive
      checker prepares the interpreter's recursion limit. */
  const RECURSION_LIMIT_BUFFER: nat := 200

  /** The recursion limit is never raised above this value. */
  const RECURSION_LIMIT_CAP: nat := 3000

  /** Default number of timing trials. */
  const DEFAULT_TRIALS: nat := 5

  /** The three answers of the checker. An all-equal digit string, and any
      string of length at most one, is NonDecreasing by convention. */
  datatype Label = NonDecreasing | NonIncreasing | NotMonotonic {

    /** The label as the program prints it. */
    function Text(): string {
      match this
      case NonDecreasing => "naik"
      case NonIncreasing => "turun"
      case NotMonotonic => "tidak monotonik"
    }
  }

  /** The distinct ValueError conditions of the program. */
  datatype Error =
    | EmptyInput          // nothing but whitespace
    | NonDigitInput       // the stripped input holds a character outside '0'..'9'
    | TooLongForRecursion // the recursive checker's length cap was exceeded
    | InvalidTrials       // the timing harness was asked for fewer than one trial

  /** A value or the error that was raised instead. */
  datatype Result<+T> = Success(value: T) | Failure(error: Error)
}
