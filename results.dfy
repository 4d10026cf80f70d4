/** Outcomes shared by the whole model: an optional value, and either a value or the
    unchecked Java exception the modelled code would throw instead of returning. */
module Results {

  /** A value that may be absent (Java's `null`). */
  datatype Option<+T> = None | Some(value: T)

  /** The runtime exceptions the modelled code can raise. None of them is caught by the
      code around it, so each one ends the operation that raised it. */
  datatype Fault =
    | NumberFormat      // java.lang.NumberFormatException from Integer.parseInt / Integer.decode
    | IndexOutOfBounds  // String.charAt / substring / array indexing past either end

  /** A returned value, or the exception raised instead. */
  datatype Result<+T> = Success(value: T) | Failure(fault: Fault)

  /** Puts `xs` in front of a successful sequence result; a failure is passed on. */
  function PrependTo<T>(xs: seq<T>, r: Result<seq<T>>): Result<seq<T>> {
    if r.Success? then Success(xs + r.value) else Failure(r.fault)
  }
}
