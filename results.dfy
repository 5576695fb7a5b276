/** Failure-carrying results and the error kinds the ndarray library raises.
    Each C++ exception thrown on the checked path becomes a `Failure` or `Fail`
    carrying one of the `Error` kinds below. */
module Results {

  /** The error kinds of the checked path. The transpose errors are kept apart
      because the source checks them in a fixed order, each with its own message. */
  datatype Error =
    | IndexOutOfRange          // an index is not smaller than its axis extent
    | DimensionMismatch        // more indices than axes, or `at` without a full index
    | ShapeMismatch            // operands of an elementwise operator differ in shape
    | NotZeroDimension         // scalar coercion or assignment on a view of rank > 0
    | InvalidReshape           // element count differs, or the view has a non-zero offset
    | MissingSeparator         // transpose pattern lacks "->"
    | LabelCountMismatch       // `from` and `to` differ in length
    | RankMismatch             // the number of labels differs from the rank
    | NonLatinLabel            // a label is not a Latin letter
    | UnknownLabel             // a `from` label does not occur in `to`
    | RepeatedLabel            // a `from` label occurs twice (see README, Findings)

  datatype Option<+T> = None | Some(value: T)

  datatype Result<+R> = Success(value: R) | Failure(error: Error) {
    predicate IsFailure() { Failure? }
    function PropagateFailure<U>(): Result<U>
      requires Failure?
    {
      Failure(error)
    }
    function Extract(): R
      requires Success?
    {
      value
    }
  }

  datatype Outcome = Pass | Fail(error: Error) {
    predicate IsFailure() { Fail? }
    function PropagateFailure<U>(): Result<U>
      requires Fail?
    {
      Failure(error)
    }
  }
}
