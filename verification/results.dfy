/** Failure-compatible wrappers shared by every module, and the ways the
    distance-ladder core can stop with an error instead of a result. */
module Results {

  datatype Option<+T> = None | Some(value: T)

  /** Why an operation of the core produced no result. */
  datatype Fault =
    | MalformedFit      // the external fit returned vectors whose shapes do not fit together
    | EmptyBlock        // np.max over an empty block of residuals
    | WorstNotFound     // list(errors).index(worst) found no such entry
    | NoProgress        // the worst residual lies in no row the clipping can move
    | UnknownFilter     // a legacy correction was asked for a filter it has no table for

  datatype Result<+T> = Ok(value: T) | Err(fault: Fault) {

    predicate IsFailure() {
      Err?
    }

    function PropagateFailure<U>(): Result<U>
      requires Err?
    {
      Err(fault)
    }

    function Extract(): T
      requires Ok?
    {
      value
    }
  }
}
