/** Optional values and results with the pipeline's error conditions.
    A missing pandas cell (NaN) is `None`; an exception the script raises is a `Failure`. */
module Results {

  datatype Option<+T> = None | Some(value: T)

  /** The ways the preprocessing script stops with an exception. */
  datatype Error =
    | MalformedName(name: string)   // IndexError: fewer than three "-"-separated fields
    | NoFiles                       // the loop never ran, so `df` is unbound after it
    | NoSensorFiles(sensor: string) // no file of that sensor: its table has no "epoch (ms)" column
    | DuplicateTimestamps           // pd.concat(axis=1) cannot align a non-unique index
    | NothingToConcatenate          // pd.concat over an empty list of day partitions
    | MissingToInt                  // astype(int) of a column with a missing value

  datatype Result<+T> = Success(value: T) | Failure(error: Error) {
    predicate IsFailure() {
      Failure?
    }

    function PropagateFailure<U>(): Result<U>
      requires Failure?
    {
      Failure(error)
    }

    function Extract(): T
      requires Success?
    {
      value
    }
  }
}
