/** Errors the modelled Python code can raise, and a failure-compatible result type. */
module Results {

  /** The exceptions the pipeline can raise while looking values up. */
  datatype Error =
    | MissingColumn(column: string)  // KeyError from `df[column]` on a table without that column
    | NoMatchingRow(key: string)     // IndexError from `.values[0]` on an empty row selection
    | MissingKey(key: string)        // KeyError from indexing a dict with an absent key

  datatype Result<+T> = Ok(value: T) | Err(error: Error) {
    predicate IsFailure() { Err? }

    function PropagateFailure<U>(): Result<U>
      requires Err?
    {
      Err(error)
    }

    function Extract(): T
      requires Ok?
    {
      value
    }
  }
}
