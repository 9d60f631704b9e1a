/**
 * Shared vocabulary: optional values (a missing value or NaN cell in a pandas
 * table), results, and the failures that the recommender and the radius search
 * raise instead of returning a value.
 */
module Base {

  /** A table cell that may be missing (`None` stands for NaN / null). */
  datatype Option<+T> = None | Some(value: T)

  /** What a lookup or a numpy/pandas operation raises. */
  datatype Error =
    | ShapeMismatch               // numpy refuses to add matrices of different shapes
    | KeyNotFound(key: string)    // pandas KeyError: a label that is not in an index
    | DuplicateKey(key: string)   // a label that occurs more than once in an index
    | PositionOutOfRange(position: nat) // numpy/pandas IndexError on a position

  /** Either the value an operation returns, or the error it raises. */
  datatype Result<+T> = Ok(value: T) | Err(error: Error)
}
