/** Outcomes of the bounds-checked accessors, and the non-aliasing condition the kernels need. */
module Checked {

  /** The `std::out_of_range` conditions thrown by the views' `at` members, one per message. */
  datatype OutOfRange =
    | IndexOutOfBounds   // "Specified index out of bounds."
    | RowOutOfBounds     // "Specified row out of bounds."
    | ColumnOutOfBounds  // "Specified column out of bounds."

  /** Either the element reference an `at` call returns, or the exception it throws. */
  datatype Result<+T> = Success(value: T) | Failure(error: OutOfRange)

  /** An output buffer that is null (writes nothing) or is not the buffer an input reads. */
  predicate Apart(output: array?<int>, input: array?<int>)
  {
    output == null || output != input
  }
}
