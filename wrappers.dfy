/** Optional values and the failure outcomes of the library's operations. */
module Wrappers {

  /** An argument the caller may omit (the optional `modulo` and `position` parameters). */
  datatype Option<+T> = None | Some(value: T)

  /** The kinds of exception the library throws. */
  datatype Error =
    | InvalidModulus   // RangeError: the modulus is below 1
    | ShapeError       // TypeError: ragged grid, row of the wrong length, or sizes that differ in `add`
    | DimensionError   // Error: inner dimensions of a product differ
    | NotSquare        // Error: determinant of a non-square matrix
    | EmptyGrid        // TypeError: the width of a grid without rows was read

  /** The result of an operation that returns a value or throws. */
  datatype Result<+T> = Ok(value: T) | Err(error: Error)

  /** The result of an operation that mutates its receiver or throws. */
  datatype Outcome = Pass | Fail(error: Error)
}
