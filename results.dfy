/** Outcomes of the matrix operations: the library's exceptions become values. */
module Results {

  /** The kinds of error the matrix library raises.
      - RangeError: "Index out of bounds" from the index checks.
      - DimensionMismatch: "Matrix dimensions do not match" from the binary operations.
      - NotSquare: the determinant or trace of a non-square matrix.
      - TypeError: a property read of `undefined`, as when a nested matrix is built
        from an empty row list and its constructor reads `data[0].length`. */
  datatype Error = RangeError | DimensionMismatch | NotSquare | TypeError

  /** A value, or the error raised instead of returning one. */
  datatype Result<T> = Ok(value: T) | Err(error: Error)

  /** The completion of an operation that returns nothing (a setter). */
  datatype Outcome = Pass | Fail(error: Error)

  /** A JavaScript value that may be `undefined`. */
  datatype Option<T> = None | Some(value: T)
}
