/** Failure-carrying results for the sparse-matrix model.

    The source signals failure by raising exceptions; here every operation
    that can fail returns a `Result` whose error says which kind it was. */
module Results {

  /** The three failure kinds the matrix code can raise.
      - IndexError: `set_element` called outside the declared dimensions.
      - DimensionError: operand shapes do not fit the operator.
      - FormatError: the text handed to the loader is malformed. */
  datatype Error = IndexError | DimensionError | FormatError

  datatype Result<T> = Ok(value: T) | Err(error: Error)

  datatype Option<T> = None | Some(value: T)
}
