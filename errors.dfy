/** The error kinds both headers throw, and the outcome types that replace exceptions. */
module MatrixErrors {

  /** `std::logic_error("Matrix sum with different sizes")`, `std::logic_error("Matrix
      multiplication size mismatch")` and `std::out_of_range("Element index out of range")`. */
  datatype Error = SizeMismatch | MulShapeMismatch | OutOfRange

  datatype Result<T> = Ok(value: T) | Err(error: Error)

  /** What a compound assignment reports: it either completed or threw before writing. */
  datatype Outcome = Pass | Fail(error: Error)

  /** The elementwise operator of a sum (`+`, `+=`) or a difference (`-`, `-=`). */
  datatype Op = Plus | Minus

  function Apply(op: Op, x: int, y: int): int
  {
    match op
    case Plus => x + y
    case Minus => x - y
  }
}
