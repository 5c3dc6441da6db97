/** Failure-carrying datatypes used where the modelled code either returns
    `None` or raises an exception (ZeroDivisionError, IndexError). */
module Results {

  /** A value or nothing: `None` stands for Python's `None` return, for
      a division by zero caught inside the modelled code, and, for a
      Python index or subscript read, for the IndexError it raises. */
  datatype Option<+T> = None | Some(value: T)

  /** A value or the reason the modelled code would have raised. */
  datatype Result<+T, +E> = Success(value: T) | Failure(error: E)
}
