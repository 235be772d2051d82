/** The exceptions the modelled Python code can raise, and the two shapes of
    result that carry them: a value-returning call and a call that returns
    nothing (`None`). */
module PyErrors {

  /** IndexError: list or array index out of range, or `pop` on an empty list.
      KeyError: `pop` on an empty set.
      ValueError: numpy refusing a negative array dimension. */
  datatype PyError = IndexError | KeyError | ValueError

  /** A call that either returns a value or raises. */
  datatype Result<+T> = Ok(value: T) | Err(error: PyError)

  /** A call whose body has no `return` value: it either falls off its end,
      returning `None`, or raises. */
  datatype Outcome = ReturnedNone | Raised(error: PyError)

  /** The conventional optional value. */
  datatype Option<+T> = None | Some(value: T)
}
