/** Small value types shared by the contact-graph, colouring and menu modules. */
module Base {

  /** A person's unique identifier. */
  type Id = string

  /** Python's `Optional`: `None` or a present value. */
  datatype Option<T> = None | Some(value: T)

  /** The exceptions the graph code raises. */
  datatype Error = ValueError | KeyError

  /** The value of a call that either returns or raises. */
  datatype Result<T> = Ok(value: T) | Err(error: Error)

  /** The outcome of a call that returns nothing or raises. */
  datatype Outcome = Pass | Fail(error: Error)
}
