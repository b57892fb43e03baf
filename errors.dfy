/** Outcomes of the operations that can raise in the original program. */
module Errors {
  /** The two Python exceptions the modelled code raises. */
  datatype Error =
    | ZeroDivisionError   // inverting or dividing by a zero field element
    | IndexError          // indexing an empty list: eval of no coefficients, fit of no points

  datatype Result<T> = Ok(value: T) | Err(error: Error)

  /** An optional argument: None stands for Python's None. */
  datatype Option<T> = None | Some(value: T)
}
