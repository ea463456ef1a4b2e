/** Python's None and raised exceptions, as values. */
module Outcomes {

  datatype Option<T> = None | Some(value: T)

  /** The exception classes the modelled code raises. */
  datatype Error =
    | FactorException   // factors.FactorException
    | ValueError        // math.isqrt on a negative argument
    | CountMismatch     // the bare Exception raised by parkersquare.getborderpairs

  datatype Result<T> = Ok(value: T) | Raise(error: Error)
}
