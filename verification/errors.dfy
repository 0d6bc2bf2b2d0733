/** Error signalling shared by every component of the model.
    A C++ `throw` becomes an `Err` value; the exception class is the `Error`. */
module Errors {

  /** The exception classes the modelled code throws. */
  datatype Error =
    | OutOfRange                  // std::out_of_range
    | RuntimeError                // std::runtime_error
    | BadAlloc                    // std::bad_alloc
    | SolverFailure(status: int)  // a non-zero status from the external linear solver

  datatype Result<+T> = Ok(value: T) | Err(error: Error)

  datatype Option<+T> = None | Some(value: T)
}
