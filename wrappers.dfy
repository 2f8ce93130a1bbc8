/** The success-or-error result used wherever the Python code can raise. */
module Wrappers {

  datatype Result<+T, +E> = Ok(value: T) | Err(error: E)
}
