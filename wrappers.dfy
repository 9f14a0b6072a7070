/** Optional values and results with an error, shared by the other modules. */
module Wrappers {

  datatype Option<T> = None | Some(value: T)

  /** Python's exceptions that the modelled code can raise. */
  datatype Error = NameError(name: string)

  datatype Result<T> = Ok(value: T) | Err(error: Error)
}
