/** Failure-carrying return values, standing in for Go's `(value, error)` pairs and nil pointers. */
module Wrappers {

  datatype Option<+T> = None | Some(value: T)

  /** `Ok` is Go's `(v, nil)`; `Err` is `(nil or zero, err)`. */
  datatype Result<+T, +E> = Ok(value: T) | Err(error: E)
}
