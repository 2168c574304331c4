/** Optional values and error results, standing for the C++ `std::optional`,
    null `shared_ptr` returns and thrown exceptions of the modelled code. */
module Wrappers {

  datatype Option<+T> = None | Some(value: T)

  datatype Result<+T, +E> = Ok(value: T) | Err(error: E)
}
