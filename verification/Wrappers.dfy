/** Optional values and results, the shapes of Rust's Option and Result. */
module Wrappers {

  datatype Option<+T> = None | Some(value: T) {
    /** This value when there is one, otherwise the other. */
    function Or(other: Option<T>): Option<T> { if Some? then this else other }
  }

  datatype Result<+T, +E> = Ok(value: T) | Err(error: E)
}
