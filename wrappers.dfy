/** Option and Result, the two failure types the poller uses (Rust's `Option` and `Result`). */
module Wrappers {

  datatype Option<+T> = None | Some(value: T)

  datatype Result<+T, +E> = Ok(value: T) | Err(error: E) {

    /** Rust's `Result::ok`: keep the success value, drop the error. */
    function ToOption(): (r: Option<T>)
      ensures r.Some? <==> Ok?
      ensures Ok? ==> r == Some(value)
    {
      match this
      case Ok(v) => Some(v)
      case Err(_) => None
    }
  }
}
