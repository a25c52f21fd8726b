/** Option and Result, the model's stand-ins for Python's `None` and for
    the HTTP exceptions the router raises, and the truthiness of an
    optional string. */
module Wrappers {

  datatype Option<+T> = None | Some(value: T)

  datatype Result<+R, +E> = Success(value: R) | Failure(error: E)

  /** Python truthiness of an optional string: present and non-empty. */
  predicate Truthy(o: Option<string>) {
    o.Some? && o.value != ""
  }
}
