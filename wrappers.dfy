/** Result shapes shared by the registries: Rust's `Option<T>` and the unit `Result<(), ()>`. */
module Wrappers {

  /** `Option<T>`: a value that may be absent. */
  datatype Option<+T> = None | Some(value: T)

  /** `Result<(), ()>`: success or failure, carrying nothing either way. */
  datatype Outcome = Ok | Err
}
