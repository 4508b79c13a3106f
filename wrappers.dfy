/** Rust's `Option`, for the conversion that returns `Option<AttrValue>`. */
module Wrappers {

  datatype Option<+T> = None | Some(value: T)
}
