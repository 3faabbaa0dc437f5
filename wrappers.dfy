/** A value or nothing: the model's NULL. */
module Wrappers {

  datatype Option<T> = None | Some(value: T)
}
