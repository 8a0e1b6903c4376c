/** An optional value: C#'s `null` for a reference, or an absent `T?` value. */
module Wrappers {
  datatype Option<+T> = None | Some(value: T)
}
