/** The optional value used where the C# code returns a nullable reference. */
module Wrappers {
  datatype Option<T> = None | Some(value: T)
}
