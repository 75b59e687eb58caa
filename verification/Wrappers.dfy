/** What several components share: an optional value, and the error numbers they return. */
module Wrappers {
  datatype Option<+T> = None | Some(value: T)

  const EIO := 5
  const ENOMEM := 12
  const EINVAL := 22
}
