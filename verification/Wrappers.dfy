/** An optional value, for the `null` and `undefined` results of the service. */
module Wrappers {
  datatype Option<+T> = None | Some(value: T)
}
