/** The source's `null` / `undefined` results, as an option type. */
module Wrappers {
  datatype Option<+T> = None | Some(value: T)
}
