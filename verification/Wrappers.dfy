/** Option, for the source's `Option<T>` values and lookups that may miss, and the smaller of two counts. */
module Wrappers {
  datatype Option<+T> = None | Some(value: T)

  function Min(a: nat, b: nat): nat {
    if a < b then a else b
  }
}
