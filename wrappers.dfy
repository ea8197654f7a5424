/** An optional value, for lookups whose miss is an ordinary outcome. */
module Wrappers {
  datatype Option<+T> = None | Some(value: T)
}
