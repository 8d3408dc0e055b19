/** Optional values: a field that a request may leave out, a date that is still null. */
module Wrappers {

  datatype Option<+T> = None | Some(value: T)

}
