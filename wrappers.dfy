/** Optional values, used for the booking's optional phone number and for label parsing. */
module Wrappers {
  datatype Option<+T> = None | Some(value: T)
}
