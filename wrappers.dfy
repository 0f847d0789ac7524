/** Optional values: an absent request field, or an id that did not parse. */
module Wrappers {

  datatype Option<+T> = None | Some(value: T)
}
