/** Optional values, used by the readers that recover data from rendered text. */
module Wrappers {

  datatype Option<+T> = None | Some(value: T)
}
