/** Optional values, used for the start position that a level may lack. */
module Wrappers {

  datatype Option<+T> = None | Some(value: T)
}
