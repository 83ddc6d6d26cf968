/** Optional values: a missing environment variable, an empty capture slot,
    an absent viewport size. */
module Wrappers {

  datatype Option<+T> = None | Some(value: T)

}
