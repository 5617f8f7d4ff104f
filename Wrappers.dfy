/** Optional values: a captured fingerprint that may be absent, and a remote
    read that may have failed. */
module Wrappers {

  datatype Option<+T> = None | Some(value: T)
}
