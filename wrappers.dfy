/** Optional values, used for data that may be absent: a log file that could not
    be decoded, a file size that was never obtained. */
module Wrappers {

  datatype Option<+T> = None | Some(value: T)
}
