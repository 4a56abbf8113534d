/** Optional values, used for the results of the line scans
    and for console input that may fail to parse. */
module Wrappers {

  datatype Option<+T> = None | Some(value: T)
}
