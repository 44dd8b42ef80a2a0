/** Optional values, used wherever the source holds a nullable reference or a
    parse can fail. */
module Wrappers {

  datatype Option<+T> = None | Some(value: T)
}
