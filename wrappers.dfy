/** Optional values, used for the "npos" results of string searches and for
    the outcome of the parsing and resolving primitives the guard relies on. */
module Wrappers {

  datatype Option<+T> = None | Some(value: T)
}
