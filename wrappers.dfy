/** Optional values: a missing cookie, a SQL NULL column, an action that issues no update. */
module Wrappers {

  datatype Option<+T> = None | Some(value: T)

}
