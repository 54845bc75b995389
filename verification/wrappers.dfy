/** Optional values: SQL NULL columns, dictionary lookups that may miss. */
module Wrappers {

  datatype Option<+T> = None | Some(value: T)
}
