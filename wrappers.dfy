/** Optional values: a query that finds no row, a missing request header, a NULL column. */
module Wrappers {

  datatype Option<+T> = None | Some(value: T)
}
