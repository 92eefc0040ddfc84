/** Optional values: a cell that pandas reads as NaN is `None`. */
module Wrappers {

  datatype Option<+T> = None | Some(value: T)
}
