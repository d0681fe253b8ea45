/** Optional values: the `None` that the extractors return when nothing is found. */
module Wrappers {

  datatype Option<+T> = None | Some(value: T)
}
