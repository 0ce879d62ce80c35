/** Optional values: they stand for the source's nullable references and strings. */
module Wrappers {

  datatype Option<T> = None | Some(value: T)

}
