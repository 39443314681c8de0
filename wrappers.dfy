/** Optional values: `None` stands for a NULL pointer of the C API. */
module Wrappers {

  datatype Option<+T> = None | Some(value: T)
}
