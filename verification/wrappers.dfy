/** Optional values: `None` stands for the null pointers of the C API. */
module Wrappers {

  datatype Option<+T> = None | Some(value: T)
}
