/** Optional values, shared by the allocator and the hash map. */
module Wrappers {

  datatype Option<T> = None | Some(value: T)
}
