/** Optional values: `None` stands for the null `unique_ptr` of a registry entry. */
module Wrappers {

  datatype Option<+T> = None | Some(value: T)
}
