/** Optional values: the model's stand-in for a C++ null pointer or a "not found" index. */
module Options {

  datatype Option<+T> = None | Some(value: T)
}
