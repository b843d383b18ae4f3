/** Optional values: a nil pointer, a nil slice, or a missing map entry of the source. */
module Options {
  datatype Option<+T> = None | Some(value: T)
}
