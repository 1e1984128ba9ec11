/** Optional values, used for every partial result. */
module Options {
  datatype Option<+T> = None | Some(value: T)
}
