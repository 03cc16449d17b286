/** Optional values: a missing document, an absent field, an unreadable date. */
module Options {
  datatype Option<+T> = None | Some(value: T)
}
