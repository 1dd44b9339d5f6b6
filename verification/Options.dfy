/** Values that may be missing: a field a peer left out, a list that was destroyed. */
module Options {
  datatype Option<T> = None | Some(value: T)
}
