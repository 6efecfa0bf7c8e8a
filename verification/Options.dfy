/** A value that may be missing: a NULL pointer, a page fault, no thread. */
module Options {
  datatype Option<+T> = None | Some(value: T)
}
