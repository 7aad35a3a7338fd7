module Options {
  /** A result that may be missing, for the source's NULL and -1 returns. */
  datatype Option<+T> = None | Some(value: T)
}
