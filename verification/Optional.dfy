/** A value that may be missing: what a C pointer or a -1 result says. */
module Optional {

  datatype Option<T> = None | Some(value: T)
}
