/**
 Values that may be missing: null pointers and failed look-ups.
 */
module Options {

  datatype Option<T> = None | Some(value: T)
}
