/** A value that JavaScript may leave `undefined` or `null`. */
module Optional {

  datatype Option<T> = None | Some(value: T)
}
