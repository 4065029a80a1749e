/** The optional value used for "no predecessor" and for absent results. */
module Options {

  datatype Option<T> = None | Some(value: T)
}
