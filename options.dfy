/** The optional result of a query on a possibly empty structure. */
module Options {

  datatype Option<T> = None | Some(value: T)
}
