/** The optional value shared by the modules whose source returns `null` or may crash. */
module Options {

  datatype Option<T> = None | Some(get: T)
}
