/** The optional value shared by every module: JavaScript's `null`, Go's second "ok" result. */
module Options {

  datatype Option<+T> = None | Some(value: T)
}
