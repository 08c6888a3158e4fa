/** The optional value used wherever the source returns a term or `false`/`null`. */
module Options {

  datatype Option<+T> = None | Some(value: T)

}
