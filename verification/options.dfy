/** The optional value used wherever the page keeps `null` or a lookup may miss. */
module Options {

  datatype Option<+T> = None | Some(value: T)

}
