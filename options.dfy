/** Java's nullable references, as an explicit Option. */
module Options {

  datatype Option<+T> = None | Some(value: T)
}
