/** The nullable values of the source (`null`, `undefined`, a row that may be absent). */
module Optional {

  datatype Option<+T> = None | Some(value: T)
}
