/** An optional value: a present entry or a hole. */
module Options {

  datatype Option<+T> = None | Some(value: T)
}
