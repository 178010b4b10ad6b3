/** An optional value, as `Option` in the modelled program. */
module Options {
  datatype Option<+T> = None | Some(value: T)
}
