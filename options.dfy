/** The "nothing here" value the script writes as `null`. */
module Options {
  datatype Option<+T> = None | Some(value: T)
}
