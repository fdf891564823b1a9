/** The conventional optional value, used where Go returns "not found" or
    drops an input. */
module Options {
  datatype Option<+T> = None | Some(value: T)
}
