/** The conventional optional value, used for conversions that can fail
    (a field that is not an integer, a code that is not a character). */
module Options {
  datatype Option<+T> = None | Some(value: T)
}
