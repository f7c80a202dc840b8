/** The optional value used throughout the model for JavaScript's `null`,
    missing headers and "no error recorded yet". */
module Options {

  datatype Option<+T> = None | Some(value: T)
}
