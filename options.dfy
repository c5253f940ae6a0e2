/** The optional value used throughout the model: a dictionary key that may be
    absent, a file that may not have been read, a popup that may not be shown. */
module Options {

  datatype Option<+T> = None | Some(value: T)
}
