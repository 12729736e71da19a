/** A small optional-value datatype used throughout the model for
    "undefined or a value" and for external calls that may fail. */
module Optional {
  datatype Option<+T> = None | Some(value: T)
}
