/** The optional-value datatype used for the image loader's result and for
    decoding a transfer stream. */
module Wrappers {
  datatype Option<+T> = None | Some(value: T)
}
