/** The optional-value datatype used for the extractor's second,
    possibly absent, index configuration. */
module Wrappers {

  datatype Option<+T> = None | Some(value: T)
}
