/** The optional-value datatype used throughout the model: a nullable column,
    a PHP value that may be null, a lookup that may miss. */
module Wrappers {

  datatype Option<+T> = None | Some(value: T)
}
