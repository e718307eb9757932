/** The optional value of a field that the extractor may leave empty
    (Python's `None`). */
module Wrappers {

  datatype Option<+T> = None | Some(value: T)

}
