/** Small datatypes shared by every module of the model. */
module Wrappers {

  datatype Option<+T> = None | Some(value: T)

  /** The Python exceptions that the modelled code can raise on its own. */
  datatype PyError =
    | IndexError      // a list index past the end
    | AttributeError  // an attribute read on None
    | AssertionError  // lib2to3's `replace` on a node without a parent
    | KeyError        // a dictionary lookup of a missing key

  /** How a piece of code that may raise ended. */
  datatype Outcome = Completed | Raised(error: PyError)
}
