/** The optional-value datatype used where the engine answers "nothing". */
module Wrappers {

  datatype Option<+T> = None | Some(value: T)

}
