/** The optional-value datatype shared by the other modules. */
module Wrappers {

  /** `None` stands for JavaScript's `undefined`: a missing field or a failed lookup. */
  datatype Option<+T> = None | Some(value: T)
}
