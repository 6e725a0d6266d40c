/** The optional-value datatype shared by the pattern matchers and the resolver. */
module Wrappers {
  datatype Option<+T> = None | Some(value: T)
}
