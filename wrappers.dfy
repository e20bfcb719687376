/** The optional-value type shared by the dictionary, parser and reconciler models. */
module Wrappers {

  datatype Option<+T> = None | Some(value: T)

}
