/** The optional value used wherever the script gets `null`, `undefined` or `NaN` back. */
module Wrappers {

  datatype Option<+T> = None | Some(value: T)
}
