/** The optional value used for every field of the extraction record that may be absent. */
module Wrappers {

  datatype Option<+T> = None | Some(value: T)
}
