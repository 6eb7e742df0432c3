/** The optional value used for "no selection" and for a stored blob that is absent or unreadable. */
module Wrappers {

  datatype Option<+T> = None | Some(value: T)

}
