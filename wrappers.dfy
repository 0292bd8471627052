/** The absent-value signal used where the mailbox returns `null`. */
module Wrappers {

  datatype Option<+T> = None | Some(value: T)
}
