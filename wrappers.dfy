/** A minimal optional value, used where the driver passes a pointer that may be NULL. */
module Wrappers {

  datatype Option<+T> = None | Some(value: T)
}
