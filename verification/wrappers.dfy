/** The optional value used for nullable fields: a form control after
    `reset()` holds `null`, and `selectedUser` is `null` outside edit mode. */
module Wrappers {

  datatype Option<+T> = None | Some(value: T)
}
