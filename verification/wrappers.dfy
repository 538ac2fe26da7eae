/** A field that a record may lack: JavaScript's `undefined` is `None`. */
module Wrappers {

  datatype Option<+T> = None | Some(value: T)
}
