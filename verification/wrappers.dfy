/** The optional result used by the fallible lookups (`Option<&T>`, `Option<&mut T>`). */
module Wrappers {

  datatype Option<+T> = None | Some(value: T)
}
