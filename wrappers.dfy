/** Option, the "value or nothing" result the decoders return in place of C# null. */
module Wrappers {

  datatype Option<+T> = None | Some(value: T)
}
