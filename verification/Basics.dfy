/** Small value types shared by the other modules. */
module Basics {
  datatype Option<+T> = None | Some(value: T)
}
