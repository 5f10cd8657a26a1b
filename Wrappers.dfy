/** Option, for the places where the Python code would raise instead of returning a value. */
module Wrappers {

  datatype Option<+T> = None | Some(value: T)

}
