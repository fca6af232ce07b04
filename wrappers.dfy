/** The optional value used for the snake's buffered turn and its last removed tail cell. */
module Wrappers {

  datatype Option<+T> = None | Some(value: T)

}
