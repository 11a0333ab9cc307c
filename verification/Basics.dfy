/** What most modules share. */
module Basics {
  datatype Option<+T> = None | Some(value: T)
}
