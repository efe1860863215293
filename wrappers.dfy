/** The nullable values of the source (`number | null`, `string | null`). */
module Wrappers {

  datatype Option<+T> = None | Some(value: T)
}
