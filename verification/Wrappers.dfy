/** Values that a source function may leave absent: nil pointers, missing map entries and error returns. */
module Wrappers {

  datatype Option<+T> = None | Some(value: T)

  newtype Byte = b: int | 0 <= b < 256

  /** The elements of a list, forgetting order and repetition. */
  function Elements<T>(values: seq<T>): set<T>
  {
    set value | value in values
  }
}
