/** The nullable-reference shape the engine needs. */
module Wrappers {
  /** A value that may be absent, used where the source keeps a null reference. */
  datatype Option<+T> = None | Some(value: T)
}
