/** The optional value used for a regex search that may find nothing and for a
    field that may be absent from the structured record. */
module Wrappers {
  datatype Option<+T> = None | Some(value: T)
}
