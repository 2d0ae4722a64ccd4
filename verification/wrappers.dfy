/** The optional value used for a request body that may fail to decode. */
module Wrappers {

  /** `None` stands for a body the JSON decoder rejected; `Some(v)` for the decoded value. */
  datatype Option<+T> = None | Some(value: T)
}
