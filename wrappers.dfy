/** Small value wrappers shared by the traversal model. */
module Wrappers {

  /** A value that may be absent, as a Python `dict.get` that can return `None`. */
  datatype Option<+T> = None | Some(value: T)

  /** The outcome of `json.load` on a file: the decoded value, or a `JSONDecodeError`
      (an empty file decodes to the error as well). */
  datatype Decoded<+T> = Parsed(value: T) | DecodeError
}
