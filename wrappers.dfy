/** Small helper datatypes shared by the trie and the tokenizers. */
module Wrappers {

  /** Python's `None` or a present value. */
  datatype Option<+T> = None | Some(value: T)
}
