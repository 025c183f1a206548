/** Python's `None`-or-value, as the parser's `answer` field and Streamlit's radio choice use it. */
module Wrappers {
  datatype Option<+T> = None | Some(value: T)
}
