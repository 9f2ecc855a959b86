/** The one optional-value type the model uses: `None` stands for a Python
    helper that raised (ValueError) or for a regular expression that did not
    match. */
module Wrappers {
  datatype Option<+T> = None | Some(value: T)
}
