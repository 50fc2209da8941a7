/** The optional value used for every reply of the language-model client:
    `None` stands for a failed call, `Some(text)` for the text it returned. */
module Wrappers {

  datatype Option<+T> = None | Some(value: T)
}
