/** The optional value the widget's nullable lookups return (`EditText?`, `String?`). */
module Wrappers {

  datatype Option<+T> = None | Some(value: T)
}
