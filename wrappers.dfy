/** The optional value used wherever the plugin passes `false` for "nothing". */
module Wrappers {

  datatype Option<+T> = None | Some(value: T)
}
