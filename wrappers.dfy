/** The optional value used wherever the PHP code may find nothing (a failed
    preg_match, a missing array key, no separator in a document). */
module Wrappers {

  datatype Option<+T> = None | Some(value: T)
}
