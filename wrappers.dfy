/** The optional value used for a table entry that may hold no word sequence
    (a C `NULL` pointer) and for an access that finds no word. */
module Wrappers {

  datatype Option<+T> = None | Some(value: T)
}
