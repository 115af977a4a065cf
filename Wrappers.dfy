/** The optional value used for a reservation's open end and for the
    results of the abstract field parsers. */
module Wrappers {

  datatype Option<+T> = None | Some(value: T)
}
