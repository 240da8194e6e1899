/** The optional value of the modelled programs: Go's nil pointers and comma-ok results. */
module Wrappers {

  datatype Option<T> = None | Some(value: T)
}
