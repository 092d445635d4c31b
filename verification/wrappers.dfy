/** The optional value used for a write record's target cell and for lookup results. */
module Wrappers {

  datatype Option<+T> = None | Some(value: T)
}
