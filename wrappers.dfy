/** The optional value used wherever a column or a request parameter may be missing (SQL NULL, Python None). */
module Wrappers {
  datatype Option<+T> = None | Some(value: T)
}
