/** A value that may be absent: a spreadsheet cell pandas reads as null, a
    form field or environment variable that is not set. */
module Wrappers {

  datatype Option<+T> = None | Some(value: T)

}
