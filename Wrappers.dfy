/**
  Optional values, the Python exceptions the modelled code can raise, and a
  result type carrying either a value or the exception that ended the
  computation.
 */
module Wrappers {

  datatype Option<T> = None | Some(value: T)

  datatype Fault =
    | IndexError             // `seq[0]` on an empty sequence
    | KeyError(key: string)  // `d[key]` for a key `d` does not hold
    | IOError                // a file that cannot be opened or read
    | WriteError             // the PDF library failing to render or save the document

  datatype Result<T> = Ok(value: T) | Err(fault: Fault)
}
