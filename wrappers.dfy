/** Option and Result types shared by every module of the model.

    Python raises exceptions; the model returns `Err(kind)` instead, keeping
    the exception class and dropping the message text. */
module Wrappers {

  datatype Option<+T> = None | Some(value: T)

  /** The Python exception classes the modelled code raises, and
      `DuplicateLabels`, which is not an exception: it stands for a data
      frame with two columns of one name, which pandas builds where a
      column map or `str.upper()` merges names, and which a model table
      cannot hold. `Bad7zFile` is the exception `py7zr` raises on a file
      that is not a 7z archive. */
  datatype ErrorKind =
    | TypeError
    | ValueError
    | KeyError
    | AttributeError
    | ZeroDivisionError
    | OSError
    | Bad7zFile
    | DuplicateLabels

  datatype Result<+T> = Ok(value: T) | Err(error: ErrorKind)
}
