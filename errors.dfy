/** The Python exceptions the store raises, a result type carrying them,
    and an optional value (`None` or a value). */
module Errors {

  datatype PyError =
    | ValueError         // missing field, unsupported field type, duplicate ID
    | TypeError          // a value of the wrong type, or an `int` compared with a `str`
    | KeyError           // a decoded record without the field asked for
    | StructError        // an integer outside 32 bits, or a slot read short
    | ZeroDivisionError  // a record size of zero
    | OSError            // a seek to a negative offset

  datatype Result<T> = Ok(value: T) | Err(error: PyError)

  datatype Option<T> = None | Some(value: T)
}
