/** The error taxonomy of the codec layer and a result type carrying it. */
module Errors {

  datatype CodecError =
    | SizeError    // a buffer is not the exact size of the record it should hold
    | RangeError   // a value is too wide for the bit-field it is written to
    | FormatError  // a text does not have the form its use requires

  datatype Result<T> = Ok(value: T) | Err(error: CodecError)
}
