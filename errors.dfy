/**
  Failures of the decoders. The library signals them in two ways: the byte
  cursor throws a `std::runtime_error` when a read runs past the end of its
  buffer (an underflow), the TGA reader returns `false` for headers it does
  not support, and the BMP validator throws one `std::runtime_error` per
  header field that is wrong. Here they are values.
*/
module Errors {

  /** Which BMP header field a validation failure names. */
  datatype BmpFault =
    | BadType              // file header `type` is not "BM"
    | BadReserved          // file header `reserved` is not 0
    | BadOffbits           // pixel data offset lies beyond the input
    | BadSize              // declared file size is not the input length
    | BadWidth             // width is not positive
    | BadHeight            // negative height on a compressed bitmap
    | BadPlanes            // planes is not 1
    | BadBitcount          // bits per pixel outside {1, 4, 8, 16, 24, 32}
    | BadCompression       // compression code illegal for 16 or 32 bpp
    | BadPalettedCompression  // compression code illegal for 1, 4 or 8 bpp

  datatype Error =
    | Underflow                  // the cursor had fewer bytes left than a read or skip needs
    | Rejected                   // the TGA reader returned false
    | InvalidHeader(field: BmpFault)  // a BMP header check threw

  datatype Result<T> = Ok(value: T) | Err(error: Error) {
    predicate IsFailure() { Err? }
    function PropagateFailure<U>(): Result<U>
      requires Err?
    {
      Err(error)
    }
    function Extract(): T
      requires Ok?
    {
      value
    }
  }

  /** The outcome of an operation that yields nothing but may fail. */
  datatype Outcome = Pass | Fail(error: Error) {
    predicate IsFailure() { Fail? }
    function PropagateFailure<U>(): Result<U>
      requires Fail?
    {
      Err(error)
    }
  }
}
