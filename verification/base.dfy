/** Values shared by every part of the clippings parser: bytes, optional
    values, and the failures the parser raises. */
module Base {

  /** One byte of the raw export file. */
  newtype byte = x: int | 0 <= x < 256

  datatype Option<+T> = None | Some(value: T) {
    predicate IsFailure() { None? }
    function PropagateFailure<U>(): Option<U> requires None? { None }
    function Extract(): T requires Some? { value }
  }

  /** The exceptions the parser lets escape to its caller. */
  datatype Error =
    | EmptyLine              // IndexError: `stripped[-1]` on a line that strips to nothing
    | UnrecognizedClipType   // ParseError: no allowed clip type prefixes the type field
    | MalformedLocation      // ParseError: the detail line does not match the location pattern
    | MalformedDate          // ValueError: neither date layout accepts the date text
    | RecordShape(size: nat) // ValueError: a record does not unpack into exactly four lines
    | Undecodable            // UnicodeDecodeError: a line of the file is not valid UTF-8

  datatype Result<+T> = Ok(value: T) | Err(error: Error) {
    predicate IsFailure() { Err? }
    function PropagateFailure<U>(): Result<U> requires Err? { Err(error) }
    function Extract(): T requires Ok? { value }
  }
}
