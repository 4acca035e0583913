/** The failure values of the serializer: one constructor per exception it raises,
    plus the Option/Result/Outcome wrappers the rest of the model returns. */
module Errors {
  import opened Bytes

  /** The exceptions of BinarySerializer.cs that the model reproduces. */
  datatype Error =
    | EndOfStream           // EndOfStreamException: fewer bytes left than a fixed-width read needs
    | InvalidData           // InvalidDataException: unknown tag byte, or a null type name
    | TypeLoad              // TypeLoadException: a type name that resolves to no type
    | ArgumentType          // ArgumentTypeException: a value not assignable to, or not writable as, its declared type
    | ArgumentValue         // ArgumentValueException: a declared type the reader cannot decode
    | ArgumentNotSupported  // ArgumentNotSupportedException: no reader constructor, or no decoder at all
    | DuplicateKey          // ArgumentException of Dictionary.Add on a key already present
    | Overflow              // OverflowException: a length that does not fit the 32-bit prefix or array size

  datatype Option<+T> = None | Some(value: T)

  datatype Result<+T> = Ok(value: T) | Err(error: Error)

  /** The outcome of an operation that returns nothing but may throw. */
  datatype Outcome = Pass | Fail(error: Error)

  /** A decoded value together with the bytes of the stream that remain unread after it. */
  datatype Parsed<+T> = Parsed(value: T, rest: seq<Byte>)

  /** Drops the unread bytes from a decoding result: what the reading method returns. */
  function ValueOf<T>(p: Result<Parsed<T>>): Result<T>
  {
    match p
    case Ok(parsed) => Ok(parsed.value)
    case Err(e) => Err(e)
  }
}
