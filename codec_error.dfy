/** The errors the codec reports, one constructor per message the Go code
    builds (the wording is given beside each). */
module CodecErrors {
  import opened Common

  datatype CodecError =
    | InvalidEncodedKey                        // "invalid encoded key"
    | ZeroLengthKey                            // "invalid encoded key: length of key is zero"
    | InvalidFlag(flag: byte)                  // "invalid encoded key flag %v"
    | InvalidFlagForFloat32(flag: byte)        // "invalid encoded key flag %v for DecodeAsFloat32"
    | InsufficientBytes                        // "insufficient bytes to decode value"
    | InsufficientBytesExpected(n: int)        // "insufficient bytes to decode value, expected length: %v"
    | ValueTooLarge                            // "value larger than 64 bits"
    | LengthOverrun(expected: int, actual: int) // "invalid encoded key, expected length: %d, actual length: %d"
    | InvalidMarker                            // "invalid marker byte, group bytes %q"
    | InvalidPadding                           // "invalid padding byte, group bytes %q"
    | NegativeLength(n: int)                   // a compact-bytes length prefix below zero
    | InvalidIndexColumns                      // "invalid length of index's columns"
    | UnsupportedEncodeType                    // "unsupport encode type %d"
    | HashColumnsMismatch(n1: int, n2: int)    // "Internal error: Hash columns count mismatch, col1: %d, col2: %d"
    | UnsupportedColumnType(tp: int)           // "unsupport column type for encode %d"
    | Foreign(msg: string)                     // an error from a decimal/JSON/vector/time helper

  type Res<T> = Result<T, CodecError>
}
