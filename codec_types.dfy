/** The flag bytes of the datum codec, the datum kinds it handles, and the
    length functions of the payload formats that belong to other packages. */
module CodecTypes {
  import opened Common
  import opened CodecErrors

  // The first byte of every encoded element names its encoding.
  const NilFlag: byte := 0
  const BytesFlag: byte := 1
  const CompactBytesFlag: byte := 2
  const IntFlag: byte := 3
  const UintFlag: byte := 4
  const FloatFlag: byte := 5
  const DecimalFlag: byte := 6
  const DurationFlag: byte := 7
  const VarintFlag: byte := 8
  const UvarintFlag: byte := 9
  const JsonFlag: byte := 10
  const VectorFloat32Flag: byte := 20
  const MaxFlag: byte := 250

  /** The flags `peek` and `DecodeOne` recognise. */
  predicate KnownFlag(flag: byte) {
    flag in {NilFlag, BytesFlag, CompactBytesFlag, IntFlag, UintFlag, FloatFlag, DecimalFlag,
             DurationFlag, VarintFlag, UvarintFlag, JsonFlag, VectorFloat32Flag}
  }

  /** A datum, by kind. Values that other packages produce are carried in the
      form the codec receives them in: a float as its 64-bit comparable image, a
      time as its packed `uint64`, a decimal and a vector as their serialised
      bytes (a decimal together with the error, if any, that `EncodeDecimal`
      reports beside them; a decoded decimal has none), a string together with the sort key its collation gives it, and a
      bit or binary literal as the `uint64` it converts to. */
  datatype Datum =
    | Null
    | Int64(i: i64)
    | Uint64(u: u64)
    | Float(image: u64)
    | Str(raw: seq<byte>, collationKey: seq<byte>)
    | Bytes(b: seq<byte>)
    | Time(packed: u64)
    | Duration(nanos: i64)
    | Decimal(serialized: seq<byte>, failure: Option<CodecError>)
    | Enum(enumValue: u64)
    | Set(setValue: u64)
    | Bit(bitValue: u64)
    | Json(typeCode: byte, value: seq<byte>)
    | Vector(vectorBytes: seq<byte>)
    | MinNotNull
    | MaxValue
    | Raw(rawBytes: seq<byte>)
    | Interface

  /** The length functions of the decimal, JSON and vector formats
      (`types.DecimalPeak`, `types.PeekBytesAsJSON`,
      `types.PeekBytesAsVectorFloat32`), each applied to the bytes after the
      flag. Their decoders are taken to read exactly that many bytes. */
  datatype Foreign = Foreign(
    decimalPeek: seq<byte> -> Res<i64>,
    jsonPeek: seq<byte> -> Res<i64>,
    vectorPeek: seq<byte> -> Res<i64>)

  /** How `DecodeRange` treats an index column: time types go through
      `DecodeAsDateTime`, float types through `DecodeAsFloat32` (which accepts
      only single-precision `TypeFloat`), everything else through `DecodeOne`. */
  datatype IndexColumnType = TimeColumn | FloatColumn(single: bool) | OtherColumn
}
