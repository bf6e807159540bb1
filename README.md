# TiDB datum codec and TTL job manager, modelled in Dafny

This project models two parts of TiDB.

**The datum codec** is `pkg/util/codec/codec.go`. A row of datums is written as a sequence of elements. Each element is a one-byte type flag followed by a payload, in one of two modes:

- **Key mode** ("comparable") keeps the byte order equal to the value order: rows of null, integer, float, byte-string and duration datums sort as bytes exactly as they sort datum by datum. Integers take 8 big-endian bytes with the sign bit flipped. Byte strings take 8-byte groups, each followed by a marker byte.
- **Value mode** is compact. Integers take Go's base-128 varints, signed ones zig-zag mapped. Byte strings take a varint length prefix.

The model covers these operations:

- encoding a row (`encode`, `EncodeKey`, `EncodeValue`), and the size estimators;
- measuring one element without decoding it (`peek`, `peekBytes`, `peekCompactBytes`, `peekVarint`);
- cutting a row into per-column slices (`CutOne`, `SetRawValues`);
- decoding (`DecodeOne`, `Decode`, `DecodeRange` with its trailing sentinel byte);
- the equality and hash path over chunk rows (`encodeHashChunkRowIdx`, `EqualChunkRow`, `HashChunkRow`).

The model proves these properties for all inputs:

- Decoding undoes encoding, element by element and row by row.
- `peek` measures exactly what `DecodeOne` consumes.
- Key-mode rows sort as bytes the way they sort datum by datum, and group-encoded byte strings sort as the strings they encode.
- `encode` returns the unsupported-kind error it stops at, or else the error the last decimal, time or bit datum left in its carried error variable.
- Rows that `EqualChunkRow` reports equal hash to the same bytes.

**The TTL job manager** is `pkg/ttl/ttlworker/job_manager.go`. `JobManager` is a class with these fields:

- the node id;
- the running-job list;
- the cached table statuses (a map from table id to status);
- the table ids of the cached information schema.

Its methods modify those fields in place:

- `appendJob` and `removeJob`;
- the reverse-index sweeps of `checkNotOwnJob` and `rescheduleJobs`;
- the filters `localJobs` and `readyForLockHBTimeoutJobTables`.

The scheduling rules are pure functions, with time as integer nanoseconds:

- `couldLockJobForCreate` and `couldLockJobForExistJob`;
- the `onTimerTick` throttle;
- the cancel reason of `rescheduleJobs`;
- the per-job heartbeat decision;
- the finished statuses of `getJobWithSession`;
- the task limit of `canSubmitJobWithSession`.

Two more operations are modelled:

- `summarizeTaskResultWithError` is a loop proved equal to a specification function. Lemmas state its counts, its modulo-2^64 row sums and its error text.
- `gcTTLTableStatusGCSQL` builds a statement. A lemma shows that the statement lists exactly the given ids.

Results of SQL statements, `job.finish` and the walk order of Go maps are parameters of the model.

The files are these:

| file | module | contents |
|---|---|---|
| common.dfy | Common | bytes, 64-bit integers with wrap-around, `Option`, `Result` |
| codec_error.dfy | CodecErrors | the codec's error values |
| byte_order.dfy | ByteOrder | lexicographic byte order (`bytes.Compare`) |
| number.dfy | Number | 8-byte comparable integers, Go varints, zig-zag |
| bytes_codec.dfy | BytesCodec | group-encoded and compact byte strings |
| codec_types.dfy | CodecTypes | flags, datums, and the opaque helpers for foreign types |
| codec_encode.dfy | CodecEncode | `encode`, `EncodeKey`, `EncodeValue`, size estimators |
| codec_peek.dfy | CodecPeek | `peek*`, `CutOne`, `SetRawValues` |
| codec_decode.dfy | CodecDecode | `DecodeOne`, `Decode`, `DecodeRange`, `DecodeAsDateTime`, `DecodeAsFloat32` |
| codec_props.dfy | CodecProps | round trips, peek against decode, the findings |
| codec_order.dfy | CodecOrder | key order of datums and rows |
| codec_hash.dfy | CodecHash | `encodeHashChunkRowIdx`, `EqualChunkRow`, `HashChunkRow` |
| ttl_types.dfy | TtlTypes | statuses, jobs, tasks, time units |
| ttl_rules.dfy | TtlRules | lock rules, timer throttle, cancel reason, heartbeat, job trace, submit check |
| ttl_job_list.dfy | TtlJobList | `removeJob` on values, the sweep, the owned-job filter |
| ttl_job_manager.dfy | TtlJobManager | the `JobManager` class |
| ttl_strings.dfy | TtlStrings | `strconv.Itoa`, `strings.Join`, `strings.Split`, with their inverses |
| ttl_gc_sql.dfy | TtlGcSql | `gcTTLTableStatusGCSQL` |
| ttl_summary.dfy | TtlSummary | `summarizeTaskResultWithError` |

The files `number.go` and `bytes.go` of the codec package are not part of this model. Neither is Go's `encoding/binary`. The primitives they provide are modelled from how `codec.go` uses them:

- `EncodeInt`, `EncodeUint` and `EncodeBytes`;
- `EncodeCompactBytes` and `DecodeCompactBytes`;
- `binary.Varint`, `binary.Uvarint`, `PutVarint` and `PutUvarint`;
- the constants `encGroupSize = 8`, `encMarker = 0xFF` and `encPad = 0`.

Their rows below cite the `codec.go` lines that call them.

## Model

| member | source | states |
|---|---|---|
| Common.AddU64 | pkg/ttl/ttlworker/job_manager.go:1053-1055 | `uint64 +=` wraps: the exact sum below 2^64, otherwise the sum minus 2^64 |
| Common.AddInt | pkg/util/codec/codec.go:1285-1288 | Go `int` addition: the exact sum when it fits in 64 bits, otherwise wrapped by 2^64 |
| Common.WrapInt64 | pkg/util/codec/codec.go:222-231 | the conversion of a length to `int64`: congruent modulo 2^64, and unchanged when it fits |
| ByteOrder.LexLess | pkg/util/codec/codec.go:89 | the byte-wise order that "can be sorted" refers to: the empty string sorts before every other one, and a string sorts first only if its first byte is not larger |
| Number.EncodeUint | pkg/util/codec/codec.go:271-280 | key-mode unsigned integers have an 8-byte payload |
| Number.EncodeInt | pkg/util/codec/codec.go:246-255 | key-mode signed integers have an 8-byte payload |
| Number.DecodeUint | pkg/util/codec/codec.go:1040-1118 | succeeds exactly when 8 bytes remain, and then consumes exactly 8 |
| Number.DecodeInt | pkg/util/codec/codec.go:1040-1118 | succeeds exactly when 8 bytes remain, and then consumes exactly 8 |
| Number.DecodeUintOfEncodeUint | pkg/util/codec/codec.go:271-280 | decoding an encoded unsigned integer gives it back and leaves what follows |
| Number.DecodeIntOfEncodeInt | pkg/util/codec/codec.go:246-255 | decoding an encoded signed integer gives it back and leaves what follows |
| Number.EncodeUintOrder | pkg/util/codec/codec.go:271-280 | the byte order of encoded unsigned integers is their numeric order (both directions) |
| Number.EncodeIntOrder | pkg/util/codec/codec.go:246-255 | the byte order of encoded signed integers is their numeric order (both directions) |
| Number.PutUvarint | pkg/util/codec/codec.go:271-280 | a varint is at least one byte, every byte but the last has the continuation bit, the last does not |
| Number.Uvarint | pkg/util/codec/codec.go:1299-1305 | `binary.Uvarint`: a positive count never exceeds the buffer |
| Number.UvarintFrom | pkg/util/codec/codec.go:1299-1305 | the loop of `binary.Uvarint`: the value fits in 64 bits and a positive count is at most 10 bytes |
| Number.ZigZag | pkg/util/codec/codec.go:246-255 | the zig-zag image is even exactly for non-negative values |
| Number.PutVarint | pkg/util/codec/codec.go:246-255 | a signed varint is at least one byte |
| Number.Varint | pkg/util/codec/codec.go:1291-1297 | `binary.Varint` consumes what `binary.Uvarint` does |
| Number.DecodeUvarint | pkg/util/codec/codec.go:1040-1118 | succeeds with the bytes after the varint; errors are "too large" for a negative count and "insufficient" for zero |
| Number.DecodeVarint | pkg/util/codec/codec.go:1040-1118 | as `DecodeUvarint`, for signed varints |
| Number.UvarintOfPutUvarint | pkg/util/codec/codec.go:271-280 | `binary.Uvarint` reads back what `PutUvarint` wrote, with its exact length |
| Number.DecodeUvarintOfPutUvarint | pkg/util/codec/codec.go:271-280 | round trip of value-mode unsigned integers |
| Number.DecodeVarintOfPutVarint | pkg/util/codec/codec.go:246-255 | round trip of value-mode signed integers |
| Number.PutUvarintLength | pkg/util/codec/codec.go:282-291 | a varint takes at most 10 bytes |
| BytesCodec.EncodeBytes | pkg/util/codec/codec.go:222-231 | a group-encoded string is at least one group long and its last marker is not `encMarker` |
| BytesCodec.EncodeBytesLength | pkg/util/codec/codec.go:237-244 | a group-encoded string takes `(len/8 + 1) * 9` bytes |
| BytesCodec.EncodeBytesMarkers | pkg/util/codec/codec.go:1257-1274 | every marker but the last is `encMarker`, the condition under which `peekBytes` moves on |
| BytesCodec.DecodeBytes | pkg/util/codec/codec.go:1040-1118 | a success consumes at least one group and leaves a suffix; fewer than 9 bytes means "insufficient bytes" |
| BytesCodec.DecodeBytesGroups | pkg/util/codec/codec.go:1257-1274 | a success consumes a whole number of groups |
| BytesCodec.DecodeBytesOfEncodeBytes | pkg/util/codec/codec.go:222-231 | round trip of key-mode byte strings |
| BytesCodec.EncodeCompactBytes | pkg/util/codec/codec.go:222-231 | value-mode bytes are a length prefix of 1 to 10 bytes followed by the data |
| BytesCodec.DecodeCompactBytes | pkg/util/codec/codec.go:1040-1118 | a success consumes the varint and then the data it announces |
| BytesCodec.DecodeCompactBytesOfEncode | pkg/util/codec/codec.go:222-231 | round trip of value-mode byte strings |
| BytesCodec.EncodeBytesHead | pkg/util/codec/codec.go:222-231 | up to a whole group, the group form starts with the data itself |
| BytesCodec.PadsSortFirst | pkg/util/codec/codec.go:222-231 | padding and a smaller marker sort before any group of the same size |
| BytesCodec.PaddedGroupFirst | pkg/util/codec/codec.go:222-231 | a padded last group sorts before a same-size group that starts with its data and has a greater marker |
| BytesCodec.PrefixGroupSortsFirst | pkg/util/codec/codec.go:222-231 | the group form of a proper prefix sorts first, whatever follows either encoding |
| BytesCodec.HeadsDecide | pkg/util/codec/codec.go:222-231 | where the first bytes up to a group differ, they order both the strings and their group forms |
| BytesCodec.FullGroupStep | pkg/util/codec/codec.go:222-231 | strings sharing a full first group sort as their rests, and so do their group forms |
| BytesCodec.EncodeBytesMonotone | pkg/util/codec/codec.go:222-231 | a string that sorts first has the group form that sorts first, whatever follows either form |
| BytesCodec.EncodeBytesOrder | pkg/util/codec/codec.go:222-231 | group forms sort exactly as the strings they encode (both directions) |
| CodecEncode.EncodeSignedInt | pkg/util/codec/codec.go:246-255 | key mode writes `intFlag` and 8 bytes; value mode writes `varintFlag` and 1 to 10 bytes |
| CodecEncode.EncodeUnsignedInt | pkg/util/codec/codec.go:271-280 | key mode writes `uintFlag` and 8 bytes; value mode writes `uvarintFlag` and 1 to 10 bytes |
| CodecEncode.EncodeBytesElement | pkg/util/codec/codec.go:222-231 | `bytesFlag` in key mode, `compactBytesFlag` in value mode, then a non-empty payload |
| CodecEncode.EncodeOne | pkg/util/codec/codec.go:91-151 | the error "unsupport encode type" exactly for raw and interface datums; Null, MinNotNull and MaxValue encode to the single bytes `NilFlag`, `bytesFlag` and `maxFlag` |
| CodecEncode.EncodeAll | pkg/util/codec/codec.go:91-151 | the bytes `encode` appends for a row and the error that stopped it; a row written without that error takes at least one byte per datum |
| CodecEncode.EncodeAllSucceeds | pkg/util/codec/codec.go:91-151 | encoding a row fails exactly when one of its datums is of an unsupported kind |
| CodecEncode.EncodeLoopIsEncodeAll | pkg/util/codec/codec.go:91-151 | the appending loop produces the row's encoding after what was already in the buffer |
| CodecEncode.CarriedErrorIsLastAssignment | pkg/util/codec/codec.go:106-151 | the carried error is the failure of the last decimal when no time or bit datum follows it, none after a last time or bit datum, and none without any of them |
| CodecEncode.EncodeAllStopError | pkg/util/codec/codec.go:145-146 | the only error that stops the loop is "unsupport encode type" |
| CodecEncode.EncodeError | pkg/util/codec/codec.go:91-151 | the result is "unsupport encode type" whenever some datum is unsupported, and no error exactly when every datum is supported and the carried error is clear |
| CodecEncode.DecimalErrorCarried | pkg/util/codec/codec.go:116-151 | a decimal's error does not stop the row, which is written in full; the error is returned at the end, and a later bit literal clears it |
| CodecEncode.Encode | pkg/util/codec/codec.go:91-151 | the output is the input buffer followed by the row's encoding up to the first unsupported datum; the error is `EncodeError`: "unsupport encode type" for that datum, otherwise the error carried from the last decimal, time or bit datum |
| CodecEncode.EncodeKey | pkg/util/codec/codec.go:303-305 | `encode` in key mode |
| CodecEncode.EncodeValue | pkg/util/codec/codec.go:309-311 | `encode` in value mode |
| CodecEncode.SizeInt | pkg/util/codec/codec.go:293-298 | bounds every integer element, and is exact in key mode |
| CodecEncode.SizeBytes | pkg/util/codec/codec.go:237-244 | bounds the byte-string element, and is exact in key mode |
| CodecEncode.PutUvarintGroups | pkg/util/codec/codec.go:282-291 | a varint grows by one byte per further 7 bits of the value |
| CodecEncode.PutVarintGroups | pkg/util/codec/codec.go:257-269 | a signed varint grows by one byte per further 7 bits of magnitude, after the sign bit |
| CodecEncode.ValueSizeOfSignedInt | pkg/util/codec/codec.go:257-269 | the shifting loop gives exactly the value-mode element size, which is at least 2 |
| CodecEncode.ValueSizeOfUnsignedInt | pkg/util/codec/codec.go:282-291 | the shifting loop gives exactly the value-mode element size, which is at least 2 |
| CodecEncode.ValueSizeOfBytes | pkg/util/codec/codec.go:233-235 | the length prefix plus the data, which is exactly the value-mode element size |
| CodecEncode.VarintSizeSymmetric | pkg/util/codec/codec.go:257-269 | `v` and `-v-1` take the same size |
| CodecEncode.PutUvarintLengthRange | pkg/util/codec/codec.go:282-291 | a varint takes `k+1` bytes exactly when the value lies in `[128^k, 128^(k+1))` (from 0 for `k = 0`) |
| CodecPeek.PeekBytesFrom | pkg/util/codec/codec.go:1257-1274 | a success ends after the offset and within the buffer; the only error is "insufficient bytes" |
| CodecPeek.PeekBytesFromShape | pkg/util/codec/codec.go:1257-1274 | a success is a positive multiple of 9 that ends in a group whose marker differs from `encMarker`, after full markers only |
| CodecPeek.PeekBytesFromExact | pkg/util/codec/codec.go:1257-1274 | `peekBytes` stops at the first group whose marker is not `encMarker` |
| CodecPeek.PeekBytesFromErr | pkg/util/codec/codec.go:1257-1274 | it fails exactly when fewer than 9 bytes remain for the next group |
| CodecPeek.PeekBytes | pkg/util/codec/codec.go:1257-1274 | the offset loop computes `PeekBytesFrom` |
| CodecPeek.PeekCompactBytesAsWritten | pkg/util/codec/codec.go:1276-1289 | as written: "too large" for a negative varint count and "insufficient" for zero |
| CodecPeek.PeekCompactBytes | pkg/util/codec/codec.go:1276-1289 | corrected: a success is the prefix length plus a non-negative data length and fits in the buffer |
| CodecPeek.PeekVarintAsWritten | pkg/util/codec/codec.go:1291-1305 | as written: succeeds for every count that is not negative, zero included |
| CodecPeek.PeekVarint | pkg/util/codec/codec.go:1291-1305 | corrected: succeeds exactly for a complete varint, with its length |
| CodecPeek.PayloadLength | pkg/util/codec/codec.go:1223-1245 | an unknown flag is "invalid encoded key flag" |
| CodecPeek.PayloadLengthAsWritten | pkg/util/codec/codec.go:1223-1245 | differs from the corrected helper for the compact-bytes and varint flags only |
| CodecPeek.CheckLength | pkg/util/codec/codec.go:1246-1254 | a result is always between 1 and the buffer length; without overflow it is one plus the payload, exactly when that fits |
| CodecPeek.PeekAsWritten | pkg/util/codec/codec.go:1213-1255 | `peek` as written: errors on empty input and on an unknown flag, gives 1 for `NilFlag`, and 9 or a length error for the fixed-width flags; a success is between 1 and the buffer length |
| CodecPeek.Peek | pkg/util/codec/codec.go:1213-1255 | the corrected `peek`, whose compact-bytes and varint helpers refuse what `DecodeOne` refuses: the same outcomes for empty input, unknown flags, `NilFlag` and the fixed-width flags |
| CodecPeek.PeekAsWrittenAgrees | pkg/util/codec/codec.go:1213-1305 | the as-written and corrected `peek` agree on every flag but compact bytes and the varints, and wherever the corrected one succeeds |
| CodecPeek.CutOne | pkg/util/codec/codec.go:1180-1186 | succeeds exactly when `peek` as written does, with its error otherwise; `data ++ remain == b` and `len(data) == peek(b)` |
| CodecPeek.PrefixStep | pkg/util/codec/codec.go:1200-1210 | advancing past one slice keeps the slices a prefix of the data |
| CodecPeek.PeekOf | pkg/util/codec/codec.go:1200-1210 | `peek` as written, as a length function: it is a measure, a success being between 1 and the buffer length |
| CodecPeek.CutPrefix | pkg/util/codec/codec.go:1200-1210 | it cuts at most one slice per column, and fails exactly when it cuts fewer |
| CodecPeek.CutPrefixSlices | pkg/util/codec/codec.go:1200-1210 | the slices are non-empty, and their concatenation is a prefix of the data |
| CodecPeek.CutPrefixMeasures | pkg/util/codec/codec.go:1200-1210 | each slice is the length the measure gives at its start, and a failure is the measure's error where the cutting stops |
| CodecPeek.CutLoopIsCutPrefix | pkg/util/codec/codec.go:1200-1210 | the loop's accumulated slices are those of `CutPrefix` |
| CodecPeek.SetRawValuesWith | pkg/util/codec/codec.go:1200-1210 | the array receives the consecutive slices, cells after a failure keep their values, and the error is the first failure of the measure |
| CodecPeek.SetRawValues | pkg/util/codec/codec.go:1200-1210 | `SetRawValuesWith` with `peek` as written as the measure |
| CodecDecode.DecodeFloat | pkg/util/codec/codec.go:1040-1118 | the float payload succeeds exactly when 8 bytes remain, and consumes them |
| CodecDecode.CutForeign | pkg/util/codec/codec.go:1040-1118 | a foreign payload and the rest concatenate back to the input |
| CodecDecode.DecodeOne | pkg/util/codec/codec.go:1040-1118 | a success leaves a proper suffix; empty input is "invalid encoded key" and an unknown flag is "invalid encoded key flag" |
| CodecDecode.DecodeList | pkg/util/codec/codec.go:962-983 | it yields at most one datum per byte, and at least one for non-empty input |
| CodecDecode.DecodeAll | pkg/util/codec/codec.go:962-983 | `Decode` rejects empty input and otherwise yields at least one datum |
| CodecDecode.Decode | pkg/util/codec/codec.go:962-983 | the consuming loop computes `DecodeAll` |
| CodecDecode.PrependTwice | pkg/util/codec/codec.go:962-983 | prepending decoded datums composes |
| CodecDecode.PrependNothing | pkg/util/codec/codec.go:962-983 | prepending no datum changes nothing |
| CodecDecode.DecodeAsDateTime | pkg/util/codec/codec.go:1121-1157 | empty input is "invalid encoded key"; `NilFlag` gives Null and the rest; `uintFlag` succeeds exactly with 8 payload bytes and `uvarintFlag` exactly with a complete varint, both giving a time; any other flag is "invalid encoded key flag" |
| CodecDecode.DecodeAsDateTimeAgrees | pkg/util/codec/codec.go:1121-1139 | for `uintFlag` and `uvarintFlag` it succeeds exactly when `DecodeOne` does, with the same remainder and the decoded unsigned value as the packed time |
| CodecDecode.DecodeAsFloat32 | pkg/util/codec/codec.go:1160-1176 | a success leaves a proper suffix, comes from `floatFlag`, and needs a single-precision column |
| CodecDecode.DecodeRangeStep | pkg/util/codec/codec.go:1000-1017 | a success leaves a proper suffix; running out of column types is an error |
| CodecDecode.SentinelDatum | pkg/util/codec/codec.go:1023-1035 | a single leftover byte maps `NilFlag` to Null, `bytesFlag` to MinNotNull, `maxFlag` and `maxFlag+1` to MaxValue, and anything else to "invalid encoded key flag" (each an if-and-only-if) |
| CodecDecode.DecodeRangeFrom | pkg/util/codec/codec.go:988-1037 | yields at most one datum per byte |
| CodecDecode.DecodeRangeAll | pkg/util/codec/codec.go:988-1037 | an empty key is an error with no datum |
| CodecDecode.DecodeRange | pkg/util/codec/codec.go:988-1037 | the consuming loop computes `DecodeRangeAll` |
| CodecProps.PeekBytesFromStep | pkg/util/codec/codec.go:1257-1274 | one full group moves `peekBytes` on, and any other group ends the element |
| CodecProps.DecodeBytesStep | pkg/util/codec/codec.go:1257-1274 | one group of a successful byte decode |
| CodecProps.PeekBytesOfDecodeBytes | pkg/util/codec/codec.go:1257-1274 | `peekBytes` measures what the byte decoder consumes |
| CodecProps.PeekCompactBytesOfDecode | pkg/util/codec/codec.go:1276-1289 | the corrected `peekCompactBytes` succeeds exactly when the compact decoder does, with its length |
| CodecProps.PeekIffDecodeOne | pkg/util/codec/codec.go:1213-1305 | for the self-delimited flags, `peek` succeeds exactly when `DecodeOne` does, and measures what it consumes |
| CodecProps.PeekOfDecodedBytes | pkg/util/codec/codec.go:1213-1274 | a group-form element that `DecodeOne` accepts is measured by `peek` as what it consumes |
| CodecProps.PeekBytesIgnoresPadding | pkg/util/codec/codec.go:1257-1274 | `peek` accepts group-form bytes with wrong padding, which `DecodeOne` rejects |
| CodecProps.PeekAsWrittenTruncatedVarint | pkg/util/codec/codec.go:1291-1305 | as written, `peek` measures a varint flag that has no payload as one byte, which `DecodeOne` rejects |
| CodecProps.PeekAsWrittenNegativeLength | pkg/util/codec/codec.go:1276-1289 | as written, `peek` takes a compact length of `-1` as a one-byte element |
| CodecProps.DecodedList | pkg/util/codec/codec.go:962-983 | decoding gives back one datum per encoded datum |
| CodecProps.KeyIntRoundTrip | pkg/util/codec/codec.go:246-255 | a key-mode signed integer decodes back, leaving what follows |
| CodecProps.ValueIntRoundTrip | pkg/util/codec/codec.go:246-255 | a value-mode signed integer decodes back, leaving what follows |
| CodecProps.KeyUintRoundTrip | pkg/util/codec/codec.go:271-280 | a key-mode unsigned integer decodes back, leaving what follows |
| CodecProps.ValueUintRoundTrip | pkg/util/codec/codec.go:271-280 | a value-mode unsigned integer decodes back, leaving what follows |
| CodecProps.FloatRoundTrip | pkg/util/codec/codec.go:91-151 | a float element decodes back to its 64-bit image |
| CodecProps.DurationRoundTrip | pkg/util/codec/codec.go:91-151 | a duration element decodes back |
| CodecProps.KeyBytesRoundTrip | pkg/util/codec/codec.go:222-231 | a key-mode byte string decodes back, leaving what follows |
| CodecProps.ValueBytesRoundTrip | pkg/util/codec/codec.go:222-231 | a value-mode byte string decodes back, leaving what follows |
| CodecProps.SignedIntRoundTrip | pkg/util/codec/codec.go:246-255 | `encodeSignedInt` in either mode decodes back |
| CodecProps.UnsignedIntRoundTrip | pkg/util/codec/codec.go:271-280 | `encodeUnsignedInt` in either mode decodes back |
| CodecProps.BytesRoundTrip | pkg/util/codec/codec.go:222-231 | `encodeBytes` in either mode decodes back |
| CodecProps.DecodeAsDateTimeOfTime | pkg/util/codec/codec.go:106-111 | a time column reads an encoded time back as the same packed time, leaving what follows |
| CodecProps.DecodeOneOfEncodeOne | pkg/util/codec/codec.go:91-151 | `DecodeOne` reads back one encoded datum and stops exactly where the next element begins |
| CodecProps.DecodeListOfEncodeAll | pkg/util/codec/codec.go:962-983 | decoding an encoded row gives back every datum, in order |
| CodecProps.DecodeAllOfEncodeAll | pkg/util/codec/codec.go:962-983 | `Decode(EncodeKey(vs))` and `Decode(EncodeValue(vs))` give back `DecodedList(vs)`: the row with each datum in the kind the decoder yields (strings as bytes; times, enums, sets and bits as unsigned integers) |
| CodecProps.DecodedListPlain | pkg/util/codec/codec.go:962-983 | Null, integer and byte datums decode to themselves |
| CodecProps.DecodeOfEncodeKey | pkg/util/codec/codec.go:300-311 | `Decode(EncodeKey(vs))` yields `vs` for Int64, Uint64, Bytes and Null datums |
| CodecProps.EncodeOneFlag | pkg/util/codec/codec.go:91-151 | every datum that round-trips starts with a flag `peek` measures in full |
| CodecProps.PeekOfDecodeOne | pkg/util/codec/codec.go:1213-1255 | `peek` measures what `DecodeOne` consumes, for the self-delimited and group flags |
| CodecProps.PeekOfEncodeOne | pkg/util/codec/codec.go:1180-1186 | both `peek`s measure an encoded datum exactly, whatever follows it, and `CutOne` splits it off |
| CodecProps.DecodeRangeOfSentinel | pkg/util/codec/codec.go:1023-1035 | a sentinel alone is read back as itself |
| CodecProps.DecodeRangeFromStep | pkg/util/codec/codec.go:988-1037 | one element of `DecodeRange` without column types |
| CodecProps.DecodeRangeOfKeyStep | pkg/util/codec/codec.go:988-1037 | one datum more in front of a key that `DecodeRange` reads back |
| CodecProps.DecodeRangeOfKey | pkg/util/codec/codec.go:988-1037 | `DecodeRange` without column types reads back an encoded key followed by a sentinel |
| CodecOrder.SignedKeyOrder | pkg/util/codec/codec.go:246-255 | key-mode signed integers sort as bytes exactly as they sort as numbers |
| CodecOrder.UnsignedKeyOrder | pkg/util/codec/codec.go:271-280 | key-mode unsigned integers sort as bytes exactly as they sort as numbers |
| CodecOrder.KeyFlag | pkg/util/codec/codec.go:91-151 | the flag of an ordered datum is the first byte of its key encoding |
| CodecOrder.DatumLessTotal | pkg/util/codec/codec.go:300-305 | two different ordered datums are ordered one way or the other |
| CodecOrder.RowLessTotal | pkg/util/codec/codec.go:300-305 | two different rows of ordered datums are ordered one way or the other |
| CodecOrder.FlaggedOrder | pkg/util/codec/codec.go:91-151 | a flag in front of equal-length payloads keeps their order, whatever follows |
| CodecOrder.FlaggedBytesOrder | pkg/util/codec/codec.go:222-231 | a key-mode byte-string element keeps the order of the strings, whatever follows |
| CodecOrder.EncodeOneMonotone | pkg/util/codec/codec.go:91-151 | a datum that sorts first has the key element that sorts first, whatever follows either element |
| CodecOrder.EncodeOneOrder | pkg/util/codec/codec.go:91-151 | the key elements of two ordered datums sort exactly as the datums (both directions) |
| CodecOrder.EncodeKeyMonotone | pkg/util/codec/codec.go:300-305 | a row that sorts first has the key that sorts first |
| CodecOrder.KeyOrder | pkg/util/codec/codec.go:300-305 | `EncodeKey` is in ascending order: the keys of two rows of ordered datums sort as bytes exactly as the rows sort (both directions) |
| CodecOrder.EncodeKeyInjective | pkg/util/codec/codec.go:300-305 | two different rows of ordered datums never share a key |
| CodecHash.HashCell | pkg/util/codec/codec.go:313-409 | NULL gives `NilFlag` and no bytes; an error exactly for an unsupported column type or a failing helper; otherwise a known non-nil flag and the cell's bytes, with integers flagged by sign |
| CodecHash.CellsEqual | pkg/util/codec/codec.go:939-956 | succeeds exactly when both cells encode, and is true exactly when flag and bytes agree; the first cell's error comes first |
| CodecHash.EqualRows | pkg/util/codec/codec.go:935-957 | columns of unequal count are a mismatch error |
| CodecHash.EqualChunkRow | pkg/util/codec/codec.go:935-957 | the column loop computes `EqualRows` |
| CodecHash.EqualFrom | pkg/util/codec/codec.go:939-956 | the comparison loop from column `i`: an error it returns is the error of comparing one of those columns |
| CodecHash.EqualFromTrue | pkg/util/codec/codec.go:939-956 | the loop from column `i` answers true exactly when every later column compares equal |
| CodecHash.EqualRowsTrue | pkg/util/codec/codec.go:935-957 | two rows are equal exactly when they have as many columns and every column compares equal |
| CodecHash.EqualRowsSymmetric | pkg/util/codec/codec.go:935-957 | equality is symmetric |
| CodecHash.EqualRowsReflexive | pkg/util/codec/codec.go:935-957 | a row whose every column encodes equals itself |
| CodecHash.NullAndSignSeparate | pkg/util/codec/codec.go:319-324 | NULL never equals non-NULL, and a negative signed integer never equals a non-negative one |
| CodecHash.HashFrom | pkg/util/codec/codec.go:914-931 | the bytes `HashChunkRow` writes from column `i` and the error that stopped it; without an error at least one byte per column is written |
| CodecHash.HashFromSucceeds | pkg/util/codec/codec.go:914-931 | `HashChunkRow` fails exactly when some column fails to encode |
| CodecHash.HashLoopIsHashFrom | pkg/util/codec/codec.go:914-931 | the writing loop produces the row's bytes after what was already written |
| CodecHash.HashChunkRow | pkg/util/codec/codec.go:914-931 | the method writes exactly the flag and bytes of every column, stopping at the first error |
| CodecHash.EqualFromHashEqual | pkg/util/codec/codec.go:914-957 | columns that compare equal from `i` on hash to the same bytes without error |
| CodecHash.EqualRowsHashEqual | pkg/util/codec/codec.go:914-957 | rows `EqualChunkRow` reports equal hash to the same bytes |
| CodecHash.HashNotInjective | pkg/util/codec/codec.go:914-931 | rows with different strings can hash to the same bytes, because the bytes carry no length |
| TtlRules.CouldLockJobForCreate | pkg/ttl/ttlworker/job_manager.go:723-749 | true for no status; false for a current job; true without the interval check; false for an illegal interval; otherwise true exactly when the last start plus the interval is before now |
| TtlRules.HeartbeatTimeout | pkg/ttl/ttlworker/job_manager.go:763-768 | the larger of twice the heartbeat interval and twice the cache interval |
| TtlRules.CouldLockJobForExistJob | pkg/ttl/ttlworker/job_manager.go:752-781 | false without a current job; true for a job without an owner; otherwise true exactly when the heartbeat plus the timeout is strictly before now |
| TtlRules.CreateAndTakeOverExclusive | pkg/ttl/ttlworker/job_manager.go:723-781 | no status allows both a new job and a take-over |
| TtlRules.LockRulesMonotone | pkg/ttl/ttlworker/job_manager.go:723-781 | a table that may be locked now may be locked later |
| TtlRules.RecentHeartbeatKeepsJob | pkg/ttl/ttlworker/job_manager.go:752-781 | an owned job whose heartbeat is within either doubled interval is not taken over |
| TtlRules.OnTimerTick | pkg/ttl/ttlworker/job_manager.go:291-317 | a follower pauses and resets, and only a follower does; a sync never happens within 5 s of the last one; the leader syncs when the schema moved on and 5 s have passed |
| TtlRules.TimerSyncIff | pkg/ttl/ttlworker/job_manager.go:291-317 | a follower pauses and resets; the timers are synced exactly by the leader, at least 5 s after the last sync, when the schema moved on or more than 2 min passed |
| TtlRules.CancelReason | pkg/ttl/ttlworker/job_manager.go:620-627 | no reason exactly when TTL jobs are enabled and within the window; a disabled switch is reported first |
| TtlRules.UpdateHeartBeatForJob | pkg/ttl/ttlworker/job_manager.go:960-991 | the job is finished exactly when older than its timeout; the heartbeat succeeds exactly when it is not timed out, the statement succeeds and it updated exactly one row |
| TtlRules.GetJobTrace | pkg/ttl/ttlworker/job_manager.go:1359-1396 | the query's error is returned exactly when the query fails, as it is; otherwise no trace exactly for no row; the trace carries the request id and is finished exactly for the Finished, Timeout and Cancelled statuses of the first row |
| TtlRules.CanSubmitJobWithSession | pkg/ttl/ttlworker/job_manager.go:1255-1313 | an error exactly when the count query fails for a TTL table that has the partition; true exactly when the count is under the task limit |
| TtlRules.CanSubmitJob | pkg/ttl/ttlworker/job_manager.go:1241-1253 | true exactly when the table exists with TTL enabled, the physical id is the table or one of its partitions, and the count query succeeded with a count under the limit; an error gives false |
| TtlRules.CanSubmitMonotone | pkg/ttl/ttlworker/job_manager.go:1302-1311 | raising the task limit never forbids a submission |
| TtlJobList.RemoveFirst | pkg/ttl/ttlworker/job_manager.go:1007-1018 | removes at most one job |
| TtlJobList.RemoveFirstAbsent | pkg/ttl/ttlworker/job_manager.go:1007-1018 | without a matching id the list is unchanged |
| TtlJobList.RemoveFirstAt | pkg/ttl/ttlworker/job_manager.go:1007-1018 | only the first matching job is removed; the others keep their order |
| TtlJobList.RemoveAfterAppend | pkg/ttl/ttlworker/job_manager.go:1007-1022 | removing a job just appended with a fresh id gives the list back |
| TtlJobList.Kept | pkg/ttl/ttlworker/job_manager.go:686-698 | the jobs not marked by a rule, no more than there were |
| TtlJobList.KeptConcat | pkg/ttl/ttlworker/job_manager.go:686-698 | filtering distributes over concatenation |
| TtlJobList.KeptMembers | pkg/ttl/ttlworker/job_manager.go:686-698 | a job is kept exactly when it was there and is not marked |
| TtlJobList.Sweep | pkg/ttl/ttlworker/job_manager.go:522-537 | the reverse-index walk that removes each marked job by its id: it never lengthens the list and keeps only jobs that were there |
| TtlJobList.SweepDistinctFrom | pkg/ttl/ttlworker/job_manager.go:522-537 | with distinct ids, the reverse walk from `i` filters the walked prefix and leaves the rest |
| TtlJobList.SweepKeepsUnmarked | pkg/ttl/ttlworker/job_manager.go:522-537 | with distinct ids, the sweep keeps exactly the unmarked jobs, in order |
| TtlJobList.RemoveFirstShiftsTail | pkg/ttl/ttlworker/job_manager.go:1007-1018 | removing by the id of the job at `i` shifts every later job down by one |
| TtlJobList.SweepLeavesNoMarked | pkg/ttl/ttlworker/job_manager.go:522-537 | whatever the ids, no marked job survives the sweep |
| TtlJobList.SweepDuplicateIds | pkg/ttl/ttlworker/job_manager.go:522-537 | with two jobs of one id, removing the foreign one by id also drops the owned one |
| TtlJobManager.JobManager.constructor | pkg/ttl/ttlworker/job_manager.go:132-158 | a new manager has its id, no running job and empty caches |
| TtlJobManager.JobManager.AppendJob | pkg/ttl/ttlworker/job_manager.go:1020-1022 | the job is added at the end; the caches are unchanged |
| TtlJobManager.JobManager.RemoveJob | pkg/ttl/ttlworker/job_manager.go:1007-1018 | the new list is `RemoveFirst` of the old list; the caches are unchanged |
| TtlJobManager.JobManager.SweepJobs | pkg/ttl/ttlworker/job_manager.go:522-537 | the reverse-index walk leaves no marked job, and with distinct ids leaves exactly the unmarked ones in order |
| TtlJobManager.JobManager.CheckNotOwnJob | pkg/ttl/ttlworker/job_manager.go:522-537 | every remaining job has a cached status owned by this node; with distinct ids exactly the previously owned jobs remain |
| TtlJobManager.JobManager.RescheduleRunningJobs | pkg/ttl/ttlworker/job_manager.go:602-684 | with a cancel reason, the jobs that finish are swept; otherwise the finishing jobs of tables that left the information schema |
| TtlJobManager.JobManager.LocalJobs | pkg/ttl/ttlworker/job_manager.go:686-698 | the ordered subsequence of the running jobs owned by this node; nothing is modified |
| TtlJobManager.JobManager.HasRunningJobFor | pkg/ttl/ttlworker/job_manager.go:708-712 | true exactly when some running job is for the table |
| TtlJobManager.ReadyInWalk | pkg/ttl/ttlworker/job_manager.go:701-720 | the statuses visited in a walk that are ready for take-over, at most one per visited id |
| TtlJobManager.JobManager.ReadyForLockHBTimeoutJobTables | pkg/ttl/ttlworker/job_manager.go:701-720 | the result is the ready statuses in walk order (`ReadyInWalk`); every returned status is cached, has no local running job and satisfies `couldLockJobForExistJob`; every such cached status is returned |
| TtlStrings.DigitChar | pkg/ttl/ttlworker/job_manager.go:85-95 | a digit is a decimal digit character |
| TtlStrings.DigitValue | pkg/ttl/ttlworker/job_manager.go:85-95 | the value of a digit character, inverse of `DigitChar` |
| TtlStrings.NatString | pkg/ttl/ttlworker/job_manager.go:85-95 | the decimal form of a natural number: non-empty digits without a leading zero |
| TtlStrings.Itoa | pkg/ttl/ttlworker/job_manager.go:85-95 | `strconv.Itoa`: digits with a leading minus exactly for negative numbers |
| TtlStrings.ParseNatString | pkg/ttl/ttlworker/job_manager.go:85-95 | parsing undoes the decimal form of a natural number |
| TtlStrings.ParseNegative | pkg/ttl/ttlworker/job_manager.go:85-95 | parsing undoes the decimal form of a negative number |
| TtlStrings.ParseItoa | pkg/ttl/ttlworker/job_manager.go:85-95 | parsing undoes `strconv.Itoa` |
| TtlStrings.ItoaInjective | pkg/ttl/ttlworker/job_manager.go:85-95 | distinct ids have distinct decimal forms |
| TtlStrings.IndexOf | pkg/ttl/ttlworker/job_manager.go:85-95 | the first occurrence of a character |
| TtlStrings.Split | pkg/ttl/ttlworker/job_manager.go:85-95 | splitting at a character gives at least one part |
| TtlStrings.IndexOfAfterPart | pkg/ttl/ttlworker/job_manager.go:85-95 | the first separator after a separator-free part ends it |
| TtlStrings.Join | pkg/ttl/ttlworker/job_manager.go:92 | `strings.Join`, the parts with the separator between consecutive ones: the text starts with the first part, followed by the separator when there are several; `SplitJoin` states its inverse |
| TtlStrings.SplitJoin | pkg/ttl/ttlworker/job_manager.go:85-95 | splitting undoes `strings.Join` when no part contains the separator |
| TtlGcSql.IdStrings | pkg/ttl/ttlworker/job_manager.go:85-95 | one decimal string per id, in order |
| TtlGcSql.GcTTLTableStatusGCSQL | pkg/ttl/ttlworker/job_manager.go:85-95 | the bare template for no id |
| TtlGcSql.ParseIdStrings | pkg/ttl/ttlworker/job_manager.go:85-95 | parsing the decimal strings gives the ids back |
| TtlGcSql.IdStringsHaveNoComma | pkg/ttl/ttlworker/job_manager.go:85-95 | decimal ids never contain the list separator |
| TtlGcSql.GcSqlListsIds | pkg/ttl/ttlworker/job_manager.go:85-95 | for ids, the statement is the template, then ` AND table_id NOT IN (`, a list that parses back to exactly the ids in order, and `)` |
| TtlSummary.FoldCounts | pkg/ttl/ttlworker/job_manager.go:1048-1072 | the loop's counters are the wrapped row sums, the task counts and the errors of the tasks |
| TtlSummary.ErrorText | pkg/ttl/ttlworker/job_manager.go:1069-1071 | the error text: empty for no error, a single error's message as it is, and several messages joined with "; " after the first |
| TtlSummary.Summarize | pkg/ttl/ttlworker/job_manager.go:1048-1072 | the summary the loop builds; with no task error the error text is the message of the error passed in, or empty |
| TtlSummary.SummarizeTaskResultWithError | pkg/ttl/ttlworker/job_manager.go:1048-1072 | the loop computes `Summarize` |
| TtlSummary.TaskCountsOrdered | pkg/ttl/ttlworker/job_manager.go:1061-1067 | finished tasks are no more than scheduled ones, and scheduled no more than all |
| TtlSummary.SummaryCounts | pkg/ttl/ttlworker/job_manager.go:1048-1072 | `TotalScanTask` is the number of tasks and `FinishedScanTask <= ScheduledScanTask <= TotalScanTask` |
| TtlSummary.WrappedRowsIsExactModulo | pkg/ttl/ttlworker/job_manager.go:1052-1056 | each wrapped row counter is the exact sum over the tasks with a state, modulo 2^64 |
| TtlSummary.ModAddStep | pkg/ttl/ttlworker/job_manager.go:1053-1055 | one wrapped addition keeps the counter equal to the exact sum modulo 2^64 |
| TtlSummary.SummaryRowsExact | pkg/ttl/ttlworker/job_manager.go:1048-1072 | the summary's row totals are the sums over the tasks with a state, modulo 2^64 |
| TtlSummary.TaskErrorsExist | pkg/ttl/ttlworker/job_manager.go:1056-1058 | some task error is collected exactly when some task has a scan error, and none is empty |
| TtlSummary.JoinEmpty | pkg/ttl/ttlworker/job_manager.go:1069-1071 | a join with a separator is empty only for no part or one empty part |
| TtlSummary.SummaryErrorIff | pkg/ttl/ttlworker/job_manager.go:1048-1072 | `ScanTaskErr` is non-empty exactly when the error passed in has a message or some task reports a scan error |

## Left out

- Floating point is not modelled. This covers `EncodeFloat`, negative-zero normalisation and the float-to-bytes mapping. A float datum carries its 64-bit comparable image.
- CodecDecode.DecodeAsFloat32 does not round to single precision, because floating point is not modelled. It only checks the flag and the column type.
- Decimal, JSON, vector, collation keys and time packing live in other packages. They appear only through the `Foreign` record of length functions and byte producers. `EncodeOne` writes the bytes those producers give, and decimals, JSON and vectors are not round-tripped (`RoundTrips` excludes them).
- Time zone conversion in `encode` and `DecodeAsDateTime` (`ConvertTimeZone`) is not modelled: a time datum is its packed 64-bit value.
- CodecEncode.Encode takes `EncodeMySQLTime` never to fail (so its early return is not modelled), and takes a bit literal's `ToInt` conversion to succeed, as the source's comment says it does. A decimal's error is modelled: it is carried in the datum beside the serialised bytes.
- CodecOrder.KeyOrder covers null, signed, unsigned, float (by its comparable image), byte-string and duration datums. Strings, times, enums, sets and bits share a flag and a payload form with another kind. `MinNotNull` encodes as a prefix of every byte-string key. Decimal, JSON and vector payloads come from other packages. None of these is ordered by the model.
- CodecDecode.DecodeOne reports `InsufficientBytes` in the JSON branch when the size `PeekBytesAsJSON` gives is 0 or beyond the buffer. Go slices `b[1:size]` and `b[size:]` unchecked there, which panics, and the model has no panics.
- BytesCodec.DecodeCompactBytes returns the `NegativeLength` error for a negative length prefix. The model has no panics, and Go slices out of range there, which panics.
- CodecDecode.DecodeRangeAll keeps the datums decoded before a failure and the error. It drops the remainder that `DecodeRange` returns beside the error.
- TtlJobList.SweepDuplicateIds shows that `removeJob` loses an owned job when two running jobs share an id. Job ids are UUIDs, so this stays latent, and the contracts saying owned jobs survive the sweep require distinct ids.
- `EstimateValueSize`, `preRealloc`, `EncodeMySQLTime`, `SerializeKeys`, `HashChunkColumns`, `HashChunkSelected`, `HashGroupKey`, `HashCode`, `Hash64`, `CutColumnID`, the chunk `Decoder` and the `appendXToChunk` helpers are outside the modelled core.
- CodecHash.HashChunkRow writes to a growing byte sequence. Errors of the `io.Writer`, the reuse of `buf` and the hash state are not modelled.
- CodecDecode.Decode and CodecDecode.DecodeRange ignore the `size` capacity hint, since it only preallocates.
- The `int64` conversion of a buffer length only matters for buffers longer than 2^63 bytes. Contracts that need it require shorter buffers, for example `ValueBytesRoundTrip` and `PeekIffDecodeOne`.
- The `number.go` and `bytes.go` sources are not part of this model, and neither is `encoding/binary`. The primitives are modelled from their use in `codec.go`.
- Everything that runs SQL or talks to storage is left out: `RunInTxn`, `getTableStatusForUpdateNotWait`, the bodies of `lockNewJob`, `lockHBTimeoutJob` and `appendLockedJob`, `DoGC`, `GetDelayMetricRecords`, `findAllTasksForJob` and `checkFinishedJob`. Where a rule consumes a result, that result is a parameter: the affected rows, the statement errors, the row count and the history rows.
- `updateHeartBeat` loops over the jobs and logs. Only the per-job decision `updateHeartBeatForJob` is modelled.
- `job.finish` is the `finishes` parameter of `RescheduleRunningJobs`. The rest of `rescheduleJobs` is not modelled. Its opening loop (job_manager.go:604-616) calls `lockHBTimeoutJob` on each table `readyForLockHBTimeoutJobTables` returns, and a successful lock appends a job through `appendLockedJob` and `appendJob` before the cancel sweep runs. The model starts the sweeps from the list as it stands. The per-job `findAllTasksForJob` and `summarizeTaskResultWithError` calls before `job.finish` are also left out: their outcome is folded into `finishes`.
- The event loop of `jobLoopWithSession`, timers, etcd clients, `triggerTTLJob`, `handleSubmitJobRequest`, metrics and logging are left out (concurrency and I/O). `onTimerTick` is modelled by the action it chooses, and `isLeader` is a parameter.
- The shorter minimum sync duration used under `intest` is left out.
- Go leaves the order of a map walk unspecified. `ReadyForLockHBTimeoutJobTables` takes that order as its `walkOrder` parameter.
- Time is unbounded integer nanoseconds. `createTime + timeout`, `hbTime + timeout` and `2 * interval` do not wrap as `time.Time` and `time.Duration` arithmetic would at their limits.
- TtlSummary.SummarizeTaskResultWithError counts tasks with unbounded integers, since Go's `int` counters cannot overflow for any real task list. It leaves out the JSON text and the JSON errors.
- TtlSummary.ErrorText joins the messages with "; ". That is how `multierr` formats several errors. A single error passed in is kept as it is.
- TtlRules.GetJobTrace does not decode the summary column of the history row (JSON), so the error `json.Unmarshal` can return there is not modelled. The history query's error is a parameter.
- CanSubmitJobWithSession takes the information schema, the task count (as the result of the count query) and `getMaxRunningTasksLimit` as parameters.

## Findings

| source | as written | input that shows it | evidently intended | confidence | as-written member | corrected member |
|---|---|---|---|---|---|---|
| pkg/util/codec/codec.go:1291-1305 | `peekVarint` and `peekUvarint` treat the count `n == 0` of `binary.Varint`/`Uvarint` (buffer ended inside the varint) as a payload of length 0 | `[varintFlag]` or `[uvarintFlag]` alone: `peek` gives 1, while `DecodeOne` fails with "insufficient bytes" | reject `n == 0` as `peekCompactBytes` does, so that `peek` succeeds exactly when `DecodeOne` does | not executed | CodecProps.PeekAsWrittenTruncatedVarint | CodecProps.PeekIffDecodeOne |
| pkg/util/codec/codec.go:1276-1289 | `peekCompactBytes` does not reject a negative length prefix, since `len(b) < vi+n` is false for `vi < 0` | `[compactBytesFlag, 1]` (zig-zag `-1`): `peek` gives 1, while `DecodeOne` panics (slice out of range) | refuse a negative length | not executed | CodecProps.PeekAsWrittenNegativeLength | CodecProps.PeekCompactBytesOfDecode |
