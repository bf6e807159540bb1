/** What the codec promises across its operations: `peek` measures exactly
    what `DecodeOne` consumes, decoding undoes encoding, and the two places
    where `peek` as written accepts what `DecodeOne` refuses. */
module CodecProps {
  import opened Common
  import opened CodecErrors
  import opened Number
  import opened BytesCodec
  import opened CodecTypes
  import opened CodecEncode
  import opened CodecPeek
  import opened CodecDecode

  // ---------------------------------------------------------------------------
  // peek against DecodeOne

  /** The flags whose payload carries its own length, so that `peek` and
      `DecodeOne` can be compared without the foreign length functions. */
  predicate SelfDelimited(flag: byte) {
    flag in {NilFlag, CompactBytesFlag, IntFlag, UintFlag, FloatFlag, DurationFlag, VarintFlag, UvarintFlag}
  }

  /** One group of `peekBytes`: a full group moves on, any other ends the element. */
  lemma PeekBytesFromStep(b: seq<byte>, offset: nat)
    requires offset + EncGroupSize + 1 <= |b|
    ensures b[offset + EncGroupSize] == EncMarker ==> PeekBytesFrom(b, offset) == PeekBytesFrom(b, offset + EncGroupSize + 1)
    ensures b[offset + EncGroupSize] != EncMarker ==> PeekBytesFrom(b, offset) == Ok(offset + EncGroupSize + 1)
  {
  }

  /** One group of a successful `DecodeBytes`. */
  lemma DecodeBytesStep(c: seq<byte>)
    requires DecodeBytes(c).Ok?
    ensures |c| >= EncGroupSize + 1
    ensures c[EncGroupSize] == EncMarker ==>
      DecodeBytes(c[EncGroupSize + 1..]).Ok? && DecodeBytes(c).value.0 == DecodeBytes(c[EncGroupSize + 1..]).value.0
    ensures c[EncGroupSize] != EncMarker ==> DecodeBytes(c).value.0 == c[EncGroupSize + 1..]
  {
  }

  /** `peekBytes` measures what `DecodeBytes` consumes from `offset` on. */
  lemma {:induction false} PeekBytesOfDecodeBytes(b: seq<byte>, offset: nat)
    requires offset <= |b| && DecodeBytes(b[offset..]).Ok?
    ensures PeekBytesFrom(b, offset) == Ok(|b| - |DecodeBytes(b[offset..]).value.0|)
    decreases |b| - offset
  {
    var c := b[offset..];
    DecodeBytesStep(c);
    PeekBytesFromStep(b, offset);
    assert c[EncGroupSize] == b[offset + EncGroupSize];
    if c[EncGroupSize] == EncMarker {
      assert c[EncGroupSize + 1..] == b[offset + EncGroupSize + 1..];
      PeekBytesOfDecodeBytes(b, offset + EncGroupSize + 1);
    }
  }

  /** The length `peekCompactBytes` gives is what `DecodeCompactBytes` consumes,
      and one succeeds exactly when the other does. */
  lemma PeekCompactBytesOfDecode(rest: seq<byte>)
    requires |rest| < TwoTo63 - 1
    ensures PeekCompactBytes(rest).Ok? <==> DecodeCompactBytes(rest).Ok?
    ensures PeekCompactBytes(rest).Ok? ==> PeekCompactBytes(rest).value == |rest| - |DecodeCompactBytes(rest).value.0|
  {
    var (vi, n) := Varint(rest);
    if n > 0 && vi >= 0 {
      assert DecodeVarint(rest).Ok?;
      var rem := DecodeVarint(rest).value.0;
      assert |rem| == |rest| - n;
      if |rest| >= vi + n {
        assert AddInt(vi, n) == vi + n;
        assert AddInt(n, vi) == n + vi;
      }
    }
  }

  /** For the self-delimited flags the corrected `peek` succeeds exactly when
      `DecodeOne` does, and then measures exactly what `DecodeOne` consumes. */
  lemma PeekIffDecodeOne(f: Foreign, b: seq<byte>)
    requires |b| > 0 && SelfDelimited(b[0]) && |b| < TwoTo63
    ensures Peek(f, b).Ok? <==> DecodeOne(f, b).Ok?
    ensures DecodeOne(f, b).Ok? ==> Peek(f, b).value == |b| - |DecodeOne(f, b).value.0|
  {
    var rest := b[1..];
    if b[0] == CompactBytesFlag {
      PeekCompactBytesOfDecode(rest);
    } else if b[0] == VarintFlag {
      assert DecodeVarint(rest).Ok? <==> Uvarint(rest).1 > 0;
    } else if b[0] == UvarintFlag {
      assert DecodeUvarint(rest).Ok? <==> Uvarint(rest).1 > 0;
    }
  }

  /** A group-form element that `DecodeOne` accepts is measured by `peek` as
      exactly what it consumes. (`peek` does not check the padding, so the
      converse does not hold.) */
  lemma PeekOfDecodedBytes(f: Foreign, b: seq<byte>)
    requires |b| > 0 && b[0] == BytesFlag && |b| < TwoTo63
    requires DecodeOne(f, b).Ok?
    ensures Peek(f, b) == Ok(|b| - |DecodeOne(f, b).value.0|)
  {
    var rest := b[1..];
    assert DecodeBytes(rest).Ok? && DecodeOne(f, b).value.0 == DecodeBytes(rest).value.0;
    assert rest[0..] == rest;
    PeekBytesOfDecodeBytes(rest, 0);
    assert PayloadLength(f, b[0], rest) == PeekBytesFrom(rest, 0);
  }

  /** `peek` accepts group-form bytes with bad padding that `DecodeOne`
      refuses: the converse of `PeekOfDecodedBytes` fails. */
  lemma PeekBytesIgnoresPadding(f: Foreign)
    ensures Peek(f, [BytesFlag, 1, 1, 1, 1, 1, 1, 1, 1, EncMarker - 1]) == Ok(10)
    ensures DecodeOne(f, [BytesFlag, 1, 1, 1, 1, 1, 1, 1, 1, EncMarker - 1]) == Err(InvalidPadding)
  {
    var b: seq<byte> := [BytesFlag, 1, 1, 1, 1, 1, 1, 1, 1, EncMarker - 1];
    var rest := b[1..];
    assert rest[8] == EncMarker - 1;
    assert rest[..8][7] == 1;
    assert !PaddingOk(rest[..8], 7);
  }

  // ---------------------------------------------------------------------------
  // The two places where peek as written disagrees with DecodeOne.

  /** `peekVarint` as written measures a varint flag with nothing after it as
      one byte, although there is no varint to decode. */
  lemma PeekAsWrittenTruncatedVarint(f: Foreign)
    ensures PeekAsWritten(f, [VarintFlag]) == Ok(1)
    ensures PeekAsWritten(f, [UvarintFlag]) == Ok(1)
    ensures DecodeOne(f, [VarintFlag]) == Err(InsufficientBytes)
    ensures DecodeOne(f, [UvarintFlag]) == Err(InsufficientBytes)
    ensures Peek(f, [VarintFlag]) == Err(InsufficientBytes)
    ensures Peek(f, [UvarintFlag]) == Err(InsufficientBytes)
  {
    var empty: seq<byte> := [];
    assert [VarintFlag][1..] == empty;
    assert [UvarintFlag][1..] == empty;
    assert Uvarint(empty).1 == 0;
  }

  /** `peekCompactBytes` as written takes the length prefix `-1` (the zig-zag
      byte `0x01`) and measures the element as the flag alone, leaving its
      length byte to be read as the next element. */
  lemma PeekAsWrittenNegativeLength(f: Foreign)
    ensures PeekAsWritten(f, [CompactBytesFlag, 1]) == Ok(1)
    ensures DecodeOne(f, [CompactBytesFlag, 1]).Err?
    ensures Peek(f, [CompactBytesFlag, 1]) == Err(NegativeLength(-1))
  {
    var rest: seq<byte> := [1];
    assert [CompactBytesFlag, 1][1..] == rest;
    assert rest[1..] == [];
    assert Uvarint(rest) == (1, 1);
    assert Varint(rest) == (-1, 1);
  }

  // ---------------------------------------------------------------------------
  // Decoding undoes encoding.

  /** The datums `DecodeOne` gives back whole (decimal, JSON and vector payloads
      depend on the foreign length functions; the compact form's length
      prefix holds byte strings shorter than 2^63). */
  predicate RoundTrips(d: Datum, comparable: bool, newCollation: bool) {
    match d
    case Str(raw, key) => comparable || |raw| < TwoTo63
    case Bytes(b) => comparable || |b| < TwoTo63
    case _ => d.Null? || d.Int64? || d.Uint64? || d.Float? || d.Time? || d.Duration? || d.Enum? || d.Set? || d.Bit?
  }

  /** What `DecodeOne` gives back for an encoded datum: times, enums, sets and
      bits come back as the unsigned integers they were written as, strings as
      the bytes that were written for them. */
  function Decoded(d: Datum, comparable: bool, newCollation: bool): Datum {
    match d
    case Time(p) => Uint64(p)
    case Enum(v) => Uint64(v)
    case Set(v) => Uint64(v)
    case Bit(v) => Uint64(v)
    case Str(raw, key) => Bytes(if newCollation && comparable then key else raw)
    case _ => d
  }

  function DecodedList(vs: seq<Datum>, comparable: bool, newCollation: bool): (r: seq<Datum>)
    ensures |r| == |vs|
  {
    if |vs| == 0 then [] else [Decoded(vs[0], comparable, newCollation)] + DecodedList(vs[1..], comparable, newCollation)
  }

  // One lemma per flag: what `DecodeOne` makes of the flag and a payload
  // whose own decoder succeeds.

  lemma DecodeOneIntFlag(f: Foreign, p: seq<byte>, rest: seq<byte>, v: i64)
    requires DecodeInt(p) == Ok((rest, v))
    ensures DecodeOne(f, [IntFlag] + p) == Ok((rest, Int64(v)))
  {
    assert ([IntFlag] + p)[1..] == p;
  }

  lemma DecodeOneUintFlag(f: Foreign, p: seq<byte>, rest: seq<byte>, v: u64)
    requires DecodeUint(p) == Ok((rest, v))
    ensures DecodeOne(f, [UintFlag] + p) == Ok((rest, Uint64(v)))
  {
    assert ([UintFlag] + p)[1..] == p;
  }

  lemma DecodeOneVarintFlag(f: Foreign, p: seq<byte>, rest: seq<byte>, v: i64)
    requires DecodeVarint(p) == Ok((rest, v))
    ensures DecodeOne(f, [VarintFlag] + p) == Ok((rest, Int64(v)))
  {
    assert ([VarintFlag] + p)[1..] == p;
  }

  lemma DecodeOneUvarintFlag(f: Foreign, p: seq<byte>, rest: seq<byte>, v: u64)
    requires DecodeUvarint(p) == Ok((rest, v))
    ensures DecodeOne(f, [UvarintFlag] + p) == Ok((rest, Uint64(v)))
  {
    assert ([UvarintFlag] + p)[1..] == p;
  }

  lemma DecodeOneFloatFlag(f: Foreign, p: seq<byte>, rest: seq<byte>, v: u64)
    requires DecodeFloat(p) == Ok((rest, v))
    ensures DecodeOne(f, [FloatFlag] + p) == Ok((rest, Float(v)))
  {
    assert ([FloatFlag] + p)[1..] == p;
  }

  lemma DecodeOneDurationFlag(f: Foreign, p: seq<byte>, rest: seq<byte>, v: i64)
    requires DecodeInt(p) == Ok((rest, v))
    ensures DecodeOne(f, [DurationFlag] + p) == Ok((rest, Duration(v)))
  {
    assert ([DurationFlag] + p)[1..] == p;
  }

  lemma DecodeOneBytesFlag(f: Foreign, p: seq<byte>, rest: seq<byte>, v: seq<byte>)
    requires DecodeBytes(p) == Ok((rest, v))
    ensures DecodeOne(f, [BytesFlag] + p) == Ok((rest, Bytes(v)))
  {
    assert ([BytesFlag] + p)[1..] == p;
  }

  lemma DecodeOneCompactBytesFlag(f: Foreign, p: seq<byte>, rest: seq<byte>, v: seq<byte>)
    requires DecodeCompactBytes(p) == Ok((rest, v))
    ensures DecodeOne(f, [CompactBytesFlag] + p) == Ok((rest, Bytes(v)))
  {
    assert ([CompactBytesFlag] + p)[1..] == p;
  }

  lemma KeyIntRoundTrip(f: Foreign, v: i64, rest: seq<byte>)
    ensures DecodeOne(f, [IntFlag] + EncodeInt(v) + rest) == Ok((rest, Int64(v)))
  {
    DecodeIntOfEncodeInt(v, rest);
    DecodeOneIntFlag(f, EncodeInt(v) + rest, rest, v);
    assert [IntFlag] + EncodeInt(v) + rest == [IntFlag] + (EncodeInt(v) + rest);
  }

  lemma ValueIntRoundTrip(f: Foreign, v: i64, rest: seq<byte>)
    ensures DecodeOne(f, [VarintFlag] + PutVarint(v) + rest) == Ok((rest, Int64(v)))
  {
    DecodeVarintOfPutVarint(v, rest);
    DecodeOneVarintFlag(f, PutVarint(v) + rest, rest, v);
    assert [VarintFlag] + PutVarint(v) + rest == [VarintFlag] + (PutVarint(v) + rest);
  }

  lemma KeyUintRoundTrip(f: Foreign, v: u64, rest: seq<byte>)
    ensures DecodeOne(f, [UintFlag] + EncodeUint(v) + rest) == Ok((rest, Uint64(v)))
  {
    DecodeUintOfEncodeUint(v, rest);
    DecodeOneUintFlag(f, EncodeUint(v) + rest, rest, v);
    assert [UintFlag] + EncodeUint(v) + rest == [UintFlag] + (EncodeUint(v) + rest);
  }

  lemma ValueUintRoundTrip(f: Foreign, v: u64, rest: seq<byte>)
    ensures DecodeOne(f, [UvarintFlag] + PutUvarint(v) + rest) == Ok((rest, Uint64(v)))
  {
    DecodeUvarintOfPutUvarint(v, rest);
    DecodeOneUvarintFlag(f, PutUvarint(v) + rest, rest, v);
    assert [UvarintFlag] + PutUvarint(v) + rest == [UvarintFlag] + (PutUvarint(v) + rest);
  }

  lemma FloatRoundTrip(f: Foreign, v: u64, rest: seq<byte>)
    ensures DecodeOne(f, [FloatFlag] + EncodeUint(v) + rest) == Ok((rest, Float(v)))
  {
    DecodeUintOfEncodeUint(v, rest);
    DecodeOneFloatFlag(f, EncodeUint(v) + rest, rest, v);
    assert [FloatFlag] + EncodeUint(v) + rest == [FloatFlag] + (EncodeUint(v) + rest);
  }

  lemma DurationRoundTrip(f: Foreign, v: i64, rest: seq<byte>)
    ensures DecodeOne(f, [DurationFlag] + EncodeInt(v) + rest) == Ok((rest, Duration(v)))
  {
    DecodeIntOfEncodeInt(v, rest);
    DecodeOneDurationFlag(f, EncodeInt(v) + rest, rest, v);
    assert [DurationFlag] + EncodeInt(v) + rest == [DurationFlag] + (EncodeInt(v) + rest);
  }

  lemma KeyBytesRoundTrip(f: Foreign, v: seq<byte>, rest: seq<byte>)
    ensures DecodeOne(f, [BytesFlag] + EncodeBytes(v) + rest) == Ok((rest, Bytes(v)))
  {
    DecodeBytesOfEncodeBytes(v, rest);
    DecodeOneBytesFlag(f, EncodeBytes(v) + rest, rest, v);
    assert [BytesFlag] + EncodeBytes(v) + rest == [BytesFlag] + (EncodeBytes(v) + rest);
  }

  lemma ValueBytesRoundTrip(f: Foreign, v: seq<byte>, rest: seq<byte>)
    requires |v| < TwoTo63
    ensures DecodeOne(f, [CompactBytesFlag] + EncodeCompactBytes(v) + rest) == Ok((rest, Bytes(v)))
  {
    DecodeCompactBytesOfEncode(v, rest);
    DecodeOneCompactBytesFlag(f, EncodeCompactBytes(v) + rest, rest, v);
    assert [CompactBytesFlag] + EncodeCompactBytes(v) + rest == [CompactBytesFlag] + (EncodeCompactBytes(v) + rest);
  }

  lemma SignedIntRoundTrip(f: Foreign, v: i64, comparable: bool, rest: seq<byte>)
    ensures DecodeOne(f, EncodeSignedInt(v, comparable) + rest) == Ok((rest, Int64(v)))
  {
    if comparable { KeyIntRoundTrip(f, v, rest); } else { ValueIntRoundTrip(f, v, rest); }
  }

  lemma UnsignedIntRoundTrip(f: Foreign, v: u64, comparable: bool, rest: seq<byte>)
    ensures DecodeOne(f, EncodeUnsignedInt(v, comparable) + rest) == Ok((rest, Uint64(v)))
  {
    if comparable { KeyUintRoundTrip(f, v, rest); } else { ValueUintRoundTrip(f, v, rest); }
  }

  lemma BytesRoundTrip(f: Foreign, v: seq<byte>, comparable: bool, rest: seq<byte>)
    requires comparable || |v| < TwoTo63
    ensures DecodeOne(f, EncodeBytesElement(v, comparable) + rest) == Ok((rest, Bytes(v)))
  {
    if comparable { KeyBytesRoundTrip(f, v, rest); } else { ValueBytesRoundTrip(f, v, rest); }
  }

  /** `DecodeOne` reads back one encoded datum and stops exactly where the
      next element starts. */
  lemma DecodeOneOfEncodeOne(f: Foreign, d: Datum, comparable: bool, newCollation: bool, rest: seq<byte>)
    requires RoundTrips(d, comparable, newCollation)
    ensures EncodeOne(d, comparable, newCollation).Ok?
    ensures DecodeOne(f, EncodeOne(d, comparable, newCollation).value + rest) == Ok((rest, Decoded(d, comparable, newCollation)))
  {
    match d {
      case Null =>
        assert ([NilFlag] + rest)[1..] == rest;
      case Int64(v) => SignedIntRoundTrip(f, v, comparable, rest);
      case Uint64(v) => UnsignedIntRoundTrip(f, v, comparable, rest);
      case Float(image) => FloatRoundTrip(f, image, rest);
      case Str(raw, key) =>
        if newCollation && comparable {
          BytesRoundTrip(f, key, true, rest);
        } else {
          BytesRoundTrip(f, raw, comparable, rest);
        }
      case Bytes(v) => BytesRoundTrip(f, v, comparable, rest);
      case Time(p) => KeyUintRoundTrip(f, p, rest);
      case Duration(n) => DurationRoundTrip(f, n, rest);
      case Enum(v) => UnsignedIntRoundTrip(f, v, comparable, rest);
      case Set(v) => UnsignedIntRoundTrip(f, v, comparable, rest);
      case Bit(v) => UnsignedIntRoundTrip(f, v, comparable, rest);
    }
  }

  /** A time column reads an encoded time back as the same packed time. */
  lemma DecodeAsDateTimeOfTime(p: u64, comparable: bool, newCollation: bool, rest: seq<byte>)
    ensures DecodeAsDateTime(EncodeOne(Time(p), comparable, newCollation).value + rest) == Ok((rest, Time(p)))
  {
    DecodeUintOfEncodeUint(p, rest);
    assert ([UintFlag] + EncodeUint(p) + rest)[1..] == EncodeUint(p) + rest;
  }

  /** Decoding an encoded row gives back every datum, in order. */
  lemma {:induction false} DecodeListOfEncodeAll(f: Foreign, vs: seq<Datum>, comparable: bool, newCollation: bool)
    requires forall k :: 0 <= k < |vs| ==> RoundTrips(vs[k], comparable, newCollation)
    ensures EncodeAll(vs, comparable, newCollation).1.None?
    ensures DecodeList(f, EncodeAll(vs, comparable, newCollation).0) == Ok(DecodedList(vs, comparable, newCollation))
    decreases |vs|
  {
    if |vs| > 0 {
      DecodeOneOfEncodeOne(f, vs[0], comparable, newCollation, EncodeAll(vs[1..], comparable, newCollation).0);
      DecodeListOfEncodeAll(f, vs[1..], comparable, newCollation);
    }
  }

  /** `Decode(EncodeKey(vs))` and `Decode(EncodeValue(vs))`, for a non-empty row. */
  lemma DecodeAllOfEncodeAll(f: Foreign, vs: seq<Datum>, comparable: bool, newCollation: bool)
    requires |vs| > 0
    requires forall k :: 0 <= k < |vs| ==> RoundTrips(vs[k], comparable, newCollation)
    ensures DecodeAll(f, EncodeAll(vs, comparable, newCollation).0) == Ok(DecodedList(vs, comparable, newCollation))
  {
    DecodeListOfEncodeAll(f, vs, comparable, newCollation);
    assert EncodeOne(vs[0], comparable, newCollation).Ok?;
  }

  /** Null, integer and byte-string datums come back unchanged. */
  lemma {:induction false} DecodedListPlain(vs: seq<Datum>, comparable: bool, newCollation: bool)
    requires forall k :: 0 <= k < |vs| ==> vs[k].Null? || vs[k].Int64? || vs[k].Uint64? || vs[k].Bytes?
    ensures DecodedList(vs, comparable, newCollation) == vs
    decreases |vs|
  {
    if |vs| > 0 {
      DecodedListPlain(vs[1..], comparable, newCollation);
      assert [vs[0]] + vs[1..] == vs;
    }
  }

  /** `Decode(EncodeKey(vs))` yields `vs` for Int64, Uint64, Bytes and Null
      datums. */
  lemma DecodeOfEncodeKey(f: Foreign, vs: seq<Datum>, newCollation: bool)
    requires |vs| > 0
    requires forall k :: 0 <= k < |vs| ==> vs[k].Null? || vs[k].Int64? || vs[k].Uint64? || vs[k].Bytes?
    ensures DecodeAll(f, EncodeAll(vs, true, newCollation).0) == Ok(vs)
  {
    DecodeAllOfEncodeAll(f, vs, true, newCollation);
    DecodedListPlain(vs, true, newCollation);
  }

  // ---------------------------------------------------------------------------
  // Measuring encoded elements.

  /** The flag of every datum that round-trips is one `peek` measures without
      the foreign length functions. */
  lemma EncodeOneFlag(d: Datum, comparable: bool, newCollation: bool)
    requires RoundTrips(d, comparable, newCollation)
    ensures EncodeOne(d, comparable, newCollation).Ok?
    ensures var e := EncodeOne(d, comparable, newCollation).value;
      SelfDelimited(e[0]) || e[0] == BytesFlag
  {
  }

  /** `peek` measures what `DecodeOne` consumes, for every flag but the
      foreign ones. */
  lemma PeekOfDecodeOne(f: Foreign, b: seq<byte>)
    requires |b| > 0 && (SelfDelimited(b[0]) || b[0] == BytesFlag) && |b| < TwoTo63
    requires DecodeOne(f, b).Ok?
    ensures Peek(f, b) == Ok(|b| - |DecodeOne(f, b).value.0|)
  {
    if b[0] == BytesFlag {
      PeekOfDecodedBytes(f, b);
    } else {
      PeekIffDecodeOne(f, b);
    }
  }

  /** Both `peek`s measure an encoded datum exactly, whatever follows it, so
      `CutOne` cuts it off whole. */
  lemma PeekOfEncodeOne(f: Foreign, d: Datum, comparable: bool, newCollation: bool, rest: seq<byte>)
    requires RoundTrips(d, comparable, newCollation)
    requires |EncodeOne(d, comparable, newCollation).value| + |rest| < TwoTo63
    ensures Peek(f, EncodeOne(d, comparable, newCollation).value + rest) == Ok(|EncodeOne(d, comparable, newCollation).value|)
    ensures PeekAsWritten(f, EncodeOne(d, comparable, newCollation).value + rest) == Ok(|EncodeOne(d, comparable, newCollation).value|)
    ensures CutOne(f, EncodeOne(d, comparable, newCollation).value + rest) == Ok((EncodeOne(d, comparable, newCollation).value, rest))
  {
    var e := EncodeOne(d, comparable, newCollation).value;
    var b := e + rest;
    DecodeOneOfEncodeOne(f, d, comparable, newCollation, rest);
    EncodeOneFlag(d, comparable, newCollation);
    assert b[0] == e[0];
    PeekOfDecodeOne(f, b);
    PeekAsWrittenAgrees(f, b);
    assert b[..|e|] == e && b[|e|..] == rest;
  }

  // ---------------------------------------------------------------------------
  // DecodeRange on an encoded key.

  /** A datum that can stand as the trailing sentinel of a range key. */
  predicate Sentinel(d: Datum) {
    d.Null? || d.MinNotNull? || d.MaxValue?
  }

  /** A sentinel alone is read back as itself. */
  lemma DecodeRangeOfSentinel(f: Foreign, s: Datum, newCollation: bool, i: nat)
    requires Sentinel(s)
    ensures DecodeRangeFrom(f, EncodeOne(s, true, newCollation).value, None, i) == ([s], None)
  {
  }

  /** One element of `DecodeRange` without column types. */
  lemma DecodeRangeFromStep(f: Foreign, e: seq<byte>, later: seq<byte>, d: Datum, ds: seq<Datum>, i: nat)
    requires |e| >= 1 && |later| >= 1 && DecodeOne(f, e + later) == Ok((later, d))
    requires DecodeRangeFrom(f, later, None, i + 1) == (ds, None)
    ensures DecodeRangeFrom(f, e + later, None, i) == ([d] + ds, None)
  {
  }

  lemma EncodeAllCons(vs: seq<Datum>, comparable: bool, newCollation: bool)
    requires |vs| > 0 && EncodeOne(vs[0], comparable, newCollation).Ok?
    ensures EncodeAll(vs, comparable, newCollation).0
      == EncodeOne(vs[0], comparable, newCollation).value + EncodeAll(vs[1..], comparable, newCollation).0
    ensures EncodeAll(vs, comparable, newCollation).1 == EncodeAll(vs[1..], comparable, newCollation).1
  {
  }

  lemma EncodeAllConsTail(vs: seq<Datum>, tail: seq<byte>, comparable: bool, newCollation: bool)
    requires |vs| > 0 && RoundTrips(vs[0], comparable, newCollation)
    ensures EncodeAll(vs, comparable, newCollation).0 + tail
      == EncodeOne(vs[0], comparable, newCollation).value + (EncodeAll(vs[1..], comparable, newCollation).0 + tail)
  {
    EncodeAllCons(vs, comparable, newCollation);
  }

  lemma DecodedListConsTail(vs: seq<Datum>, s: Datum, comparable: bool, newCollation: bool)
    requires |vs| > 0
    ensures [Decoded(vs[0], comparable, newCollation)] + (DecodedList(vs[1..], comparable, newCollation) + [s])
      == DecodedList(vs, comparable, newCollation) + [s]
  {
    assert DecodedList(vs, comparable, newCollation) == [Decoded(vs[0], comparable, newCollation)] + DecodedList(vs[1..], comparable, newCollation);
  }

  /** One datum more in front of a key that `DecodeRange` reads back. */
  lemma DecodeRangeOfKeyStep(f: Foreign, vs: seq<Datum>, s: Datum, newCollation: bool, i: nat)
    requires |vs| > 0 && RoundTrips(vs[0], true, newCollation) && Sentinel(s)
    requires DecodeRangeFrom(f, EncodeAll(vs[1..], true, newCollation).0 + EncodeOne(s, true, newCollation).value, None, i + 1)
      == (DecodedList(vs[1..], true, newCollation) + [s], None)
    ensures DecodeRangeFrom(f, EncodeAll(vs, true, newCollation).0 + EncodeOne(s, true, newCollation).value, None, i)
      == (DecodedList(vs, true, newCollation) + [s], None)
  {
    var tail := EncodeOne(s, true, newCollation).value;
    var later := EncodeAll(vs[1..], true, newCollation).0 + tail;
    DecodeOneOfEncodeOne(f, vs[0], true, newCollation, later);
    EncodeAllConsTail(vs, tail, true, newCollation);
    DecodedListConsTail(vs, s, true, newCollation);
    DecodeRangeFromStep(f, EncodeOne(vs[0], true, newCollation).value, later, Decoded(vs[0], true, newCollation),
      DecodedList(vs[1..], true, newCollation) + [s], i);
  }

  /** `DecodeRange` without column types reads back an encoded key followed by
      a sentinel, every datum and the sentinel itself. */
  lemma {:induction false} DecodeRangeOfKey(f: Foreign, vs: seq<Datum>, s: Datum, newCollation: bool, i: nat)
    requires forall k :: 0 <= k < |vs| ==> RoundTrips(vs[k], true, newCollation)
    requires Sentinel(s)
    ensures DecodeRangeFrom(f, EncodeAll(vs, true, newCollation).0 + EncodeOne(s, true, newCollation).value, None, i)
      == (DecodedList(vs, true, newCollation) + [s], None)
    decreases |vs|
  {
    if |vs| == 0 {
      assert EncodeAll(vs, true, newCollation).0 + EncodeOne(s, true, newCollation).value == EncodeOne(s, true, newCollation).value;
      assert DecodedList(vs, true, newCollation) + [s] == [s];
      DecodeRangeOfSentinel(f, s, newCollation, i);
    } else {
      assert forall k :: 0 <= k < |vs[1..]| ==> vs[1..][k] == vs[k + 1];
      DecodeRangeOfKey(f, vs[1..], s, newCollation, i + 1);
      DecodeRangeOfKeyStep(f, vs, s, newCollation, i);
    }
  }
}
