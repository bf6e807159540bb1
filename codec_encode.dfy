/** Encoding datums: the flag and payload each kind gets in key (comparable)
    mode and in value (compact) mode, the `encode` loop over a row of datums,
    and the size estimators. */
module CodecEncode {
  import opened Common
  import opened CodecErrors
  import opened Number
  import opened BytesCodec
  import opened CodecTypes

  /** `encodeSignedInt`: `intFlag` and eight comparable bytes in key mode,
      `varintFlag` and a zig-zag varint in value mode. */
  function EncodeSignedInt(v: i64, comparable: bool): (r: seq<byte>)
    ensures comparable ==> |r| == 9 && r[0] == IntFlag
    ensures !comparable ==> 2 <= |r| <= 1 + MaxVarintLen64 && r[0] == VarintFlag
  {
    if comparable then [IntFlag] + EncodeInt(v)
    else
      PutUvarintLength(ZigZag(v));
      [VarintFlag] + PutVarint(v)
  }

  /** `encodeUnsignedInt`: `uintFlag` and eight bytes in key mode, `uvarintFlag`
      and a varint in value mode. */
  function EncodeUnsignedInt(v: u64, comparable: bool): (r: seq<byte>)
    ensures comparable ==> |r| == 9 && r[0] == UintFlag
    ensures !comparable ==> 2 <= |r| <= 1 + MaxVarintLen64 && r[0] == UvarintFlag
  {
    if comparable then [UintFlag] + EncodeUint(v)
    else
      PutUvarintLength(v);
      [UvarintFlag] + PutUvarint(v)
  }

  /** `encodeBytes`: `bytesFlag` and the group form in key mode,
      `compactBytesFlag` and the length-prefixed form in value mode. */
  function EncodeBytesElement(v: seq<byte>, comparable: bool): (r: seq<byte>)
    ensures |r| >= 2
    ensures r[0] == (if comparable then BytesFlag else CompactBytesFlag)
  {
    if comparable then [BytesFlag] + EncodeBytes(v)
    else [CompactBytesFlag] + EncodeCompactBytes(v)
  }

  /** One step of `encode`: the bytes appended for one datum, or the error for
      a kind the codec cannot write. */
  function EncodeOne(d: Datum, comparable: bool, newCollation: bool): (r: Res<seq<byte>>)
    ensures r.Err? <==> d.Raw? || d.Interface?
    ensures r.Err? ==> r.error == UnsupportedEncodeType
    ensures r.Ok? ==> |r.value| >= 1
    ensures d.Null? ==> r == Ok([NilFlag])
    ensures d.MinNotNull? ==> r == Ok([BytesFlag])
    ensures d.MaxValue? ==> r == Ok([MaxFlag])
  {
    match d
    case Null => Ok([NilFlag])
    case Int64(v) => Ok(EncodeSignedInt(v, comparable))
    case Uint64(v) => Ok(EncodeUnsignedInt(v, comparable))
    case Float(image) => Ok([FloatFlag] + EncodeUint(image))
    case Str(raw, key) =>
      // `encodeString`: with the new collations a key uses the collation's sort key.
      if newCollation && comparable then Ok(EncodeBytesElement(key, true))
      else Ok(EncodeBytesElement(raw, comparable))
    case Bytes(b) => Ok(EncodeBytesElement(b, comparable))
    // `EncodeMySQLTime`: the packed time as eight bytes, in both modes.
    case Time(packed) => Ok([UintFlag] + EncodeUint(packed))
    case Duration(nanos) => Ok([DurationFlag] + EncodeInt(nanos))
    // `EncodeDecimal`'s bytes are appended whether or not it reports an error.
    case Decimal(serialized, _) => Ok([DecimalFlag] + serialized)
    case Enum(v) => Ok(EncodeUnsignedInt(v, comparable))
    case Set(v) => Ok(EncodeUnsignedInt(v, comparable))
    case Bit(v) => Ok(EncodeUnsignedInt(v, comparable))
    case Json(typeCode, value) => Ok([JsonFlag, typeCode] + value)
    case Vector(serialized) => Ok([VectorFloat32Flag] + serialized)
    case MinNotNull => Ok([BytesFlag])
    case MaxValue => Ok([MaxFlag])
    case Raw(_) => Err(UnsupportedEncodeType)
    case Interface => Err(UnsupportedEncodeType)
  }

  /** What `encode` appends for `vals`, and the error that stopped it: the
      elements before the first unsupported datum are written, nothing after. */
  function EncodeAll(vals: seq<Datum>, comparable: bool, newCollation: bool): (r: (seq<byte>, Option<CodecError>))
    ensures r.1.None? ==> |r.0| >= |vals|
    decreases |vals|
  {
    if |vals| == 0 then ([], None)
    else match EncodeOne(vals[0], comparable, newCollation)
      case Err(e) => ([], Some(e))
      case Ok(head) =>
        var tail := EncodeAll(vals[1..], comparable, newCollation);
        (head + tail.0, tail.1)
  }

  /** `encode` stops with an error exactly when some datum is of a kind it
      cannot write. */
  lemma {:induction false} EncodeAllSucceeds(vals: seq<Datum>, comparable: bool, newCollation: bool)
    ensures EncodeAll(vals, comparable, newCollation).1.None? <==>
      forall k :: 0 <= k < |vals| ==> EncodeOne(vals[k], comparable, newCollation).Ok?
    decreases |vals|
  {
    if |vals| > 0 {
      EncodeAllSucceeds(vals[1..], comparable, newCollation);
      assert forall k :: 1 <= k < |vals| ==> vals[k] == vals[1..][k - 1];
    }
  }

  /** How one datum leaves the error variable `encode` carries from datum to
      datum: a decimal sets it to what its encoder reported, a time (whose
      encoder succeeded, or `encode` would have stopped) and a bit literal
      (whose conversion to `uint64` is taken to succeed) clear it, every
      other kind leaves it alone. */
  function Assigned(d: Datum, err: Option<CodecError>): Option<CodecError> {
    match d
    case Decimal(_, failure) => failure
    case Time(_) => None
    case Bit(_) => None
    case _ => err
  }

  /** Whether `d` is of a kind that writes the carried error variable. */
  predicate AssignsError(d: Datum) {
    d.Decimal? || d.Time? || d.Bit?
  }

  /** `vals[k]` is the last datum of `vals` that writes the carried error. */
  predicate LastAssignment(vals: seq<Datum>, k: nat)
    requires k < |vals|
  {
    AssignsError(vals[k]) && forall j :: k < j < |vals| ==> !AssignsError(vals[j])
  }

  /** The carried error after all of `vals`: the assignment of the last datum
      that makes one. */
  function CarriedError(vals: seq<Datum>): Option<CodecError>
    decreases |vals|
  {
    if |vals| == 0 then None
    else Assigned(vals[|vals| - 1], CarriedError(vals[..|vals| - 1]))
  }

  /** The carried error is the failure of the last decimal when no time or
      bit datum follows it, and none when no decimal, time or bit datum
      occurs at all. */
  lemma {:induction false} CarriedErrorIsLastAssignment(vals: seq<Datum>)
    ensures (forall k :: 0 <= k < |vals| ==> !AssignsError(vals[k])) ==> CarriedError(vals).None?
    ensures forall k :: 0 <= k < |vals| && LastAssignment(vals, k) ==>
      CarriedError(vals) == (if vals[k].Decimal? then vals[k].failure else None)
    decreases |vals|
  {
    if |vals| > 0 {
      var init := vals[..|vals| - 1];
      CarriedErrorIsLastAssignment(init);
      assert forall k :: 0 <= k < |init| ==> init[k] == vals[k];
    }
  }

  /** The error `encode` returns: the unsupported kind it stopped at, or else
      the carried error. */
  function EncodeError(vals: seq<Datum>, comparable: bool, newCollation: bool): (r: Option<CodecError>)
    ensures (exists k :: 0 <= k < |vals| && EncodeOne(vals[k], comparable, newCollation).Err?) ==>
      r == Some(UnsupportedEncodeType)
    ensures r.None? <==>
      (forall k :: 0 <= k < |vals| ==> EncodeOne(vals[k], comparable, newCollation).Ok?) && CarriedError(vals).None?
  {
    EncodeAllSucceeds(vals, comparable, newCollation);
    EncodeAllStopError(vals, comparable, newCollation);
    if EncodeAll(vals, comparable, newCollation).1.Some? then EncodeAll(vals, comparable, newCollation).1
    else CarriedError(vals)
  }

  /** The error that stops `encode` is the unsupported-kind error. */
  lemma {:induction false} EncodeAllStopError(vals: seq<Datum>, comparable: bool, newCollation: bool)
    ensures EncodeAll(vals, comparable, newCollation).1.Some? ==>
      EncodeAll(vals, comparable, newCollation).1 == Some(UnsupportedEncodeType)
    decreases |vals|
  {
    if |vals| > 0 {
      EncodeAllStopError(vals[1..], comparable, newCollation);
    }
  }

  /** A decimal's error lets `encode` write the rest of the row and is
      returned at its end, unless a later bit literal clears it. */
  lemma DecimalErrorCarried(s: seq<byte>, e: CodecError, v: i64, u: u64, comparable: bool, newCollation: bool)
    ensures EncodeAll([Decimal(s, Some(e)), Int64(v)], comparable, newCollation).0
      == [DecimalFlag] + s + EncodeSignedInt(v, comparable)
    ensures EncodeError([Decimal(s, Some(e)), Int64(v)], comparable, newCollation) == Some(e)
    ensures EncodeError([Decimal(s, Some(e)), Bit(u)], comparable, newCollation) == None
  {
    var row := [Decimal(s, Some(e)), Int64(v)];
    assert row[1..] == [Int64(v)] && row[..1] == [Decimal(s, Some(e))];
    assert [Int64(v)][1..] == [] && [Decimal(s, Some(e))][..0] == [];
    assert EncodeAll([], comparable, newCollation) == ([], None);
    assert EncodeAll([Int64(v)], comparable, newCollation) == (EncodeSignedInt(v, comparable) + [], None);
    assert EncodeAll(row, comparable, newCollation) == (([DecimalFlag] + s) + (EncodeSignedInt(v, comparable) + []), None);
    assert CarriedError([Decimal(s, Some(e))]) == Some(e);
    assert [Decimal(s, Some(e)), Bit(u)][..1] == [Decimal(s, Some(e))];
  }

  /** `EncodeAll` with the bytes already written in front, in the order the
      loop of `encode` builds them. */
  function EncodeLoop(vals: seq<Datum>, i: nat, comparable: bool, newCollation: bool, acc: seq<byte>): (seq<byte>, Option<CodecError>)
    requires i <= |vals|
    decreases |vals| - i
  {
    if i == |vals| then (acc, None)
    else match EncodeOne(vals[i], comparable, newCollation)
      case Err(e) => (acc, Some(e))
      case Ok(bytes) => EncodeLoop(vals, i + 1, comparable, newCollation, acc + bytes)
  }

  lemma {:induction false} EncodeLoopIsEncodeAll(vals: seq<Datum>, i: nat, comparable: bool, newCollation: bool, acc: seq<byte>)
    requires i <= |vals|
    ensures EncodeLoop(vals, i, comparable, newCollation, acc)
      == (acc + EncodeAll(vals[i..], comparable, newCollation).0, EncodeAll(vals[i..], comparable, newCollation).1)
    decreases |vals| - i
  {
    if i == |vals| || EncodeOne(vals[i], comparable, newCollation).Err? {
      assert acc + [] == acc;
    } else {
      var bytes := EncodeOne(vals[i], comparable, newCollation).value;
      EncodeLoopIsEncodeAll(vals, i + 1, comparable, newCollation, acc + bytes);
      assert vals[i..][1..] == vals[i + 1..];
      var later := EncodeAll(vals[i + 1..], comparable, newCollation).0;
      assert (acc + bytes) + later == acc + (bytes + later);
    }
  }

  /** `encode`: appends the encoding of every datum to `b`, stopping at the
      first kind it cannot write; a decimal's error does not stop it and is
      returned at the end unless a later datum overwrites it. */
  method Encode(b: seq<byte>, vals: seq<Datum>, comparable: bool, newCollation: bool)
    returns (out: seq<byte>, err: Option<CodecError>)
    ensures out == b + EncodeAll(vals, comparable, newCollation).0
    ensures err == EncodeError(vals, comparable, newCollation)
  {
    EncodeLoopIsEncodeAll(vals, 0, comparable, newCollation, b);
    assert vals[0..] == vals;
    ghost var spec := EncodeLoop(vals, 0, comparable, newCollation, b);
    out := b;
    err := None;
    var i := 0;
    while i < |vals|
      invariant 0 <= i <= |vals|
      invariant spec == EncodeLoop(vals, i, comparable, newCollation, out)
      invariant err == CarriedError(vals[..i])
    {
      match EncodeOne(vals[i], comparable, newCollation) {
        case Err(e) =>
          return out, Some(e);
        case Ok(bytes) =>
          out := out + bytes;
      }
      match vals[i] {
        case Decimal(_, failure) => err := failure;
        case Time(_) => err := None;
        case Bit(_) => err := None;
        case _ =>
      }
      assert vals[..i + 1][..i] == vals[..i];
      i := i + 1;
    }
    assert vals[..i] == vals;
  }

  /** `EncodeKey`: `encode` in comparable mode. */
  method EncodeKey(b: seq<byte>, vals: seq<Datum>, newCollation: bool) returns (out: seq<byte>, err: Option<CodecError>)
    ensures out == b + EncodeAll(vals, true, newCollation).0
    ensures err == EncodeError(vals, true, newCollation)
  {
    out, err := Encode(b, vals, true, newCollation);
  }

  /** `EncodeValue`: `encode` in compact mode. */
  method EncodeValue(b: seq<byte>, vals: seq<Datum>) returns (out: seq<byte>, err: Option<CodecError>)
    ensures out == b + EncodeAll(vals, false, false).0
    ensures err == EncodeError(vals, false, false)
  {
    out, err := Encode(b, vals, false, false);
  }

  // ---------------------------------------------------------------------------
  // Size estimators.

  /** `sizeInt`: the room an integer element may need, which bounds what the
      integer encoders write and is exact in key mode. */
  function SizeInt(comparable: bool): (r: nat)
    ensures forall v: i64 :: |EncodeSignedInt(v, comparable)| <= r
    ensures forall u: u64 :: |EncodeUnsignedInt(u, comparable)| <= r
    ensures comparable ==> forall v: i64 :: |EncodeSignedInt(v, comparable)| == r
  {
    if comparable then 9 else 1 + MaxVarintLen64
  }

  /** `sizeBytes`: the room a byte-string element may need, which bounds what
      `encodeBytes` writes and is exact in key mode. */
  function SizeBytes(v: seq<byte>, comparable: bool): (r: nat)
    ensures |EncodeBytesElement(v, comparable)| <= r
    ensures comparable ==> |EncodeBytesElement(v, comparable)| == r
  {
    if comparable then
      EncodeBytesLength(v);
      1 + (|v| / EncGroupSize + 1) * (EncGroupSize + 1)
    else
      PutUvarintLength(ZigZag(WrapInt64(|v|)));
      1 + MaxVarintLen64 + |v|
  }

  /** The number of further seven-bit groups a value needs. */
  function SevenBitGroups(x: nat): nat
    decreases x
  {
    if x == 0 then 0 else 1 + SevenBitGroups(x / 128)
  }

  lemma PutUvarintGroups(y: u64)
    ensures |PutUvarint(y)| == 1 + SevenBitGroups(y / 128)
    decreases y
  {
    if y >= 128 {
      PutUvarintGroups(y / 128);
    }
  }

  /** The varint of `v` has as many bytes as one plus the groups of the
      magnitude `m` shifted right by six (the zig-zag map doubles `m`). */
  lemma PutVarintGroups(v: i64)
    ensures |PutVarint(v)| == 1 + SevenBitGroups((if v < 0 then -1 - v else v) / 64)
  {
    var m: int := if v < 0 then -1 - v else v;
    PutUvarintGroups(ZigZag(v));
    assert ZigZag(v) == 2 * m || ZigZag(v) == 2 * m + 1;
    assert ZigZag(v) / 128 == m / 64;
  }

  /** `valueSizeOfSignedInt`: the size of `varintFlag` plus the varint of `v`. */
  method ValueSizeOfSignedInt(v: i64) returns (size: int)
    ensures size == |EncodeSignedInt(v, false)|
    ensures size >= 2
  {
    var x: int := v;
    if x < 0 {
      x := 0 - x - 1;
    }
    size := 2;
    x := x / 64;
    PutVarintGroups(v);
    while x > 0
      invariant x >= 0
      invariant size + SevenBitGroups(x) == 1 + |PutVarint(v)|
      decreases x
    {
      size := size + 1;
      x := x / 128;
    }
  }

  /** `valueSizeOfUnsignedInt`: the size of `uvarintFlag` plus the varint of `v`. */
  method ValueSizeOfUnsignedInt(v: u64) returns (size: int)
    ensures size == |EncodeUnsignedInt(v, false)|
    ensures size >= 2
  {
    size := 2;
    var x: int := v / 128;
    PutUvarintGroups(v);
    while x > 0
      invariant x >= 0
      invariant size + SevenBitGroups(x) == 1 + |PutUvarint(v)|
      decreases x
    {
      size := size + 1;
      x := x / 128;
    }
  }

  /** `valueSizeOfBytes`: the size of `compactBytesFlag` plus the compact form of `v`. */
  method ValueSizeOfBytes(v: seq<byte>) returns (size: int)
    requires |v| < TwoTo63
    ensures size == |EncodeBytesElement(v, false)|
  {
    var s := ValueSizeOfSignedInt(|v|);
    size := s + |v|;
  }

  /** The signed size does not tell `v` from `-v-1`: the zig-zag map puts them
      next to each other. */
  lemma VarintSizeSymmetric(v: i64)
    requires v >= 0
    ensures |PutVarint(v)| == |PutVarint(-v - 1)|
  {
    PutVarintGroups(v);
    PutVarintGroups(-v - 1);
  }

  /** A varint takes `k + 1` bytes exactly when the value needs more than `7k`
      and at most `7(k + 1)` bits: one byte per seven bits. */
  lemma {:induction false} PutUvarintLengthRange(x: u64, k: nat)
    ensures |PutUvarint(x)| == k + 1 <==> (k == 0 || Pow128(k) <= x) && x < Pow128(k + 1)
    decreases k
  {
    if x >= 128 {
      if k > 0 {
        PutUvarintLengthRange(x / 128, k - 1);
        assert Pow128(k) == 128 * Pow128(k - 1);
        assert Pow128(k + 1) == 128 * Pow128(k);
        DivBounds(x, Pow128(k - 1), Pow128(k));
      } else {
        assert Pow128(1) == 128;
      }
    } else if k > 0 {
      Pow128Monotone(1, k);
      assert Pow128(1) == 128;
    } else {
      assert Pow128(1) == 128;
    }
  }

  /** Dividing by 128 moves a value between powers of 128 down one step. */
  lemma DivBounds(x: nat, p: nat, q: nat)
    requires q == 128 * p && p >= 1
    ensures p <= x / 128 <==> q <= x
    ensures x / 128 < q <==> x < 128 * q
  {
  }
}
