/** Decoding: one element (`DecodeOne`, `DecodeAsDateTime`,
    `DecodeAsFloat32`), a whole buffer (`Decode`) and a range key with its
    trailing sentinel byte (`DecodeRange`). */
module CodecDecode {
  import opened Common
  import opened CodecErrors
  import opened Number
  import opened BytesCodec
  import opened CodecTypes

  /** `b` is a proper suffix of `whole`. */
  predicate ProperSuffix(rest: seq<byte>, whole: seq<byte>) {
    |rest| < |whole| && rest == whole[|whole| - |rest|..]
  }

  /** `DecodeFloat`: the eight-byte comparable image of a float. */
  function DecodeFloat(b: seq<byte>): (r: Res<(seq<byte>, u64)>)
    ensures r.Ok? <==> |b| >= 8
    ensures r.Ok? ==> r.value.0 == b[8..]
  {
    DecodeUint(b)
  }

  /** A payload of another package's format, `l` bytes long by its own length
      function; a length outside the buffer is refused. */
  function CutForeign(l: Res<i64>, rest: seq<byte>): (r: Res<(seq<byte>, seq<byte>)>)
    ensures r.Ok? ==> r.value.1 + r.value.0 == rest
  {
    var n :- l;
    if n < 0 || n > |rest| then Err(InsufficientBytes)
    else
      assert rest[..n] + rest[n..] == rest;
      Ok((rest[n..], rest[..n]))
  }

  /** `DecodeOne`: the remainder and the first datum of `b`. */
  function DecodeOne(f: Foreign, b: seq<byte>): (r: Res<(seq<byte>, Datum)>)
    ensures r.Ok? ==> ProperSuffix(r.value.0, b)
    ensures |b| == 0 ==> r == Err(InvalidEncodedKey)
    ensures |b| > 0 && !KnownFlag(b[0]) ==> r == Err(InvalidFlag(b[0]))
  {
    if |b| < 1 then Err(InvalidEncodedKey)
    else
      var flag := b[0];
      var rest := b[1..];
      if flag == IntFlag then
        var (rem, v) :- DecodeInt(rest); Ok((rem, Int64(v)))
      else if flag == UintFlag then
        var (rem, v) :- DecodeUint(rest); Ok((rem, Uint64(v)))
      else if flag == VarintFlag then
        var (rem, v) :- DecodeVarint(rest); Ok((rem, Int64(v)))
      else if flag == UvarintFlag then
        var (rem, v) :- DecodeUvarint(rest); Ok((rem, Uint64(v)))
      else if flag == FloatFlag then
        var (rem, v) :- DecodeFloat(rest); Ok((rem, Float(v)))
      else if flag == BytesFlag then
        var (rem, v) :- DecodeBytes(rest); Ok((rem, Bytes(v)))
      else if flag == CompactBytesFlag then
        var (rem, v) :- DecodeCompactBytes(rest); Ok((rem, Bytes(v)))
      else if flag == DecimalFlag then
        var (rem, v) :- CutForeign(f.decimalPeek(rest), rest); Ok((rem, Decimal(v, None)))
      else if flag == DurationFlag then
        var (rem, v) :- DecodeInt(rest); Ok((rem, Duration(v)))
      else if flag == JsonFlag then
        // The type code is the first byte the JSON length covers.
        var size :- f.jsonPeek(rest);
        if size < 1 || size > |rest| then Err(InsufficientBytes)
        else Ok((rest[size..], Json(rest[0], rest[1..size])))
      else if flag == VectorFloat32Flag then
        var (rem, v) :- CutForeign(f.vectorPeek(rest), rest); Ok((rem, Vector(v)))
      else if flag == NilFlag then Ok((rest, Null))
      else Err(InvalidFlag(flag))
  }

  /** Prefixes the values of a successful result. */
  function Prepend(vs: seq<Datum>, r: Res<seq<Datum>>): Res<seq<Datum>> {
    match r
    case Ok(ws) => Ok(vs + ws)
    case Err(e) => Err(e)
  }

  /** The datums of `b`, one `DecodeOne` step after another until `b` is used up. */
  function DecodeList(f: Foreign, b: seq<byte>): (r: Res<seq<Datum>>)
    ensures r.Ok? ==> |r.value| <= |b|
    ensures r.Ok? && |b| > 0 ==> |r.value| >= 1
    decreases |b|
  {
    if |b| == 0 then Ok([])
    else
      var (rest, d) :- DecodeOne(f, b);
      var ds :- DecodeList(f, rest);
      Ok([d] + ds)
  }

  /** What `Decode` returns: an empty buffer is refused. */
  function DecodeAll(f: Foreign, b: seq<byte>): (r: Res<seq<Datum>>)
    ensures |b| == 0 ==> r == Err(InvalidEncodedKey)
    ensures r.Ok? ==> 1 <= |r.value| <= |b|
  {
    if |b| < 1 then Err(InvalidEncodedKey) else DecodeList(f, b)
  }

  /** `Decode`: the loop over `DecodeOne`. The capacity hint `size` does not
      change the result. */
  method Decode(f: Foreign, b: seq<byte>, size: int) returns (r: Res<seq<Datum>>)
    ensures r == DecodeAll(f, b)
  {
    if |b| < 1 {
      return Err(InvalidEncodedKey);
    }
    var values: seq<Datum> := [];
    var rest := b;
    PrependNothing(DecodeList(f, b));
    while |rest| > 0
      invariant DecodeList(f, b) == Prepend(values, DecodeList(f, rest))
      decreases |rest|
    {
      var step := DecodeOne(f, rest);
      if step.Err? {
        return Err(step.error);
      }
      var (rem, d) := step.value;
      assert DecodeList(f, rest) == Prepend([d], DecodeList(f, rem));
      PrependTwice(values, [d], DecodeList(f, rem));
      values := values + [d];
      rest := rem;
    }
    assert values + [] == values;
    return Ok(values);
  }

  lemma PrependTwice(us: seq<Datum>, vs: seq<Datum>, r: Res<seq<Datum>>)
    ensures Prepend(us, Prepend(vs, r)) == Prepend(us + vs, r)
  {
    if r.Ok? {
      assert us + (vs + r.value) == (us + vs) + r.value;
    }
  }

  lemma PrependNothing(r: Res<seq<Datum>>)
    ensures Prepend([], r) == r
  {
    if r.Ok? {
      assert [] + r.value == r.value;
    }
  }

  // ---------------------------------------------------------------------------
  // DecodeRange

  /** `DecodeAsDateTime`: a time column is stored as a packed `uint64`, in
      either integer form; a null is decoded as one. */
  function DecodeAsDateTime(b: seq<byte>): (r: Res<(seq<byte>, Datum)>)
    ensures r.Ok? ==> ProperSuffix(r.value.0, b)
    ensures r.Ok? ==> r.value.1.Null? || r.value.1.Time?
    ensures |b| == 0 ==> r == Err(InvalidEncodedKey)
    ensures |b| > 0 && b[0] == NilFlag ==> r == Ok((b[1..], Null))
    ensures |b| > 0 && b[0] !in {UintFlag, UvarintFlag, NilFlag} ==> r == Err(InvalidFlag(b[0]))
    ensures |b| > 0 && b[0] == UintFlag ==> (r.Ok? <==> |b| >= 9) && (r.Ok? ==> r.value.0 == b[9..])
    ensures |b| > 0 && b[0] == UvarintFlag ==> (r.Ok? <==> Uvarint(b[1..]).1 > 0)
    ensures r.Ok? && b[0] != NilFlag ==> r.value.1.Time?
  {
    if |b| < 1 then Err(InvalidEncodedKey)
    else
      var flag := b[0];
      var rest := b[1..];
      if flag == UintFlag then
        var (rem, v) :- DecodeUint(rest); Ok((rem, Time(v)))
      else if flag == UvarintFlag then
        var (rem, v) :- DecodeUvarint(rest); Ok((rem, Time(v)))
      else if flag == NilFlag then Ok((rest, Null))
      else Err(InvalidFlag(flag))
  }

  /** A time column decodes its integer forms as `DecodeOne` decodes them,
      with the unsigned value taken as the packed time. */
  lemma DecodeAsDateTimeAgrees(f: Foreign, b: seq<byte>)
    requires |b| > 0 && b[0] in {UintFlag, UvarintFlag}
    ensures DecodeAsDateTime(b).Ok? <==> DecodeOne(f, b).Ok?
    ensures DecodeAsDateTime(b).Ok? ==> DecodeOne(f, b).value.1.Uint64?
    ensures DecodeAsDateTime(b).Ok? ==>
      DecodeAsDateTime(b).value == (DecodeOne(f, b).value.0, Time(DecodeOne(f, b).value.1.u))
  {
  }

  /** `DecodeAsFloat32`: only single-precision columns, only `floatFlag`. */
  function DecodeAsFloat32(b: seq<byte>, single: bool): (r: Res<(seq<byte>, Datum)>)
    ensures r.Ok? ==> ProperSuffix(r.value.0, b) && r.value.1.Float?
    ensures r.Ok? ==> single && b[0] == FloatFlag
  {
    if |b| < 1 || !single then Err(InvalidEncodedKey)
    else if b[0] != FloatFlag then Err(InvalidFlagForFloat32(b[0]))
    else
      var (rem, v) :- DecodeFloat(b[1..]); Ok((rem, Float(v)))
  }

  /** The decoder `DecodeRange` uses for its `i`-th element: `DecodeOne`
      without column types, otherwise the one the column's type calls for. */
  function DecodeRangeStep(f: Foreign, b: seq<byte>, cols: Option<seq<IndexColumnType>>, i: nat): (r: Res<(seq<byte>, Datum)>)
    ensures r.Ok? ==> ProperSuffix(r.value.0, b)
    ensures cols.Some? && i >= |cols.value| ==> r == Err(InvalidIndexColumns)
  {
    match cols
    case None => DecodeOne(f, b)
    case Some(types) =>
      if i >= |types| then Err(InvalidIndexColumns)
      else match types[i]
        case TimeColumn => DecodeAsDateTime(b)
        case FloatColumn(single) => DecodeAsFloat32(b, single)
        case OtherColumn => DecodeOne(f, b)
  }

  /** The datum a single leftover byte of a range key stands for. */
  function SentinelDatum(flag: byte): (r: Res<Datum>)
    ensures r == Ok(Null) <==> flag == NilFlag
    ensures r == Ok(MinNotNull) <==> flag == BytesFlag
    ensures r == Ok(MaxValue) <==> flag == MaxFlag || flag == MaxFlag + 1
    ensures r.Err? <==> flag !in {NilFlag, BytesFlag, MaxFlag, MaxFlag + 1}
    ensures r.Err? ==> r.error == InvalidFlag(flag)
  {
    if flag == NilFlag then Ok(Null)
    else if flag == BytesFlag then Ok(MinNotNull)
    // `maxFlag + 1` is what `PrefixNext` makes of `maxFlag`.
    else if flag == MaxFlag || flag == MaxFlag + 1 then Ok(MaxValue)
    else Err(InvalidFlag(flag))
  }

  /** The loop of `DecodeRange` from its `i`-th element on: elements are
      decoded while more than one byte is left, a last single byte is a
      sentinel. The values decoded before a failure are kept. */
  function DecodeRangeFrom(f: Foreign, b: seq<byte>, cols: Option<seq<IndexColumnType>>, i: nat): (r: (seq<Datum>, Option<CodecError>))
    ensures |r.0| <= |b|
    decreases |b|
  {
    if |b| > 1 then
      match DecodeRangeStep(f, b, cols, i)
      case Err(e) => ([], Some(e))
      case Ok((rest, d)) =>
        var (ds, err) := DecodeRangeFrom(f, rest, cols, i + 1);
        ([d] + ds, err)
    else if |b| == 1 then
      match SentinelDatum(b[0])
      case Ok(d) => ([d], None)
      case Err(e) => ([], Some(e))
    else ([], None)
  }

  /** What `DecodeRange` returns (the remainder it returns beside an error is
      not modelled). */
  function DecodeRangeAll(f: Foreign, b: seq<byte>, cols: Option<seq<IndexColumnType>>): (r: (seq<Datum>, Option<CodecError>))
    ensures |b| == 0 ==> r == ([], Some(ZeroLengthKey))
  {
    if |b| < 1 then ([], Some(ZeroLengthKey)) else DecodeRangeFrom(f, b, cols, 0)
  }

  /** `DecodeRange`. */
  method DecodeRange(f: Foreign, b: seq<byte>, size: int, cols: Option<seq<IndexColumnType>>)
    returns (values: seq<Datum>, err: Option<CodecError>)
    ensures (values, err) == DecodeRangeAll(f, b, cols)
  {
    if |b| < 1 {
      return [], Some(ZeroLengthKey);
    }
    values := [];
    var rest := b;
    var i := 0;
    while |rest| > 1
      invariant DecodeRangeFrom(f, b, cols, 0).0 == values + DecodeRangeFrom(f, rest, cols, i).0
      invariant DecodeRangeFrom(f, b, cols, 0).1 == DecodeRangeFrom(f, rest, cols, i).1
      decreases |rest|
    {
      var step := DecodeRangeStep(f, rest, cols, i);
      if step.Err? {
        assert values + [] == values;
        return values, Some(step.error);
      }
      var (rem, d) := step.value;
      ghost var later := DecodeRangeFrom(f, rem, cols, i + 1).0;
      assert values + ([d] + later) == (values + [d]) + later;
      values := values + [d];
      rest := rem;
      i := i + 1;
    }
    if |rest| == 1 {
      var s := SentinelDatum(rest[0]);
      if s.Err? {
        assert values + [] == values;
        return values, Some(s.error);
      }
      values := values + [s.value];
    } else {
      assert values + [] == values;
    }
    err := None;
  }
}
