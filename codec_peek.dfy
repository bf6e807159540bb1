/** Measuring encoded elements without decoding them (`peek` and its helpers)
    and splitting an encoded row into per-element slices (`CutOne`,
    `SetRawValues`). */
module CodecPeek {
  import opened Common
  import opened CodecErrors
  import opened Number
  import opened BytesCodec
  import opened CodecTypes

  // ---------------------------------------------------------------------------
  // peekBytes

  /** Group-form byte strings are measured group by group from `offset`: the
      first group whose marker is not `encMarker` is the last one. */
  function PeekBytesFrom(b: seq<byte>, offset: nat): (r: Res<int>)
    ensures r.Ok? ==> offset < r.value <= |b|
    ensures r.Err? ==> r.error == InsufficientBytes
    decreases |b| - offset
  {
    if |b| < offset + EncGroupSize + 1 then Err(InsufficientBytes)
    else if b[offset + EncGroupSize] != EncMarker then Ok(offset + EncGroupSize + 1)
    else PeekBytesFrom(b, offset + EncGroupSize + 1)
  }

  /** The length is a whole number of groups, the last group's marker is not
      `encMarker` and every earlier one is. */
  lemma {:induction false} PeekBytesFromShape(b: seq<byte>, offset: nat)
    ensures var r := PeekBytesFrom(b, offset);
      r.Ok? ==>
        && (r.value - offset) % (EncGroupSize + 1) == 0
        && b[r.value - 1] != EncMarker
        && forall j :: offset <= j < r.value - 1 && (j - offset) % (EncGroupSize + 1) == EncGroupSize ==> b[j] == EncMarker
    decreases |b| - offset
  {
    if |b| >= offset + EncGroupSize + 1 && b[offset + EncGroupSize] == EncMarker {
      PeekBytesFromShape(b, offset + EncGroupSize + 1);
    }
  }

  /** The converse: the length is the end of the first group whose marker is not
      `encMarker`, whatever comes after it. */
  lemma {:induction false} PeekBytesFromExact(b: seq<byte>, offset: nat, n: nat)
    requires offset < n <= |b| && (n - offset) % (EncGroupSize + 1) == 0
    requires b[n - 1] != EncMarker
    requires forall j :: offset <= j < n - 1 && (j - offset) % (EncGroupSize + 1) == EncGroupSize ==> b[j] == EncMarker
    ensures PeekBytesFrom(b, offset) == Ok(n)
    decreases |b| - offset
  {
    if n != offset + EncGroupSize + 1 {
      assert b[offset + EncGroupSize] == EncMarker;
      PeekBytesFromExact(b, offset + EncGroupSize + 1, n);
    }
  }

  /** `peekBytes` fails exactly when every complete group is marked `encMarker`. */
  lemma {:induction false} PeekBytesFromErr(b: seq<byte>, offset: nat)
    ensures PeekBytesFrom(b, offset).Err? <==>
      forall j :: offset <= j < |b| && (j - offset) % (EncGroupSize + 1) == EncGroupSize ==> b[j] == EncMarker
    decreases |b| - offset
  {
    if |b| >= offset + EncGroupSize + 1 && b[offset + EncGroupSize] == EncMarker {
      PeekBytesFromErr(b, offset + EncGroupSize + 1);
    }
  }

  /** `peekBytes`: the loop over groups. */
  method PeekBytes(b: seq<byte>) returns (r: Res<int>)
    ensures r == PeekBytesFrom(b, 0)
  {
    var offset := 0;
    while true
      invariant 0 <= offset <= |b|
      invariant PeekBytesFrom(b, offset) == PeekBytesFrom(b, 0)
      decreases |b| - offset
    {
      if |b| < offset + EncGroupSize + 1 {
        return Err(InsufficientBytes);
      }
      var marker := b[offset + EncGroupSize];
      var padCount := EncMarker - marker;
      offset := offset + EncGroupSize + 1;
      if padCount != 0 {
        break;
      }
    }
    return Ok(offset);
  }

  // ---------------------------------------------------------------------------
  // peekCompactBytes, peekVarint, peekUvarint

  /** `peekCompactBytes` as written: a negative length prefix is not refused.
      The sums are Go `int` additions and wrap. */
  function PeekCompactBytesAsWritten(b: seq<byte>): (r: Res<int>)
    ensures Varint(b).1 < 0 ==> r == Err(ValueTooLarge)
    ensures Varint(b).1 == 0 ==> r == Err(InsufficientBytes)
  {
    var (vi, n) := Varint(b);
    if n < 0 then Err(ValueTooLarge)
    else if n == 0 then Err(InsufficientBytes)
    else if |b| < AddInt(vi, n) then Err(InsufficientBytesExpected(n))
    else Ok(AddInt(n, vi))
  }

  /** `peekCompactBytes` with a negative length prefix refused, as
      `DecodeCompactBytes` needs. */
  function PeekCompactBytes(b: seq<byte>): (r: Res<int>)
    ensures r.Ok? ==> 0 < Varint(b).1 <= r.value <= |b| && r.value == Varint(b).1 + Varint(b).0
    ensures Varint(b).1 < 0 ==> r == Err(ValueTooLarge)
    ensures Varint(b).1 == 0 ==> r == Err(InsufficientBytes)
  {
    var (vi, n) := Varint(b);
    if n < 0 then Err(ValueTooLarge)
    else if n == 0 then Err(InsufficientBytes)
    else if vi < 0 then Err(NegativeLength(vi))
    else if |b| < AddInt(vi, n) then Err(InsufficientBytesExpected(n))
    // A sum that wraps below zero is refused by `peek` itself, with this error.
    else if AddInt(n, vi) != n + vi then Err(InvalidEncodedKey)
    else Ok(n + vi)
  }

  /** `peekVarint` and `peekUvarint` as written: a varint cut short by the end
      of the buffer measures 0 bytes. */
  function PeekVarintAsWritten(b: seq<byte>, signed: bool): (r: Res<int>)
    ensures r.Ok? <==> Uvarint(b).1 >= 0
    ensures r.Ok? ==> r.value == Uvarint(b).1
  {
    var n := if signed then Varint(b).1 else Uvarint(b).1;
    if n < 0 then Err(ValueTooLarge) else Ok(n)
  }

  /** `peekVarint` and `peekUvarint` with a cut-short varint refused, as
      `DecodeVarint` and `DecodeUvarint` refuse it. */
  function PeekVarint(b: seq<byte>, signed: bool): (r: Res<int>)
    ensures r.Ok? <==> Uvarint(b).1 > 0
    ensures r.Ok? ==> r.value == Uvarint(b).1
  {
    var n := if signed then Varint(b).1 else Uvarint(b).1;
    if n < 0 then Err(ValueTooLarge)
    else if n == 0 then Err(InsufficientBytes)
    else Ok(n)
  }

  // ---------------------------------------------------------------------------
  // peek

  /** The payload length `peek` computes for `flag`, from the bytes after it. */
  function PayloadLength(f: Foreign, flag: byte, rest: seq<byte>): (r: Res<int>)
    ensures !KnownFlag(flag) ==> r == Err(InvalidFlag(flag))
  {
    if flag == NilFlag then Ok(0)
    else if flag in {IntFlag, UintFlag, FloatFlag, DurationFlag} then Ok(8)
    else if flag == BytesFlag then PeekBytesFrom(rest, 0)
    else if flag == CompactBytesFlag then PeekCompactBytes(rest)
    else if flag == DecimalFlag then f.decimalPeek(rest)
    else if flag == VarintFlag then PeekVarint(rest, true)
    else if flag == UvarintFlag then PeekVarint(rest, false)
    else if flag == JsonFlag then f.jsonPeek(rest)
    else if flag == VectorFloat32Flag then f.vectorPeek(rest)
    else Err(InvalidFlag(flag))
  }

  /** The payload length as the source computes it, with the as-written varint
      and compact-bytes helpers. */
  function PayloadLengthAsWritten(f: Foreign, flag: byte, rest: seq<byte>): (r: Res<int>)
    ensures flag !in {CompactBytesFlag, VarintFlag, UvarintFlag} ==> r == PayloadLength(f, flag, rest)
  {
    if flag == CompactBytesFlag then PeekCompactBytesAsWritten(rest)
    else if flag == VarintFlag then PeekVarintAsWritten(rest, true)
    else if flag == UvarintFlag then PeekVarintAsWritten(rest, false)
    else PayloadLength(f, flag, rest)
  }

  /** The end of `peek`: one flag byte plus the payload, refused when not
      positive or longer than the buffer. The payload length is a Go `int`, so
      the addition wraps only from `MaxInt64`. */
  function CheckLength(b: seq<byte>, payload: Res<int>): (r: Res<int>)
    ensures r.Ok? ==> payload.Ok? && 1 <= r.value <= |b|
    ensures payload.Err? ==> r == Err(payload.error)
    ensures payload.Ok? && payload.value < TwoTo63 - 1 ==>
      (r.Ok? <==> 0 <= payload.value && 1 + payload.value <= |b|) && (r.Ok? ==> r.value == 1 + payload.value)
  {
    var l :- payload;
    var length := if l >= TwoTo63 - 1 then l + 1 - TwoTo64 else 1 + l;
    if length <= 0 then Err(InvalidEncodedKey)
    else if length > |b| then Err(LengthOverrun(length, |b|))
    else Ok(length)
  }

  /** `peek` as written: the length of the first encoded element of `b`. */
  function PeekAsWritten(f: Foreign, b: seq<byte>): (r: Res<int>)
    ensures r.Ok? ==> 1 <= r.value <= |b|
    ensures |b| == 0 ==> r == Err(InvalidEncodedKey)
    ensures |b| > 0 && !KnownFlag(b[0]) ==> r == Err(InvalidFlag(b[0]))
    ensures |b| > 0 && b[0] == NilFlag ==> r == Ok(1)
    ensures |b| > 0 && b[0] in {IntFlag, UintFlag, FloatFlag, DurationFlag} ==>
      r == if |b| >= 9 then Ok(9) else Err(LengthOverrun(9, |b|))
  {
    if |b| < 1 then Err(InvalidEncodedKey)
    else CheckLength(b, PayloadLengthAsWritten(f, b[0], b[1..]))
  }

  /** `peek` corrected: the as-written one with the compact-bytes and varint
      helpers that refuse what `DecodeOne` refuses. */
  function Peek(f: Foreign, b: seq<byte>): (r: Res<int>)
    ensures r.Ok? ==> 1 <= r.value <= |b|
    ensures |b| == 0 ==> r == Err(InvalidEncodedKey)
    ensures |b| > 0 && !KnownFlag(b[0]) ==> r == Err(InvalidFlag(b[0]))
    ensures |b| > 0 && b[0] == NilFlag ==> r == Ok(1)
    ensures |b| > 0 && b[0] in {IntFlag, UintFlag, FloatFlag, DurationFlag} ==>
      r == if |b| >= 9 then Ok(9) else Err(LengthOverrun(9, |b|))
  {
    if |b| < 1 then Err(InvalidEncodedKey)
    else CheckLength(b, PayloadLength(f, b[0], b[1..]))
  }

  /** The two `peek`s differ only on compact-bytes and varint elements, and
      where the corrected one succeeds the as-written one measures the same. */
  lemma PeekAsWrittenAgrees(f: Foreign, b: seq<byte>)
    ensures |b| > 0 && b[0] !in {CompactBytesFlag, VarintFlag, UvarintFlag} ==> PeekAsWritten(f, b) == Peek(f, b)
    ensures Peek(f, b).Ok? ==> PeekAsWritten(f, b) == Peek(f, b)
  {
    if |b| > 0 && Peek(f, b).Ok? {
      var rest := b[1..];
      if b[0] == CompactBytesFlag {
        var (vi, n) := Varint(rest);
        assert PeekCompactBytes(rest).Ok?;
        assert AddInt(vi, n) == AddInt(n, vi) == n + vi;
        assert PeekCompactBytesAsWritten(rest) == PeekCompactBytes(rest);
      } else if b[0] == VarintFlag || b[0] == UvarintFlag {
        assert PeekVarintAsWritten(rest, b[0] == VarintFlag) == PeekVarint(rest, b[0] == VarintFlag);
      }
    }
  }

  // ---------------------------------------------------------------------------
  // CutOne, SetRawValues

  /** `CutOne`: the first element and the rest, as the as-written `peek`
      measures it. */
  function CutOne(f: Foreign, b: seq<byte>): (r: Res<(seq<byte>, seq<byte>)>)
    ensures r.Ok? <==> PeekAsWritten(f, b).Ok?
    ensures r.Err? ==> r.error == PeekAsWritten(f, b).error
    ensures r.Ok? ==> r.value.0 + r.value.1 == b && |r.value.0| == PeekAsWritten(f, b).value
  {
    var l :- PeekAsWritten(f, b);
    assert b[..l] + b[l..] == b;
    Ok((b[..l], b[l..]))
  }

  /** The concatenation of a list of slices. */
  function Concat(pieces: seq<seq<byte>>): seq<byte> {
    if |pieces| == 0 then [] else pieces[0] + Concat(pieces[1..])
  }

  /** A prefix of `data[l..]` continues the prefix `data[..l]`. */
  lemma PrefixStep(data: seq<byte>, l: nat, c: seq<byte>)
    requires l <= |data| && |c| <= |data| - l && c == data[l..][..|c|]
    ensures data[..l] + c == data[..l + |c|]
    ensures data[l..][|c|..] == data[l + |c|..]
  {
  }

  /** A length function for the first element of a buffer: what it measures
      is non-empty and lies within the buffer. */
  ghost predicate IsMeasure(m: seq<byte> -> Res<int>) {
    forall b :: m(b).Ok? ==> 1 <= m(b).value <= |b|
  }

  /** `peek` as written, as a length function. */
  function PeekOf(f: Foreign): (m: seq<byte> -> Res<int>)
    ensures IsMeasure(m)
    ensures forall b :: m(b) == PeekAsWritten(f, b)
  {
    b => PeekAsWritten(f, b)
  }

  /** The slices `SetRawValues` cuts for `n` values with the length function
      `m`: one per value, fewer only when `m` failed, and then with that
      failure. */
  function CutPrefix(m: seq<byte> -> Res<int>, data: seq<byte>, n: nat): (r: (seq<seq<byte>>, Option<CodecError>))
    requires IsMeasure(m)
    ensures |r.0| <= n && (r.1.None? <==> |r.0| == n)
    decreases n
  {
    if n == 0 then ([], None)
    else match m(data)
      case Err(e) => ([], Some(e))
      case Ok(l) =>
        var tail := CutPrefix(m, data[l..], n - 1);
        ([data[..l]] + tail.0, tail.1)
  }

  /** The slices are non-empty and, laid end to end, a prefix of `data`. */
  lemma {:induction false} CutPrefixSlices(m: seq<byte> -> Res<int>, data: seq<byte>, n: nat)
    requires IsMeasure(m)
    ensures forall k :: 0 <= k < |CutPrefix(m, data, n).0| ==> |CutPrefix(m, data, n).0[k]| >= 1
    ensures |Concat(CutPrefix(m, data, n).0)| <= |data|
    ensures Concat(CutPrefix(m, data, n).0) == data[..|Concat(CutPrefix(m, data, n).0)|]
    decreases n
  {
    if n > 0 && m(data).Ok? {
      var l := m(data).value;
      CutPrefixSlices(m, data[l..], n - 1);
      var tail := CutPrefix(m, data[l..], n - 1).0;
      var pieces := [data[..l]] + tail;
      assert CutPrefix(m, data, n).0 == pieces;
      assert pieces[1..] == tail;
      PrefixStep(data, l, Concat(tail));
    }
  }

  /** Each slice is what `m` measures where it starts, and a failure is the
      failure of `m` right after the slices. */
  lemma {:induction false} CutPrefixMeasures(m: seq<byte> -> Res<int>, data: seq<byte>, n: nat)
    requires IsMeasure(m)
    ensures var cut := CutPrefix(m, data, n);
      |Concat(cut.0)| <= |data| &&
      (cut.1.Some? ==> m(data[|Concat(cut.0)|..]) == Err(cut.1.value)) &&
      (|cut.0| > 0 ==> m(data) == Ok(|cut.0[0]|))
    decreases n
  {
    CutPrefixSlices(m, data, n);
    if n > 0 {
      if m(data).Err? {
        assert data[0..] == data;
      } else {
        var l := m(data).value;
        CutPrefixMeasures(m, data[l..], n - 1);
        var tail := CutPrefix(m, data[l..], n - 1).0;
        var pieces := [data[..l]] + tail;
        assert CutPrefix(m, data, n).0 == pieces;
        assert pieces[1..] == tail;
        assert Concat(pieces) == data[..l] + Concat(tail);
        assert data[l..][|Concat(tail)|..] == data[|Concat(pieces)|..];
      }
    }
  }

  /** `CutPrefix` as the loop computes it: the slices cut so far, `acc`, are
      carried along. */
  function CutLoop(m: seq<byte> -> Res<int>, rest: seq<byte>, left: nat, acc: seq<seq<byte>>): (seq<seq<byte>>, Option<CodecError>)
    requires IsMeasure(m)
    decreases left
  {
    if left == 0 then (acc, None)
    else match m(rest)
      case Err(e) => (acc, Some(e))
      case Ok(l) => CutLoop(m, rest[l..], left - 1, acc + [rest[..l]])
  }

  lemma {:induction false} CutLoopIsCutPrefix(m: seq<byte> -> Res<int>, rest: seq<byte>, left: nat, acc: seq<seq<byte>>)
    requires IsMeasure(m)
    ensures CutLoop(m, rest, left, acc) == (acc + CutPrefix(m, rest, left).0, CutPrefix(m, rest, left).1)
    decreases left
  {
    if left == 0 || m(rest).Err? {
      assert acc + [] == acc;
    } else {
      var l := m(rest).value;
      CutLoopIsCutPrefix(m, rest[l..], left - 1, acc + [rest[..l]]);
      var later := CutPrefix(m, rest[l..], left - 1).0;
      assert (acc + [rest[..l]]) + later == acc + ([rest[..l]] + later);
    }
  }

  /** The loop of `SetRawValues` for any length function `m`: sets each datum
      of `values` to the raw slice of the next element of `data`; on a failure
      of `m` the values before it keep their new slices and the rest are
      untouched. */
  method SetRawValuesWith(m: seq<byte> -> Res<int>, data: seq<byte>, values: array<Datum>) returns (err: Option<CodecError>)
    requires IsMeasure(m)
    modifies values
    ensures err == CutPrefix(m, data, values.Length).1
    ensures forall k :: 0 <= k < |CutPrefix(m, data, values.Length).0| ==>
      values[k] == Raw(CutPrefix(m, data, values.Length).0[k])
    ensures forall k :: |CutPrefix(m, data, values.Length).0| <= k < values.Length ==> values[k] == old(values[k])
  {
    CutLoopIsCutPrefix(m, data, values.Length, []);
    assert [] + CutPrefix(m, data, values.Length).0 == CutPrefix(m, data, values.Length).0;
    ghost var spec := CutLoop(m, data, values.Length, []);
    var rest := data;
    ghost var cut: seq<seq<byte>> := [];
    var i := 0;
    while i < values.Length
      invariant 0 <= i <= values.Length && |cut| == i
      invariant spec == CutLoop(m, rest, values.Length - i, cut)
      invariant forall k :: 0 <= k < i ==> values[k] == Raw(cut[k])
      invariant forall k :: i <= k < values.Length ==> values[k] == old(values[k])
    {
      var l := m(rest);
      if l.Err? {
        return Some(l.error);
      }
      var piece := rest[..l.value];
      values[i] := Raw(piece);
      cut := cut + [piece];
      rest := rest[l.value..];
      i := i + 1;
    }
    err := None;
  }

  /** `SetRawValues`: the loop above with `peek` as written. */
  method SetRawValues(f: Foreign, data: seq<byte>, values: array<Datum>) returns (err: Option<CodecError>)
    modifies values
    ensures err == CutPrefix(PeekOf(f), data, values.Length).1
    ensures forall k :: 0 <= k < |CutPrefix(PeekOf(f), data, values.Length).0| ==>
      values[k] == Raw(CutPrefix(PeekOf(f), data, values.Length).0[k])
    ensures forall k :: |CutPrefix(PeekOf(f), data, values.Length).0| <= k < values.Length ==> values[k] == old(values[k])
  {
    err := SetRawValuesWith(PeekOf(f), data, values);
  }
}
