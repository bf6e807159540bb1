/** The integer primitives the codec file calls: the fixed eight-byte
    comparable forms (`EncodeUint`, `EncodeInt`, `DecodeUint`, `DecodeInt`) and
    the base-128 varints of Go's `encoding/binary` (`PutUvarint`, `Uvarint`, the
    zig-zag `PutVarint` and `Varint`) with the codec's `DecodeVarint` and
    `DecodeUvarint` wrappers. */
module Number {
  import opened Common
  import opened CodecErrors
  import opened ByteOrder

  /** `binary.MaxVarintLen64`. */
  const MaxVarintLen64: nat := 10

  function Pow256(n: nat): (r: nat)
    ensures r >= 1
  {
    if n == 0 then 1 else 256 * Pow256(n - 1)
  }

  function Pow128(n: nat): (r: nat)
    ensures r >= 1
  {
    if n == 0 then 1 else 128 * Pow128(n - 1)
  }

  lemma Pow256Eight()
    ensures Pow256(8) == TwoTo64
  {
    assert Pow256(2) == 65536;
    assert Pow256(4) == 65536 * 65536 by {
      assert Pow256(3) == 256 * 65536;
    }
    assert Pow256(6) == 65536 * 65536 * 65536 by {
      assert Pow256(5) == 256 * Pow256(4);
    }
    assert Pow256(7) == 256 * Pow256(6);
  }

  lemma Pow128Nine()
    ensures Pow128(9) == TwoTo63
  {
    assert Pow128(2) == 16384;
    assert Pow128(4) == 16384 * 16384 by {
      assert Pow128(3) == 128 * 16384;
    }
    assert Pow128(6) == 16384 * 16384 * 16384 by {
      assert Pow128(5) == 128 * Pow128(4);
    }
    assert Pow128(8) == 16384 * 16384 * 16384 * 16384 by {
      assert Pow128(7) == 128 * Pow128(6);
    }
  }

  lemma {:induction false} Pow128Monotone(i: nat, j: nat)
    requires i <= j
    ensures Pow128(i) <= Pow128(j)
    decreases j
  {
    if i < j {
      Pow128Monotone(i, j - 1);
    }
  }

  // ---------------------------------------------------------------------------
  // Fixed-width big-endian integers.

  /** The `n`-byte big-endian image of `v`. */
  function BigEndian(v: nat, n: nat): (r: seq<byte>)
    requires v < Pow256(n)
    ensures |r| == n
    decreases n
  {
    if n == 0 then [] else BigEndian(v / 256, n - 1) + [v % 256]
  }

  /** The number a big-endian byte string denotes. */
  function BigEndianValue(s: seq<byte>): (v: nat)
    ensures v < Pow256(|s|)
  {
    if s == [] then 0 else BigEndianValue(s[..|s| - 1]) * 256 + s[|s| - 1]
  }

  lemma {:induction false} BigEndianRoundTrip(v: nat, n: nat)
    requires v < Pow256(n)
    ensures BigEndianValue(BigEndian(v, n)) == v
    decreases n
  {
    if n > 0 {
      var s := BigEndian(v, n);
      assert s[..n - 1] == BigEndian(v / 256, n - 1);
      BigEndianRoundTrip(v / 256, n - 1);
    }
  }

  /** Big-endian images of equal width sort as the numbers they denote. */
  lemma {:induction false} BigEndianOrder(v: nat, w: nat, n: nat)
    requires v < w < Pow256(n)
    ensures LexLess(BigEndian(v, n), BigEndian(w, n))
    decreases n
  {
    assert n > 0;
    if v / 256 < w / 256 {
      BigEndianOrder(v / 256, w / 256, n - 1);
      LexLessEqualLengthExtend(BigEndian(v / 256, n - 1), BigEndian(w / 256, n - 1), [v % 256], [w % 256]);
    } else {
      assert v / 256 == w / 256;
      LexLessCommonPrefix(BigEndian(v / 256, n - 1), [v % 256], [w % 256]);
    }
  }

  /** `EncodeUint`: eight big-endian bytes. */
  function EncodeUint(v: u64): (r: seq<byte>)
    ensures |r| == 8
  {
    Pow256Eight();
    BigEndian(v, 8)
  }

  /** `EncodeInt`: the sign bit is flipped (`v ^ signMask`) before the eight
      big-endian bytes are written, so negative numbers sort first. As a number
      that flip is `v + 2^63`. */
  function EncodeInt(v: i64): (r: seq<byte>)
    ensures |r| == 8
  {
    EncodeUint(v + TwoTo63)
  }

  function DecodeUint(b: seq<byte>): (r: Res<(seq<byte>, u64)>)
    ensures r.Ok? <==> |b| >= 8
    ensures r.Ok? ==> r.value.0 == b[8..]
  {
    if |b| < 8 then Err(InsufficientBytes)
    else
      Pow256Eight();
      Ok((b[8..], BigEndianValue(b[..8])))
  }

  function DecodeInt(b: seq<byte>): (r: Res<(seq<byte>, i64)>)
    ensures r.Ok? <==> |b| >= 8
    ensures r.Ok? ==> r.value.0 == b[8..]
  {
    var (rest, u) :- DecodeUint(b);
    Ok((rest, u - TwoTo63))
  }

  lemma DecodeUintOfEncodeUint(v: u64, rest: seq<byte>)
    ensures DecodeUint(EncodeUint(v) + rest) == Ok((rest, v))
  {
    var e := EncodeUint(v);
    assert (e + rest)[..8] == e;
    assert (e + rest)[8..] == rest;
    Pow256Eight();
    BigEndianRoundTrip(v, 8);
  }

  lemma DecodeIntOfEncodeInt(v: i64, rest: seq<byte>)
    ensures DecodeInt(EncodeInt(v) + rest) == Ok((rest, v))
  {
    DecodeUintOfEncodeUint(v + TwoTo63, rest);
  }

  /** The comparable forms preserve order in both directions. */
  lemma EncodeUintOrder(v: u64, w: u64)
    ensures LexLess(EncodeUint(v), EncodeUint(w)) <==> v < w
  {
    Pow256Eight();
    if v < w {
      BigEndianOrder(v, w, 8);
    } else if w < v {
      BigEndianOrder(w, v, 8);
      LexLessAsymmetric(EncodeUint(w), EncodeUint(v));
    } else {
      LexLessIrreflexive(EncodeUint(v));
    }
  }

  lemma EncodeIntOrder(v: i64, w: i64)
    ensures LexLess(EncodeInt(v), EncodeInt(w)) <==> v < w
  {
    EncodeUintOrder(v + TwoTo63, w + TwoTo63);
  }

  // ---------------------------------------------------------------------------
  // Base-128 varints, as Go's encoding/binary writes and reads them.

  /** `binary.PutUvarint`: seven bits per byte, least significant group first,
      the high bit set on every byte but the last. */
  function PutUvarint(x: u64): (r: seq<byte>)
    ensures 1 <= |r|
    ensures r[|r| - 1] < 128
    ensures forall k :: 0 <= k < |r| - 1 ==> r[k] >= 128
    decreases x
  {
    if x < 128 then [x] else [x % 128 + 128] + PutUvarint(x / 128)
  }

  lemma BoundedDigit(acc: nat, d: nat, p: nat)
    requires acc < p && d < 128
    ensures acc + d * p < 128 * p
  {
    assert d * p <= 127 * p;
  }

  /** The last byte of a varint read at index `i` keeps the value below 2^64. */
  lemma LastDigitFits(acc: nat, d: nat, i: nat)
    requires i < MaxVarintLen64 && acc < Pow128(i) && d < 128
    requires i == MaxVarintLen64 - 1 ==> d <= 1
    ensures acc + d * Pow128(i) < TwoTo64
  {
    Pow128Nine();
    if i < 9 {
      BoundedDigit(acc, d, Pow128(i));
      Pow128Monotone(i + 1, 9);
    }
  }

  /** The loop of `binary.Uvarint`, from byte index `i` of the buffer on: `rest`
      is what is still unread and `acc` the value gathered so far. The count is
      the number of bytes read; 0 means the buffer ended first, a negative count
      means more than 64 bits. */
  function UvarintFrom(rest: seq<byte>, i: nat, acc: nat): (r: (nat, int))
    requires i <= MaxVarintLen64 && acc < Pow128(i)
    ensures r.0 < TwoTo64
    ensures r.1 > 0 ==> i < r.1 <= i + |rest| && r.1 <= MaxVarintLen64
    decreases |rest|
  {
    if |rest| == 0 then (0, 0)
    else if i == MaxVarintLen64 then (0, -(i + 1))
    else if rest[0] < 128 then
      if i == MaxVarintLen64 - 1 && rest[0] > 1 then (0, -(i + 1))
      else
        LastDigitFits(acc, rest[0], i);
        (acc + rest[0] * Pow128(i), i + 1)
    else
      BoundedDigit(acc, rest[0] - 128, Pow128(i));
      UvarintFrom(rest[1..], i + 1, acc + (rest[0] - 128) * Pow128(i))
  }

  /** `binary.Uvarint`. */
  function Uvarint(buf: seq<byte>): (r: (u64, int))
    ensures r.1 > 0 ==> r.1 <= |buf|
  {
    UvarintFrom(buf, 0, 0)
  }

  /** The zig-zag map of `binary.PutVarint`: `uint64(x) << 1`, complemented for
      negative `x`. */
  function ZigZag(v: i64): (ux: u64)
    ensures ux % 2 == 0 <==> v >= 0
  {
    if v >= 0 then 2 * v else -2 * v - 1
  }

  /** Its inverse in `binary.Varint`: `int64(ux >> 1)`, complemented when the low bit is set. */
  function UnZigZag(ux: u64): i64 {
    if ux % 2 == 0 then ux / 2 else -(ux / 2) - 1
  }

  function PutVarint(v: i64): (r: seq<byte>)
    ensures 1 <= |r|
  {
    PutUvarint(ZigZag(v))
  }

  /** `binary.Varint`. */
  function Varint(buf: seq<byte>): (r: (i64, int))
    ensures r.1 == Uvarint(buf).1
  {
    var (ux, n) := Uvarint(buf);
    (UnZigZag(ux), n)
  }

  /** The codec's `DecodeUvarint`: the remainder after the varint and its value. */
  function DecodeUvarint(b: seq<byte>): (r: Res<(seq<byte>, u64)>)
    ensures r.Ok? ==> Uvarint(b).1 > 0 && r.value.0 == b[Uvarint(b).1..]
    ensures r.Err? ==> r.error == (if Uvarint(b).1 < 0 then ValueTooLarge else InsufficientBytes)
  {
    var (v, n) := Uvarint(b);
    if n > 0 then Ok((b[n..], v))
    else if n < 0 then Err(ValueTooLarge)
    else Err(InsufficientBytes)
  }

  /** The codec's `DecodeVarint`. */
  function DecodeVarint(b: seq<byte>): (r: Res<(seq<byte>, i64)>)
    ensures r.Ok? ==> Varint(b).1 > 0 && r.value.0 == b[Varint(b).1..]
    ensures r.Err? ==> r.error == (if Varint(b).1 < 0 then ValueTooLarge else InsufficientBytes)
  {
    var (v, n) := Varint(b);
    if n > 0 then Ok((b[n..], v))
    else if n < 0 then Err(ValueTooLarge)
    else Err(InsufficientBytes)
  }

  /** A nonzero group value read at index `i` fits in 64 bits only for i <= 9. */
  lemma PositionBound(y: nat, i: nat)
    requires y > 0 && y * Pow128(i) < TwoTo64
    ensures i <= 9
    ensures i == 9 ==> y <= 1
  {
    Pow128Nine();
    if i >= 10 {
      Pow128Monotone(10, i);
      assert false;
    }
    if i == 9 {
      assert y * TwoTo63 < TwoTo64;
    }
  }

  /** The arithmetic of one continuation byte. */
  lemma SplitGroup(acc: nat, y: nat, p: nat)
    requires y >= 128
    ensures (y / 128) * (128 * p) <= y * p
    ensures acc + (y % 128) * p + (y / 128) * (128 * p) == acc + y * p
  {
    var d, q := y % 128, y / 128;
    assert y == 128 * q + d;
    assert q * (128 * p) == (128 * q) * p;
    assert (128 * q) * p + d * p == y * p;
  }

  /** Reading back what `PutUvarint` wrote, from any position `i` at which the
      value still fits in 64 bits. */
  lemma {:induction false} UvarintFromPut(y: u64, rest: seq<byte>, i: nat, acc: nat)
    requires i <= MaxVarintLen64 && acc < Pow128(i)
    requires y * Pow128(i) < TwoTo64
    requires i == 0 || y > 0
    ensures UvarintFrom(PutUvarint(y) + rest, i, acc) == (acc + y * Pow128(i), i + |PutUvarint(y)|)
    decreases y
  {
    if y < 128 {
      UvarintFromLast(y, rest, i, acc);
    } else {
      PutUvarintSplit(y, rest);
      StepBounds(y, i, acc);
      var next := acc + (y % 128) * Pow128(i);
      UvarintFromCons(PutUvarint(y) + rest, i, acc, next);
      UvarintFromPut(y / 128, rest, i + 1, next);
    }
  }

  /** The last byte of a varint. */
  lemma UvarintFromLast(y: u64, rest: seq<byte>, i: nat, acc: nat)
    requires y < 128 && i <= MaxVarintLen64 && acc < Pow128(i)
    requires y * Pow128(i) < TwoTo64
    requires i == 0 || y > 0
    ensures UvarintFrom(PutUvarint(y) + rest, i, acc) == (acc + y * Pow128(i), i + |PutUvarint(y)|)
  {
    if y > 0 {
      PositionBound(y, i);
    }
    assert (PutUvarint(y) + rest)[0] == y;
  }

  /** A varint of a value of more than seven bits: a continuation byte with the
      low seven bits, then the varint of the rest. */
  lemma PutUvarintSplit(y: u64, rest: seq<byte>)
    requires y >= 128
    ensures |PutUvarint(y) + rest| > 0 && (PutUvarint(y) + rest)[0] == y % 128 + 128
    ensures (PutUvarint(y) + rest)[1..] == PutUvarint(y / 128) + rest
    ensures |PutUvarint(y)| == 1 + |PutUvarint(y / 128)|
  {
    assert PutUvarint(y) == [y % 128 + 128] + PutUvarint(y / 128);
  }

  /** The bounds and the sum that one continuation byte needs. */
  lemma StepBounds(y: nat, i: nat, acc: nat)
    requires y >= 128 && i <= MaxVarintLen64 && acc < Pow128(i) && y * Pow128(i) < TwoTo64
    ensures i < MaxVarintLen64
    ensures acc + (y % 128) * Pow128(i) < Pow128(i + 1)
    ensures (y / 128) * Pow128(i + 1) < TwoTo64
    ensures acc + (y % 128) * Pow128(i) + (y / 128) * Pow128(i + 1) == acc + y * Pow128(i)
  {
    var p := Pow128(i);
    PositionBound(y, i);
    BoundedDigit(acc, y % 128, p);
    assert Pow128(i + 1) == 128 * p;
    SplitGroup(acc, y, p);
  }

  /** One continuation byte read by `UvarintFrom`. */
  lemma UvarintFromCons(buf: seq<byte>, i: nat, acc: nat, next: nat)
    requires i < MaxVarintLen64 && acc < Pow128(i) && |buf| > 0 && buf[0] >= 128
    requires next == acc + (buf[0] - 128) * Pow128(i) && next < Pow128(i + 1)
    ensures UvarintFrom(buf, i, acc) == UvarintFrom(buf[1..], i + 1, next)
  {
  }

  lemma UvarintOfPutUvarint(x: u64, rest: seq<byte>)
    ensures Uvarint(PutUvarint(x) + rest) == (x, |PutUvarint(x)|)
  {
    UvarintFromPut(x, rest, 0, 0);
  }

  lemma DecodeUvarintOfPutUvarint(x: u64, rest: seq<byte>)
    ensures DecodeUvarint(PutUvarint(x) + rest) == Ok((rest, x))
  {
    UvarintOfPutUvarint(x, rest);
    assert (PutUvarint(x) + rest)[|PutUvarint(x)|..] == rest;
  }

  lemma DecodeVarintOfPutVarint(v: i64, rest: seq<byte>)
    ensures DecodeVarint(PutVarint(v) + rest) == Ok((rest, v))
  {
    UvarintOfPutUvarint(ZigZag(v), rest);
    assert (PutVarint(v) + rest)[|PutVarint(v)|..] == rest;
  }

  /** No 64-bit value needs more than `MaxVarintLen64` bytes. */
  lemma PutUvarintLength(x: u64)
    ensures |PutUvarint(x)| <= MaxVarintLen64
  {
    UvarintOfPutUvarint(x, []);
  }
}
