/** The two byte-string payloads of the codec: the memcomparable group form
    written after `bytesFlag` (`EncodeBytes`/`DecodeBytes`) and the
    length-prefixed form written after `compactBytesFlag`
    (`EncodeCompactBytes`/`DecodeCompactBytes`). */
module BytesCodec {
  import opened Common
  import opened CodecErrors
  import opened Number
  import opened ByteOrder

  /** `encGroupSize`: data bytes per group. */
  const EncGroupSize: nat := 8
  /** `encMarker`: the marker of a full group that is not the last one. */
  const EncMarker: byte := 255
  /** `encPad`: the filler of the last group. */
  const EncPad: byte := 0

  /** `n` pad bytes. */
  function Pads(n: nat): (r: seq<byte>)
    ensures |r| == n && forall k :: 0 <= k < n ==> r[k] == EncPad
  {
    seq(n, _ => EncPad)
  }

  /** `EncodeBytes`: groups of eight data bytes, each followed by a marker. Full
      groups are marked `encMarker`; the last group (which is written even when
      the data is a whole number of groups) is zero-padded and marked
      `encMarker - padCount`. */
  function EncodeBytes(data: seq<byte>): (r: seq<byte>)
    ensures |r| >= EncGroupSize + 1 && r[|r| - 1] != EncMarker
    decreases |data|
  {
    if |data| >= EncGroupSize then
      data[..EncGroupSize] + [EncMarker] + EncodeBytes(data[EncGroupSize..])
    else
      data + Pads(EncGroupSize - |data|) + [EncMarker - (EncGroupSize - |data|)]
  }

  /** One group of nine bytes per eight data bytes, and one more. */
  lemma {:induction false} EncodeBytesLength(data: seq<byte>)
    ensures |EncodeBytes(data)| == (|data| / EncGroupSize + 1) * (EncGroupSize + 1)
    decreases |data|
  {
    var n := |data|;
    if n >= EncGroupSize {
      var tail := EncodeBytes(data[EncGroupSize..]);
      assert |EncodeBytes(data)| == EncGroupSize + 1 + |tail|;
      EncodeBytesLength(data[EncGroupSize..]);
      assert (n - 8) / 8 == n / 8 - 1;
    } else {
      assert n / 8 == 0;
    }
  }

  /** Every marker of `EncodeBytes(data)` but the last is `encMarker`. */
  lemma {:induction false} EncodeBytesMarkers(data: seq<byte>, j: nat)
    requires j < |EncodeBytes(data)| - 1 && j % (EncGroupSize + 1) == EncGroupSize
    ensures EncodeBytes(data)[j] == EncMarker
    decreases |data|
  {
    var e := EncodeBytes(data);
    if |data| >= EncGroupSize {
      var tail := EncodeBytes(data[EncGroupSize..]);
      assert e == data[..EncGroupSize] + [EncMarker] + tail;
      if j >= EncGroupSize + 1 {
        assert e[j] == tail[j - (EncGroupSize + 1)];
        EncodeBytesMarkers(data[EncGroupSize..], j - (EncGroupSize + 1));
      }
    }
  }

  /** The padding of the last group is all `encPad`. */
  predicate PaddingOk(group: seq<byte>, realGroupSize: nat)
    requires realGroupSize <= |group|
  {
    forall k :: realGroupSize <= k < |group| ==> group[k] == EncPad
  }

  /** `DecodeBytes` (the non-reversed `decodeBytes`): the remainder and the data. */
  function DecodeBytes(b: seq<byte>): (r: Res<(seq<byte>, seq<byte>)>)
    ensures r.Ok? ==> |r.value.0| + EncGroupSize + 1 <= |b| && r.value.0 == b[|b| - |r.value.0|..]
    ensures |b| < EncGroupSize + 1 ==> r == Err(InsufficientBytes)
    decreases |b|
  {
    if |b| < EncGroupSize + 1 then Err(InsufficientBytes)
    else
      var marker := b[EncGroupSize];
      var padCount := EncMarker - marker;
      if padCount > EncGroupSize then Err(InvalidMarker)
      else
        var realGroupSize := EncGroupSize - padCount;
        if padCount == 0 then
          var (rest, tail) :- DecodeBytes(b[EncGroupSize + 1..]);
          Ok((rest, b[..EncGroupSize] + tail))
        else if PaddingOk(b[..EncGroupSize], realGroupSize) then
          Ok((b[EncGroupSize + 1..], b[..realGroupSize]))
        else Err(InvalidPadding)
  }

  /** `DecodeBytes` consumes whole groups. */
  lemma {:induction false} DecodeBytesGroups(b: seq<byte>)
    ensures DecodeBytes(b).Ok? ==> (|b| - |DecodeBytes(b).value.0|) % (EncGroupSize + 1) == 0
    decreases |b|
  {
    if |b| >= EncGroupSize + 1 && b[EncGroupSize] == EncMarker {
      DecodeBytesGroups(b[EncGroupSize + 1..]);
    }
  }

  lemma {:induction false} DecodeBytesOfEncodeBytes(data: seq<byte>, rest: seq<byte>)
    ensures DecodeBytes(EncodeBytes(data) + rest) == Ok((rest, data))
    decreases |data|
  {
    var b := EncodeBytes(data) + rest;
    if |data| >= EncGroupSize {
      var tail := EncodeBytes(data[EncGroupSize..]);
      assert b[EncGroupSize] == EncMarker;
      assert b[..EncGroupSize] == data[..EncGroupSize];
      assert b[EncGroupSize + 1..] == tail + rest;
      DecodeBytesOfEncodeBytes(data[EncGroupSize..], rest);
      assert data[..EncGroupSize] + data[EncGroupSize..] == data;
    } else {
      var padCount := EncGroupSize - |data|;
      var group := data + Pads(padCount);
      assert b == group + [EncMarker - padCount] + rest;
      assert b[EncGroupSize] == EncMarker - padCount;
      assert b[..EncGroupSize] == group;
      assert b[..|data|] == data;
      assert PaddingOk(group, |data|);
      assert b[EncGroupSize + 1..] == rest;
    }
  }

  // ---------------------------------------------------------------------------
  // The group form keeps the byte order.

  /** Up to a whole group, the group form starts with the data itself. */
  lemma EncodeBytesHead(data: seq<byte>, n: nat)
    requires n <= |data| && n <= EncGroupSize
    ensures n <= |EncodeBytes(data)| && EncodeBytes(data)[..n] == data[..n]
  {
  }

  /** Padding and a marker below `m` sort before any group of the same size
      marked `m`. */
  lemma {:induction false} PadsSortFirst(z: seq<byte>, c: byte, m: byte)
    requires c < m
    ensures LexLess(Pads(|z|) + [c], z + [m])
    decreases |z|
  {
    if |z| > 0 && z[0] == EncPad {
      PadsSortFirst(z[1..], c, m);
      assert (Pads(|z|) + [c])[1..] == Pads(|z| - 1) + [c];
      assert (z + [m])[1..] == z[1..] + [m];
    }
  }

  /** The last group of `x` sorts before a group of the same size that
      starts with `x` and carries a greater marker. */
  lemma PaddedGroupFirst(x: seq<byte>, z: seq<byte>, m: byte, later: seq<byte>, s: seq<byte>)
    requires |x| < EncGroupSize && |z| == EncGroupSize - |x| && EncMarker - (EncGroupSize - |x|) < m
    ensures LexLess(EncodeBytes(x) + s, (x + (z + [m])) + later)
  {
    var c := EncMarker - (EncGroupSize - |x|);
    PadsSortFirst(z, c, m);
    LexLessCommonPrefix(x, Pads(|z|) + [c], z + [m]);
    LexLessEqualLengthExtend(x + (Pads(|z|) + [c]), x + (z + [m]), s, later);
    assert EncodeBytes(x) + s == (x + (Pads(|z|) + [c])) + s;
  }

  /** A last group sorts before the first nine bytes of the encoding of any
      longer string it is a prefix of. */
  lemma PrefixGroupSortsFirst(x: seq<byte>, y: seq<byte>, s: seq<byte>, t: seq<byte>)
    requires |x| < EncGroupSize && |x| < |y| && y[..|x|] == x
    ensures LexLess(EncodeBytes(x) + s, EncodeBytes(y) + t)
  {
    if |y| >= EncGroupSize {
      var z, later := y[|x|..EncGroupSize], EncodeBytes(y[EncGroupSize..]);
      assert y[..EncGroupSize] == x + z;
      assert EncodeBytes(y) + t == (x + (z + [EncMarker])) + (later + t);
      PaddedGroupFirst(x, z, EncMarker, later + t, s);
    } else {
      var z := y[|x|..] + Pads(EncGroupSize - |y|);
      assert y == x + y[|x|..];
      assert EncodeBytes(y) + t == (x + (z + [EncMarker - (EncGroupSize - |y|)])) + t;
      PaddedGroupFirst(x, z, EncMarker - (EncGroupSize - |y|), t, s);
    }
  }

  /** Where the first bytes up to a whole group differ, they decide the
      order of both the strings and their group forms. */
  lemma HeadsDecide(x: seq<byte>, y: seq<byte>, n: nat, s: seq<byte>, t: seq<byte>)
    requires n <= |x| && n <= |y| && n <= EncGroupSize && x[..n] != y[..n] && LexLess(x, y)
    ensures LexLess(EncodeBytes(x) + s, EncodeBytes(y) + t)
  {
    assert x == x[..n] + x[n..] && y == y[..n] + y[n..];
    LexLessDecided(x[..n], y[..n], x[n..], y[n..]);
    EncodeBytesHead(x, n);
    EncodeBytesHead(y, n);
    var ex, ey := EncodeBytes(x), EncodeBytes(y);
    assert ex + s == x[..n] + (ex[n..] + s) && ey + t == y[..n] + (ey[n..] + t);
    LexLessEqualLengthExtend(x[..n], y[..n], ex[n..] + s, ey[n..] + t);
  }

  /** Whatever follows two group forms, they sort as the strings they
      encode: no group form is a prefix of one that sorts after it. */
  lemma {:induction false} EncodeBytesMonotone(x: seq<byte>, y: seq<byte>, s: seq<byte>, t: seq<byte>)
    requires LexLess(x, y)
    ensures LexLess(EncodeBytes(x) + s, EncodeBytes(y) + t)
    decreases |x|
  {
    if |x| < |y| && |x| < EncGroupSize {
      if x[..|x|] != y[..|x|] {
        HeadsDecide(x, y, |x|, s, t);
      } else {
        PrefixGroupSortsFirst(x, y, s, t);
      }
    } else if |y| <= |x| && |y| < EncGroupSize {
      if x[..|y|] != y[..|y|] {
        HeadsDecide(x, y, |y|, s, t);
      } else {
        // `y` is a prefix of `x`, which then cannot sort before it.
        assert x == y + x[|y|..];
        LexLessNotBeforePrefix(y, x[|y|..]);
        assert false;
      }
    } else if x[..EncGroupSize] != y[..EncGroupSize] {
      HeadsDecide(x, y, EncGroupSize, s, t);
    } else {
      FullGroupStep(x, y, s, t);
    }
  }

  /** Two strings that share a full first group sort as their rest, and so do
      their group forms. */
  lemma {:induction false} FullGroupStep(x: seq<byte>, y: seq<byte>, s: seq<byte>, t: seq<byte>)
    requires |x| >= EncGroupSize && |y| >= EncGroupSize && x[..EncGroupSize] == y[..EncGroupSize]
    requires LexLess(x, y)
    ensures LexLess(EncodeBytes(x) + s, EncodeBytes(y) + t)
    decreases |x|, 0
  {
    var g := x[..EncGroupSize];
    assert x == g + x[EncGroupSize..] && y == g + y[EncGroupSize..];
    LexLessCommonPrefix(g, x[EncGroupSize..], y[EncGroupSize..]);
    EncodeBytesMonotone(x[EncGroupSize..], y[EncGroupSize..], s, t);
    var tx, ty := EncodeBytes(x[EncGroupSize..]) + s, EncodeBytes(y[EncGroupSize..]) + t;
    LexLessCommonPrefix(g + [EncMarker], tx, ty);
    assert EncodeBytes(x) + s == (g + [EncMarker]) + tx;
    assert EncodeBytes(y) + t == (g + [EncMarker]) + ty;
  }

  /** The group form sorts exactly as the strings it encodes. */
  lemma EncodeBytesOrder(x: seq<byte>, y: seq<byte>)
    ensures LexLess(EncodeBytes(x), EncodeBytes(y)) <==> LexLess(x, y)
  {
    assert EncodeBytes(x) + [] == EncodeBytes(x) && EncodeBytes(y) + [] == EncodeBytes(y);
    if LexLess(x, y) {
      EncodeBytesMonotone(x, y, [], []);
    } else {
      LexLessTotal(x, y);
      if x == y {
        LexLessIrreflexive(EncodeBytes(x));
      } else {
        EncodeBytesMonotone(y, x, [], []);
        LexLessAsymmetric(EncodeBytes(y), EncodeBytes(x));
      }
    }
  }

  /** `EncodeCompactBytes`: the length (as `int64`) as a zig-zag varint, then the data. */
  function EncodeCompactBytes(data: seq<byte>): (r: seq<byte>)
    ensures |data| < |r| <= |data| + MaxVarintLen64
    ensures r[|r| - |data|..] == data
  {
    PutUvarintLength(ZigZag(WrapInt64(|data|)));
    PutVarint(WrapInt64(|data|)) + data
  }

  /** `DecodeCompactBytes`: the remainder and the data. A negative length makes
      the Go code slice out of range; here it is an error. */
  function DecodeCompactBytes(b: seq<byte>): (r: Res<(seq<byte>, seq<byte>)>)
    ensures r.Ok? ==> |r.value.0| < |b| && r.value.0 == b[|b| - |r.value.0|..]
    ensures r.Ok? ==> 0 < Varint(b).1 <= |b| && r.value.1 + r.value.0 == b[Varint(b).1..]
  {
    var (rest, n) :- DecodeVarint(b);
    if |rest| < n then Err(InsufficientBytesExpected(n))
    else if n < 0 then Err(NegativeLength(n))
    else
      assert rest[..n] + rest[n..] == rest;
      Ok((rest[n..], rest[..n]))
  }

  lemma DecodeCompactBytesOfEncode(data: seq<byte>, rest: seq<byte>)
    requires |data| < TwoTo63
    ensures DecodeCompactBytes(EncodeCompactBytes(data) + rest) == Ok((rest, data))
  {
    var b := EncodeCompactBytes(data) + rest;
    assert b == PutVarint(|data|) + (data + rest);
    DecodeVarintOfPutVarint(|data|, data + rest);
    assert (data + rest)[..|data|] == data;
    assert (data + rest)[|data|..] == rest;
  }
}
