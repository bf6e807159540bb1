/** The order of keys: in comparable mode the bytes of encoded rows sort, as
    `bytes.Compare` sorts them, exactly as the rows sort datum by datum. */
module CodecOrder {
  import opened Common
  import opened ByteOrder
  import opened Number
  import opened BytesCodec
  import opened CodecTypes
  import opened CodecEncode
  import opened CodecProps

  /** Key-mode signed integers sort as bytes exactly as they sort as numbers. */
  lemma SignedKeyOrder(v: i64, w: i64)
    ensures LexLess(EncodeSignedInt(v, true), EncodeSignedInt(w, true)) <==> v < w
  {
    LexLessCommonPrefix([IntFlag], EncodeInt(v), EncodeInt(w));
    EncodeIntOrder(v, w);
  }

  /** Key-mode unsigned integers sort as bytes exactly as they sort as numbers. */
  lemma UnsignedKeyOrder(v: u64, w: u64)
    ensures LexLess(EncodeUnsignedInt(v, true), EncodeUnsignedInt(w, true)) <==> v < w
  {
    LexLessCommonPrefix([UintFlag], EncodeUint(v), EncodeUint(w));
    EncodeUintOrder(v, w);
  }

  /** The kinds with a flag of their own, each written in a form that keeps
      the order of its values (a float by its comparable image). */
  predicate OrderedKind(d: Datum) {
    d.Null? || d.Int64? || d.Uint64? || d.Float? || d.Bytes? || d.Duration?
  }

  predicate OrderedRow(vs: seq<Datum>) {
    forall k :: 0 <= k < |vs| ==> OrderedKind(vs[k])
  }

  /** The flag a datum of an ordered kind is written with in a key. */
  function KeyFlag(d: Datum): (r: byte)
    requires OrderedKind(d)
    ensures forall newCollation: bool :: EncodeOne(d, true, newCollation).value[0] == r
  {
    match d
    case Null => NilFlag
    case Bytes(_) => BytesFlag
    case Int64(_) => IntFlag
    case Uint64(_) => UintFlag
    case Float(_) => FloatFlag
    case Duration(_) => DurationFlag
  }

  /** The order keys put datums in: by value within a kind, by flag across
      kinds (null first). */
  predicate DatumLess(d: Datum, e: Datum)
    requires OrderedKind(d) && OrderedKind(e)
  {
    match (d, e)
    case (Int64(v), Int64(w)) => v < w
    case (Uint64(v), Uint64(w)) => v < w
    case (Float(v), Float(w)) => v < w
    case (Duration(v), Duration(w)) => v < w
    case (Bytes(v), Bytes(w)) => LexLess(v, w)
    case _ => KeyFlag(d) < KeyFlag(e)
  }

  /** The order keys put rows in: datum by datum, a row before any longer row
      it starts. */
  predicate RowLess(vs: seq<Datum>, ws: seq<Datum>)
    requires OrderedRow(vs) && OrderedRow(ws)
    decreases |vs|
  {
    if |vs| == 0 then |ws| > 0
    else if |ws| == 0 then false
    else if vs[0] != ws[0] then DatumLess(vs[0], ws[0])
    else RowLess(vs[1..], ws[1..])
  }

  lemma DatumLessTotal(d: Datum, e: Datum)
    requires OrderedKind(d) && OrderedKind(e)
    ensures d == e || DatumLess(d, e) || DatumLess(e, d)
  {
    if d.Bytes? && e.Bytes? {
      LexLessTotal(d.b, e.b);
    }
  }

  lemma {:induction false} RowLessTotal(vs: seq<Datum>, ws: seq<Datum>)
    requires OrderedRow(vs) && OrderedRow(ws)
    ensures vs == ws || RowLess(vs, ws) || RowLess(ws, vs)
    decreases |vs|
  {
    if |vs| > 0 && |ws| > 0 {
      if vs[0] != ws[0] {
        DatumLessTotal(vs[0], ws[0]);
      } else {
        RowLessTotal(vs[1..], ws[1..]);
        assert vs == [vs[0]] + vs[1..] && ws == [ws[0]] + ws[1..];
      }
    }
  }

  /** A flag in front of equal-length payloads keeps their order, whatever
      follows. */
  lemma FlaggedOrder(flag: byte, a: seq<byte>, b: seq<byte>, s: seq<byte>, t: seq<byte>)
    requires |a| == |b| && LexLess(a, b)
    ensures LexLess([flag] + a + s, [flag] + b + t)
  {
    LexLessCommonPrefix([flag], a, b);
    LexLessEqualLengthExtend([flag] + a, [flag] + b, s, t);
  }

  /** A flag in front of two group forms keeps the order of the strings they
      encode, whatever follows. */
  lemma FlaggedBytesOrder(v: seq<byte>, w: seq<byte>, s: seq<byte>, t: seq<byte>)
    requires LexLess(v, w)
    ensures LexLess(EncodeBytesElement(v, true) + s, EncodeBytesElement(w, true) + t)
  {
    EncodeBytesMonotone(v, w, s, t);
    LexLessCommonPrefix([BytesFlag], EncodeBytes(v) + s, EncodeBytes(w) + t);
    assert EncodeBytesElement(v, true) + s == [BytesFlag] + (EncodeBytes(v) + s);
    assert EncodeBytesElement(w, true) + t == [BytesFlag] + (EncodeBytes(w) + t);
  }

  /** Whatever follows them, the keys of two datums sort as the datums do. */
  lemma EncodeOneMonotone(d: Datum, e: Datum, newCollation: bool, s: seq<byte>, t: seq<byte>)
    requires OrderedKind(d) && OrderedKind(e) && DatumLess(d, e)
    ensures LexLess(EncodeOne(d, true, newCollation).value + s, EncodeOne(e, true, newCollation).value + t)
  {
    var a, b := EncodeOne(d, true, newCollation).value + s, EncodeOne(e, true, newCollation).value + t;
    if KeyFlag(d) != KeyFlag(e) {
      assert a[0] == KeyFlag(d) && b[0] == KeyFlag(e);
    } else if d.Int64? {
      EncodeIntOrder(d.i, e.i);
      FlaggedOrder(IntFlag, EncodeInt(d.i), EncodeInt(e.i), s, t);
    } else if d.Uint64? {
      EncodeUintOrder(d.u, e.u);
      FlaggedOrder(UintFlag, EncodeUint(d.u), EncodeUint(e.u), s, t);
    } else if d.Float? {
      EncodeUintOrder(d.image, e.image);
      FlaggedOrder(FloatFlag, EncodeUint(d.image), EncodeUint(e.image), s, t);
    } else if d.Duration? {
      EncodeIntOrder(d.nanos, e.nanos);
      FlaggedOrder(DurationFlag, EncodeInt(d.nanos), EncodeInt(e.nanos), s, t);
    } else if d.Bytes? {
      FlaggedBytesOrder(d.b, e.b, s, t);
    } else {
      // Two nulls: neither sorts before the other.
      assert false;
    }
  }

  /** The keys of two datums sort exactly as the datums do. */
  lemma EncodeOneOrder(d: Datum, e: Datum, newCollation: bool)
    requires OrderedKind(d) && OrderedKind(e)
    ensures LexLess(EncodeOne(d, true, newCollation).value, EncodeOne(e, true, newCollation).value) <==> DatumLess(d, e)
  {
    var a, b := EncodeOne(d, true, newCollation).value, EncodeOne(e, true, newCollation).value;
    assert a + [] == a && b + [] == b;
    if DatumLess(d, e) {
      EncodeOneMonotone(d, e, newCollation, [], []);
    } else {
      DatumLessTotal(d, e);
      if d == e {
        LexLessIrreflexive(a);
      } else {
        EncodeOneMonotone(e, d, newCollation, [], []);
        LexLessAsymmetric(b, a);
      }
    }
  }

  /** A row that sorts first has the key that sorts first. */
  lemma {:induction false} EncodeKeyMonotone(vs: seq<Datum>, ws: seq<Datum>, newCollation: bool)
    requires OrderedRow(vs) && OrderedRow(ws) && RowLess(vs, ws)
    ensures LexLess(EncodeAll(vs, true, newCollation).0, EncodeAll(ws, true, newCollation).0)
    decreases |vs|
  {
    EncodeAllCons(ws, true, newCollation);
    if |vs| > 0 {
      EncodeAllCons(vs, true, newCollation);
      var hv, hw := EncodeOne(vs[0], true, newCollation).value, EncodeOne(ws[0], true, newCollation).value;
      var tv, tw := EncodeAll(vs[1..], true, newCollation).0, EncodeAll(ws[1..], true, newCollation).0;
      if vs[0] != ws[0] {
        EncodeOneMonotone(vs[0], ws[0], newCollation, tv, tw);
      } else {
        EncodeKeyMonotone(vs[1..], ws[1..], newCollation);
        LexLessCommonPrefix(hv, tv, tw);
      }
    }
  }

  /** Key order: the keys of two rows sort as bytes exactly as the rows sort. */
  lemma KeyOrder(vs: seq<Datum>, ws: seq<Datum>, newCollation: bool)
    requires OrderedRow(vs) && OrderedRow(ws)
    ensures LexLess(EncodeAll(vs, true, newCollation).0, EncodeAll(ws, true, newCollation).0) <==> RowLess(vs, ws)
  {
    var a, b := EncodeAll(vs, true, newCollation).0, EncodeAll(ws, true, newCollation).0;
    if RowLess(vs, ws) {
      EncodeKeyMonotone(vs, ws, newCollation);
    } else {
      RowLessTotal(vs, ws);
      if vs == ws {
        LexLessIrreflexive(a);
      } else {
        EncodeKeyMonotone(ws, vs, newCollation);
        LexLessAsymmetric(b, a);
      }
    }
  }

  /** Two different rows never share a key. */
  lemma EncodeKeyInjective(vs: seq<Datum>, ws: seq<Datum>, newCollation: bool)
    requires OrderedRow(vs) && OrderedRow(ws)
    ensures EncodeAll(vs, true, newCollation).0 == EncodeAll(ws, true, newCollation).0 ==> vs == ws
  {
    RowLessTotal(vs, ws);
    KeyOrder(vs, ws, newCollation);
    KeyOrder(ws, vs, newCollation);
    LexLessIrreflexive(EncodeAll(vs, true, newCollation).0);
  }
}
