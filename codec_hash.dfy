/** The hash and equality path of the codec: the flag and bytes
    `encodeHashChunkRowIdx` gives one cell of a chunk row, the byte stream
    `HashChunkRow` writes for a row, and `EqualChunkRow`, which compares two
    rows column by column on those flags and bytes. */
module CodecHash {
  import opened Common
  import opened CodecErrors
  import opened CodecTypes

  /** The column types `encodeHashChunkRowIdx` tells apart. `OtherColumn`
      carries the MySQL type code of any other type. */
  datatype HashColumnType =
    | IntegerColumn(unsigned: bool)   // tiny, short, int24, long, longlong, year
    | FloatingColumn                  // float and double
    | StringColumn                    // varchar, var-string, string and the blobs
    | DateColumn                      // date, datetime, timestamp
    | DurationColumn
    | DecimalColumn
    | EnumColumn(enumSetAsInt: bool)
    | SetColumn
    | BitColumn
    | JsonColumn
    | VectorColumn
    | OtherColumn(tp: int)

  /** One cell of a chunk row. `intValue` is what `GetInt64` reads; `bytes`
      stands for the bytes the cell's type produces (the raw eight bytes of an
      integer or a duration, the in-memory image of the normalised float, the
      collation key of a string, enum or set name, the packed time, the hash key
      of a decimal, the hash value of a JSON document, the serialised vector);
      `helperError` is the error of the helper that produces them, where that
      helper can fail (packing a time, the decimal hash key, parsing a set). */
  datatype Cell = Cell(isNull: bool, intValue: i64, bytes: seq<byte>, helperError: Option<CodecError>)

  /** The types whose byte producer can fail. */
  predicate HelperMayFail(tp: HashColumnType) {
    tp.DateColumn? || tp.DecimalColumn? || tp.SetColumn?
  }

  /** `encodeHashChunkRowIdx`: the flag and the bytes of one cell, or the error
      that stops the hashing. */
  function HashCell(tp: HashColumnType, c: Cell): (r: Res<(byte, seq<byte>)>)
    ensures c.isNull ==> r == Ok((NilFlag, []))
    ensures r.Err? <==> !c.isNull && (tp.OtherColumn? || (HelperMayFail(tp) && c.helperError.Some?))
    ensures r.Err? && tp.OtherColumn? ==> r.error == UnsupportedColumnType(tp.tp)
    ensures r.Ok? && !c.isNull ==> KnownFlag(r.value.0) && r.value.0 != NilFlag && r.value.1 == c.bytes
    ensures r.Ok? && !c.isNull && tp.IntegerColumn? ==>
      (r.value.0 == VarintFlag <==> !tp.unsigned && c.intValue < 0) && (r.value.0 == VarintFlag || r.value.0 == UvarintFlag)
  {
    if c.isNull then Ok((NilFlag, []))
    else match tp
      case IntegerColumn(unsigned) =>
        Ok((if !unsigned && c.intValue < 0 then VarintFlag else UvarintFlag, c.bytes))
      case FloatingColumn => Ok((FloatFlag, c.bytes))
      case StringColumn => Ok((CompactBytesFlag, c.bytes))
      case DateColumn =>
        if c.helperError.Some? then Err(c.helperError.value) else Ok((UintFlag, c.bytes))
      case DurationColumn => Ok((DurationFlag, c.bytes))
      case DecimalColumn =>
        if c.helperError.Some? then Err(c.helperError.value) else Ok((DecimalFlag, c.bytes))
      case EnumColumn(asInt) => Ok((if asInt then UvarintFlag else CompactBytesFlag, c.bytes))
      case SetColumn =>
        if c.helperError.Some? then Err(c.helperError.value) else Ok((CompactBytesFlag, c.bytes))
      case BitColumn => Ok((UvarintFlag, c.bytes))
      case JsonColumn => Ok((JsonFlag, c.bytes))
      case VectorColumn => Ok((VectorFloat32Flag, c.bytes))
      case OtherColumn(code) => Err(UnsupportedColumnType(code))
  }

  /** The columns of a row that one side of the comparison reads: a type for
      each listed column and a cell at each listed index. */
  predicate Columns(types: seq<HashColumnType>, row: seq<Cell>, idx: seq<nat>) {
    |types| >= |idx| && forall k :: 0 <= k < |idx| ==> idx[k] < |row|
  }

  /** One column of `EqualChunkRow`: both cells are encoded, the first one
      first, and compared on flag and bytes. */
  function CellsEqual(t1: HashColumnType, c1: Cell, t2: HashColumnType, c2: Cell): (r: Res<bool>)
    ensures r.Ok? <==> HashCell(t1, c1).Ok? && HashCell(t2, c2).Ok?
    ensures r.Ok? ==> (r.value <==> HashCell(t1, c1) == HashCell(t2, c2))
    ensures HashCell(t1, c1).Err? ==> r == Err(HashCell(t1, c1).error)
  {
    var (f1, b1) :- HashCell(t1, c1);
    var (f2, b2) :- HashCell(t2, c2);
    Ok(f1 == f2 && b1 == b2)
  }

  /** The loop of `EqualChunkRow` from column `i` on. */
  function EqualFrom(types1: seq<HashColumnType>, row1: seq<Cell>, idx1: seq<nat>,
                     types2: seq<HashColumnType>, row2: seq<Cell>, idx2: seq<nat>, i: nat): (r: Res<bool>)
    requires Columns(types1, row1, idx1) && Columns(types2, row2, idx2) && |idx1| == |idx2|
    requires i <= |idx1|
    ensures r.Err? ==> exists k :: i <= k < |idx1| && CellsEqual(types1[k], row1[idx1[k]], types2[k], row2[idx2[k]]) == Err(r.error)
    decreases |idx1| - i
  {
    if i == |idx1| then Ok(true)
    else match CellsEqual(types1[i], row1[idx1[i]], types2[i], row2[idx2[i]])
      case Err(e) => Err(e)
      case Ok(same) => if same then EqualFrom(types1, row1, idx1, types2, row2, idx2, i + 1) else Ok(false)
  }

  /** What `EqualChunkRow` returns. */
  function EqualRows(types1: seq<HashColumnType>, row1: seq<Cell>, idx1: seq<nat>,
                     types2: seq<HashColumnType>, row2: seq<Cell>, idx2: seq<nat>): (r: Res<bool>)
    requires Columns(types1, row1, idx1) && Columns(types2, row2, idx2)
    ensures |idx1| != |idx2| ==> r == Err(HashColumnsMismatch(|idx1|, |idx2|))
  {
    if |idx1| != |idx2| then Err(HashColumnsMismatch(|idx1|, |idx2|))
    else EqualFrom(types1, row1, idx1, types2, row2, idx2, 0)
  }

  /** `EqualChunkRow`. */
  method EqualChunkRow(types1: seq<HashColumnType>, row1: seq<Cell>, idx1: seq<nat>,
                       types2: seq<HashColumnType>, row2: seq<Cell>, idx2: seq<nat>) returns (r: Res<bool>)
    requires Columns(types1, row1, idx1) && Columns(types2, row2, idx2)
    ensures r == EqualRows(types1, row1, idx1, types2, row2, idx2)
  {
    if |idx1| != |idx2| {
      return Err(HashColumnsMismatch(|idx1|, |idx2|));
    }
    var i := 0;
    while i < |idx1|
      invariant 0 <= i <= |idx1|
      invariant EqualRows(types1, row1, idx1, types2, row2, idx2) == EqualFrom(types1, row1, idx1, types2, row2, idx2, i)
    {
      var e1 := HashCell(types1[i], row1[idx1[i]]);
      if e1.Err? {
        return Err(e1.error);
      }
      var e2 := HashCell(types2[i], row2[idx2[i]]);
      if e2.Err? {
        return Err(e2.error);
      }
      if !(e1.value.0 == e2.value.0 && e1.value.1 == e2.value.1) {
        return Ok(false);
      }
      i := i + 1;
    }
    r := Ok(true);
  }

  /** From column `i` on, the rows are equal exactly when every column is. */
  lemma {:induction false} EqualFromTrue(types1: seq<HashColumnType>, row1: seq<Cell>, idx1: seq<nat>,
                                         types2: seq<HashColumnType>, row2: seq<Cell>, idx2: seq<nat>, i: nat)
    requires Columns(types1, row1, idx1) && Columns(types2, row2, idx2) && |idx1| == |idx2|
    requires i <= |idx1|
    ensures EqualFrom(types1, row1, idx1, types2, row2, idx2, i) == Ok(true) <==>
      forall k :: i <= k < |idx1| ==> CellsEqual(types1[k], row1[idx1[k]], types2[k], row2[idx2[k]]) == Ok(true)
    decreases |idx1| - i
  {
    if i < |idx1| {
      EqualFromTrue(types1, row1, idx1, types2, row2, idx2, i + 1);
    }
  }

  /** `EqualChunkRow` reports two rows equal exactly when they list as many
      columns and every column hashes to the same flag and bytes on both sides. */
  lemma EqualRowsTrue(types1: seq<HashColumnType>, row1: seq<Cell>, idx1: seq<nat>,
                      types2: seq<HashColumnType>, row2: seq<Cell>, idx2: seq<nat>)
    requires Columns(types1, row1, idx1) && Columns(types2, row2, idx2)
    ensures EqualRows(types1, row1, idx1, types2, row2, idx2) == Ok(true) <==>
      |idx1| == |idx2| &&
      forall k :: 0 <= k < |idx1| ==>
        HashCell(types1[k], row1[idx1[k]]).Ok? && HashCell(types1[k], row1[idx1[k]]) == HashCell(types2[k], row2[idx2[k]])
  {
    if |idx1| == |idx2| {
      EqualFromTrue(types1, row1, idx1, types2, row2, idx2, 0);
    }
  }

  /** Equality is symmetric. */
  lemma EqualRowsSymmetric(types1: seq<HashColumnType>, row1: seq<Cell>, idx1: seq<nat>,
                           types2: seq<HashColumnType>, row2: seq<Cell>, idx2: seq<nat>)
    requires Columns(types1, row1, idx1) && Columns(types2, row2, idx2)
    ensures EqualRows(types1, row1, idx1, types2, row2, idx2) == Ok(true) <==>
      EqualRows(types2, row2, idx2, types1, row1, idx1) == Ok(true)
  {
    EqualRowsTrue(types1, row1, idx1, types2, row2, idx2);
    EqualRowsTrue(types2, row2, idx2, types1, row1, idx1);
  }

  /** A row whose every column hashes without an error equals itself. */
  lemma EqualRowsReflexive(types: seq<HashColumnType>, row: seq<Cell>, idx: seq<nat>)
    requires Columns(types, row, idx)
    requires forall k :: 0 <= k < |idx| ==> HashCell(types[k], row[idx[k]]).Ok?
    ensures EqualRows(types, row, idx, types, row, idx) == Ok(true)
  {
    EqualRowsTrue(types, row, idx, types, row, idx);
  }

  /** A NULL cell never equals a non-NULL one, and in a signed integer column a
      negative value never equals a non-negative one, whatever their bytes. */
  lemma NullAndSignSeparate(t1: HashColumnType, c1: Cell, t2: HashColumnType, c2: Cell)
    requires (c1.isNull && !c2.isNull) || (t1 == t2 == IntegerColumn(false) && !c1.isNull && !c2.isNull && c1.intValue < 0 <= c2.intValue)
    ensures CellsEqual(t1, c1, t2, c2) != Ok(true)
  {
  }

  // ---------------------------------------------------------------------------
  // HashChunkRow.

  /** The bytes `HashChunkRow` writes from column `i` on (a flag byte and the
      cell's bytes per column) and the error that stopped it. */
  function HashFrom(types: seq<HashColumnType>, row: seq<Cell>, idx: seq<nat>, i: nat): (r: (seq<byte>, Option<CodecError>))
    requires Columns(types, row, idx) && i <= |idx|
    ensures r.1.None? ==> |r.0| >= |idx| - i
    decreases |idx| - i
  {
    if i == |idx| then ([], None)
    else match HashCell(types[i], row[idx[i]])
      case Err(e) => ([], Some(e))
      case Ok((flag, b)) =>
        var tail := HashFrom(types, row, idx, i + 1);
        ([flag] + b + tail.0, tail.1)
  }

  /** `HashChunkRow` fails exactly when some column fails to hash. */
  lemma {:induction false} HashFromSucceeds(types: seq<HashColumnType>, row: seq<Cell>, idx: seq<nat>, i: nat)
    requires Columns(types, row, idx) && i <= |idx|
    ensures HashFrom(types, row, idx, i).1.None? <==> forall k :: i <= k < |idx| ==> HashCell(types[k], row[idx[k]]).Ok?
    decreases |idx| - i
  {
    if i < |idx| {
      HashFromSucceeds(types, row, idx, i + 1);
    }
  }

  /** `HashFrom` with the bytes already written in front, in the order the
      loop of `HashChunkRow` builds them. */
  function HashLoop(types: seq<HashColumnType>, row: seq<Cell>, idx: seq<nat>, i: nat, acc: seq<byte>): (seq<byte>, Option<CodecError>)
    requires Columns(types, row, idx) && i <= |idx|
    decreases |idx| - i
  {
    if i == |idx| then (acc, None)
    else match HashCell(types[i], row[idx[i]])
      case Err(e) => (acc, Some(e))
      case Ok((flag, b)) => HashLoop(types, row, idx, i + 1, acc + [flag] + b)
  }

  lemma {:induction false} HashLoopIsHashFrom(types: seq<HashColumnType>, row: seq<Cell>, idx: seq<nat>, i: nat, acc: seq<byte>)
    requires Columns(types, row, idx) && i <= |idx|
    ensures HashLoop(types, row, idx, i, acc) == (acc + HashFrom(types, row, idx, i).0, HashFrom(types, row, idx, i).1)
    decreases |idx| - i
  {
    if i == |idx| || HashCell(types[i], row[idx[i]]).Err? {
      assert acc + [] == acc;
    } else {
      var (flag, b) := HashCell(types[i], row[idx[i]]).value;
      HashLoopIsHashFrom(types, row, idx, i + 1, acc + [flag] + b);
      var later := HashFrom(types, row, idx, i + 1).0;
      assert (acc + [flag] + b) + later == acc + ([flag] + b + later);
    }
  }

  /** `HashChunkRow`, writing to a growing byte sequence. */
  method HashChunkRow(types: seq<HashColumnType>, row: seq<Cell>, idx: seq<nat>) returns (out: seq<byte>, err: Option<CodecError>)
    requires Columns(types, row, idx)
    ensures (out, err) == HashFrom(types, row, idx, 0)
  {
    HashLoopIsHashFrom(types, row, idx, 0, []);
    assert [] + HashFrom(types, row, idx, 0).0 == HashFrom(types, row, idx, 0).0;
    ghost var spec := HashLoop(types, row, idx, 0, []);
    out := [];
    var i := 0;
    while i < |idx|
      invariant 0 <= i <= |idx|
      invariant spec == HashLoop(types, row, idx, i, out)
    {
      var e := HashCell(types[i], row[idx[i]]);
      if e.Err? {
        return out, Some(e.error);
      }
      out := out + [e.value.0] + e.value.1;
      i := i + 1;
    }
    err := None;
  }

  /** Rows `EqualChunkRow` reports equal are hashed to the same bytes, without
      an error: equal join keys land in the same hash bucket. */
  lemma {:induction false} EqualFromHashEqual(types1: seq<HashColumnType>, row1: seq<Cell>, idx1: seq<nat>,
                                              types2: seq<HashColumnType>, row2: seq<Cell>, idx2: seq<nat>, i: nat)
    requires Columns(types1, row1, idx1) && Columns(types2, row2, idx2) && |idx1| == |idx2|
    requires i <= |idx1|
    requires EqualFrom(types1, row1, idx1, types2, row2, idx2, i) == Ok(true)
    ensures HashFrom(types1, row1, idx1, i) == HashFrom(types2, row2, idx2, i)
    ensures HashFrom(types1, row1, idx1, i).1 == None
    decreases |idx1| - i
  {
    if i < |idx1| {
      EqualFromHashEqual(types1, row1, idx1, types2, row2, idx2, i + 1);
    }
  }

  lemma EqualRowsHashEqual(types1: seq<HashColumnType>, row1: seq<Cell>, idx1: seq<nat>,
                           types2: seq<HashColumnType>, row2: seq<Cell>, idx2: seq<nat>)
    requires Columns(types1, row1, idx1) && Columns(types2, row2, idx2)
    requires EqualRows(types1, row1, idx1, types2, row2, idx2) == Ok(true)
    ensures HashFrom(types1, row1, idx1, 0) == HashFrom(types2, row2, idx2, 0)
    ensures HashFrom(types1, row1, idx1, 0).1 == None
  {
    EqualFromHashEqual(types1, row1, idx1, types2, row2, idx2, 0);
  }

  /** The converse does not hold: the cell bytes carry no length, so two
      string columns can split the same bytes differently and hash alike while
      `EqualChunkRow` tells them apart. */
  lemma HashNotInjective()
    ensures var types := [StringColumn, StringColumn];
      var row1 := [Cell(false, 0, [97], None), Cell(false, 0, [2, 98], None)];
      var row2 := [Cell(false, 0, [97, 2], None), Cell(false, 0, [98], None)];
      HashFrom(types, row1, [0, 1], 0) == HashFrom(types, row2, [0, 1], 0) &&
      EqualRows(types, row1, [0, 1], types, row2, [0, 1]) == Ok(false)
  {
    var types := [StringColumn, StringColumn];
    var row1 := [Cell(false, 0, [97], None), Cell(false, 0, [2, 98], None)];
    var row2 := [Cell(false, 0, [97, 2], None), Cell(false, 0, [98], None)];
    assert HashFrom(types, row1, [0, 1], 0).0 == [2, 97, 2, 2, 98];
    assert HashFrom(types, row2, [0, 1], 0).0 == [2, 97, 2, 2, 98];
  }
}
