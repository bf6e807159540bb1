/** The statement that garbage-collects rows of `mysql.tidb_ttl_table_status`
    without a running job, sparing the tables that still exist. */
module TtlGcSql {
  import opened Common
  import opened TtlStrings

  const TableStatusGCWithoutIDTemplate: string := "DELETE FROM mysql.tidb_ttl_table_status WHERE current_job_status IS NULL"
  const NotInPrefix: string := " AND table_id NOT IN ("

  /** The decimal form of each id. */
  function IdStrings(ids: seq<int>): (r: seq<string>)
    ensures |r| == |ids|
    ensures forall i :: 0 <= i < |ids| ==> r[i] == Itoa(ids[i])
  {
    if |ids| == 0 then [] else [Itoa(ids[0])] + IdStrings(ids[1..])
  }

  /** `gcTTLTableStatusGCSQL`: the template alone for no ids; otherwise the
      template restricted to the tables not in the comma-separated list. */
  function GcTTLTableStatusGCSQL(existIDs: seq<int>): (r: string)
    ensures |existIDs| == 0 ==> r == TableStatusGCWithoutIDTemplate
  {
    if |existIDs| > 0 then TableStatusGCWithoutIDTemplate + NotInPrefix + Join(IdStrings(existIDs), ",") + ")"
    else TableStatusGCWithoutIDTemplate
  }

  /** An integer in decimal, if the string is one. */
  function ParseIntOpt(s: string): Option<int>
  {
    if |s| > 0 && forall i :: 0 <= i < |s| ==> IsDigit(s[i]) || (i == 0 && s[i] == '-') then Some(ParseInt(s))
    else None
  }

  /** The ids of a comma-separated list, if every item is an integer. */
  function ParseIdList(parts: seq<string>): Option<seq<int>>
  {
    if |parts| == 0 then Some([])
    else match (ParseIntOpt(parts[0]), ParseIdList(parts[1..]))
      case (Some(id), Some(ids)) => Some([id] + ids)
      case _ => None
  }

  lemma {:induction false} ParseIdStrings(ids: seq<int>)
    ensures ParseIdList(IdStrings(ids)) == Some(ids)
  {
    if |ids| > 0 {
      ParseItoa(ids[0]);
      assert ParseIntOpt(Itoa(ids[0])) == Some(ids[0]);
      assert IdStrings(ids)[1..] == IdStrings(ids[1..]);
      ParseIdStrings(ids[1..]);
      assert ids == [ids[0]] + ids[1..];
    }
  }

  /** Decimal ids never contain the list separator. */
  lemma IdStringsHaveNoComma(ids: seq<int>)
    ensures forall i :: 0 <= i < |ids| ==> ',' !in IdStrings(ids)[i]
  {
    forall i | 0 <= i < |ids|
      ensures ',' !in IdStrings(ids)[i]
    {
      var s := Itoa(ids[i]);
      assert forall j :: 0 <= j < |s| ==> s[j] != ',';
    }
  }

  /** The statement for a non-empty id list is the template followed by the
      `NOT IN` clause, and the clause lists exactly the given ids, in order. */
  lemma GcSqlListsIds(existIDs: seq<int>)
    requires |existIDs| > 0
    ensures var r := GcTTLTableStatusGCSQL(existIDs);
            var head := TableStatusGCWithoutIDTemplate + NotInPrefix;
            |r| > |head| && r[..|head|] == head && r[|r| - 1] == ')' &&
            ParseIdList(Split(r[|head|..|r| - 1], ',')) == Some(existIDs)
  {
    var head := TableStatusGCWithoutIDTemplate + NotInPrefix;
    var list := Join(IdStrings(existIDs), ",");
    var r := GcTTLTableStatusGCSQL(existIDs);
    assert r == head + list + ")";
    assert r[..|head|] == head;
    assert r[|head|..|r| - 1] == list;
    IdStringsHaveNoComma(existIDs);
    SplitJoin(IdStrings(existIDs), ',');
    ParseIdStrings(existIDs);
  }
}
