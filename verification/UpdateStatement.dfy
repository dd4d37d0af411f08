/** What UPDATE does, said by its WHERE and SET: which rows change, into what, and when it fails. */
module UpdateStatements {
  import opened Wrappers
  import opened Rows
  import opened RowSerializer
  import opened HeapTables
  import opened TableUpdates
  import opened Executors

  // ----- SET on one row

  /** The value SET gives column i: that of the last assignment to it, evaluated on the old row, else the old one. */
  function SetValue(row: Row, assignments: seq<Assignment>, schema: Schema, i: nat): Value
    requires |row| == |schema| && i < |schema|
  {
    var k := LastTo(assignments, schema, i);
    if k.Some? then assignments[k.value].value(row) else row[i]
  }

  function SetValues(row: Row, assignments: seq<Assignment>, schema: Schema): (r: Row)
    requires |row| == |schema|
    ensures |r| == |schema|
  {
    seq(|schema|, i requires 0 <= i < |schema| => SetValue(row, assignments, schema, i))
  }

  /** SET names a column the table does not have. */
  predicate UnknownColumn(assignments: seq<Assignment>, schema: Schema) {
    exists k :: 0 <= k < |assignments| && Unknown(assignments[k], schema)
  }

  /** SET would put NULL in a column that is NOT NULL. */
  predicate NullRefused(row: Row, assignments: seq<Assignment>, schema: Schema)
    requires |row| == |schema|
  {
    exists i :: 0 <= i < |schema| && SetValue(row, assignments, schema, i).Null? && !schema[i].nullable
  }

  predicate Refused(row: Row, assignments: seq<Assignment>, schema: Schema)
    requires |row| == |schema|
  {
    UnknownColumn(assignments, schema) || NullRefused(row, assignments, schema)
  }

  function RefusalCode(assignments: seq<Assignment>, schema: Schema): ErrorCode {
    if UnknownColumn(assignments, schema) then COLUMN_NOT_FOUND else CONSTRAINT_VIOLATION
  }

  lemma AssignedIs(row: Row, assignments: seq<Assignment>, schema: Schema)
    requires |row| == |schema|
    ensures Assigned(row, assignments, schema)
            == if UnknownColumn(assignments, schema) then None else Some(SetValues(row, assignments, schema))
  {
    hide Assigned, LastTo, Unknown;
    AssignedFailsIff(row, assignments, schema);
    if !UnknownColumn(assignments, schema) {
      var made := Assigned(row, assignments, schema).value;
      forall i | 0 <= i < |schema|
        ensures made[i] == SetValues(row, assignments, schema)[i]
      {
        AssignedAt(row, assignments, schema, i);
      }
      assert made == SetValues(row, assignments, schema);
    }
  }

  /** What UPDATE answers for a row, by WHERE and SET alone. */
  lemma JudgeIs(row: Row, where: Row -> bool, assignments: seq<Assignment>, schema: Schema)
    requires |row| == |schema|
    ensures var v := UpdateJudge(where, assignments, schema)(row);
            if !where(row) then v == Keep
            else if Refused(row, assignments, schema) then v == Fail(RefusalCode(assignments, schema))
            else v == Replace(AsColumns(SetValues(row, assignments, schema), schema))
  {
    hide Assigned, AsColumns, UnknownColumn, LastTo;
    AssignedIs(row, assignments, schema);
    var values := SetValues(row, assignments, schema);
    assert forall i :: 0 <= i < |schema| ==> values[i] == SetValue(row, assignments, schema, i);
    assert ValidRow(values, schema) <==> !NullRefused(row, assignments, schema);
  }

  // ----- all rows

  /** The row stored at a TID. */
  function RowAt(t: Table, id: Tid, schema: Schema): (row: Row)
    requires InRange(t, id)
    ensures |row| == |schema|
  {
    DecodeRow(At(t, id), schema)
  }

  /** The rows SET makes of those that pass WHERE, in order, as their columns keep them. */
  function Rebuilt(rows: seq<Row>, where: Row -> bool, assignments: seq<Assignment>, schema: Schema): seq<Row>
    requires forall i :: 0 <= i < |rows| ==> |rows[i]| == |schema|
  {
    if rows == [] then []
    else
      var row := rows[|rows| - 1];
      Rebuilt(rows[..|rows| - 1], where, assignments, schema)
      + if where(row) then [AsColumns(SetValues(row, assignments, schema), schema)] else []
  }

  predicate NoneRefused(rows: seq<Row>, where: Row -> bool, assignments: seq<Assignment>, schema: Schema)
    requires forall i :: 0 <= i < |rows| ==> |rows[i]| == |schema|
  {
    forall i :: 0 <= i < |rows| && where(rows[i]) ==> !Refused(rows[i], assignments, schema)
  }

  /** The rows UPDATE should leave are those that fail WHERE and, for each of the others, the one SET makes. */
  lemma {:induction false} AfterIs(rows: seq<Row>, where: Row -> bool, assignments: seq<Assignment>, schema: Schema)
    requires forall i :: 0 <= i < |rows| ==> |rows[i]| == |schema|
    requires NoneRefused(rows, where, assignments, schema)
    ensures multiset(After(rows, UpdateJudge(where, assignments, schema)))
            == multiset(Unmatched(rows, where)) + multiset(Rebuilt(rows, where, assignments, schema))
    ensures Changed(rows, UpdateJudge(where, assignments, schema)) == |Rebuilt(rows, where, assignments, schema)|
  {
    hide UpdateJudge, AsColumns, SetValues, Refused, After, Changed, Rebuilt, Unmatched;
    var judge := UpdateJudge(where, assignments, schema);
    if rows == [] {
      NoRows(judge, where, assignments, schema);
    } else {
      var before, row := rows[..|rows| - 1], rows[|rows| - 1];
      assert rows == before + [row];
      AfterIs(before, where, assignments, schema);
      JudgeIs(row, where, assignments, schema);
      AfterLast(before, row, judge);
      ChangedLast(before, row, judge);
      SplitLast(before, row, where, assignments, schema);
    }
  }

  lemma NoRows(judge: Row -> Verdict, where: Row -> bool, assignments: seq<Assignment>, schema: Schema)
    ensures After([], judge) == [] && Changed([], judge) == 0 && Unmatched([], where) == []
    ensures Rebuilt([], where, assignments, schema) == []
  {
  }

  lemma SplitLast(before: seq<Row>, row: Row, where: Row -> bool, assignments: seq<Assignment>, schema: Schema)
    requires (forall i :: 0 <= i < |before| ==> |before[i]| == |schema|) && |row| == |schema|
    ensures Unmatched(before + [row], where) == Unmatched(before, where) + if where(row) then [] else [row]
    ensures Rebuilt(before + [row], where, assignments, schema)
            == Rebuilt(before, where, assignments, schema)
               + if where(row) then [AsColumns(SetValues(row, assignments, schema), schema)] else []
  {
    hide AsColumns, SetValues;
    assert (before + [row])[..|before|] == before;
  }

  /** UPDATE stopped at the record scanned at position m, which passes WHERE: of the records scanned before it, those
      that pass are replaced, and every other record is as it was. */
  ghost predicate StoppedBefore(t: Table, v: Table, schema: Schema, where: Row -> bool, assignments: seq<Assignment>,
        applied: nat, m: nat)
    requires AllInRange(t, Scan(t, 0, 0))
  {
    var ids := Scan(t, 0, 0);
    && m < |ids| && where(RowAt(t, ids[m], schema))
    && applied == |Rebuilt(RowsAt(t, ids[..m], schema), where, assignments, schema)|
    && (schema != [] ==>
          && TableBag(v, schema)
             == multiset(Unmatched(RowsAt(t, ids[..m], schema), where))
                + multiset(Rebuilt(RowsAt(t, ids[..m], schema), where, assignments, schema))
                + multiset(RowsAt(t, ids[m..], schema))
          && forall id :: Live(t, id) ==>
               InRange(v, id) &&
               if where(RowAt(t, id, schema)) && id in ids[..m] then !Live(v, id) else At(v, id) == At(t, id))
  }

  /** UPDATE by WHERE and SET. It fails exactly when some row that passes WHERE is refused, and then changes nothing.
      When it succeeds, a record whose row fails WHERE is where it was with its bytes, one whose row passes is gone, and
      the table holds the rows that fail WHERE and one row for each of the others: the values SET gives it, as its
      columns keep them. */
  lemma UpdateDoes(t: Table, v: Table, schema: Schema, where: Row -> bool, assignments: seq<Assignment>, out: Outcome)
    requires Executed(t, v, schema, UpdateJudge(where, assignments, schema), out)
    ensures out.Failed? <==>
            exists id :: Live(t, id) && where(RowAt(t, id, schema))
                         && Refused(RowAt(t, id, schema), assignments, schema)
    ensures out.Failed? ==> v == t && out.code == RefusalCode(assignments, schema)
    ensures out.Done? ==>
              var rows := RowsAt(t, Scan(t, 0, 0), schema);
              TableBag(v, schema)
              == multiset(Unmatched(rows, where)) + multiset(Rebuilt(rows, where, assignments, schema))
    ensures out.Done? ==>
              forall id :: Live(t, id) ==>
                InRange(v, id) && if where(RowAt(t, id, schema)) then !Live(v, id) else At(v, id) == At(t, id)
    ensures out.PartlyApplied? ==> exists m :: StoppedBefore(t, v, schema, where, assignments, out.applied, m)
  {
    hide Executed, UpdateJudge, TableBag, After, DecodeRow, EncodeRow, At, Scan, AllFit, AsColumns, SetValues, Refused,
         Rebuilt, Unmatched, StoppedAt, StoppedBefore;
    var judge := UpdateJudge(where, assignments, schema);
    InRangeOf(t, v, schema, judge, out);
    UpdateMeaning(t, v, schema, judge, out);
    FailsIff(t, schema, where, assignments);
    if out.Failed? {
      var i :| FailsFirst(t, Scan(t, 0, 0), schema, judge, i, out.code);
      JudgeIs(RowAt(t, Scan(t, 0, 0)[i], schema), where, assignments, schema);
    } else {
      NobodyRefused(t, Scan(t, 0, 0), schema, where, assignments);
      if out.Done? {
        AfterIs(RowsAt(t, Scan(t, 0, 0), schema), where, assignments, schema);
        CarriedOutIs(t, v, schema, where, assignments);
      } else {
        var m :| StoppedAt(t, v, schema, judge, out.applied, m);
        StoppedIs(t, v, schema, where, assignments, out.applied, m);
      }
    }
  }

  lemma InRangeOf(t: Table, v: Table, schema: Schema, judge: Row -> Verdict, out: Outcome)
    requires Executed(t, v, schema, judge, out)
    ensures AllInRange(t, Scan(t, 0, 0))
  {
  }

  lemma FailsIff(t: Table, schema: Schema, where: Row -> bool, assignments: seq<Assignment>)
    requires AllInRange(t, Scan(t, 0, 0))
    ensures (exists i :: FailsAt(t, Scan(t, 0, 0), schema, UpdateJudge(where, assignments, schema), i)) <==>
            exists id :: Live(t, id) && where(RowAt(t, id, schema))
                         && Refused(RowAt(t, id, schema), assignments, schema)
  {
    hide UpdateJudge, Refused, AsColumns, DecodeRow, At, Scan;
    var ids, judge := Scan(t, 0, 0), UpdateJudge(where, assignments, schema);
    forall i | 0 <= i < |ids|
      ensures Live(t, ids[i])
      ensures FailsAt(t, ids, schema, judge, i)
              <==> where(RowAt(t, ids[i], schema)) && Refused(RowAt(t, ids[i], schema), assignments, schema)
    {
      ScanIsExact(t, 0, 0, ids[i]);
      JudgeIs(RowAt(t, ids[i], schema), where, assignments, schema);
    }
    if id :| Live(t, id) && where(RowAt(t, id, schema)) && Refused(RowAt(t, id, schema), assignments, schema) {
      ScanIsExact(t, 0, 0, id);
      var i :| 0 <= i < |ids| && ids[i] == id;
      assert FailsAt(t, ids, schema, judge, i);
    }
  }

  lemma NobodyRefused(t: Table, ids: seq<Tid>, schema: Schema, where: Row -> bool, assignments: seq<Assignment>)
    requires AllInRange(t, ids)
    requires !exists i :: FailsAt(t, ids, schema, UpdateJudge(where, assignments, schema), i)
    ensures NoneRefused(RowsAt(t, ids, schema), where, assignments, schema)
  {
    hide UpdateJudge, Refused, AsColumns, DecodeRow, At;
    var rows := RowsAt(t, ids, schema);
    forall i | 0 <= i < |rows| && where(rows[i])
      ensures !Refused(rows[i], assignments, schema)
    {
      JudgeIs(rows[i], where, assignments, schema);
      assert !FailsAt(t, ids, schema, UpdateJudge(where, assignments, schema), i);
    }
  }

  lemma CarriedOutIs(t: Table, v: Table, schema: Schema, where: Row -> bool, assignments: seq<Assignment>)
    requires CarriedOut(t, v, schema, UpdateJudge(where, assignments, schema))
    ensures forall id :: Live(t, id) ==>
              InRange(v, id) && if where(RowAt(t, id, schema)) then !Live(v, id) else At(v, id) == At(t, id)
  {
    hide UpdateJudge, Refused, AsColumns, DecodeRow, At;
    forall id | Live(t, id)
      ensures InRange(v, id) && if where(RowAt(t, id, schema)) then !Live(v, id) else At(v, id) == At(t, id)
    {
      JudgeIs(RowAt(t, id, schema), where, assignments, schema);
    }
  }

  lemma StoppedIs(t: Table, v: Table, schema: Schema, where: Row -> bool, assignments: seq<Assignment>, k: nat, m: nat)
    requires AllInRange(t, Scan(t, 0, 0)) && NoneRefused(RowsAt(t, Scan(t, 0, 0), schema), where, assignments, schema)
    requires StoppedAt(t, v, schema, UpdateJudge(where, assignments, schema), k, m)
    ensures StoppedBefore(t, v, schema, where, assignments, k, m)
  {
    hide UpdateJudge, Refused, AsColumns, SetValues, DecodeRow, EncodeRow, At, Scan, After, Rebuilt, Unmatched,
         TableBag, Changed;
    var ids, judge := Scan(t, 0, 0), UpdateJudge(where, assignments, schema);
    var rows := RowsAt(t, ids, schema);
    JudgeIs(rows[m], where, assignments, schema);
    SomeBytes(Judged(t, ids[m], schema, judge).row);
    assert RowsAt(t, ids[..m], schema) == rows[..m];
    AfterIs(rows[..m], where, assignments, schema);
    forall id | Live(t, id)
      ensures where(RowAt(t, id, schema)) && id in ids[..m] <==>
              !(Judged(t, id, schema, judge).Keep? || id in ids[m..])
    {
      ScannedOnce(t, m, id);
      JudgeIs(RowAt(t, id, schema), where, assignments, schema);
    }
  }

  /** Only a row without columns takes no bytes. */
  lemma SomeBytes(row: Row)
    ensures EncodeRow(row) == [] <==> row == []
  {
  }
}
