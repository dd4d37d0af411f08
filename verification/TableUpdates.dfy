/** Two-pass UPDATE and DELETE as values: which changes a scan collects, and what applying them one by one leaves. */
module TableUpdates {
  import opened Wrappers
  import opened Bytes
  import opened Rows
  import opened RowSerializer
  import opened HeapTables

  datatype ErrorCode = TABLE_NOT_FOUND | COLUMN_NOT_FOUND | CONSTRAINT_VIOLATION | INTERNAL_ERROR

  /** What a statement does with one row. */
  datatype Verdict = Keep | Replace(row: Row) | Remove | Fail(code: ErrorCode)

  /** A collected change; no row means delete. */
  datatype Change = Change(id: Tid, row: Option<Row>)

  // ----- SET

  /** SET column = expression; the expression is evaluated on the row before the statement. */
  datatype Assignment = Assignment(column: Text, value: Row -> Value)

  /** The last column of that name, as the name-to-index map has it. */
  function ColumnIndex(schema: Schema, name: Text): (r: Option<nat>)
    ensures r.Some? ==> r.value < |schema| && schema[r.value].name == name
    ensures r.None? ==> forall i :: 0 <= i < |schema| ==> schema[i].name != name
    ensures r.Some? ==> forall i :: r.value < i < |schema| ==> schema[i].name != name
  {
    if schema == [] then None
    else if schema[|schema| - 1].name == name then Some(|schema| - 1)
    else ColumnIndex(schema[..|schema| - 1], name)
  }

  /** The assignments so far, in order; None when a column does not exist. */
  function Assigned(row: Row, assignments: seq<Assignment>, schema: Schema): (r: Option<Row>)
    requires |row| == |schema|
    ensures r.Some? ==> |r.value| == |schema|
  {
    if assignments == [] then Some(row)
    else
      var a := assignments[|assignments| - 1];
      match Assigned(row, assignments[..|assignments| - 1], schema)
      case None => None
      case Some(r) =>
        match ColumnIndex(schema, a.column)
        case None => None
        case Some(i) => Some(r[i := a.value(row)])
  }

  lemma {:induction false} AssignedFails(row: Row, assignments: seq<Assignment>, schema: Schema, k: nat)
    requires |row| == |schema| && k <= |assignments| && Assigned(row, assignments[..k], schema).None?
    ensures Assigned(row, assignments, schema).None?
  {
    if k == |assignments| {
      assert assignments[..k] == assignments;
    } else {
      var n := |assignments| - 1;
      assert assignments[..n][..k] == assignments[..k];
      AssignedFails(row, assignments[..n], schema, k);
    }
  }

  predicate Unknown(a: Assignment, schema: Schema) {
    forall i :: 0 <= i < |schema| ==> schema[i].name != a.column
  }

  /** Building the new row fails exactly when some assignment names no column. */
  lemma {:induction false} AssignedFailsIff(row: Row, assignments: seq<Assignment>, schema: Schema)
    requires |row| == |schema|
    ensures Assigned(row, assignments, schema).None? <==>
            exists k :: 0 <= k < |assignments| && Unknown(assignments[k], schema)
  {
    if assignments != [] {
      var n := |assignments| - 1;
      AssignedFailsIff(row, assignments[..n], schema);
      assert forall k :: 0 <= k < n ==> assignments[..n][k] == assignments[k];
      assert ColumnIndex(schema, assignments[n].column).None? <==> Unknown(assignments[n], schema);
    }
  }

  /** The last assignment to column i. */
  function LastTo(assignments: seq<Assignment>, schema: Schema, i: nat): (k: Option<nat>)
    ensures k.Some? ==> k.value < |assignments| && ColumnIndex(schema, assignments[k.value].column) == Some(i)
    ensures forall j :: (if k.Some? then k.value else -1) < j < |assignments| ==>
              ColumnIndex(schema, assignments[j].column) != Some(i)
  {
    if assignments == [] then None
    else if ColumnIndex(schema, assignments[|assignments| - 1].column) == Some(i) then Some(|assignments| - 1)
    else LastTo(assignments[..|assignments| - 1], schema, i)
  }

  /** SET leaves a column as it was unless an assignment names it; then the last one decides, from the old row. */
  lemma {:induction false} AssignedAt(row: Row, assignments: seq<Assignment>, schema: Schema, i: nat)
    requires |row| == |schema| && i < |schema| && Assigned(row, assignments, schema).Some?
    ensures var k := LastTo(assignments, schema, i);
            Assigned(row, assignments, schema).value[i] == if k.Some? then assignments[k.value].value(row) else row[i]
  {
    if assignments != [] {
      AssignedAt(row, assignments[..|assignments| - 1], schema, i);
    }
  }

  /** What SET makes of a row: the new row as the columns keep it, once it is checked for NULLs. */
  function UpdateVerdict(row: Row, where: Row -> bool, assignments: seq<Assignment>, schema: Schema): Verdict
    requires |row| == |schema|
  {
    if !where(row) then Keep
    else
      match Assigned(row, assignments, schema)
      case None => Fail(COLUMN_NOT_FOUND)
      case Some(r) => if ValidRow(r, schema) then Replace(AsColumns(r, schema)) else Fail(CONSTRAINT_VIOLATION)
  }

  // ----- pass one

  /** The verdict on the record at a TID. */
  function Judged(t: Table, id: Tid, schema: Schema, judge: Row -> Verdict): Verdict
    requires InRange(t, id)
  {
    judge(DecodeRow(At(t, id), schema))
  }

  /** The change a verdict asks for, if any. */
  function Planned(v: Verdict, id: Tid): seq<Change> {
    match v
    case Replace(r) => [Change(id, Some(r))]
    case Remove => [Change(id, None)]
    case _ => []
  }

  /** The row a verdict leaves in the place of the given one, if any. */
  function Left(v: Verdict, row: Row): seq<Row> {
    match v
    case Replace(r) => [r]
    case Remove => []
    case _ => [row]
  }

  /** The changes a scan of `ids` collects; the first failing row ends the statement. */
  function Plan(t: Table, ids: seq<Tid>, schema: Schema, judge: Row -> Verdict): Result<seq<Change>, ErrorCode>
    requires AllInRange(t, ids)
  {
    if ids == [] then Ok([])
    else
      var id := ids[|ids| - 1];
      match Plan(t, ids[..|ids| - 1], schema, judge)
      case Err(e) => Err(e)
      case Ok(cs) =>
        var v := Judged(t, id, schema, judge);
        if v.Fail? then Err(v.code) else Ok(cs + Planned(v, id))
  }

  lemma PlanNothing(t: Table, ids: seq<Tid>, schema: Schema, judge: Row -> Verdict)
    requires AllInRange(t, ids)
    ensures Plan(t, ids[..0], schema, judge) == Ok([])
  {
  }

  /** One more scanned record. */
  lemma PlanNext(t: Table, ids: seq<Tid>, k: nat, schema: Schema, judge: Row -> Verdict)
    requires AllInRange(t, ids) && k < |ids| && Plan(t, ids[..k], schema, judge).Ok?
    ensures var v := Judged(t, ids[k], schema, judge);
            Plan(t, ids[..k + 1], schema, judge)
            == if v.Fail? then Err(v.code) else Ok(Plan(t, ids[..k], schema, judge).value + Planned(v, ids[k]))
  {
    assert ids[..k + 1][..k] == ids[..k];
  }

  lemma {:induction false} PlanFails(t: Table, ids: seq<Tid>, k: nat, schema: Schema, judge: Row -> Verdict)
    requires AllInRange(t, ids) && k <= |ids| && Plan(t, ids[..k], schema, judge).Err?
    ensures Plan(t, ids, schema, judge) == Plan(t, ids[..k], schema, judge)
  {
    if k == |ids| {
      assert ids[..k] == ids;
    } else {
      var n := |ids| - 1;
      assert ids[..n][..k] == ids[..k];
      PlanFails(t, ids[..n], k, schema, judge);
    }
  }

  /** A planned change is the verdict on a scanned record, and every verdict but Keep is planned. */
  lemma {:induction false} PlanIsExact(t: Table, ids: seq<Tid>, schema: Schema, judge: Row -> Verdict, c: Change)
    requires AllInRange(t, ids) && Plan(t, ids, schema, judge).Ok?
    ensures c in Plan(t, ids, schema, judge).value <==>
            c.id in ids && Planned(Judged(t, c.id, schema, judge), c.id) == [c]
  {
    if ids != [] {
      PlanIsExact(t, ids[..|ids| - 1], schema, judge, c);
      assert ids == ids[..|ids| - 1] + [ids[|ids| - 1]];
    }
  }

  // ----- pass two

  predicate LiveTargets(t: Table, cs: seq<Change>) {
    && (forall i :: 0 <= i < |cs| ==> Live(t, cs[i].id))
    && (forall i, j :: 0 <= i < j < |cs| ==> cs[i].id != cs[j].id)
  }

  /** No change names the TID. */
  predicate Spared(cs: seq<Change>, id: Tid) {
    forall i :: 0 <= i < |cs| ==> cs[i].id != id
  }

  function Olds(t: Table, cs: seq<Change>, schema: Schema): multiset<Row>
    requires LiveTargets(t, cs)
  {
    if cs == [] then multiset{}
    else Olds(t, cs[..|cs| - 1], schema) + multiset{DecodeRow(At(t, cs[|cs| - 1].id), schema)}
  }

  function News(cs: seq<Change>): multiset<Row> {
    if cs == [] then multiset{}
    else
      var c := cs[|cs| - 1];
      News(cs[..|cs| - 1]) + if c.row.Some? then multiset{c.row.value} else multiset{}
  }

  /** Every record of `t` that no change names is in `u` where it was. */
  ghost predicate OthersKept(t: Table, u: Table, cs: seq<Change>) {
    forall id :: InRange(t, id) && Spared(cs, id) ==> InRange(u, id) && At(u, id) == At(t, id)
  }

  predicate TargetsGone(u: Table, cs: seq<Change>) {
    forall i :: 0 <= i < |cs| ==> InRange(u, cs[i].id) && !Live(u, cs[i].id)
  }

  /** `u` is `t` with the changes applied: named records are gone, all others are where they were, and the bag of
      rows lost the old rows and gained the new ones, each once. */
  ghost predicate Applied(t: Table, u: Table, cs: seq<Change>, schema: Schema) {
    && LiveTargets(t, cs) && OthersKept(t, u, cs) && TargetsGone(u, cs)
    && TableBag(u, schema) + Olds(t, cs, schema) == TableBag(t, schema) + News(cs)
  }

  /** Applying one change to `u`, with the new record, if any, put on page p. */
  function Apply(u: Table, c: Change, p: nat): Table
    requires InRange(u, c.id) && p <= |u|
  {
    if c.row.Some? then Clear(Add(u, p, EncodeRow(c.row.value)), c.id) else Clear(u, c.id)
  }

  predicate Storable(c: Change, schema: Schema) {
    c.row.Some? ==> RowConforms(c.row.value, schema) && EncodeRow(c.row.value) != []
  }

  lemma AppliedNothing(t: Table, schema: Schema)
    ensures Applied(t, t, [], schema)
  {
  }

  /** When its turn comes, a change still finds the record it was collected for. */
  lemma StillThere(t: Table, u: Table, cs: seq<Change>, k: nat, schema: Schema)
    requires k < |cs| && LiveTargets(t, cs) && Applied(t, u, cs[..k], schema)
    ensures Live(u, cs[k].id) && At(u, cs[k].id) == At(t, cs[k].id)
  {
    assert Spared(cs[..k], cs[k].id);
  }

  /** What one change does to the bag. */
  lemma ApplyBag(u: Table, c: Change, p: nat, schema: Schema)
    requires Live(u, c.id) && p <= |u| && Storable(c, schema)
    ensures TableBag(Apply(u, c, p), schema) + multiset{DecodeRow(At(u, c.id), schema)}
            == TableBag(u, schema) + if c.row.Some? then multiset{c.row.value} else multiset{}
  {
    if c.row.Some? {
      var r := EncodeRow(c.row.value);
      DecodeEncodeRow(c.row.value, schema, []);
      assert r + [] == r;
      AddBag(u, p, r, schema);
      AddKeeps(u, p, r, c.id);
      ClearBag(Add(u, p, r), c.id, schema);
    } else {
      ClearBag(u, c.id, schema);
    }
  }

  lemma ApplyKeeps(t: Table, u: Table, cs: seq<Change>, c: Change, p: nat)
    requires OthersKept(t, u, cs) && TargetsGone(u, cs) && InRange(u, c.id) && p <= |u|
    ensures OthersKept(t, Apply(u, c, p), cs + [c]) && TargetsGone(Apply(u, c, p), cs + [c])
  {
    var v := Apply(u, c, p);
    forall id | InRange(t, id) && Spared(cs + [c], id)
      ensures InRange(v, id) && At(v, id) == At(t, id)
    {
      assert (cs + [c])[|cs|] == c;
      assert forall i :: 0 <= i < |cs| ==> cs[i] == (cs + [c])[i];
      assert Spared(cs, id);
    }
  }

  lemma BagStep(v: multiset<Row>, old1: multiset<Row>, u: multiset<Row>, new1: multiset<Row>,
                olds: multiset<Row>, t: multiset<Row>, news: multiset<Row>)
    requires v + old1 == u + new1 && u + olds == t + news
    ensures v + (olds + old1) == t + (news + new1)
  {
    assert v + (olds + old1) == (v + old1) + olds;
    assert (u + new1) + olds == (u + olds) + new1;
    assert (t + news) + new1 == t + (news + new1);
  }

  /** One more change applied. */
  lemma AppliedOneMore(t: Table, u: Table, cs: seq<Change>, k: nat, p: nat, schema: Schema)
    requires k < |cs| && LiveTargets(t, cs) && Applied(t, u, cs[..k], schema) && p <= |u| && Storable(cs[k], schema)
    ensures InRange(u, cs[k].id) && Applied(t, Apply(u, cs[k], p), cs[..k + 1], schema)
  {
    hide TableBag, DecodeRow, EncodeRow, OthersKept, TargetsGone, Storable, Apply, At;
    var c := cs[k];
    StillThere(t, u, cs, k, schema);
    assert cs[..k + 1] == cs[..k] + [c] && cs[..k + 1][..k] == cs[..k];
    ApplyKeeps(t, u, cs[..k], c, p);
    ApplyBag(u, c, p, schema);
    BagStep(TableBag(Apply(u, c, p), schema), multiset{DecodeRow(At(u, c.id), schema)}, TableBag(u, schema),
            if c.row.Some? then multiset{c.row.value} else multiset{},
            Olds(t, cs[..k], schema), TableBag(t, schema), News(cs[..k]));
  }

  /** An empty page more changes nothing that counts. */
  lemma AppliedEmptyPage(t: Table, u: Table, cs: seq<Change>, schema: Schema)
    requires Applied(t, u, cs, schema)
    ensures Applied(t, u + [[]], cs, schema)
  {
    TableBagAppend(u, [], schema);
  }

  // ----- the statement as a whole

  /** The rows a statement should leave, given the rows it scans. */
  function After(rows: seq<Row>, judge: Row -> Verdict): seq<Row> {
    if rows == [] then []
    else
      var row := rows[|rows| - 1];
      After(rows[..|rows| - 1], judge) + Left(judge(row), row)
  }

  ghost predicate FailsAt(t: Table, ids: seq<Tid>, schema: Schema, judge: Row -> Verdict, i: int)
    requires AllInRange(t, ids)
  {
    0 <= i < |ids| && Judged(t, ids[i], schema, judge).Fail?
  }

  /** Row i is the first that fails, and it fails with this code. */
  ghost predicate FailsFirst(t: Table, ids: seq<Tid>, schema: Schema, judge: Row -> Verdict, i: int, code: ErrorCode)
    requires AllInRange(t, ids)
  {
    && 0 <= i < |ids| && Judged(t, ids[i], schema, judge) == Fail(code)
    && forall j :: 0 <= j < i ==> !FailsAt(t, ids, schema, judge, j)
  }

  /** A statement fails in pass one exactly when some scanned row fails, with the code of the first such row. */
  lemma {:induction false} PlanFailsIff(t: Table, ids: seq<Tid>, schema: Schema, judge: Row -> Verdict)
    requires AllInRange(t, ids)
    ensures Plan(t, ids, schema, judge).Err? <==> exists i :: FailsAt(t, ids, schema, judge, i)
    ensures Plan(t, ids, schema, judge).Err? ==>
              exists i :: FailsFirst(t, ids, schema, judge, i, Plan(t, ids, schema, judge).error)
  {
    hide Judged;
    if ids != [] {
      var n := |ids| - 1;
      PlanFailsIff(t, ids[..n], schema, judge);
      assert forall j :: FailsAt(t, ids[..n], schema, judge, j) <==> j < n && FailsAt(t, ids, schema, judge, j);
      if Plan(t, ids[..n], schema, judge).Err? {
        var e := Plan(t, ids[..n], schema, judge).error;
        var i :| FailsFirst(t, ids[..n], schema, judge, i, e);
        assert FailsFirst(t, ids, schema, judge, i, e) && FailsAt(t, ids, schema, judge, i);
      } else if FailsAt(t, ids, schema, judge, n) {
        assert FailsFirst(t, ids, schema, judge, n, Judged(t, ids[n], schema, judge).code);
      }
    }
  }

  /** The planned changes name different live records. */
  lemma {:induction false} PlanTargets(t: Table, ids: seq<Tid>, schema: Schema, judge: Row -> Verdict)
    requires AllInRange(t, ids) && Ascending(ids) && (forall i :: 0 <= i < |ids| ==> Live(t, ids[i]))
    requires Plan(t, ids, schema, judge).Ok?
    ensures LiveTargets(t, Plan(t, ids, schema, judge).value)
  {
    if ids != [] {
      var n := |ids| - 1;
      var cs := Plan(t, ids[..n], schema, judge).value;
      PlanTargets(t, ids[..n], schema, judge);
      forall i | 0 <= i < |cs|
        ensures cs[i].id != ids[n]
      {
        PlanIsExact(t, ids[..n], schema, judge, cs[i]);
        assert cs[i] in cs;
      }
    }
  }

  /** Swapping the old rows of the planned changes for the new ones is what the statement should do. */
  lemma {:induction false} PlanBag(t: Table, ids: seq<Tid>, schema: Schema, judge: Row -> Verdict)
    requires AllInRange(t, ids) && Plan(t, ids, schema, judge).Ok?
    requires LiveTargets(t, Plan(t, ids, schema, judge).value)
    ensures var cs := Plan(t, ids, schema, judge).value;
            multiset(RowsAt(t, ids, schema)) + News(cs)
            == multiset(After(RowsAt(t, ids, schema), judge)) + Olds(t, cs, schema)
  {
    if ids != [] {
      var n := |ids| - 1;
      var ds := Plan(t, ids[..n], schema, judge).value;
      PlanLast(t, ids, schema, judge);
      RowsLast(t, ids, schema);
      TargetsPrefix(t, ds, Planned(Judged(t, ids[n], schema, judge), ids[n]));
      PlanBag(t, ids[..n], schema, judge);
      BagLast(t, ds, Plan(t, ids, schema, judge).value, RowsAt(t, ids[..n], schema), DecodeRow(At(t, ids[n]), schema),
              judge, ids[n], schema);
    }
  }

  lemma PlanLast(t: Table, ids: seq<Tid>, schema: Schema, judge: Row -> Verdict)
    requires AllInRange(t, ids) && ids != [] && Plan(t, ids, schema, judge).Ok?
    ensures var n := |ids| - 1;
            && Plan(t, ids[..n], schema, judge).Ok? && !Judged(t, ids[n], schema, judge).Fail?
            && Plan(t, ids, schema, judge).value
               == Plan(t, ids[..n], schema, judge).value + Planned(Judged(t, ids[n], schema, judge), ids[n])
  {
  }

  lemma RowsLast(t: Table, ids: seq<Tid>, schema: Schema)
    requires AllInRange(t, ids) && ids != []
    ensures var n := |ids| - 1;
            RowsAt(t, ids, schema) == RowsAt(t, ids[..n], schema) + [DecodeRow(At(t, ids[n]), schema)]
  {
  }

  lemma TargetsPrefix(t: Table, ds: seq<Change>, es: seq<Change>)
    requires LiveTargets(t, ds + es)
    ensures LiveTargets(t, ds)
  {
    assert forall i :: 0 <= i < |ds| ==> (ds + es)[i] == ds[i];
  }

  /** The last scanned row on both sides of the balance. */
  lemma BagLast(t: Table, ds: seq<Change>, cs: seq<Change>, before: seq<Row>, row: Row, judge: Row -> Verdict, id: Tid,
                schema: Schema)
    requires LiveTargets(t, ds) && LiveTargets(t, cs) && InRange(t, id) && row == DecodeRow(At(t, id), schema)
    requires multiset(before) + News(ds) == multiset(After(before, judge)) + Olds(t, ds, schema)
    requires !judge(row).Fail? && cs == ds + Planned(judge(row), id)
    ensures multiset(before + [row]) + News(cs) == multiset(After(before + [row], judge)) + Olds(t, cs, schema)
  {
    hide After, News, Olds, LiveTargets, InRange, DecodeRow, At;
    var v := judge(row);
    AfterLast(before, row, judge);
    LastChange(t, ds, cs, v, id, row, schema);
    var a, n, b, o := multiset(before), News(ds), multiset(After(before, judge)), Olds(t, ds, schema);
    if v.Keep? {
      Balance(a, n, b, o, multiset{row}, multiset{}, multiset{row}, multiset{});
    } else if v.Replace? {
      Balance(a, n, b, o, multiset{row}, multiset{v.row}, multiset{v.row}, multiset{row});
    } else {
      Balance(a, n, b, o, multiset{row}, multiset{}, multiset{}, multiset{row});
    }
  }

  lemma AfterLast(before: seq<Row>, row: Row, judge: Row -> Verdict)
    ensures After(before + [row], judge) == After(before, judge) + Left(judge(row), row)
  {
    assert (before + [row])[..|before|] == before;
  }

  lemma LastChange(t: Table, ds: seq<Change>, cs: seq<Change>, v: Verdict, id: Tid, row: Row, schema: Schema)
    requires LiveTargets(t, ds) && LiveTargets(t, cs) && InRange(t, id) && row == DecodeRow(At(t, id), schema)
    requires cs == ds + Planned(v, id)
    ensures News(cs) == News(ds) + if v.Replace? then multiset{v.row} else multiset{}
    ensures Olds(t, cs, schema) == Olds(t, ds, schema) + if v.Replace? || v.Remove? then multiset{row} else multiset{}
  {
    if v.Replace? || v.Remove? {
      assert cs[..|cs| - 1] == ds && cs[|cs| - 1] == Planned(v, id)[0];
    } else {
      assert cs == ds;
    }
  }

  lemma Balance(a: multiset<Row>, n: multiset<Row>, b: multiset<Row>, o: multiset<Row>,
                da: multiset<Row>, dn: multiset<Row>, db: multiset<Row>, do: multiset<Row>)
    requires a + n == b + o && da + dn == db + do
    ensures (a + da) + (n + dn) == (b + db) + (o + do)
  {
    assert (a + da) + (n + dn) == (a + n) + (da + dn);
    assert (b + db) + (o + do) == (b + o) + (db + do);
  }

  /** What a statement did when it was carried out on the records scanned before position m and on no other. */
  ghost predicate DoneBefore(t: Table, u: Table, schema: Schema, judge: Row -> Verdict, m: nat)
    requires AllInRange(t, Scan(t, 0, 0)) && m <= |Scan(t, 0, 0)|
  {
    var ids := Scan(t, 0, 0);
    && TableBag(u, schema)
       == multiset(After(RowsAt(t, ids[..m], schema), judge)) + multiset(RowsAt(t, ids[m..], schema))
    && forall id :: Live(t, id) ==>
         InRange(u, id) &&
         if Judged(t, id, schema, judge).Keep? || id in ids[m..] then At(u, id) == At(t, id) else !Live(u, id)
  }

  /** Applying the changes planned for the first m records of the scan does to these exactly what the statement should
      do, and leaves the others as they were. */
  lemma PrefixIsExact(t: Table, u: Table, schema: Schema, judge: Row -> Verdict, m: nat)
    requires AllInRange(t, Scan(t, 0, 0)) && m <= |Scan(t, 0, 0)|
    requires Plan(t, Scan(t, 0, 0)[..m], schema, judge).Ok?
    requires Applied(t, u, Plan(t, Scan(t, 0, 0)[..m], schema, judge).value, schema)
    ensures DoneBefore(t, u, schema, judge, m)
  {
    hide Applied, TableBag, After, DecodeRow, Plan, Judged, At;
    var ids := Scan(t, 0, 0);
    var cs := Plan(t, ids[..m], schema, judge).value;
    AppliedBalance(t, u, cs, schema);
    PlanBag(t, ids[..m], schema, judge);
    ScanIsTable(t, schema);
    RowsSplit(t, ids, m, schema);
    Cancel(TableBag(u, schema), Olds(t, cs, schema), TableBag(t, schema), News(cs),
           multiset(RowsAt(t, ids[..m], schema)), multiset(RowsAt(t, ids[m..], schema)),
           multiset(After(RowsAt(t, ids[..m], schema), judge)));
    forall id | Live(t, id)
      ensures InRange(u, id)
      ensures if Judged(t, id, schema, judge).Keep? || id in ids[m..] then At(u, id) == At(t, id) else !Live(u, id)
    {
      VerdictCarriedOut(t, u, schema, judge, m, id);
    }
  }

  lemma AppliedBalance(t: Table, u: Table, cs: seq<Change>, schema: Schema)
    requires Applied(t, u, cs, schema)
    ensures LiveTargets(t, cs)
    ensures TableBag(u, schema) + Olds(t, cs, schema) == TableBag(t, schema) + News(cs)
  {
  }

  lemma RowsSplit(t: Table, ids: seq<Tid>, m: nat, schema: Schema)
    requires AllInRange(t, ids) && m <= |ids|
    ensures multiset(RowsAt(t, ids, schema))
            == multiset(RowsAt(t, ids[..m], schema)) + multiset(RowsAt(t, ids[m..], schema))
  {
    hide DecodeRow, At;
    assert RowsAt(t, ids, schema) == RowsAt(t, ids[..m], schema) + RowsAt(t, ids[m..], schema);
  }

  lemma Cancel(u: multiset<Row>, olds: multiset<Row>, t: multiset<Row>, news: multiset<Row>,
               seen: multiset<Row>, rest: multiset<Row>, after: multiset<Row>)
    requires u + olds == t + news && t == seen + rest && seen + news == after + olds
    ensures u == after + rest
  {
    forall e ensures u[e] == (after + rest)[e] {
      assert (u + olds)[e] == (t + news)[e] && (seen + news)[e] == (after + olds)[e];
    }
  }

  lemma VerdictCarriedOut(t: Table, u: Table, schema: Schema, judge: Row -> Verdict, m: nat, id: Tid)
    requires AllInRange(t, Scan(t, 0, 0)) && m <= |Scan(t, 0, 0)| && Live(t, id)
    requires Plan(t, Scan(t, 0, 0)[..m], schema, judge).Ok?
    requires Applied(t, u, Plan(t, Scan(t, 0, 0)[..m], schema, judge).value, schema)
    ensures InRange(u, id)
    ensures if Judged(t, id, schema, judge).Keep? || id in Scan(t, 0, 0)[m..] then At(u, id) == At(t, id)
            else !Live(u, id)
  {
    hide DecodeRow, At, Scan, TableBag, News, Olds;
    var ids := Scan(t, 0, 0);
    var cs := Plan(t, ids[..m], schema, judge).value;
    var v := Judged(t, id, schema, judge);
    if v.Keep? || id in ids[m..] {
      forall i | 0 <= i < |cs|
        ensures cs[i].id != id
      {
        PlanIsExact(t, ids[..m], schema, judge, cs[i]);
        assert cs[i] in cs;
        ScannedOnce(t, m, id);
      }
      assert Spared(cs, id);
    } else {
      ScannedOnce(t, m, id);
      var i :| 0 <= i < m && ids[i] == id;
      PlanFailsIff(t, ids[..m], schema, judge);
      assert ids[..m][i] == id && !FailsAt(t, ids[..m], schema, judge, i);
      PlanIsExact(t, ids[..m], schema, judge, Planned(v, id)[0]);
    }
  }

  /** A live record is scanned either before position m or from there on. */
  lemma ScannedOnce(t: Table, m: nat, id: Tid)
    requires m <= |Scan(t, 0, 0)| && Live(t, id)
    ensures id in Scan(t, 0, 0)[..m] <==> id !in Scan(t, 0, 0)[m..]
  {
    var ids := Scan(t, 0, 0);
    ScanIsExact(t, 0, 0, id);
    ScanAscends(t, 0, 0);
    var i :| 0 <= i < |ids| && ids[i] == id;
    assert i < m ==> ids[..m][i] == id;
    assert i >= m ==> ids[m..][i - m] == id;
  }

  /** A statement whose planned changes were all applied did to every row exactly what it should. */
  lemma StatementIsExact(t: Table, u: Table, schema: Schema, judge: Row -> Verdict)
    requires AllInRange(t, Scan(t, 0, 0)) && Plan(t, Scan(t, 0, 0), schema, judge).Ok?
    requires Applied(t, u, Plan(t, Scan(t, 0, 0), schema, judge).value, schema)
    ensures TableBag(u, schema) == multiset(After(RowsAt(t, Scan(t, 0, 0), schema), judge))
    ensures forall id :: Live(t, id) ==>
              InRange(u, id) && if Judged(t, id, schema, judge).Keep? then At(u, id) == At(t, id) else !Live(u, id)
  {
    hide Applied, TableBag, After, DecodeRow, Plan, Judged, At, Scan;
    var ids := Scan(t, 0, 0);
    assert ids[..|ids|] == ids && ids[|ids|..] == [];
    PrefixIsExact(t, u, schema, judge, |ids|);
    assert RowsAt(t, ids[|ids|..], schema) == [];
  }

  lemma NothingPlanned(t: Table, ids: seq<Tid>, schema: Schema, judge: Row -> Verdict)
    requires AllInRange(t, ids)
    ensures ids == [] ==> Plan(t, ids, schema, judge) == Ok([])
  {
  }

  /** Where in the scan the k-th change was planned: those before it come from the records scanned before. */
  lemma {:induction false} PlanCut(t: Table, ids: seq<Tid>, schema: Schema, judge: Row -> Verdict, k: nat)
    returns (m: nat)
    requires AllInRange(t, ids) && Plan(t, ids, schema, judge).Ok? && k < |Plan(t, ids, schema, judge).value|
    ensures m < |ids| && Plan(t, ids[..m], schema, judge) == Ok(Plan(t, ids, schema, judge).value[..k])
    ensures Planned(Judged(t, ids[m], schema, judge), ids[m]) == [Plan(t, ids, schema, judge).value[k]]
  {
    hide Judged, Plan, At, DecodeRow;
    NothingPlanned(t, ids, schema, judge);
    var n := |ids| - 1;
    PlanLast(t, ids, schema, judge);
    var cs, ds := Plan(t, ids, schema, judge).value, Plan(t, ids[..n], schema, judge).value;
    if k < |ds| {
      m := PlanCut(t, ids[..n], schema, judge, k);
      assert ids[..n][..m] == ids[..m] && cs[..k] == ds[..k];
    } else {
      m := n;
      assert cs[..k] == ds;
    }
  }

  /** How many of the rows a statement changes. */
  function Changed(rows: seq<Row>, judge: Row -> Verdict): nat {
    if rows == [] then 0
    else
      var v := judge(rows[|rows| - 1]);
      Changed(rows[..|rows| - 1], judge) + if v.Replace? || v.Remove? then 1 else 0
  }

  lemma {:induction false} PlanCounts(t: Table, ids: seq<Tid>, schema: Schema, judge: Row -> Verdict)
    requires AllInRange(t, ids) && Plan(t, ids, schema, judge).Ok?
    ensures |Plan(t, ids, schema, judge).value| == Changed(RowsAt(t, ids, schema), judge)
  {
    hide Plan, Changed, RowsAt, DecodeRow, At;
    if ids == [] {
      NothingPlanned(t, ids, schema, judge);
      ChangedNone(judge);
      assert RowsAt(t, ids, schema) == [];
    } else {
      var n := |ids| - 1;
      PlanLast(t, ids, schema, judge);
      PlanCounts(t, ids[..n], schema, judge);
      RowsLast(t, ids, schema);
      ChangedLast(RowsAt(t, ids[..n], schema), DecodeRow(At(t, ids[n]), schema), judge);
    }
  }

  lemma ChangedNone(judge: Row -> Verdict)
    ensures Changed([], judge) == 0
  {
  }

  lemma ChangedLast(before: seq<Row>, row: Row, judge: Row -> Verdict)
    ensures Changed(before + [row], judge)
            == Changed(before, judge) + if judge(row).Replace? || judge(row).Remove? then 1 else 0
  {
    assert (before + [row])[..|before|] == before;
  }

  lemma ApplyGrows(u: Table, c: Change, p: nat)
    requires InRange(u, c.id) && p <= |u|
    ensures |u| <= |Apply(u, c, p)| <= |u| + 1
  {
  }

  lemma {:induction false} PlanSize(t: Table, ids: seq<Tid>, schema: Schema, judge: Row -> Verdict)
    requires AllInRange(t, ids) && Plan(t, ids, schema, judge).Ok?
    ensures |Plan(t, ids, schema, judge).value| <= |ids|
  {
    if ids != [] {
      PlanSize(t, ids[..|ids| - 1], schema, judge);
    }
  }

  /** Planning over a whole scan names different live records. */
  lemma ScanTargets(t: Table, schema: Schema, judge: Row -> Verdict)
    requires AllInRange(t, Scan(t, 0, 0)) && Plan(t, Scan(t, 0, 0), schema, judge).Ok?
    ensures LiveTargets(t, Plan(t, Scan(t, 0, 0), schema, judge).value)
  {
    var ids := Scan(t, 0, 0);
    ScanAscends(t, 0, 0);
    forall i | 0 <= i < |ids|
      ensures Live(t, ids[i])
    {
      ScanIsExact(t, 0, 0, ids[i]);
    }
    PlanTargets(t, ids, schema, judge);
  }
}
