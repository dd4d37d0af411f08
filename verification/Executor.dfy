/** UPDATE and DELETE: collect the changes in one scan, then apply them one by one. */
module Executors {
  import opened Wrappers
  import opened Bytes
  import opened PageImages
  import opened Disks
  import opened PoolModel
  import opened BufferPools
  import opened Rows
  import opened RowSerializer
  import opened HeapTables
  import opened TableStores
  import opened PinnedPages
  import opened TableIterators
  import opened StorageManagers
  import opened TableUpdates
  import A = Aggregates
  import G = Grouping

  datatype Outcome = Done | Failed(code: ErrorCode) | PartlyApplied(applied: nat, total: nat)

  /** What UPDATE does with a row. */
  function UpdateJudge(where: Row -> bool, assignments: seq<Assignment>, schema: Schema): Row -> Verdict {
    (row: Row) => if |row| == |schema| then UpdateVerdict(row, where, assignments, schema) else Keep
  }

  /** What DELETE does with a row. */
  function DeleteJudge(where: Row -> bool): Row -> Verdict {
    (row: Row) => if where(row) then Remove else Keep
  }

  /** Every row that replaces a live one can be written: as its columns keep it, and not in one of the four sizes that
      wrap. */
  ghost predicate AllWritable(t: Table, judge: Row -> Verdict, schema: Schema) {
    forall id :: Live(t, id) && Judged(t, id, schema, judge).Replace? ==>
      var row := Judged(t, id, schema, judge).row;
      RowConforms(row, schema) && NoWrap(EncodeRow(row))
  }

  /** From `u`, with the changes before k applied, to `v`: change k is applied too, or it failed. A failure leaves the
      changes before k applied, unless the new row is empty, and happens only when no page could hold the new row or
      the file could not grow. */
  ghost predicate Stepped(t: Table, u: Table, v: Table, changes: seq<Change>, k: nat, schema: Schema, ok: bool) {
    && k < |changes| && changes[k].row.Some? && |v| <= |u| + 1
    && var size := |EncodeRow(changes[k].row.value)|;
       if ok then Applied(t, v, changes[..k + 1], schema) && 1 <= size <= MAX_RECORD
       else
         && (size != 0 ==> Applied(t, v, changes[..k], schema))
         && (1 <= size <= MAX_RECORD ==> |u| == INVALID_ID)
  }

  /** The first k changes are applied, and each of them had a row that fits a page. */
  ghost predicate SoFar(t: Table, u: Table, changes: seq<Change>, k: nat, schema: Schema) {
    && k <= |changes| && Applied(t, u, changes[..k], schema) && |u| <= |t| + k
    && (forall i :: 0 <= i < k ==> !Oversized(changes[i]))
  }

  /** No page can hold the new row, or it is empty. */
  predicate Oversized(c: Change) {
    c.row.Some? && !(1 <= |EncodeRow(c.row.value)| <= MAX_RECORD)
  }

  predicate Writable(c: Change, schema: Schema) {
    c.row.Some? && RowConforms(c.row.value, schema) && NoWrap(EncodeRow(c.row.value))
  }

  /** What pass two of UPDATE does: all changes, or those before the first row that no page can hold, or those
      before the file could not grow any more. */
  ghost predicate UpdatesApplied(t: Table, v: Table, changes: seq<Change>, schema: Schema, out: Outcome) {
    match out
    case Done => Applied(t, v, changes, schema) && forall i :: 0 <= i < |changes| ==> !Oversized(changes[i])
    case PartlyApplied(k, n) =>
      && n == |changes| && k < n && (forall i :: 0 <= i < k ==> !Oversized(changes[i]))
      && changes[k].row.Some? && (Oversized(changes[k]) || |t| + k >= INVALID_ID)
      && (EncodeRow(changes[k].row.value) != [] ==> Applied(t, v, changes[..k], schema))
    case Failed(_) => false
  }

  lemma NoneApplied(t: Table, changes: seq<Change>, schema: Schema)
    ensures SoFar(t, t, changes, 0, schema)
  {
    AppliedNothing(t, schema);
  }

  lemma NextApplied(t: Table, u: Table, v: Table, changes: seq<Change>, k: nat, schema: Schema, ok: bool)
    requires SoFar(t, u, changes, k, schema) && Stepped(t, u, v, changes, k, schema, ok)
    ensures if ok then SoFar(t, v, changes, k + 1, schema)
            else UpdatesApplied(t, v, changes, schema, PartlyApplied(k, |changes|))
  {
    hide Applied, EncodeRow;
  }

  lemma AllApplied(t: Table, u: Table, changes: seq<Change>, schema: Schema)
    requires SoFar(t, u, changes, |changes|, schema)
    ensures UpdatesApplied(t, u, changes, schema, Done)
  {
    assert changes[..|changes|] == changes;
  }

  lemma UpdateStepped(t: Table, pages: seq<PageImage>, v: Table, changes: seq<Change>, k: nat, row: Row, schema: Schema,
                      ok: bool)
    requires k < |changes| && changes[k].row == Some(row) && RowConforms(row, schema)
    requires PagesOk(pages) && |pages| <= INVALID_ID
    requires LiveTargets(t, changes) && Applied(t, TableOf(pages), changes[..k], schema)
    requires Live(TableOf(pages), changes[k].id)
    requires ok <==> Updatable(pages, changes[k].id, EncodeRow(row))
    requires var u, r, id := TableOf(pages), EncodeRow(row), changes[k].id;
             if ok then v == Rewritten(u, UpdatePage(pages, id, r), r, id) else AfterFailedUpdate(u, v, id, r)
    ensures Stepped(t, TableOf(pages), v, changes, k, schema, ok)
  {
    hide Applied, LiveTargets, Updatable, UpdatePage, EncodeRow, RowConforms;
    var u, r, id := TableOf(pages), EncodeRow(row), changes[k].id;
    UpdatableSize(pages, id, r);
    if ok {
      AppliedOneMore(t, u, changes, k, UpdatePage(pages, id, r), schema);
      ApplyGrows(u, changes[k], UpdatePage(pages, id, r));
    } else if r != [] {
      AppliedEmptyPage(t, u, changes[..k], schema);
    }
  }

  /** Every change UPDATE plans is a new row that can be written, or found to be too large. */
  lemma PlanWritable(t: Table, where: Row -> bool, assignments: seq<Assignment>, schema: Schema, c: Change)
    requires AllInRange(t, Scan(t, 0, 0)) && AllWritable(t, UpdateJudge(where, assignments, schema), schema)
    requires Plan(t, Scan(t, 0, 0), schema, UpdateJudge(where, assignments, schema)).Ok?
    requires c in Plan(t, Scan(t, 0, 0), schema, UpdateJudge(where, assignments, schema)).value
    ensures Writable(c, schema)
  {
    PlanIsExact(t, Scan(t, 0, 0), schema, UpdateJudge(where, assignments, schema), c);
    ScanIsExact(t, 0, 0, c.id);
  }

  /** What a statement does to its table: nothing when a row fails in pass one, else what pass two does. */
  ghost predicate Executed(t: Table, v: Table, schema: Schema, judge: Row -> Verdict, out: Outcome) {
    && AllInRange(t, Scan(t, 0, 0))
    && match Plan(t, Scan(t, 0, 0), schema, judge)
       case Err(e) => out == Failed(e) && v == t
       case Ok(changes) => UpdatesApplied(t, v, changes, schema, out)
  }

  lemma PlanDeletes(t: Table, where: Row -> bool, schema: Schema, c: Change)
    requires AllInRange(t, Scan(t, 0, 0)) && Plan(t, Scan(t, 0, 0), schema, DeleteJudge(where)).Ok?
    requires c in Plan(t, Scan(t, 0, 0), schema, DeleteJudge(where)).value
    ensures c.row.None?
  {
    PlanIsExact(t, Scan(t, 0, 0), schema, DeleteJudge(where), c);
  }

  /** A DELETE never fails: every row it planned to delete is deleted. */
  ghost predicate Erased(t: Table, v: Table, schema: Schema, judge: Row -> Verdict) {
    && AllInRange(t, Scan(t, 0, 0)) && Plan(t, Scan(t, 0, 0), schema, judge).Ok?
    && Applied(t, v, Plan(t, Scan(t, 0, 0), schema, judge).value, schema)
  }

  /** Every row that replaces a live one fits a page. */
  ghost predicate AllFit(t: Table, schema: Schema, judge: Row -> Verdict) {
    forall id :: Live(t, id) && Judged(t, id, schema, judge).Replace? ==>
      1 <= |EncodeRow(Judged(t, id, schema, judge).row)| <= MAX_RECORD
  }

  /** The statement stopped at the record scanned at position m, after k changes: no page can hold the row that replaces
      it, or the file may have no room for one more page. The matching rows scanned before it are replaced, and that
      record and all others are as they were, unless the new row is empty. */
  ghost predicate StoppedAt(t: Table, v: Table, schema: Schema, judge: Row -> Verdict, k: nat, m: nat)
    requires AllInRange(t, Scan(t, 0, 0))
  {
    var ids := Scan(t, 0, 0);
    && m < |ids| && Judged(t, ids[m], schema, judge).Replace? && k == Changed(RowsAt(t, ids[..m], schema), judge)
    && var size := |EncodeRow(Judged(t, ids[m], schema, judge).row)|;
       && (!(1 <= size <= MAX_RECORD) || |t| + k >= INVALID_ID)
       && (size != 0 ==> DoneBefore(t, v, schema, judge, m))
  }

  /** What an executed UPDATE did to its table. An error in pass one changes nothing. Success replaces every matching
      row once, by the row SET builds from it, and leaves every other record where it was; every new row fitted a page,
      and while the file has room to grow that is all success takes. An UPDATE that stopped has replaced exactly the
      matching rows that were scanned before the one it stopped at. */
  lemma UpdateMeaning(t: Table, v: Table, schema: Schema, judge: Row -> Verdict, out: Outcome)
    requires Executed(t, v, schema, judge, out)
    ensures out.Failed? <==> exists i :: FailsAt(t, Scan(t, 0, 0), schema, judge, i)
    ensures out.Failed? ==> v == t && exists i :: FailsFirst(t, Scan(t, 0, 0), schema, judge, i, out.code)
    ensures out.Done? ==> TableBag(v, schema) == multiset(After(RowsAt(t, Scan(t, 0, 0), schema), judge))
    ensures out.Done? ==> CarriedOut(t, v, schema, judge) && AllFit(t, schema, judge)
    ensures !out.Failed? && |t| + |Scan(t, 0, 0)| <= INVALID_ID ==> (out.Done? <==> AllFit(t, schema, judge))
    ensures out.PartlyApplied? ==> exists m :: StoppedAt(t, v, schema, judge, out.applied, m)
  {
    hide Applied, TableBag, After, DecodeRow, EncodeRow, Judged, FailsAt, FailsFirst, DoneBefore, AllFit;
    var ids := Scan(t, 0, 0);
    PlanFailsIff(t, ids, schema, judge);
    assert out.Failed? <==> Plan(t, ids, schema, judge).Err?;
    if out.Failed? {
      assert out.code == Plan(t, ids, schema, judge).error;
      assert exists i :: FailsAt(t, ids, schema, judge, i);
      assert exists i :: FailsAt(t, Scan(t, 0, 0), schema, judge, i);
    } else {
      var changes := Plan(t, ids, schema, judge).value;
      PlanSize(t, ids, schema, judge);
      if out.Done? {
        StatementIsExact(t, v, schema, judge);
        DoneFits(t, v, schema, judge);
      } else {
        StoppedSomewhere(t, v, schema, judge, out.applied, out.total);
        if |t| + |ids| <= INVALID_ID && AllFit(t, schema, judge) {
          FitsWhenItsTurnComes(t, schema, judge, changes, out.applied);
        }
      }
    }
  }

  lemma DoneFits(t: Table, v: Table, schema: Schema, judge: Row -> Verdict)
    requires Executed(t, v, schema, judge, Done)
    ensures AllFit(t, schema, judge)
  {
    hide Applied, DecodeRow, EncodeRow, Judged, Plan, Scan;
    var ids := Scan(t, 0, 0);
    var changes := Plan(t, ids, schema, judge).value;
    forall id | Live(t, id) && Judged(t, id, schema, judge).Replace?
      ensures 1 <= |EncodeRow(Judged(t, id, schema, judge).row)| <= MAX_RECORD
    {
      var c := Change(id, Some(Judged(t, id, schema, judge).row));
      ScanIsExact(t, 0, 0, id);
      PlanIsExact(t, ids, schema, judge, c);
      var i :| 0 <= i < |changes| && changes[i] == c;
      assert !Oversized(changes[i]);
    }
  }

  lemma StoppedSomewhere(t: Table, v: Table, schema: Schema, judge: Row -> Verdict, k: nat, n: nat)
    requires Executed(t, v, schema, judge, PartlyApplied(k, n))
    ensures exists m :: StoppedAt(t, v, schema, judge, k, m)
  {
    hide Applied, DecodeRow, EncodeRow, Judged, Plan, Scan, DoneBefore;
    var ids := Scan(t, 0, 0);
    var changes := Plan(t, ids, schema, judge).value;
    var m := PlanCut(t, ids, schema, judge, k);
    PlanCounts(t, ids[..m], schema, judge);
    if EncodeRow(changes[k].row.value) != [] { PrefixIsExact(t, v, schema, judge, m); }
    assert StoppedAt(t, v, schema, judge, k, m);
  }

  /** Every record is treated as judged. */
  ghost predicate CarriedOut(t: Table, v: Table, schema: Schema, judge: Row -> Verdict) {
    forall id :: Live(t, id) ==>
      InRange(v, id) && if Judged(t, id, schema, judge).Keep? then At(v, id) == At(t, id) else !Live(v, id)
  }

  lemma FitsWhenItsTurnComes(t: Table, schema: Schema, judge: Row -> Verdict, changes: seq<Change>, k: nat)
    requires AllInRange(t, Scan(t, 0, 0)) && Plan(t, Scan(t, 0, 0), schema, judge) == Ok(changes)
    requires AllFit(t, schema, judge) && k < |changes|
    ensures !Oversized(changes[k])
  {
    hide EncodeRow, DecodeRow, Plan, Scan;
    var c := changes[k];
    assert c in changes;
    PlanIsExact(t, Scan(t, 0, 0), schema, judge, c);
    ScanIsExact(t, 0, 0, c.id);
  }

  /** What an executed DELETE did: it removed exactly the matching rows, and every other record is where it was. */
  lemma DeleteMeaning(t: Table, v: Table, schema: Schema, where: Row -> bool)
    requires Erased(t, v, schema, DeleteJudge(where))
    ensures TableBag(v, schema) == multiset(Unmatched(RowsAt(t, Scan(t, 0, 0), schema), where))
    ensures forall id :: Live(t, id) ==>
              InRange(v, id) && if where(DecodeRow(At(t, id), schema)) then !Live(v, id) else At(v, id) == At(t, id)
  {
    StatementIsExact(t, v, schema, DeleteJudge(where));
    UnmatchedIsAfter(RowsAt(t, Scan(t, 0, 0), schema), where);
    forall id | Live(t, id)
      ensures InRange(v, id) && if where(DecodeRow(At(t, id), schema)) then !Live(v, id) else At(v, id) == At(t, id)
    {
      assert Judged(t, id, schema, DeleteJudge(where)).Keep? <==> !where(DecodeRow(At(t, id), schema));
    }
  }

  function Unmatched(rows: seq<Row>, where: Row -> bool): seq<Row> {
    if rows == [] then []
    else Unmatched(rows[..|rows| - 1], where) + if where(rows[|rows| - 1]) then [] else [rows[|rows| - 1]]
  }

  lemma {:induction false} UnmatchedIsAfter(rows: seq<Row>, where: Row -> bool)
    ensures Unmatched(rows, where) == After(rows, DeleteJudge(where))
  {
    if rows != [] {
      UnmatchedIsAfter(rows[..|rows| - 1], where);
    }
  }

  lemma NoRowsYet(t: Table, ids: seq<Tid>, schema: Schema, q: G.Query)
    requires AllInRange(t, ids)
    ensures AllInRange(t, ids[..0]) && G.GroupsOf(RowsAt(t, ids[..0], schema), q) == []
  {
  }

  lemma NextRowGrouped(t: Table, ids: seq<Tid>, k: nat, schema: Schema, q: G.Query)
    requires AllInRange(t, ids) && k < |ids|
    ensures AllInRange(t, ids[..k]) && AllInRange(t, ids[..k + 1])
    ensures G.GroupsOf(RowsAt(t, ids[..k + 1], schema), q)
            == G.AddRow(G.GroupsOf(RowsAt(t, ids[..k], schema), q), q, DecodeRow(At(t, ids[k]), schema))
  {
    var rows, more := RowsAt(t, ids[..k], schema), RowsAt(t, ids[..k + 1], schema);
    assert more[..k] == rows && more[k] == DecodeRow(At(t, ids[k]), schema);
  }

  class Executor {
    const storage: StorageManager
    var catalog: map<Text, Schema>

    constructor (s: StorageManager)
      requires s.Valid() && s !in s.pool.Footprint()
      requires forall name :: name in s.fileIds ==> s.fileIds[name] in Files(s.pool)
      ensures Valid() && storage == s && catalog == map[]
    {
      storage, catalog := s, map[];
    }

    /** The storage knows the table. */
    predicate Stores(name: Text)
      reads storage
    {
      name in storage.fileIds && name in storage.schemas
    }

    /** The catalog and the storage agree on the tables both know, and their files are open. */
    ghost predicate Valid()
      reads this, storage, storage.pool, storage.pool.pm, Owned(storage.pool.frames), storage.pool.replacer,
          storage.pool.replacer.Repr
    {
      && storage.Valid() && this !in storage.pool.Footprint() && storage !in storage.pool.Footprint()
      && (forall name :: name in storage.fileIds ==> storage.fileIds[name] in Files(storage.pool))
      && (forall name :: name in catalog && name in storage.schemas ==> storage.schemas[name] == catalog[name])
    }

    // ----- pass one

    /** Copies the row and assigns the SET columns in order. */
    method NewRow(row: Row, assignments: seq<Assignment>, schema: Schema) returns (r: Result<Row, ErrorCode>)
      requires |row| == |schema|
      ensures r.Ok? ==> |r.value| == |schema|
      ensures UpdateVerdict(row, _ => true, assignments, schema)
              == if r.Ok? then Replace(AsColumns(r.value, schema)) else Fail(r.error)
    {
      var values := [];
      for i := 0 to |schema|
        invariant values == row[..i]
      {
        values := values + [row[i]];
      }
      assert row[..|row|] == row;
      for k := 0 to |assignments|
        invariant Assigned(row, assignments[..k], schema) == Some(values)
      {
        assert assignments[..k + 1][..k] == assignments[..k];
        var i := ColumnIndex(schema, assignments[k].column);
        if i.None? {
          AssignedFails(row, assignments, schema, k + 1);
          return Err(COLUMN_NOT_FOUND);
        }
        values := values[i.value := assignments[k].value(row)];
      }
      assert assignments[..|assignments|] == assignments;
      if !ValidRow(values, schema) { return Err(CONSTRAINT_VIOLATION); }
      return Ok(values);
    }

    method Consider(row: Row, where: Row -> bool, assignments: seq<Assignment>, schema: Schema) returns (v: Verdict)
      requires |row| == |schema|
      ensures v == UpdateJudge(where, assignments, schema)(row)
    {
      if !where(row) { return Keep; }
      var made := NewRow(row, assignments, schema);
      return if made.Ok? then Replace(AsColumns(made.value, schema)) else Fail(made.error);
    }

    /** The next row of a scan, decoded. */
    method NextRow(it: HeapTableIterator) returns (more: bool, row: Row)
      requires it.Valid()
      modifies it, it.pool.Footprint()
      ensures it.Valid() && fresh(it.pool.Footprint() - old(it.pool.Footprint()))
              && Files(it.pool) == old(Files(it.pool))
      ensures more <==> old(it.Ahead()) != []
      ensures more ==> old(it.Ahead()) == [it.currentTid] + it.Ahead() && InRange(it.Contents(), it.currentTid)
      ensures more ==> row == DecodeRow(At(it.Contents(), it.currentTid), it.schema)
      ensures !more ==> Idle(it.pool)
    {
      hide BufferPool.ValidBut, Holding, Settled, View, PageOk, Scan, DecodeRow, TableIn;
      row := [];
      more := it.Next();
      if more { row := it.CurrentRow(); }
    }

    method CollectUpdates(it: HeapTableIterator, where: Row -> bool, assignments: seq<Assignment>, schema: Schema)
      returns (r: Result<seq<Change>, ErrorCode>)
      requires it.Valid() && it.schema == schema && it.Ahead() == Scan(it.Contents(), 0, 0)
      requires AllInRange(it.Contents(), Scan(it.Contents(), 0, 0))
      modifies it, it.pool.Footprint()
      ensures it.Valid() && fresh(it.pool.Footprint() - old(it.pool.Footprint()))
              && Files(it.pool) == old(Files(it.pool))
      ensures r == Plan(it.Contents(), Scan(it.Contents(), 0, 0), schema, UpdateJudge(where, assignments, schema))
      ensures r.Ok? ==> Idle(it.pool)
    {
      hide BufferPool.ValidBut, Holding, Settled, View, PageOk, Scan, DecodeRow, UpdateJudge, TableIn, Plan, Planned;
      ghost var t, ids := it.Contents(), it.Ahead();
      ghost var judge := UpdateJudge(where, assignments, schema);
      ghost var seen: nat := 0;
      var changes := [];
      PlanNothing(t, ids, schema, judge);
      while true
        invariant it.Valid() && fresh(it.pool.Footprint() - old(it.pool.Footprint()))
                  && Files(it.pool) == old(Files(it.pool))
        invariant seen <= |ids| && it.Ahead() == ids[seen..]
        invariant Plan(t, ids[..seen], schema, judge) == Ok(changes)
        decreases |ids| - seen
      {
        var more, row := NextRow(it);
        if !more {
          assert ids[..seen] == ids;
          return Ok(changes);
        }
        PlanNext(t, ids, seen, schema, judge);
        seen := seen + 1;
        var v := Consider(row, where, assignments, schema);
        if v.Fail? {
          PlanFails(t, ids, seen, schema, judge);
          return Err(v.code);
        }
        changes := changes + Planned(v, it.currentTid);
      }
    }

    // ----- pass two

    /** Applies change k: it finds its record, and either the change is applied or nothing that counts has happened,
        unless the new row is empty. */
    method ApplyUpdate(file: FileId, changes: seq<Change>, k: nat, row: Row, schema: Schema, ghost t: Table)
          returns (ok: bool)
      requires storage.Valid() && file in Files(storage.pool) && k < |changes| && changes[k].row == Some(row)
      requires LiveTargets(t, changes) && Applied(t, storage.Table(file), changes[..k], schema)
      requires RowConforms(row, schema) && NoWrap(EncodeRow(row))
      modifies storage.pool.Footprint()
      ensures storage.Valid() && fresh(storage.pool.Footprint() - old(storage.pool.Footprint()))
      ensures OnlyFile(old(Files(storage.pool)), Files(storage.pool), file)
      ensures Stepped(t, old(storage.Table(file)), storage.Table(file), changes, k, schema, ok)
    {
      hide BufferPool.ValidBut, Settled, View, OnlyFile, TableOf, Applied, LiveTargets, Live, Updatable, UpdatePage,
           EncodeRow, RowConforms, Encodable, AsColumns, Add, Clear, Rewritten, Exchanged, NoWrap;
      ghost var u, pages := storage.Table(file), Files(storage.pool)[file];
      StillThere(t, u, changes, k, schema);
      TidFits(storage.pool.state, file, changes[k].id);
      SettledPages(storage.pool.state, file);
      ConformingRow(row, schema);
      ok := storage.UpdateRow(file, changes[k].id, row, schema);
      OnlyFileHas(old(Files(storage.pool)), Files(storage.pool), file);
      UpdateStepped(t, pages, storage.Table(file), changes, k, row, schema, ok);
    }

    /** Pass two of UPDATE: stops at the first row that cannot be written. */
    method ApplyUpdates(file: FileId, changes: seq<Change>, schema: Schema) returns (out: Outcome)
      requires storage.Valid() && file in Files(storage.pool) && LiveTargets(storage.Table(file), changes)
      requires forall i :: 0 <= i < |changes| ==> Writable(changes[i], schema)
      modifies storage.pool.Footprint()
      ensures storage.Valid() && fresh(storage.pool.Footprint() - old(storage.pool.Footprint()))
      ensures OnlyFile(old(Files(storage.pool)), Files(storage.pool), file)
      ensures UpdatesApplied(old(storage.Table(file)), storage.Table(file), changes, schema, out)
    {
      hide BufferPool.ValidBut, Settled, View, OnlyFile, TableIn, Applied, LiveTargets, Stepped, UpdatesApplied,
           Oversized;
      ghost var t := storage.Table(file);
      SameFiles(Files(storage.pool), file);
      NoneApplied(t, changes, schema);
      for k := 0 to |changes|
        invariant storage.Valid() && fresh(storage.pool.Footprint() - old(storage.pool.Footprint()))
        invariant OnlyFile(old(Files(storage.pool)), Files(storage.pool), file) && file in Files(storage.pool)
        invariant SoFar(t, storage.Table(file), changes, k, schema)
      {
        ghost var mid, u := Files(storage.pool), storage.Table(file);
        var ok := ApplyUpdate(file, changes, k, changes[k].row.value, schema, t);
        OnlyFileTwice(old(Files(storage.pool)), mid, Files(storage.pool), file);
        OnlyFileHas(mid, Files(storage.pool), file);
        NextApplied(t, u, storage.Table(file), changes, k, schema, ok);
        if !ok { return PartlyApplied(k, |changes|); }
      }
      AllApplied(t, storage.Table(file), changes, schema);
      return Done;
    }

    method CollectDeletes(it: HeapTableIterator, where: Row -> bool) returns (changes: seq<Change>)
      requires it.Valid() && it.Ahead() == Scan(it.Contents(), 0, 0)
      requires AllInRange(it.Contents(), Scan(it.Contents(), 0, 0))
      modifies it, it.pool.Footprint()
      ensures it.Valid() && fresh(it.pool.Footprint() - old(it.pool.Footprint()))
              && Files(it.pool) == old(Files(it.pool))
      ensures Plan(it.Contents(), Scan(it.Contents(), 0, 0), it.schema, DeleteJudge(where)) == Ok(changes)
              && Idle(it.pool)
    {
      hide BufferPool.ValidBut, Holding, Settled, View, PageOk, Scan, DecodeRow, TableIn, Plan, Planned;
      ghost var t, ids, judge := it.Contents(), it.Ahead(), DeleteJudge(where);
      ghost var seen: nat := 0;
      changes := [];
      PlanNothing(t, ids, it.schema, judge);
      while true
        invariant it.Valid() && fresh(it.pool.Footprint() - old(it.pool.Footprint()))
                  && Files(it.pool) == old(Files(it.pool))
        invariant seen <= |ids| && it.Ahead() == ids[seen..]
        invariant Plan(t, ids[..seen], it.schema, judge) == Ok(changes)
        decreases |ids| - seen
      {
        var more, row := NextRow(it);
        if !more {
          assert ids[..seen] == ids;
          return;
        }
        PlanNext(t, ids, seen, it.schema, judge);
        seen := seen + 1;
        var v := if where(row) then Remove else Keep;
        assert v == judge(row);
        changes := changes + Planned(v, it.currentTid);
      }
    }

    /** Pass two of DELETE: every collected record is still there, so every delete succeeds. */
    method ApplyDeletes(file: FileId, changes: seq<Change>, ghost schema: Schema) returns (out: Outcome)
      requires storage.Valid() && file in Files(storage.pool) && LiveTargets(storage.Table(file), changes)
      requires forall i :: 0 <= i < |changes| ==> changes[i].row.None?
      modifies storage.pool.Footprint()
      ensures storage.Valid() && fresh(storage.pool.Footprint() - old(storage.pool.Footprint()))
      ensures OnlyFile(old(Files(storage.pool)), Files(storage.pool), file)
      ensures out == Done && Applied(old(storage.Table(file)), storage.Table(file), changes, schema)
    {
      hide BufferPool.ValidBut, Settled, View, OnlyFile, TableIn, Applied, LiveTargets, Clear;
      ghost var t := storage.Table(file);
      SameFiles(Files(storage.pool), file);
      AppliedNothing(t, schema);
      assert changes[..0] == [];
      for k := 0 to |changes|
        invariant storage.Valid() && fresh(storage.pool.Footprint() - old(storage.pool.Footprint()))
        invariant OnlyFile(old(Files(storage.pool)), Files(storage.pool), file) && file in Files(storage.pool)
        invariant Applied(t, storage.Table(file), changes[..k], schema)
      {
        ghost var mid, u := Files(storage.pool), storage.Table(file);
        StillThere(t, u, changes, k, schema);
        TidFits(storage.pool.state, file, changes[k].id);
        AppliedOneMore(t, u, changes, k, 0, schema);
        var ok := storage.DeleteRow(file, changes[k].id);
        OnlyFileTwice(old(Files(storage.pool)), mid, Files(storage.pool), file);
        OnlyFileHas(mid, Files(storage.pool), file);
        assert ok;
      }
      assert changes[..|changes|] == changes;
      return Done;
    }

    // ----- statements

    /** UPDATE name SET assignments WHERE where. */
    method ExecuteUpdate(name: Text, where: Row -> bool, assignments: seq<Assignment>) returns (out: Outcome)
      requires Valid()
      requires name in catalog && Stores(name) ==>
                 AllWritable(storage.Table(storage.fileIds[name]), UpdateJudge(where, assignments, catalog[name]),
                             catalog[name])
      modifies storage.pool.Footprint()
      ensures Valid() && unchanged(this, storage) && fresh(storage.pool.Footprint() - old(storage.pool.Footprint()))
      ensures name !in catalog ==> out == Failed(TABLE_NOT_FOUND) && Files(storage.pool) == old(Files(storage.pool))
      ensures name in catalog && !Stores(name) ==>
              out == Failed(INTERNAL_ERROR) && Files(storage.pool) == old(Files(storage.pool))
      ensures name in catalog && Stores(name) ==>
                var file := storage.fileIds[name];
                && OnlyFile(old(Files(storage.pool)), Files(storage.pool), file)
                && Executed(old(storage.Table(storage.fileIds[name])), storage.Table(file), catalog[name],
                            UpdateJudge(where, assignments, catalog[name]), out)
    {
      hide BufferPool.ValidBut, Settled, View, OnlyFile, TableIn, UpdateJudge, LiveTargets, UpdatesApplied,
           Writable, Plan, Scan;
      if name !in catalog { return Failed(TABLE_NOT_FOUND); }
      var schema := catalog[name];
      var it := storage.CreateIterator(name);
      if it == null { return Failed(INTERNAL_ERROR); }
      var file := storage.fileIds[name];
      ghost var t, judge := storage.Table(file), UpdateJudge(where, assignments, schema);
      SameFiles(Files(storage.pool), file);
      ScanInRange(t, 0, 0);
      var planned := CollectUpdates(it, where, assignments, schema);
      if planned.Err? {
        it.Drop();
        return Failed(planned.error);
      }
      ScanTargets(t, schema, judge);
      forall i | 0 <= i < |planned.value|
        ensures Writable(planned.value[i], schema)
      {
        PlanWritable(t, where, assignments, schema, planned.value[i]);
      }
      out := ApplyUpdates(file, planned.value, schema);
      OnlyFileHas(old(Files(storage.pool)), Files(storage.pool), file);
    }

    /** DELETE FROM name WHERE where. */
    method ExecuteDelete(name: Text, where: Row -> bool) returns (out: Outcome)
      requires Valid()
      modifies storage.pool.Footprint()
      ensures Valid() && unchanged(this, storage) && fresh(storage.pool.Footprint() - old(storage.pool.Footprint()))
      ensures name !in catalog ==> out == Failed(TABLE_NOT_FOUND) && Files(storage.pool) == old(Files(storage.pool))
      ensures name in catalog && !Stores(name) ==>
              out == Failed(INTERNAL_ERROR) && Files(storage.pool) == old(Files(storage.pool))
      ensures name in catalog && Stores(name) ==>
                var file, judge := storage.fileIds[name], DeleteJudge(where);
                && out == Done && OnlyFile(old(Files(storage.pool)), Files(storage.pool), file)
                && Erased(old(storage.Table(storage.fileIds[name])), storage.Table(file), catalog[name], judge)
    {
      hide BufferPool.ValidBut, Settled, View, OnlyFile, TableIn, LiveTargets, Plan, Scan, DeleteJudge, Applied;
      if name !in catalog { return Failed(TABLE_NOT_FOUND); }
      var schema := catalog[name];
      var it := storage.CreateIterator(name);
      if it == null { return Failed(INTERNAL_ERROR); }
      var file := storage.fileIds[name];
      ghost var t, judge := storage.Table(file), DeleteJudge(where);
      ScanInRange(t, 0, 0);
      var changes := CollectDeletes(it, where);
      ScanTargets(t, schema, judge);
      forall i | 0 <= i < |changes|
        ensures changes[i].row.None?
      {
        PlanDeletes(t, where, schema, changes[i]);
      }
      out := ApplyDeletes(file, changes, schema);
      OnlyFileHas(old(Files(storage.pool)), Files(storage.pool), file);
    }

    // ----- aggregate queries

    /** The grouping loop of an aggregate query over a scan of its table. */
    method CollectGroups(it: HeapTableIterator, q: G.Query) returns (groups: seq<G.Group>)
      requires it.Valid() && it.Ahead() == Scan(it.Contents(), 0, 0)
      requires AllInRange(it.Contents(), Scan(it.Contents(), 0, 0))
      modifies it, it.pool.Footprint()
      ensures it.Valid() && fresh(it.pool.Footprint() - old(it.pool.Footprint()))
              && Files(it.pool) == old(Files(it.pool))
      ensures groups == G.GroupsOf(RowsAt(it.Contents(), Scan(it.Contents(), 0, 0), it.schema), q) && Idle(it.pool)
    {
      hide BufferPool.ValidBut, Holding, Settled, View, PageOk, Scan, DecodeRow, TableIn, RowsAt, G.GroupsOf;
      ghost var t, ids := it.Contents(), it.Ahead();
      ghost var seen: nat := 0;
      groups := [];
      NoRowsYet(t, ids, it.schema, q);
      while true
        invariant it.Valid() && fresh(it.pool.Footprint() - old(it.pool.Footprint()))
                  && Files(it.pool) == old(Files(it.pool))
        invariant seen <= |ids| && it.Ahead() == ids[seen..]
        invariant groups == G.GroupsOf(RowsAt(t, ids[..seen], it.schema), q)
        decreases |ids| - seen
      {
        var more, row := NextRow(it);
        if !more {
          assert ids[..seen] == ids;
          return;
        }
        NextRowGrouped(t, ids, seen, it.schema, q);
        seen := seen + 1;
        groups := G.AddRow(groups, q, row);
      }
    }

    /** SELECT with aggregates: group, then keep the groups that pass HAVING; None for an unknown table. */
    method ProcessAggregateQuery(name: Text, q: G.Query, hasGroupBy: bool,
        having: (seq<Value>, seq<A.Summary>) -> bool, project: (seq<Value>, seq<A.Summary>) -> Row)
      returns (rows: Option<seq<Row>>)
      requires Valid()
      modifies storage.pool.Footprint()
      ensures storage.Valid() && fresh(storage.pool.Footprint() - old(storage.pool.Footprint()))
      ensures Files(storage.pool) == old(Files(storage.pool)) && (rows.Some? <==> old(Stores(name)))
      ensures old(Stores(name)) ==>
                var t, schema := old(storage.Table(storage.fileIds[name])), old(storage.schemas[name]);
                && AllInRange(t, Scan(t, 0, 0))
                && rows == Some(G.Output(G.FinalGroups(RowsAt(t, Scan(t, 0, 0), schema), q, hasGroupBy), having,
                project))
    {
      hide BufferPool.ValidBut, Settled, View, TableIn, Scan, RowsAt, G.GroupsOf;
      var it := storage.CreateIterator(name);
      if it == null { return None; }
      ScanInRange(storage.Table(it.file), 0, 0);
      var groups := CollectGroups(it, q);
      if groups == [] && !hasGroupBy { groups := [G.Group([], G.FreshAccs(q.aggs))]; }
      var out := [];
      for g := 0 to |groups|
        invariant out == G.Output(groups[..g], having, project)
      {
        assert groups[..g + 1][..g] == groups[..g];
        var key, results := groups[g].key, G.Results(groups[g].accs);
        if having(key, results) { out := out + [project(key, results)]; }
      }
      assert groups[..|groups|] == groups;
      return Some(out);
    }
  }
}
