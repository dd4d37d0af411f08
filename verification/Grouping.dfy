/** GROUP BY: groups built row by row are the partition of the filtered rows by key, each folded in scan order. */
module Grouping {
  import opened Wrappers
  import opened Bytes
  import opened Rows
  import opened ValueOrders
  import opened Aggregates

  /** An aggregate and its argument; COUNT(*) is passed a constant. */
  datatype Agg = Agg(kind: Kind, arg: Row -> Value)

  datatype Query = Query(where: Row -> bool, keyOf: Row -> seq<Value>, aggs: seq<Agg>)

  datatype Group = Group(key: seq<Value>, accs: seq<Acc>)

  predicate KeyEqual(a: seq<Value>, b: seq<Value>) {
    |a| == |b| && forall i :: 0 <= i < |a| ==> Equals(a[i], b[i])
  }

  // ----- building groups

  /** The first group with an equal key, from group i on. */
  function Find(gs: seq<Group>, key: seq<Value>, i: nat): (r: Option<nat>)
    requires i <= |gs|
    ensures r.Some? ==> i <= r.value < |gs| && KeyEqual(gs[r.value].key, key)
    ensures r.None? ==> forall j :: i <= j < |gs| ==> !KeyEqual(gs[j].key, key)
    decreases |gs| - i
  {
    if i == |gs| then None else if KeyEqual(gs[i].key, key) then Some(i) else Find(gs, key, i + 1)
  }

  function FreshAccs(aggs: seq<Agg>): (r: seq<Acc>)
    ensures |r| == |aggs|
  {
    seq(|aggs|, a requires 0 <= a < |aggs| => Fresh(aggs[a].kind))
  }

  function AccumulateRow(accs: seq<Acc>, aggs: seq<Agg>, row: Row): (r: seq<Acc>)
    requires |accs| == |aggs|
    ensures |r| == |aggs|
  {
    seq(|aggs|, a requires 0 <= a < |aggs| => Accumulate(accs[a], aggs[a].arg(row)))
  }

  predicate Wide(gs: seq<Group>, aggs: seq<Agg>) { forall g :: 0 <= g < |gs| ==> |gs[g].accs| == |aggs| }

  function AddRow(gs: seq<Group>, q: Query, row: Row): (r: seq<Group>)
    requires Wide(gs, q.aggs)
    ensures Wide(r, q.aggs)
  {
    if !q.where(row) then gs
    else
      var key := q.keyOf(row);
      match Find(gs, key, 0)
      case Some(g) => gs[g := Group(gs[g].key, AccumulateRow(gs[g].accs, q.aggs, row))]
      case None => gs + [Group(key, AccumulateRow(FreshAccs(q.aggs), q.aggs, row))]
  }

  function GroupsOf(rows: seq<Row>, q: Query): (gs: seq<Group>)
    ensures Wide(gs, q.aggs)
  {
    if rows == [] then [] else AddRow(GroupsOf(rows[..|rows| - 1], q), q, rows[|rows| - 1])
  }

  // ----- the partition

  function Filtered(rows: seq<Row>, q: Query): seq<Row> {
    if rows == [] then []
    else Filtered(rows[..|rows| - 1], q) + if q.where(rows[|rows| - 1]) then [rows[|rows| - 1]] else []
  }

  /** The filtered rows with an equal key, in order. */
  function Members(rows: seq<Row>, q: Query, key: seq<Value>): seq<Row> {
    if rows == [] then []
    else
      var row := rows[|rows| - 1];
      Members(rows[..|rows| - 1], q, key) + if q.where(row) && KeyEqual(key, q.keyOf(row)) then [row] else []
  }

  function Args(rows: seq<Row>, arg: Row -> Value): (r: seq<Value>)
    ensures |r| == |rows|
  {
    seq(|rows|, i requires 0 <= i < |rows| => arg(rows[i]))
  }

  /** The group's accumulators are the folds over exactly its rows, in scan order, and it has some row. */
  ghost predicate IsFoldOf(g: Group, rows: seq<Row>, q: Query) {
    && |g.accs| == |q.aggs| && Members(rows, q, g.key) != []
    && forall a :: 0 <= a < |q.aggs| ==> g.accs[a] == Fold(q.aggs[a].kind, Args(Members(rows, q, g.key), q.aggs[a].arg))
  }

  predicate DistinctKeys(gs: seq<Group>) {
    forall g, h :: 0 <= g < h < |gs| ==> !KeyEqual(gs[g].key, gs[h].key)
  }

  predicate HasGroup(gs: seq<Group>, key: seq<Value>) { exists g :: 0 <= g < |gs| && KeyEqual(gs[g].key, key) }

  /** Every filtered row has its group. */
  ghost predicate AllGrouped(gs: seq<Group>, rows: seq<Row>, q: Query) {
    forall i :: 0 <= i < |rows| && q.where(rows[i]) ==> HasGroup(gs, q.keyOf(rows[i]))
  }

  predicate NoNaNKey(key: seq<Value>) { forall i :: 0 <= i < |key| ==> !IsNaN(key[i]) }

  ghost predicate NoNaNKeys(rows: seq<Row>, q: Query) {
    forall i :: 0 <= i < |rows| && q.where(rows[i]) ==> NoNaNKey(q.keyOf(rows[i]))
  }

  function MemberCount(gs: seq<Group>, rows: seq<Row>, q: Query): nat {
    if gs == [] then 0
    else MemberCount(gs[..|gs| - 1], rows, q) + |Members(rows, q, gs[|gs| - 1].key)|
  }

  /** The groups are the partition of the filtered rows by key. */
  ghost predicate IsPartition(gs: seq<Group>, rows: seq<Row>, q: Query) {
    && DistinctKeys(gs) && (forall g :: 0 <= g < |gs| ==> IsFoldOf(gs[g], rows, q) && NoNaNKey(gs[g].key))
    && AllGrouped(gs, rows, q) && MemberCount(gs, rows, q) == |Filtered(rows, q)|
  }

  /** The output is exactly the rows to keep, in order: those at these indices. */
  ghost predicate Selects(at: seq<nat>, rows: seq<Row>, out: seq<Row>, keep: Row -> bool) {
    && |at| == |out| && (forall i, j :: 0 <= i < j < |at| ==> at[i] < at[j])
    && (forall k :: 0 <= k < |at| ==> at[k] < |rows| && out[k] == rows[at[k]] && keep(out[k]))
    && (forall i :: 0 <= i < |rows| && keep(rows[i]) ==> i in at)
  }

  lemma SelectsLast(at: seq<nat>, rows: seq<Row>, out: seq<Row>, keep: Row -> bool, row: Row)
    requires Selects(at, rows, out, keep)
    ensures if keep(row) then Selects(at + [|rows|], rows + [row], out + [row], keep)
            else Selects(at, rows + [row], out, keep)
  {
    if keep(row) {
      var a := at + [|rows|];
      assert a[|at|] == |rows|;
      forall i | 0 <= i < |rows + [row]| && keep((rows + [row])[i]) ensures i in a {
        if i < |rows| { assert i in at; }
      }
    }
  }

  /** WHERE keeps exactly the rows it holds of. */
  lemma {:induction false} FilteredIs(rows: seq<Row>, q: Query) returns (at: seq<nat>)
    ensures Selects(at, rows, Filtered(rows, q), q.where)
    decreases |rows|
  {
    hide Selects;
    if rows == [] {
      at := [];
      NothingSelected(q.where);
    } else {
      var front, row := rows[..|rows| - 1], rows[|rows| - 1];
      at := FilteredIs(front, q);
      SelectsLast(at, front, Filtered(front, q), q.where, row);
      assert front + [row] == rows;
      if q.where(row) { at := at + [|front|]; } else { assert Filtered(front, q) + [] == Filtered(front, q); }
    }
  }

  /** The rows of a group are exactly those WHERE keeps whose key is equal. */
  lemma {:induction false} MembersAre(rows: seq<Row>, q: Query, key: seq<Value>) returns (at: seq<nat>)
    ensures Selects(at, rows, Members(rows, q, key), row => q.where(row) && KeyEqual(key, q.keyOf(row)))
    decreases |rows|
  {
    hide Selects, KeyEqual;
    var keep := row => q.where(row) && KeyEqual(key, q.keyOf(row));
    if rows == [] {
      at := [];
      NothingSelected(keep);
    } else {
      var front, row := rows[..|rows| - 1], rows[|rows| - 1];
      at := MembersAre(front, q, key);
      SelectsLast(at, front, Members(front, q, key), keep, row);
      assert front + [row] == rows;
      if keep(row) { at := at + [|front|]; } else { assert Members(front, q, key) + [] == Members(front, q, key); }
    }
  }

  lemma NothingSelected(keep: Row -> bool)
    ensures Selects([], [], [], keep)
  {
  }

  // ----- keys

  lemma KeyEqualOrder(a: seq<Value>, b: seq<Value>, c: seq<Value>)
    requires NoNaNKey(a) && NoNaNKey(b) && NoNaNKey(c)
    ensures KeyEqual(a, a)
    ensures KeyEqual(a, b) ==> KeyEqual(b, a)
    ensures KeyEqual(a, b) && KeyEqual(b, c) ==> KeyEqual(a, c)
  {
    forall i | 0 <= i < |a|
      ensures Equals(a[i], a[i])
      ensures i < |b| && Equals(a[i], b[i]) ==> Equals(b[i], a[i])
      ensures i < |b| && i < |c| && Equals(a[i], b[i]) && Equals(b[i], c[i]) ==> Equals(a[i], c[i])
    {
      CompareIsOrder(a[i], a[i], a[i]);
      if i < |b| { CompareIsOrder(a[i], b[i], if i < |c| then c[i] else b[i]); CompareIsOrder(b[i], a[i], a[i]); }
      if i < |b| && i < |c| {
        CompareIsOrder(b[i], c[i], c[i]);
        CompareIsOrder(a[i], c[i], c[i]);
        CompareIsOrder(c[i], b[i], a[i]);
      }
    }
  }

  // ----- one more row

  lemma MembersLast(rows: seq<Row>, row: Row, q: Query, key: seq<Value>)
    ensures Members(rows + [row], q, key)
            == Members(rows, q, key) + if q.where(row) && KeyEqual(key, q.keyOf(row)) then [row] else []
    ensures Filtered(rows + [row], q) == Filtered(rows, q) + if q.where(row) then [row] else []
  {
    assert (rows + [row])[..|rows|] == rows;
  }

  /** A key that no earlier filtered row has. */
  lemma {:induction false} NoMembers(rows: seq<Row>, q: Query, key: seq<Value>)
    requires forall i :: 0 <= i < |rows| && q.where(rows[i]) ==> !KeyEqual(key, q.keyOf(rows[i]))
    ensures Members(rows, q, key) == []
  {
    if rows != [] { NoMembers(rows[..|rows| - 1], q, key); }
  }

  lemma FoldLast(k: Kind, vs: seq<Value>, v: Value)
    ensures Fold(k, vs + [v]) == Accumulate(Fold(k, vs), v)
  {
    assert (vs + [v])[..|vs|] == vs;
  }

  lemma ArgsLast(rows: seq<Row>, row: Row, arg: Row -> Value)
    ensures Args(rows + [row], arg) == Args(rows, arg) + [arg(row)]
  {
  }

  /** A group whose key the row does not have keeps its members. */
  lemma OtherGroup(g: Group, rows: seq<Row>, row: Row, q: Query)
    requires IsFoldOf(g, rows, q) && !(q.where(row) && KeyEqual(g.key, q.keyOf(row)))
    ensures IsFoldOf(g, rows + [row], q) && Members(rows + [row], q, g.key) == Members(rows, q, g.key)
  {
    MembersLast(rows, row, q, g.key);
    assert Members(rows, q, g.key) + [] == Members(rows, q, g.key);
  }

  /** The group the row joins gains it at the end. */
  lemma JoinedGroup(g: Group, rows: seq<Row>, row: Row, q: Query)
    requires IsFoldOf(g, rows, q) && q.where(row) && KeyEqual(g.key, q.keyOf(row))
    ensures IsFoldOf(Group(g.key, AccumulateRow(g.accs, q.aggs, row)), rows + [row], q)
    ensures |Members(rows + [row], q, g.key)| == |Members(rows, q, g.key)| + 1
  {
    MembersLast(rows, row, q, g.key);
    forall a | 0 <= a < |q.aggs|
      ensures AccumulateRow(g.accs, q.aggs, row)[a]
              == Fold(q.aggs[a].kind, Args(Members(rows + [row], q, g.key), q.aggs[a].arg))
    {
      ArgsLast(Members(rows, q, g.key), row, q.aggs[a].arg);
      FoldLast(q.aggs[a].kind, Args(Members(rows, q, g.key), q.aggs[a].arg), q.aggs[a].arg(row));
    }
  }

  lemma NewGroup(rows: seq<Row>, row: Row, q: Query)
    requires q.where(row) && Members(rows, q, q.keyOf(row)) == [] && KeyEqual(q.keyOf(row), q.keyOf(row))
    ensures IsFoldOf(Group(q.keyOf(row), AccumulateRow(FreshAccs(q.aggs), q.aggs, row)), rows + [row], q)
    ensures |Members(rows + [row], q, q.keyOf(row))| == 1
  {
    MembersLast(rows, row, q, q.keyOf(row));
    assert Members(rows + [row], q, q.keyOf(row)) == [row];
    forall a | 0 <= a < |q.aggs|
      ensures AccumulateRow(FreshAccs(q.aggs), q.aggs, row)[a] == Fold(q.aggs[a].kind, Args([row], q.aggs[a].arg))
    {
      assert Args([row], q.aggs[a].arg) == [] + [q.aggs[a].arg(row)];
      FoldLast(q.aggs[a].kind, [], q.aggs[a].arg(row));
    }
  }

  /** Counts when the members of one group, or of none, grow by one. */
  lemma {:induction false} MemberCountStep(gs: seq<Group>, hs: seq<Group>, rows: seq<Row>, row: Row, q: Query, g: nat)
    requires |gs| == |hs| && forall i :: 0 <= i < |gs| ==> gs[i].key == hs[i].key
    requires forall i :: 0 <= i < |gs| ==>
               |Members(rows + [row], q, gs[i].key)| == |Members(rows, q, gs[i].key)| + if i == g then 1 else 0
    ensures MemberCount(hs, rows + [row], q) == MemberCount(gs, rows, q) + if g < |gs| then 1 else 0
    decreases |gs|
  {
    hide Members;
    if gs != [] {
      var n := |gs| - 1;
      forall i | 0 <= i < n
        ensures gs[..n][i].key == hs[..n][i].key && gs[..n][i] == gs[i]
      {
      }
      MemberCountStep(gs[..n], hs[..n], rows, row, q, g);
      assert gs[n].key == hs[n].key;
    }
  }

  /** Keeping HasGroup while groups keep their keys and perhaps one is added. */
  lemma StillGrouped(gs: seq<Group>, hs: seq<Group>, key: seq<Value>)
    requires |gs| <= |hs| && (forall i :: 0 <= i < |gs| ==> gs[i].key == hs[i].key) && HasGroup(gs, key)
    ensures HasGroup(hs, key)
  {
    var g :| 0 <= g < |gs| && KeyEqual(gs[g].key, key);
    assert KeyEqual(hs[g].key, key);
  }

  lemma AllStillGrouped(gs: seq<Group>, hs: seq<Group>, rows: seq<Row>, row: Row, q: Query)
    requires |gs| <= |hs| && (forall i :: 0 <= i < |gs| ==> gs[i].key == hs[i].key) && AllGrouped(gs, rows, q)
    requires q.where(row) ==> HasGroup(hs, q.keyOf(row))
    ensures AllGrouped(hs, rows + [row], q)
  {
    hide HasGroup;
    forall i | 0 <= i < |rows + [row]| && q.where((rows + [row])[i])
      ensures HasGroup(hs, q.keyOf((rows + [row])[i]))
    {
      if i < |rows| {
        assert (rows + [row])[i] == rows[i];
        StillGrouped(gs, hs, q.keyOf(rows[i]));
      }
    }
  }

  lemma RowSkipped(gs: seq<Group>, rows: seq<Row>, row: Row, q: Query)
    requires IsPartition(gs, rows, q) && !q.where(row)
    ensures IsPartition(gs, rows + [row], q)
  {
    hide IsFoldOf, NoNaNKey, KeyEqual, HasGroup, Members;
    forall g | 0 <= g < |gs|
      ensures IsFoldOf(gs[g], rows + [row], q) && |Members(rows + [row], q, gs[g].key)| == |Members(rows, q, gs[g].key)|
    {
      OtherGroup(gs[g], rows, row, q);
    }
    AllStillGrouped(gs, gs, rows, row, q);
    MemberCountStep(gs, gs, rows, row, q, |gs|);
    MembersLast(rows, row, q, []);
  }

  lemma RowJoins(gs: seq<Group>, rows: seq<Row>, row: Row, q: Query, g: nat)
    requires IsPartition(gs, rows, q) && Wide(gs, q.aggs) && q.where(row) && NoNaNKey(q.keyOf(row))
    requires g < |gs| && KeyEqual(gs[g].key, q.keyOf(row))
    ensures IsPartition(gs[g := Group(gs[g].key, AccumulateRow(gs[g].accs, q.aggs, row))], rows + [row], q)
  {
    hide IsFoldOf, NoNaNKey, KeyEqual, HasGroup, Members, AccumulateRow;
    var hs := gs[g := Group(gs[g].key, AccumulateRow(gs[g].accs, q.aggs, row))];
    forall i | 0 <= i < |gs|
      ensures IsFoldOf(hs[i], rows + [row], q)
      ensures |Members(rows + [row], q, gs[i].key)| == |Members(rows, q, gs[i].key)| + if i == g then 1 else 0
    {
      if i == g {
        JoinedGroup(gs[g], rows, row, q);
      } else {
        OnlyThatGroup(gs, g, i, q.keyOf(row));
        OtherGroup(gs[i], rows, row, q);
      }
    }
    GroupIsThere(hs, g, q.keyOf(row));
    AllStillGrouped(gs, hs, rows, row, q);
    MemberCountStep(gs, hs, rows, row, q, g);
    MembersLast(rows, row, q, []);
  }

  lemma GroupIsThere(hs: seq<Group>, g: nat, key: seq<Value>)
    requires g < |hs| && KeyEqual(hs[g].key, key)
    ensures HasGroup(hs, key)
  {
  }

  lemma OnlyThatGroup(gs: seq<Group>, g: nat, i: nat, key: seq<Value>)
    requires g < |gs| && i < |gs| && i != g && DistinctKeys(gs) && KeyEqual(gs[g].key, key)
    requires NoNaNKey(gs[g].key) && NoNaNKey(gs[i].key) && NoNaNKey(key)
    ensures !KeyEqual(gs[i].key, key)
  {
    hide KeyEqual, NoNaNKey;
    KeyEqualOrder(gs[g].key, key, gs[i].key);
    KeyEqualOrder(gs[i].key, key, gs[g].key);
    KeyEqualOrder(gs[g].key, gs[i].key, key);
  }

  lemma RowStarts(gs: seq<Group>, rows: seq<Row>, row: Row, q: Query)
    requires IsPartition(gs, rows, q) && q.where(row) && NoNaNKey(q.keyOf(row)) && NoNaNKeys(rows, q)
    requires forall g :: 0 <= g < |gs| ==> !KeyEqual(gs[g].key, q.keyOf(row))
    ensures IsPartition(gs + [Group(q.keyOf(row), AccumulateRow(FreshAccs(q.aggs), q.aggs, row))], rows + [row], q)
  {
    hide IsFoldOf, NoNaNKey, KeyEqual, HasGroup, Members, AccumulateRow, FreshAccs;
    var key := q.keyOf(row);
    var hs := gs + [Group(key, AccumulateRow(FreshAccs(q.aggs), q.aggs, row))];
    NobodyBefore(gs, rows, q, key);
    KeyEqualOrder(key, key, key);
    NewGroup(rows, row, q);
    forall i | 0 <= i < |gs|
      ensures IsFoldOf(hs[i], rows + [row], q) && |Members(rows + [row], q, gs[i].key)| == |Members(rows, q, gs[i].key)|
    {
      OtherGroup(gs[i], rows, row, q);
    }
    GroupIsThere(hs, |gs|, key);
    AllStillGrouped(gs, hs, rows, row, q);
    assert hs[..|gs|] == gs;
    MemberCountStep(gs, gs, rows, row, q, |gs|);
    MembersLast(rows, row, q, []);
  }

  lemma NobodyBefore(gs: seq<Group>, rows: seq<Row>, q: Query, key: seq<Value>)
    requires AllGrouped(gs, rows, q) && NoNaNKeys(rows, q) && NoNaNKey(key)
    requires forall g :: 0 <= g < |gs| ==> NoNaNKey(gs[g].key) && !KeyEqual(gs[g].key, key)
    ensures Members(rows, q, key) == []
  {
    forall i | 0 <= i < |rows| && q.where(rows[i])
      ensures !KeyEqual(key, q.keyOf(rows[i]))
    {
      assert HasGroup(gs, q.keyOf(rows[i]));
      var g :| 0 <= g < |gs| && KeyEqual(gs[g].key, q.keyOf(rows[i]));
      KeyEqualOrder(key, q.keyOf(rows[i]), gs[g].key);
      KeyEqualOrder(gs[g].key, q.keyOf(rows[i]), key);
    }
    NoMembers(rows, q, key);
  }

  /** Hash GROUP BY is partition-then-fold exactly when no filtered row has NaN in its key: then there is one group for
      each distinct key, each aggregate is the fold over exactly that key's rows in scan order, and the group sizes add
      up to the filtered row count. */
  lemma GroupsArePartitionIff(rows: seq<Row>, q: Query)
    ensures IsPartition(GroupsOf(rows, q), rows, q) <==> NoNaNKeys(rows, q)
  {
    hide KeyEqual, NoNaNKey, GroupsOf, DistinctKeys, IsFoldOf, MemberCount;
    var gs := GroupsOf(rows, q);
    if NoNaNKeys(rows, q) { GroupsArePartition(rows, q); }
    if AllGrouped(gs, rows, q) {
      forall i | 0 <= i < |rows| && q.where(rows[i])
        ensures NoNaNKey(q.keyOf(rows[i]))
      {
        assert HasGroup(gs, q.keyOf(rows[i]));
        var g :| 0 <= g < |gs| && KeyEqual(gs[g].key, q.keyOf(rows[i]));
        EqualToNoNaN(gs[g].key, q.keyOf(rows[i]));
      }
    }
  }

  lemma {:induction false} GroupsArePartition(rows: seq<Row>, q: Query)
    requires NoNaNKeys(rows, q)
    ensures IsPartition(GroupsOf(rows, q), rows, q)
  {
    if rows != [] {
      var init, row := rows[..|rows| - 1], rows[|rows| - 1];
      assert forall i :: 0 <= i < |init| ==> init[i] == rows[i];
      GroupsArePartition(init, q);
      OneMoreRow(GroupsOf(init, q), init, row, q);
      assert rows == init + [row];
    }
  }

  lemma OneMoreRow(gs: seq<Group>, rows: seq<Row>, row: Row, q: Query)
    requires IsPartition(gs, rows, q) && Wide(gs, q.aggs) && NoNaNKeys(rows, q)
             && (q.where(row) ==> NoNaNKey(q.keyOf(row)))
    ensures IsPartition(AddRow(gs, q, row), rows + [row], q)
  {
    hide IsPartition, NoNaNKeys, NoNaNKey, KeyEqual;
    if !q.where(row) {
      RowSkipped(gs, rows, row, q);
    } else {
      var found := Find(gs, q.keyOf(row), 0);
      if found.Some? { RowJoins(gs, rows, row, q, found.value); } else { RowStarts(gs, rows, row, q); }
    }
  }

  // ----- counts, NaN, and the rows that come out

  /** Every group counts its rows with accumulator a. */
  predicate Counting(gs: seq<Group>, a: nat) {
    forall g :: 0 <= g < |gs| ==> a < |gs[g].accs| && gs[g].accs[a].CountAcc? && gs[g].accs[a].star
  }

  function CountTotal(gs: seq<Group>, a: nat): nat
    requires Counting(gs, a)
  {
    if gs == [] then 0 else CountTotal(gs[..|gs| - 1], a) + gs[|gs| - 1].accs[a].count
  }

  /** Counting one row more in group g. */
  lemma {:induction false} CountTotalSet(gs: seq<Group>, g: nat, h: Group, a: nat)
    requires Counting(gs, a) && g < |gs| && a < |h.accs|
    requires h.accs[a] == CountAcc(true, gs[g].accs[a].count + 1)
    ensures Counting(gs[g := h], a) && CountTotal(gs[g := h], a) == CountTotal(gs, a) + 1
    decreases |gs|
  {
    var n, hs := |gs| - 1, gs[g := h];
    if g == n {
      assert hs[..n] == gs[..n];
    } else {
      assert hs[..n] == gs[..n][g := h];
      CountTotalSet(gs[..n], g, h, a);
    }
  }

  lemma AccumulatedAt(accs: seq<Acc>, aggs: seq<Agg>, row: Row, a: nat)
    requires |accs| == |aggs| && a < |aggs|
    ensures AccumulateRow(accs, aggs, row)[a] == Accumulate(accs[a], aggs[a].arg(row))
  {
  }

  lemma CountOneMore(gs: seq<Group>, q: Query, row: Row, a: nat)
    requires Wide(gs, q.aggs) && a < |q.aggs| && q.aggs[a].kind.CountStar? && Counting(gs, a)
    ensures Counting(AddRow(gs, q, row), a)
    ensures CountTotal(AddRow(gs, q, row), a) == CountTotal(gs, a) + if q.where(row) then 1 else 0
  {
    if q.where(row) {
      var found := Find(gs, q.keyOf(row), 0);
      if found.Some? {
        var g := gs[found.value];
        AccumulatedAt(g.accs, q.aggs, row, a);
        CountTotalSet(gs, found.value, Group(g.key, AccumulateRow(g.accs, q.aggs, row)), a);
      } else {
        AccumulatedAt(FreshAccs(q.aggs), q.aggs, row, a);
        assert AddRow(gs, q, row)[..|gs|] == gs;
      }
    }
  }

  /** COUNT(*) over all groups adds up to the number of rows the WHERE clause lets through, NaN in the keys or not. */
  lemma {:induction false} CountsAddUp(rows: seq<Row>, q: Query, a: nat)
    requires a < |q.aggs| && q.aggs[a].kind.CountStar?
    ensures Counting(GroupsOf(rows, q), a) && CountTotal(GroupsOf(rows, q), a) == |Filtered(rows, q)|
  {
    hide AddRow;
    if rows != [] {
      CountsAddUp(rows[..|rows| - 1], q, a);
      CountOneMore(GroupsOf(rows[..|rows| - 1], q), q, rows[|rows| - 1], a);
    }
  }

  /** A row with NaN in its key never joins a group, not even one with the same key: it always starts another. */
  lemma NaNKeyStartsGroup(gs: seq<Group>, q: Query, row: Row)
    requires Wide(gs, q.aggs) && q.where(row) && !NoNaNKey(q.keyOf(row))
    ensures |AddRow(gs, q, row)| == |gs| + 1
  {
    forall g | 0 <= g < |gs|
      ensures !KeyEqual(gs[g].key, q.keyOf(row))
    {
      EqualToNoNaN(gs[g].key, q.keyOf(row));
    }
  }

  lemma EqualToNoNaN(a: seq<Value>, b: seq<Value>)
    ensures KeyEqual(a, b) ==> NoNaNKey(b)
  {
    if KeyEqual(a, b) {
      forall i | 0 <= i < |b|
        ensures !IsNaN(b[i])
      {
        assert Equals(a[i], b[i]);
      }
    }
  }

  /** Without GROUP BY every row has the empty key, and an empty input still makes one group. */
  function FinalGroups(rows: seq<Row>, q: Query, hasGroupBy: bool): seq<Group> {
    var gs := GroupsOf(rows, q);
    if gs == [] && !hasGroupBy then [Group([], FreshAccs(q.aggs))] else gs
  }

  /** The results of a group's aggregates, in order. */
  function Results(accs: seq<Acc>): (r: seq<Summary>)
    ensures |r| == |accs|
  {
    seq(|accs|, a requires 0 <= a < |accs| => Finalize(accs[a]))
  }

  /** One row for every group that passes HAVING; both HAVING and the select list see the key and the results. */
  function Output(gs: seq<Group>, having: (seq<Value>, seq<Summary>) -> bool,
                  project: (seq<Value>, seq<Summary>) -> Row): seq<Row>
  {
    if gs == [] then []
    else
      var g := gs[|gs| - 1];
      Output(gs[..|gs| - 1], having, project) +
      if having(g.key, Results(g.accs)) then [project(g.key, Results(g.accs))] else []
  }

  predicate Passes(g: Group, having: (seq<Value>, seq<Summary>) -> bool) { having(g.key, Results(g.accs)) }

  /** The indices are those of exactly the groups that pass HAVING, in order. */
  ghost predicate Passing(at: seq<nat>, gs: seq<Group>, having: (seq<Value>, seq<Summary>) -> bool) {
    && (forall i, j :: 0 <= i < j < |at| ==> at[i] < at[j])
    && (forall k :: 0 <= k < |at| ==> at[k] < |gs| && Passes(gs[at[k]], having))
    && (forall g :: 0 <= g < |gs| && Passes(gs[g], having) ==> g in at)
  }

  /** The k-th row is the projection of the k-th of these groups. */
  ghost predicate Projections(out: seq<Row>, at: seq<nat>, gs: seq<Group>,
                              project: (seq<Value>, seq<Summary>) -> Row)
  {
    |out| == |at| && forall k :: 0 <= k < |at| ==>
                       at[k] < |gs| && out[k] == project(gs[at[k]].key, Results(gs[at[k]].accs))
  }

  /** HAVING keeps exactly the groups whose key and results pass it, in order, and the k-th row that comes out is the
      projection of the k-th of them; with no group nothing comes out. */
  lemma {:induction false} OutputIsHaving(gs: seq<Group>, having: (seq<Value>, seq<Summary>) -> bool,
        project: (seq<Value>, seq<Summary>) -> Row) returns (at: seq<nat>)
    ensures Passing(at, gs, having) && Projections(Output(gs, having, project), at, gs, project)
  {
    hide Passing, Passes, Projections, Results;
    if gs == [] {
      at := [];
      NoGroupPasses(having, project);
    } else {
      var n := |gs| - 1;
      var before := OutputIsHaving(gs[..n], having, project);
      at := if Passes(gs[n], having) then before + [n] else before;
      LastPasses(before, gs, having);
      LastProjected(before, gs, having, project);
    }
  }

  lemma NoGroupPasses(having: (seq<Value>, seq<Summary>) -> bool, project: (seq<Value>, seq<Summary>) -> Row)
    ensures Passing([], [], having) && Projections(Output([], having, project), [], [], project)
  {
  }

  lemma LastPasses(before: seq<nat>, gs: seq<Group>, having: (seq<Value>, seq<Summary>) -> bool)
    requires gs != [] && Passing(before, gs[..|gs| - 1], having)
    ensures Passing(if Passes(gs[|gs| - 1], having) then before + [|gs| - 1] else before, gs, having)
  {
    hide Passes;
    var n := |gs| - 1;
    var at := if Passes(gs[n], having) then before + [n] else before;
    assert forall k :: 0 <= k < |before| ==> gs[..n][before[k]] == gs[before[k]] && at[k] == before[k];
    forall g | 0 <= g < |gs| && Passes(gs[g], having)
      ensures g in at
    {
      if g < n { assert gs[..n][g] == gs[g] && g in before; } else { assert at[|before|] == n; }
    }
  }

  lemma OutputLast(gs: seq<Group>, having: (seq<Value>, seq<Summary>) -> bool,
        project: (seq<Value>, seq<Summary>) -> Row)
    requires gs != []
    ensures var g := gs[|gs| - 1];
            Output(gs, having, project)
            == Output(gs[..|gs| - 1], having, project)
               + if Passes(g, having) then [project(g.key, Results(g.accs))] else []
  {
    hide Results;
  }

  lemma ProjectedBefore(out: seq<Row>, at: seq<nat>, gs: seq<Group>, n: nat,
        project: (seq<Value>, seq<Summary>) -> Row)
    requires n <= |gs| && Projections(out, at, gs[..n], project)
    ensures Projections(out, at, gs, project)
  {
    hide Results;
    forall k | 0 <= k < |at|
      ensures at[k] < |gs| && out[k] == project(gs[at[k]].key, Results(gs[at[k]].accs))
    {
      assert gs[..n][at[k]] == gs[at[k]];
    }
  }

  lemma OneProjected(out: seq<Row>, at: seq<nat>, gs: seq<Group>, n: nat, project: (seq<Value>, seq<Summary>) -> Row)
    requires n < |gs| && Projections(out, at, gs, project)
    ensures Projections(out + [project(gs[n].key, Results(gs[n].accs))], at + [n], gs, project)
  {
    hide Results;
  }

  lemma LastProjected(before: seq<nat>, gs: seq<Group>, having: (seq<Value>, seq<Summary>) -> bool,
        project: (seq<Value>, seq<Summary>) -> Row)
    requires gs != [] && Projections(Output(gs[..|gs| - 1], having, project), before, gs[..|gs| - 1], project)
    ensures Projections(Output(gs, having, project),
                        if Passes(gs[|gs| - 1], having) then before + [|gs| - 1] else before, gs, project)
  {
    hide Results, Output, Passes, Projections;
    var n := |gs| - 1;
    var out := Output(gs[..n], having, project);
    OutputLast(gs, having, project);
    ProjectedBefore(out, before, gs, n, project);
    OneProjected(out, before, gs, n, project);
    assert out + [] == out;
  }

  /** With GROUP BY and no row that passes WHERE, no group is made and no row comes out. */
  lemma {:induction false} NothingGrouped(rows: seq<Row>, q: Query, having: (seq<Value>, seq<Summary>) -> bool,
        project: (seq<Value>, seq<Summary>) -> Row)
    requires forall i :: 0 <= i < |rows| ==> !q.where(rows[i])
    ensures FinalGroups(rows, q, true) == [] && Output(FinalGroups(rows, q, true), having, project) == []
  {
    if rows != [] { NothingGrouped(rows[..|rows| - 1], q, having, project); }
  }

  /** Without NaN keys, the results of a group are the aggregates of exactly its rows. */
  lemma GroupResults(rows: seq<Row>, q: Query, g: nat, a: nat)
    requires NoNaNKeys(rows, q) && g < |GroupsOf(rows, q)| && a < |q.aggs|
    ensures var group := GroupsOf(rows, q)[g];
            Results(group.accs)[a] == Aggregated(q.aggs[a].kind, Args(Members(rows, q, group.key), q.aggs[a].arg))
  {
    hide GroupsOf, Members, Finalize, Fold;
    GroupsArePartition(rows, q);
    assert IsFoldOf(GroupsOf(rows, q)[g], rows, q);
  }

  /** Without GROUP BY exactly one group comes out, and it is the fold over all filtered rows. */
  lemma OneGroupWithoutGroupBy(rows: seq<Row>, q: Query)
    requires forall row :: q.keyOf(row) == []
    ensures var gs := FinalGroups(rows, q, false);
            && |gs| == 1 && gs[0].key == [] && |gs[0].accs| == |q.aggs|
            && forall a :: 0 <= a < |q.aggs| ==>
            gs[0].accs[a] == Fold(q.aggs[a].kind, Args(Filtered(rows, q), q.aggs[a].arg))
  {
    GroupsArePartition(rows, q);
    var gs := GroupsOf(rows, q);
    AllMembers(rows, q);
    if gs == [] {
      assert Filtered(rows, q) == [];
    } else {
      EmptyKeys(rows, q);
      SameKeys(gs);
      assert IsFoldOf(gs[0], rows, q);
    }
  }

  lemma SameKeys(gs: seq<Group>)
    requires forall g :: 0 <= g < |gs| ==> gs[g].key == []
    ensures |gs| > 1 ==> !DistinctKeys(gs)
  {
    assert |gs| > 1 ==> KeyEqual(gs[0].key, gs[1].key);
  }

  lemma {:induction false} AllMembers(rows: seq<Row>, q: Query)
    requires forall row :: q.keyOf(row) == []
    ensures Members(rows, q, []) == Filtered(rows, q)
  {
    if rows != [] { AllMembers(rows[..|rows| - 1], q); }
  }

  lemma {:induction false} EmptyKeys(rows: seq<Row>, q: Query)
    requires forall row :: q.keyOf(row) == []
    ensures forall g :: 0 <= g < |GroupsOf(rows, q)| ==> GroupsOf(rows, q)[g].key == []
  {
    if rows != [] { EmptyKeys(rows[..|rows| - 1], q); }
  }
}
