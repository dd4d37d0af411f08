/** What SELECT does with its result rows after projecting them: DISTINCT, the ORDER BY comparator, LIMIT and OFFSET. */
module SelectResults {
  import opened Wrappers
  import opened Bytes
  import opened Rows
  import opened ValueOrders

  // ----- DISTINCT

  /** rowsEqual: the same width and equal values, NULL equal to NULL. */
  predicate SameRow(a: Row, b: Row) {
    |a| == |b| && forall i :: 0 <= i < |a| ==> Equals(a[i], b[i])
  }

  predicate NaNFree(r: Row) { forall i :: 0 <= i < |r| ==> !IsNaN(r[i]) }

  /** Without NaN, rowsEqual is an equivalence. */
  lemma SameRowIsEquivalence(a: Row, b: Row, c: Row)
    requires NaNFree(a) && NaNFree(b) && NaNFree(c)
    ensures SameRow(a, a) && (SameRow(a, b) <==> SameRow(b, a))
    ensures SameRow(a, b) && SameRow(b, c) ==> SameRow(a, c)
  {
    hide Equals, Compare;
    forall i | 0 <= i < |a|
      ensures Equals(a[i], a[i])
      ensures i < |b| ==> (Equals(a[i], b[i]) <==> Equals(b[i], a[i]))
      ensures i < |b| && i < |c| && Equals(a[i], b[i]) && Equals(b[i], c[i]) ==> Equals(a[i], c[i])
    {
      var y, z := if i < |b| then b[i] else a[i], if i < |c| then c[i] else a[i];
      EqualsIsEquivalence(a[i], y, z);
    }
  }

  lemma EqualsIsEquivalence(a: Value, b: Value, c: Value)
    requires !IsNaN(a) && !IsNaN(b) && !IsNaN(c)
    ensures Equals(a, a) && (Equals(a, b) <==> Equals(b, a))
    ensures Equals(a, b) && Equals(b, c) ==> Equals(a, c)
  {
  }

  predicate Repeats(r: Row, kept: seq<Row>) {
    exists k :: 0 <= k < |kept| && SameRow(r, kept[k])
  }

  /** The rows DISTINCT keeps: each that equals none kept before it. */
  function Distinct(rows: seq<Row>): seq<Row> {
    if rows == [] then []
    else
      var kept, r := Distinct(rows[..|rows| - 1]), rows[|rows| - 1];
      if Repeats(r, kept) then kept else kept + [r]
  }

  predicate Ascends(at: seq<nat>) { forall i, j :: 0 <= i < j < |at| ==> at[i] < at[j] }

  /** The rows at the given positions. */
  function Picked(rows: seq<Row>, at: seq<nat>): seq<Row>
    requires forall i :: 0 <= i < |at| ==> at[i] < |rows|
  {
    seq(|at|, i requires 0 <= i < |at| => rows[at[i]])
  }

  predicate First(rows: seq<Row>, i: int) {
    0 <= i < |rows| && forall j :: 0 <= j < i ==> !SameRow(rows[i], rows[j])
  }

  /** The kept rows are rows of the input in their order, with every first occurrence among them. */
  ghost predicate KeptAt(rows: seq<Row>, at: seq<nat>) {
    && Ascends(at) && (forall i :: 0 <= i < |at| ==> at[i] < |rows|)
    && Distinct(rows) == Picked(rows, at)
    && forall i :: First(rows, i) ==> i in at
  }

  /** DISTINCT on any rows: a subsequence without repeats that keeps every first occurrence and stands for every row. */
  lemma {:induction false} DistinctIsExact(rows: seq<Row>)
    ensures exists at :: KeptAt(rows, at)
    ensures forall i, j :: 0 <= i < j < |Distinct(rows)| ==> !SameRow(Distinct(rows)[j], Distinct(rows)[i])
    ensures forall i :: 0 <= i < |rows| ==> rows[i] in Distinct(rows) || Repeats(rows[i], Distinct(rows))
  {
    hide SameRow;
    if rows == [] {
      assert KeptAt(rows, []);
    } else {
      var n := |rows| - 1;
      var init := rows[..n];
      DistinctIsExact(init);
      var at :| KeptAt(init, at);
      OneMoreKept(rows, at);
      StandsForAll(rows);
    }
  }

  lemma OneMoreKept(rows: seq<Row>, at: seq<nat>)
    requires rows != [] && KeptAt(rows[..|rows| - 1], at)
    ensures exists more :: KeptAt(rows, more)
  {
    hide SameRow;
    var n := |rows| - 1;
    var init := rows[..n];
    var more := if Repeats(rows[n], Distinct(init)) then at else at + [n];
    assert Picked(rows, at) == Picked(init, at);
    assert Picked(rows, more) == Distinct(rows);
    forall i | First(rows, i)
      ensures i in more
    {
      if i < n {
        assert First(init, i);
      } else {
        FirstIsNoRepeat(rows, at);
        assert more[|at|] == n;
      }
    }
    assert KeptAt(rows, more);
  }

  lemma FirstIsNoRepeat(rows: seq<Row>, at: seq<nat>)
    requires rows != [] && KeptAt(rows[..|rows| - 1], at) && First(rows, |rows| - 1)
    ensures !Repeats(rows[|rows| - 1], Distinct(rows[..|rows| - 1]))
  {
    hide SameRow;
    var n := |rows| - 1;
    forall k | 0 <= k < |at|
      ensures !SameRow(rows[n], Distinct(rows[..n])[k])
    {
      assert Distinct(rows[..n])[k] == rows[at[k]];
    }
  }

  lemma StandsForAll(rows: seq<Row>)
    requires rows != []
    requires var init := rows[..|rows| - 1];
             forall i :: 0 <= i < |init| ==> init[i] in Distinct(init) || Repeats(init[i], Distinct(init))
    ensures forall i :: 0 <= i < |rows| ==> rows[i] in Distinct(rows) || Repeats(rows[i], Distinct(rows))
  {
    hide SameRow;
    var n := |rows| - 1;
    var init := rows[..n];
    var before, after := Distinct(init), Distinct(rows);
    assert forall k :: 0 <= k < |before| ==> after[k] == before[k];
    if !Repeats(rows[n], before) { assert after[|before|] == rows[n]; }
    forall i | 0 <= i < n
      ensures rows[i] in after || Repeats(rows[i], after)
    {
      assert init[i] == rows[i];
      if Repeats(rows[i], before) {
        var k :| 0 <= k < |before| && SameRow(rows[i], before[k]);
        assert SameRow(rows[i], after[k]);
      }
    }
  }

  /** On any values, NaN among them, rowsEqual goes both ways and on to a third row. */
  lemma SameRowCarries(a: Row, b: Row, c: Row)
    ensures SameRow(a, b) ==> SameRow(b, a)
    ensures SameRow(a, b) && SameRow(b, c) ==> SameRow(a, c)
  {
    hide Equals;
    forall i | 0 <= i < |a| && i < |b|
      ensures Equals(a[i], b[i]) ==> Equals(b[i], a[i])
      ensures i < |c| && Equals(a[i], b[i]) && Equals(b[i], c[i]) ==> Equals(a[i], c[i])
    {
      EqualsCarries(a[i], b[i], if i < |c| then c[i] else a[i]);
    }
  }

  lemma EqualsCarries(a: Value, b: Value, c: Value)
    ensures Equals(a, b) ==> Equals(b, a)
    ensures Equals(a, b) && Equals(b, c) ==> Equals(a, c)
  {
  }

  /** The first row that equals row i, which is a first occurrence, when some row before row i equals it. */
  lemma {:induction false} FirstEqual(rows: seq<Row>, i: nat, n: nat, last: nat) returns (j: nat)
    requires n <= last < i < |rows| && SameRow(rows[i], rows[last])
    requires forall k :: 0 <= k < n ==> !SameRow(rows[i], rows[k])
    ensures j < i && SameRow(rows[i], rows[j]) && First(rows, j)
    decreases last - n
  {
    hide SameRow;
    if SameRow(rows[i], rows[n]) {
      forall k | 0 <= k < n
        ensures !SameRow(rows[n], rows[k])
      {
        SameRowCarries(rows[i], rows[n], rows[k]);
      }
      j := n;
    } else {
      j := FirstEqual(rows, i, n + 1, last);
    }
  }

  lemma KeptDiffer(rows: seq<Row>, at: seq<nat>, q: nat, p: nat)
    requires KeptAt(rows, at) && q < p < |at|
    ensures !SameRow(rows[at[p]], rows[at[q]])
  {
    hide SameRow;
    DistinctIsExact(rows);
    assert Distinct(rows)[p] == rows[at[p]] && Distinct(rows)[q] == rows[at[q]];
  }

  /** DISTINCT keeps exactly the rows that equal no earlier row. */
  lemma DistinctKeepsFirsts(rows: seq<Row>)
    ensures exists at :: KeptAt(rows, at) && forall i :: i in at <==> First(rows, i)
  {
    hide SameRow, Distinct, Picked;
    DistinctIsExact(rows);
    var at :| KeptAt(rows, at);
    forall i | i in at
      ensures First(rows, i)
    {
      if !First(rows, i) {
        var last :| 0 <= last < i && SameRow(rows[i], rows[last]);
        var j := FirstEqual(rows, i, 0, last);
        var p :| 0 <= p < |at| && at[p] == i;
        var q :| 0 <= q < |at| && at[q] == j;
        KeptDiffer(rows, at, q, p);
      }
    }
  }

  /** A NaN equals nothing, so a row that holds one is never taken for a repeat. */
  lemma NaNRowIsKept(rows: seq<Row>, i: nat)
    requires i < |rows| && !NaNFree(rows[i])
    ensures rows[i] in Distinct(rows)
  {
    DistinctIsExact(rows);
    var c :| 0 <= c < |rows[i]| && IsNaN(rows[i][c]);
    assert forall k :: 0 <= k < |Distinct(rows)| && |Distinct(rows)[k]| > c ==>
        !Equals(rows[i][c], Distinct(rows)[k][c]);
  }

  // ----- LIMIT and OFFSET

  const SIZE_MAX: int := 0x1_0000_0000_0000_0000

  /** static_cast<size_t> of a 64-bit integer. */
  function ToSize(i: int): (n: nat) { i % SIZE_MAX }

  function Least(a: nat, b: nat): nat { if a < b then a else b }

  /** What LIMIT and OFFSET mean: skip `offset` rows, then take at most `limit`. */
  function Window(rows: seq<Row>, offset: nat, limit: nat): seq<Row> {
    rows[Least(offset, |rows|)..Least(offset + limit, |rows|)]
  }

  /** The sum offset + limit is 64 bits wide: past that no row is left, instead of all rows from the offset on. */
  function Limited(rows: seq<Row>, offset: nat, limit: nat): seq<Row> {
    if offset >= |rows| || ToSize(offset + limit) < offset then []
    else rows[offset..Least(ToSize(offset + limit), |rows|)]
  }

  /** The code returns the window exactly when the sum does not wrap, or the offset is past the last row anyway. */
  lemma LimitedIsWindowIff(rows: seq<Row>, offset: nat, limit: nat)
    requires offset < SIZE_MAX && limit < SIZE_MAX && |rows| < SIZE_MAX
    ensures Limited(rows, offset, limit) == Window(rows, offset, limit)
            <==> offset >= |rows| || offset + limit < SIZE_MAX
  {
    if offset < |rows| && offset + limit >= SIZE_MAX {
      assert ToSize(offset + limit) == offset + limit - SIZE_MAX;
      assert |Window(rows, offset, limit)| == |rows| - offset;
    }
  }

  lemma ToSizeKeeps(i: int)
    requires 0 <= i < SIZE_MAX
    ensures ToSize(i) == i
  {
  }

  /** With numbers the parser accepts, non-negative and 63 bits wide, the sum never wraps. */
  lemma ParsedLimitIsWindow(rows: seq<Row>, offset: int, limit: int)
    requires 0 <= offset < 0x8000_0000_0000_0000 && 0 <= limit < 0x8000_0000_0000_0000 && |rows| < SIZE_MAX
    ensures Limited(rows, ToSize(offset), ToSize(limit)) == Window(rows, offset, limit)
  {
    hide ToSize, Limited, Window;
    ToSizeKeeps(offset);
    ToSizeKeeps(limit);
    LimitedIsWindowIff(rows, offset, limit);
  }

  /** A negative limit, which the parser refuses, would wrap: LIMIT -1 alone returns every row, but with OFFSET 1
      it returns none. */
  lemma NegativeLimit(rows: seq<Row>)
    requires 2 <= |rows| < SIZE_MAX
    ensures Limited(rows, 0, ToSize(-1)) == rows && Limited(rows, 1, ToSize(-1)) == []
  {
    assert ToSize(-1) == SIZE_MAX - 1;
    assert rows[0..|rows|] == rows;
  }

  // ----- ORDER BY

  /** An ORDER BY item: the column name, empty when the item is no column, and the direction. */
  datatype OrderItem = OrderItem(name: string, descending: bool)

  /** The first alias entry (original, alias) with this alias names the column, else the name itself does. */
  function Unaliased(name: string, aliases: seq<(string, string)>): string {
    if aliases == [] then name else if aliases[0].1 == name then aliases[0].0 else Unaliased(name, aliases[1..])
  }

  function ColumnOf(name: string, columns: seq<string>, from: nat): (i: Option<nat>)
    requires from <= |columns|
    ensures i.Some? ==> from <= i.value < |columns|
    decreases |columns| - from
  {
    if from == |columns| then None else if columns[from] == name then Some(from) else ColumnOf(name, columns, from + 1)
  }

  /** The lookup finds the first column of the name, and none exactly when no column has it. */
  lemma {:induction false} ColumnIsFirst(name: string, columns: seq<string>, from: nat)
    requires from <= |columns|
    ensures var i := ColumnOf(name, columns, from);
            && (i.Some? ==> columns[i.value] == name && name !in columns[from..i.value])
            && (i.None? <==> name !in columns[from..])
    decreases |columns| - from
  {
    if from < |columns| {
      ColumnIsFirst(name, columns, from + 1);
      assert columns[from..] == [columns[from]] + columns[from + 1..];
      var i := ColumnOf(name, columns, from + 1);
      if i.Some? { assert columns[from..i.value] == [columns[from]] + columns[from + 1..i.value]; }
    }
  }

  function Resolved(o: OrderItem, aliases: seq<(string, string)>, columns: seq<string>): SortKey {
    SortKey(ColumnOf(Unaliased(o.name, aliases), columns, 0), o.descending)
  }

  /** The keys that the ORDER BY items stand for. */
  function Keys(order: seq<OrderItem>, aliases: seq<(string, string)>, columns: seq<string>): (keys: seq<SortKey>)
    ensures |keys| == |order| && KeysFit(keys, |columns|)
  {
    seq(|order|, i requires 0 <= i < |order| => Resolved(order[i], aliases, columns))
  }

  // ----- the columns that ORDER BY looks at

  /** A select item: a column reference or some other expression. */
  datatype SelectItem = ColumnItem(name: string) | OtherItem

  predicate IsColumn(item: SelectItem, table: seq<string>) { item.ColumnItem? && item.name in table }

  /** The columns of the result schema: of all select items only those that are columns of the table. */
  function ResultColumns(items: seq<SelectItem>, table: seq<string>): (columns: seq<string>)
    ensures |columns| <= |items|
  {
    if items == [] then []
    else (if IsColumn(items[0], table) then [items[0].name] else []) + ResultColumns(items[1..], table)
  }

  /** The position in the projected row of the first item that is the named column. */
  function ItemOf(name: string, items: seq<SelectItem>, table: seq<string>): (i: Option<nat>)
    ensures i.Some? ==> i.value < |items| && IsColumn(items[i.value], table) && items[i.value].name == name
  {
    if items == [] then None
    else if IsColumn(items[0], table) && items[0].name == name then Some(0)
    else
      var i := ItemOf(name, items[1..], table);
      if i.Some? then Some(i.value + 1) else None
  }

  lemma {:induction false} ColumnAfter(name: string, first: string, columns: seq<string>, from: nat)
    requires from <= |columns|
    ensures var i := ColumnOf(name, columns, from);
            ColumnOf(name, [first] + columns, from + 1) == if i.Some? then Some(i.value + 1) else None
    decreases |columns| - from
  {
    var all := [first] + columns;
    if from < |columns| {
      assert all[from + 1] == columns[from];
      ColumnAfter(name, first, columns, from + 1);
    }
  }

  lemma ColumnFirst(name: string, first: string, columns: seq<string>)
    ensures var i := ColumnOf(name, columns, 0);
            ColumnOf(name, [first] + columns, 0)
            == if first == name then Some(0) else if i.Some? then Some(i.value + 1) else None
  {
    ColumnAfter(name, first, columns, 0);
  }

  /** One item more in front. */
  lemma ItemFirst(name: string, items: seq<SelectItem>, table: seq<string>)
    requires items != []
    ensures var i := ItemOf(name, items[1..], table);
            ItemOf(name, items, table)
            == if IsColumn(items[0], table) && items[0].name == name then Some(0)
               else if i.Some? then Some(i.value + 1) else None
    ensures ResultColumns(items, table)
            == (if IsColumn(items[0], table) then [items[0].name] else []) + ResultColumns(items[1..], table)
  {
  }

  lemma ItemsBefore(items: seq<SelectItem>, table: seq<string>, n: nat)
    requires items != [] && n < |items|
    ensures |ResultColumns(items[..n + 1], table)|
            == (if IsColumn(items[0], table) then 1 else 0) + |ResultColumns(items[1..][..n], table)|
  {
    assert items[..n + 1][1..] == items[1..][..n];
  }

  /** The compared index counts the columns among the items before the named one. */
  lemma {:induction false} ComparedIndex(name: string, items: seq<SelectItem>, table: seq<string>)
    ensures var named := ItemOf(name, items, table);
            ColumnOf(name, ResultColumns(items, table), 0)
            == if named.Some? then Some(|ResultColumns(items[..named.value], table)|) else None
  {
    hide ColumnOf, ItemOf, ResultColumns;
    if items == [] {
      NoColumn(name, table);
    } else {
      var rest := items[1..];
      var columns, named := ResultColumns(rest, table), ItemOf(name, rest, table);
      ComparedIndex(name, rest, table);
      ItemFirst(name, items, table);
      NoColumn(name, table);
      if named.Some? { ItemsBefore(items, table, named.value); }
      if IsColumn(items[0], table) {
        ColumnFirst(name, items[0].name, columns);
      } else {
        assert [] + columns == columns;
      }
    }
  }

  lemma NoColumn(name: string, table: seq<string>)
    ensures ColumnOf(name, [], 0).None? && ItemOf(name, [], table).None? && ResultColumns([], table) == []
  {
  }

  lemma {:induction false} AllColumnsIff(items: seq<SelectItem>, table: seq<string>)
    ensures |ResultColumns(items, table)| == |items| <==> forall i :: 0 <= i < |items| ==> IsColumn(items[i], table)
  {
    if items != [] {
      AllColumnsIff(items[1..], table);
      assert forall i :: 1 <= i < |items| ==> items[i] == items[1..][i - 1];
    }
  }

  /** ORDER BY by a selected column compares the item of that name exactly when every item before it is a column of the
      table; any other item before it shifts the comparison to an item further left, which is not that column. */
  lemma ComparedItemIff(name: string, items: seq<SelectItem>, table: seq<string>)
    ensures var (compared, named) := (ColumnOf(name, ResultColumns(items, table), 0), ItemOf(name, items, table));
            && (compared.None? <==> named.None?)
            && (named.Some? ==>
                  && compared.value <= named.value
                  && (compared == named <==> forall i :: 0 <= i < named.value ==> IsColumn(items[i], table))
                  && (compared != named ==> items[compared.value] != ColumnItem(name)))
  {
    hide ColumnOf, ItemOf, ResultColumns, IsColumn;
    ComparedIndex(name, items, table);
    var named := ItemOf(name, items, table);
    if named.Some? {
      var before := items[..named.value];
      AllColumnsIff(before, table);
      assert forall i :: 0 <= i < named.value ==> before[i] == items[i];
      NotNamedBefore(name, items, table);
    }
  }

  lemma {:induction false} NotNamedBefore(name: string, items: seq<SelectItem>, table: seq<string>)
    requires ItemOf(name, items, table).Some?
    ensures forall i :: 0 <= i < ItemOf(name, items, table).value ==> items[i] != ColumnItem(name)
  {
    if !(IsColumn(items[0], table) && items[0].name == name) {
      NotNamedBefore(name, items[1..], table);
      assert name in table;
    }
  }

  method Unalias(name: string, aliases: seq<(string, string)>) returns (original: string)
    ensures original == Unaliased(name, aliases)
  {
    for i := 0 to |aliases|
      invariant Unaliased(name, aliases) == Unaliased(name, aliases[i..])
    {
      if aliases[i].1 == name { return aliases[i].0; }
    }
    return name;
  }

  method FindColumn(name: string, columns: seq<string>) returns (found: Option<nat>)
    ensures found == ColumnOf(name, columns, 0)
  {
    for i := 0 to |columns|
      invariant ColumnOf(name, columns, 0) == ColumnOf(name, columns, i)
    {
      if columns[i] == name { return Some(i); }
    }
    return None;
  }

  /** The comparator passed to std::sort. */
  method GoesBefore(a: Row, b: Row, order: seq<OrderItem>, aliases: seq<(string, string)>, columns: seq<string>)
    returns (before: bool)
    requires |columns| <= |a| && |columns| <= |b|
    ensures before == RowLess(a, b, Keys(order, aliases, columns))
  {
    ghost var keys := Keys(order, aliases, columns);
    for i := 0 to |order|
      invariant KeysFit(keys[i..], |columns|)
      invariant RowLess(a, b, keys) == RowLess(a, b, keys[i..])
    {
      assert keys[i..][0] == keys[i] && keys[i..][1..] == keys[i + 1..];
      var original := Unalias(order[i].name, aliases);
      var column := FindColumn(original, columns);
      if column.Some? {
        var cmp := Compare(a[column.value], b[column.value]);
        if cmp != 0 { return if order[i].descending then cmp > 0 else cmp < 0; }
      }
    }
    return false;
  }

  // ----- the result rows of an executor

  class ResultSet {
    var rows: seq<Row>

    constructor (rs: seq<Row>)
      ensures rows == rs
    {
      rows := rs;
    }

    static method RowsEqual(a: Row, b: Row) returns (same: bool)
      ensures same == SameRow(a, b)
    {
      if |a| != |b| { return false; }
      for i := 0 to |a|
        invariant forall k :: 0 <= k < i ==> Equals(a[k], b[k])
      {
        if a[i].Null? && b[i].Null? { continue; }
        if a[i].Null? || b[i].Null? { return false; }
        if !Equals(a[i], b[i]) { return false; }
      }
      return true;
    }

    method ApplyDistinct(distinct: bool)
      modifies this
      ensures rows == if distinct then Distinct(old(rows)) else old(rows)
    {
      if !distinct { return; }
      var unique: seq<Row> := [];
      for i := 0 to |rows|
        invariant rows == old(rows) && unique == Distinct(rows[..i])
      {
        assert rows[..i + 1][..i] == rows[..i];
        var duplicate := false;
        for k := 0 to |unique|
          invariant rows == old(rows) && !duplicate
          invariant forall j :: 0 <= j < k ==> !SameRow(rows[i], unique[j])
        {
          var same := RowsEqual(rows[i], unique[k]);
          if same {
            duplicate := true;
            break;
          }
        }
        if !duplicate { unique := unique + [rows[i]]; }
      }
      assert rows[..|rows|] == rows;
      rows := unique;
    }

    method ApplyLimitOffset(limit: Option<int>, offset: Option<int>)
      requires |rows| < SIZE_MAX
      modifies this
      ensures rows == if limit.None? && offset.None? then old(rows)
                      else Limited(old(rows), ToSize(if offset.Some? then offset.value else 0),
                                   if limit.Some? then ToSize(limit.value) else |old(rows)|)
    {
      hide ToSize;
      if limit.None? && offset.None? { return; }
      ToSizeKeeps(0);
      var skip := if offset.Some? then ToSize(offset.value) else 0;
      var take := if limit.Some? then ToSize(limit.value) else |rows|;
      if skip >= |rows| {
        rows := [];
      } else {
        var end := Least(ToSize(skip + take), |rows|);
        var limited: seq<Row> := [];
        var i := skip;
        while i < end
          invariant rows == old(rows) && skip <= i <= |rows| && (i <= end || i == skip) && limited == rows[skip..i]
        {
          limited := limited + [rows[i]];
          i := i + 1;
        }
        rows := limited;
      }
    }
  }
}
