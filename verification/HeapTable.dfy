/** A table file as its pages of records, the order a scan visits them in, and the bag of rows it holds. */
module HeapTables {
  import opened Bytes
  import opened PageImages
  import opened Rows
  import opened RowSerializer

  /** Records by page and slot; the empty record is a deleted slot. */
  type Table = seq<seq<Text>>

  datatype Tid = Tid(page: nat, slot: nat)

  function TableOf(pages: seq<PageImage>): (t: Table)
    ensures |t| == |pages|
  {
    seq(|pages|, n requires 0 <= n < |pages| => Records(pages[n]))
  }

  predicate PagesOk(pages: seq<PageImage>) {
    forall n :: 0 <= n < |pages| ==> PageOk(pages[n])
  }

  predicate InRange(t: Table, id: Tid) { id.page < |t| && id.slot < |t[id.page]| }

  predicate Live(t: Table, id: Tid) { InRange(t, id) && t[id.page][id.slot] != [] }

  function At(t: Table, id: Tid): Text
    requires InRange(t, id)
  {
    t[id.page][id.slot]
  }

  /** Deleting a record. */
  function Clear(t: Table, id: Tid): Table
    requires InRange(t, id)
  {
    t[id.page := t[id.page][id.slot := []]]
  }

  /** Adding a record to page n, or on a new page when n is the next page. */
  function Add(t: Table, n: nat, r: Text): Table
    requires n <= |t|
  {
    if n == |t| then t + [[r]] else t[n := t[n] + [r]]
  }

  /** Adding a record on page n and clearing the one it replaces. */
  function Rewritten(t: Table, n: nat, r: Text, id: Tid): Table
    requires n <= |t| && InRange(t, id)
  {
    AddKeeps(t, n, r, id);
    Clear(Add(t, n, r), id)
  }

  /** Where Add puts the record. */
  function Added(t: Table, n: nat): Tid
    requires n <= |t|
  {
    Tid(n, if n == |t| then 0 else |t[n]|)
  }

  /** Replacing a record on its page is adding the new one there and then clearing the old one; an empty new record is
      not added. */
  lemma ReplaceOnPageIs(t: Table, id: Tid, r: Text, rs: seq<Text>)
    requires InRange(t, id) && rs == t[id.page][id.slot := []] + if r != [] then [r] else []
    ensures t[id.page := rs] == if r != [] then Clear(Add(t, id.page, r), id) else Clear(t, id)
  {
    if r == [] {
      assert rs == t[id.page][id.slot := []];
    } else {
      assert (t[id.page] + [r])[id.slot := []] == rs;
    }
  }

  /** Adding a record keeps every other record where it was. */
  lemma AddKeeps(t: Table, n: nat, r: Text, id: Tid)
    requires n <= |t| && InRange(t, id)
    ensures InRange(Add(t, n, r), id) && At(Add(t, n, r), id) == At(t, id)
  {
  }

  /** Filling a new empty page is adding on the next page. */
  lemma AddOnNewPage(t: Table, rs: seq<Text>, r: Text)
    requires rs == []
    ensures (t + [[]])[|t| := rs + [r]] == Add(t, |t|, r)
  {
    assert rs + [r] == [r];
  }

  // ----- scan order

  /** The live records from page p, slot s on, as the iterator visits them. */
  function Scan(t: Table, p: nat, s: nat): seq<Tid>
    decreases |t| - p, if p < |t| then |t[p]| - s else 0
  {
    if p >= |t| then []
    else if s >= |t[p]| then Scan(t, p + 1, 0)
    else if t[p][s] != [] then [Tid(p, s)] + Scan(t, p, s + 1)
    else Scan(t, p, s + 1)
  }

  /** The first live slot from s on; s itself when it is past the end. */
  function FirstLive(rs: seq<Text>, s: nat): (k: nat)
    ensures k >= s && (s < |rs| ==> k <= |rs|) && (k < |rs| ==> rs[k] != [])
    decreases |rs| - s
  {
    if s >= |rs| || rs[s] != [] then s else FirstLive(rs, s + 1)
  }

  /** What is left of a scan starts at the next live slot of its page, or on the next page. */
  lemma {:induction false} ScanFrom(t: Table, p: nat, s: nat)
    requires p < |t|
    ensures var k := FirstLive(t[p], s);
            Scan(t, p, s) == if k < |t[p]| then [Tid(p, k)] + Scan(t, p, k + 1) else Scan(t, p + 1, 0)
    decreases |t[p]| - s
  {
    if s < |t[p]| && t[p][s] == [] { ScanFrom(t, p, s + 1); }
  }

  predicate Before(a: Tid, b: Tid) { a.page < b.page || (a.page == b.page && a.slot < b.slot) }

  predicate Ascending(ids: seq<Tid>) {
    forall i, j :: 0 <= i < j < |ids| ==> Before(ids[i], ids[j])
  }

  /** A scan visits exactly the live records that lie ahead, each once, in page and slot order. */
  lemma {:induction false} ScanIsExact(t: Table, p: nat, s: nat, id: Tid)
    ensures id in Scan(t, p, s) <==> Live(t, id) && !Before(id, Tid(p, s))
    decreases |t| - p, if p < |t| then |t[p]| - s else 0
  {
    if p >= |t| {
      assert Scan(t, p, s) == [];
    } else if s >= |t[p]| {
      ScanIsExact(t, p + 1, 0, id);
      assert Live(t, id) ==> (Before(id, Tid(p, s)) <==> Before(id, Tid(p + 1, 0)));
    } else {
      ScanIsExact(t, p, s + 1, id);
      ScanSlot(t, p, s, id);
      assert Before(id, Tid(p, s + 1)) <==> Before(id, Tid(p, s)) || id == Tid(p, s);
    }
  }

  lemma ScanSlot(t: Table, p: nat, s: nat, id: Tid)
    requires p < |t| && s < |t[p]|
    ensures id in Scan(t, p, s) <==> (id == Tid(p, s) && t[p][s] != []) || id in Scan(t, p, s + 1)
  {
    assert t[p][s] != [] ==> Scan(t, p, s) == [Tid(p, s)] + Scan(t, p, s + 1);
  }

  lemma {:induction false} ScanAscends(t: Table, p: nat, s: nat)
    ensures Ascending(Scan(t, p, s))
    decreases |t| - p, if p < |t| then |t[p]| - s else 0
  {
    if p < |t| {
      if s >= |t[p]| {
        ScanAscends(t, p + 1, 0);
      } else {
        var rest := Scan(t, p, s + 1);
        ScanAscends(t, p, s + 1);
        forall j | 0 <= j < |rest|
          ensures Before(Tid(p, s), rest[j])
        {
          ScanIsExact(t, p, s + 1, rest[j]);
        }
      }
    }
  }

  // ----- the bag of rows

  /** A live record counts as its decoded row, a deleted one as nothing. */
  function Count(r: Text, schema: Schema): multiset<Row> {
    if r == [] then multiset{} else multiset{DecodeRow(r, schema)}
  }

  function PageBag(rs: seq<Text>, schema: Schema): multiset<Row> {
    if rs == [] then multiset{} else Count(rs[0], schema) + PageBag(rs[1..], schema)
  }

  function TableBag(t: Table, schema: Schema): multiset<Row> {
    if t == [] then multiset{} else PageBag(t[0], schema) + TableBag(t[1..], schema)
  }

  function RowsAt(t: Table, ids: seq<Tid>, schema: Schema): (rows: seq<Row>)
    requires AllInRange(t, ids)
    ensures |rows| == |ids|
  {
    seq(|ids|, i requires 0 <= i < |ids| => DecodeRow(At(t, ids[i]), schema))
  }

  // Sums of bags in another order.

  lemma Regroup(q: multiset<Row>, head: multiset<Row>, tail: multiset<Row>, rest: multiset<Row>, x: multiset<Row>)
    requires q == head + tail && tail == rest + x
    ensures q == (head + rest) + x
  {
  }

  lemma Exchange(head: multiset<Row>, tail: multiset<Row>, x: multiset<Row>, rest: multiset<Row>, y: multiset<Row>)
    requires tail + x == rest + y
    ensures (head + tail) + x == (head + rest) + y
  {
    assert (head + tail) + x == head + (tail + x);
    assert (head + rest) + y == head + (rest + y);
  }

  lemma Replaced(x: multiset<Row>, rest: multiset<Row>, y: multiset<Row>)
    ensures (y + rest) + x == (x + rest) + y
  {
  }

  lemma Shifted(q: multiset<Row>, a: multiset<Row>, t: multiset<Row>, b: multiset<Row>, x: multiset<Row>)
    requires q + a == t + b && b == a + x
    ensures q == t + x
  {
    forall e ensures q[e] == (t + x)[e] {
      assert (q + a)[e] == (t + b)[e];
    }
  }

  lemma Taken(q: multiset<Row>, a: multiset<Row>, t: multiset<Row>, b: multiset<Row>, x: multiset<Row>)
    requires q + a == t + b && b + x == a
    ensures q + x == t
  {
    forall e ensures (q + x)[e] == t[e] {
      assert (q + a)[e] == (t + b)[e];
      assert (b + x)[e] == a[e];
    }
  }

  lemma PageBagFirst(q: seq<Text>, r: Text, rest: seq<Text>, schema: Schema)
    requires q == [r] + rest
    ensures PageBag(q, schema) == Count(r, schema) + PageBag(rest, schema)
  {
    assert q[0] == r && q[1..] == rest;
  }

  lemma TableBagFirst(q: Table, rs: seq<Text>, rest: Table, schema: Schema)
    requires q == [rs] + rest
    ensures TableBag(q, schema) == PageBag(rs, schema) + TableBag(rest, schema)
  {
    assert q[0] == rs && q[1..] == rest;
  }

  lemma {:induction false} PageBagAppend(rs: seq<Text>, r: Text, schema: Schema)
    ensures PageBag(rs + [r], schema) == PageBag(rs, schema) + Count(r, schema)
    decreases |rs|
  {
    if rs == [] {
      PageBagFirst(rs + [r], r, [], schema);
    } else {
      PageBagAppend(rs[1..], r, schema);
      PageBagFirst(rs + [r], rs[0], rs[1..] + [r], schema);
      Regroup(PageBag(rs + [r], schema), Count(rs[0], schema), PageBag(rs[1..] + [r], schema), PageBag(rs[1..], schema),
          Count(r, schema));
    }
  }

  lemma {:induction false} PageBagUpdate(rs: seq<Text>, i: nat, r: Text, schema: Schema)
    requires i < |rs|
    ensures PageBag(rs[i := r], schema) + Count(rs[i], schema) == PageBag(rs, schema) + Count(r, schema)
    decreases |rs|
  {
    hide PageBag, Count;
    PageBagFirst(rs, rs[0], rs[1..], schema);
    if i == 0 {
      PageBagFirst(rs[i := r], r, rs[1..], schema);
      Replaced(Count(rs[0], schema), PageBag(rs[1..], schema), Count(r, schema));
    } else {
      PageBagUpdate(rs[1..], i - 1, r, schema);
      PageBagFirst(rs[i := r], rs[0], rs[1..][i - 1 := r], schema);
      Exchange(Count(rs[0], schema), PageBag(rs[1..][i - 1 := r], schema), Count(rs[i], schema),
          PageBag(rs[1..], schema), Count(r, schema));
    }
  }

  lemma {:induction false} TableBagAppend(t: Table, rs: seq<Text>, schema: Schema)
    ensures TableBag(t + [rs], schema) == TableBag(t, schema) + PageBag(rs, schema)
    decreases |t|
  {
    if t == [] {
      TableBagFirst(t + [rs], rs, [], schema);
    } else {
      TableBagAppend(t[1..], rs, schema);
      TableBagFirst(t + [rs], t[0], t[1..] + [rs], schema);
      Regroup(TableBag(t + [rs], schema), PageBag(t[0], schema), TableBag(t[1..] + [rs], schema),
          TableBag(t[1..], schema), PageBag(rs, schema));
    }
  }

  lemma {:induction false} TableBagUpdate(t: Table, p: nat, rs: seq<Text>, schema: Schema)
    requires p < |t|
    ensures TableBag(t[p := rs], schema) + PageBag(t[p], schema) == TableBag(t, schema) + PageBag(rs, schema)
    decreases |t|
  {
    hide TableBag, PageBag;
    TableBagFirst(t, t[0], t[1..], schema);
    if p == 0 {
      TableBagFirst(t[p := rs], rs, t[1..], schema);
      Replaced(PageBag(t[0], schema), TableBag(t[1..], schema), PageBag(rs, schema));
    } else {
      TableBagUpdate(t[1..], p - 1, rs, schema);
      TableBagFirst(t[p := rs], t[0], t[1..][p - 1 := rs], schema);
      Exchange(PageBag(t[0], schema), TableBag(t[1..][p - 1 := rs], schema), PageBag(t[p], schema),
          TableBag(t[1..], schema), PageBag(rs, schema));
    }
  }

  /** Adding a record adds its row to the bag, wherever it is put. */
  lemma AddBag(t: Table, n: nat, r: Text, schema: Schema)
    requires n <= |t|
    ensures TableBag(Add(t, n, r), schema) == TableBag(t, schema) + Count(r, schema)
  {
    if n == |t| {
      TableBagAppend(t, [r], schema);
      PageBagFirst([r], r, [], schema);
    } else {
      TableBagUpdate(t, n, t[n] + [r], schema);
      PageBagAppend(t[n], r, schema);
      Shifted(TableBag(Add(t, n, r), schema), PageBag(t[n], schema), TableBag(t, schema), PageBag(t[n] + [r], schema),
          Count(r, schema));
    }
  }

  /** Deleting a record takes its row out of the bag. */
  lemma ClearBag(t: Table, id: Tid, schema: Schema)
    requires InRange(t, id)
    ensures TableBag(Clear(t, id), schema) + Count(At(t, id), schema) == TableBag(t, schema)
  {
    var was := t[id.page];
    var now := was[id.slot := []];
    TableBagUpdate(t, id.page, now, schema);
    PageBagUpdate(was, id.slot, [], schema);
    Taken(TableBag(Clear(t, id), schema), PageBag(was, schema), TableBag(t, schema), PageBag(now, schema),
        Count(At(t, id), schema));
  }

  predicate AllInRange(t: Table, ids: seq<Tid>) { forall i :: 0 <= i < |ids| ==> InRange(t, ids[i]) }

  lemma ScanInRange(t: Table, p: nat, s: nat)
    ensures AllInRange(t, Scan(t, p, s))
  {
    forall i | 0 <= i < |Scan(t, p, s)|
      ensures InRange(t, Scan(t, p, s)[i])
    {
      ScanIsExact(t, p, s, Scan(t, p, s)[i]);
    }
  }

  lemma RowsFirst(t: Table, id: Tid, ids: seq<Tid>, schema: Schema)
    requires InRange(t, id) && AllInRange(t, ids)
    ensures AllInRange(t, [id] + ids)
    ensures multiset(RowsAt(t, [id] + ids, schema)) == multiset{DecodeRow(At(t, id), schema)} +
            multiset(RowsAt(t, ids, schema))
  {
    assert RowsAt(t, [id] + ids, schema) == [DecodeRow(At(t, id), schema)] + RowsAt(t, ids, schema);
  }

  lemma {:induction false} ScanRowsBag(t: Table, p: nat, s: nat, schema: Schema)
    requires p < |t| && s <= |t[p]| && AllInRange(t, Scan(t, p, s))
    ensures multiset(RowsAt(t, Scan(t, p, s), schema)) == PageBag(t[p][s..], schema) + TableBag(t[p + 1..], schema)
    decreases |t| - p, |t[p]| - s
  {
    if s == |t[p]| {
      if p + 1 < |t| {
        ScanRowsBag(t, p + 1, 0, schema);
        assert t[p + 1][0..] == t[p + 1] && t[p + 1..][1..] == t[p + 2..];
      }
    } else {
      ScanInRange(t, p, s + 1);
      ScanRowsBag(t, p, s + 1, schema);
      var rs := t[p][s..];
      assert rs[0] == t[p][s] && rs[1..] == t[p][s + 1..];
      assert PageBag(rs, schema) == Count(rs[0], schema) + PageBag(rs[1..], schema);
      if t[p][s] != [] { RowsFirst(t, Tid(p, s), Scan(t, p, s + 1), schema); }
    }
  }

  /** The rows a full scan visits are the rows of the table. */
  lemma ScanIsTable(t: Table, schema: Schema)
    ensures AllInRange(t, Scan(t, 0, 0))
    ensures multiset(RowsAt(t, Scan(t, 0, 0), schema)) == TableBag(t, schema)
  {
    ScanInRange(t, 0, 0);
    if t != [] {
      ScanRowsBag(t, 0, 0, schema);
      assert t[0][0..] == t[0];
    }
  }
}
