/** A table as the sequence of its records with their TIDs, in scan order, and what insert, delete and update do to
    it. */
module TableListings {
  import opened Rows
  import opened HeapTables

  type Entry = (Tid, Text)

  /** The live records in scan order. */
  function Listing(t: Table): seq<Entry> {
    ScanInRange(t, 0, 0);
    var ids := Scan(t, 0, 0);
    seq(|ids|, i requires 0 <= i < |ids| => (ids[i], At(t, ids[i])))
  }

  predicate Rising(es: seq<Entry>) {
    forall i, j :: 0 <= i < j < |es| ==> Before(es[i].0, es[j].0)
  }

  lemma ListingIsExact(t: Table, e: Entry)
    ensures e in Listing(t) <==> Live(t, e.0) && At(t, e.0) == e.1
  {
    ScanInRange(t, 0, 0);
    ScanIsExact(t, 0, 0, e.0);
    var ids := Scan(t, 0, 0);
    if Live(t, e.0) && At(t, e.0) == e.1 {
      var i :| 0 <= i < |ids| && ids[i] == e.0;
      assert Listing(t)[i] == e;
    }
  }

  lemma ListingRises(t: Table)
    ensures Rising(Listing(t))
  {
    ScanAscends(t, 0, 0);
  }

  lemma SomeElement(es: seq<Entry>)
    ensures es != [] ==> exists e :: e in es
  {
    if es != [] { assert es[0] in es; }
  }

  /** A rising sequence is known by its elements. */
  lemma {:induction false} SameElements(es: seq<Entry>, fs: seq<Entry>)
    requires Rising(es) && Rising(fs) && forall e :: e in es <==> e in fs
    ensures es == fs
    decreases |es|
  {
    if es == [] {
      SomeElement(fs);
    } else {
      assert es[0] in es && es[0] in fs;
      var j :| 0 <= j < |fs| && fs[j] == es[0];
      assert fs[0] in fs && fs[0] in es;
      var i :| 0 <= i < |es| && es[i] == fs[0];
      assert i == 0 && j == 0;
      forall e ensures e in es[1..] <==> e in fs[1..] {
        if e in es[1..] {
          var k :| 1 <= k < |es| && es[k] == e;
          assert Before(es[0].0, e.0) && e in fs;
        }
        if e in fs[1..] {
          var k :| 1 <= k < |fs| && fs[k] == e;
          assert Before(fs[0].0, e.0) && e in es;
        }
      }
      SameElements(es[1..], fs[1..]);
      assert es == [es[0]] + es[1..] && fs == [fs[0]] + fs[1..];
    }
  }

  /** The sequence without the record of that TID. */
  function Without(es: seq<Entry>, id: Tid): seq<Entry> {
    if es == [] then [] else (if es[0].0 == id then [] else [es[0]]) + Without(es[1..], id)
  }

  /** The sequence with one record more, before the first that lies behind it. */
  function Placed(es: seq<Entry>, e: Entry): seq<Entry> {
    if es == [] || Before(e.0, es[0].0) then [e] + es else [es[0]] + Placed(es[1..], e)
  }

  lemma {:induction false} WithoutIs(es: seq<Entry>, id: Tid, e: Entry)
    ensures e in Without(es, id) <==> e in es && e.0 != id
  {
    if es != [] {
      WithoutIs(es[1..], id, e);
      assert es == [es[0]] + es[1..];
    }
  }

  lemma {:induction false} WithoutRises(es: seq<Entry>, id: Tid)
    requires Rising(es)
    ensures Rising(Without(es, id))
  {
    if es != [] {
      var rest := Without(es[1..], id);
      WithoutRises(es[1..], id);
      forall j | 0 <= j < |rest|
        ensures Before(es[0].0, rest[j].0)
      {
        WithoutIs(es[1..], id, rest[j]);
      }
    }
  }

  lemma {:induction false} PlacedIs(es: seq<Entry>, e: Entry, f: Entry)
    ensures f in Placed(es, e) <==> f in es || f == e
  {
    if es != [] && !Before(e.0, es[0].0) {
      PlacedIs(es[1..], e, f);
      assert es == [es[0]] + es[1..];
    }
  }

  lemma {:induction false} PlacedRises(es: seq<Entry>, e: Entry)
    requires Rising(es) && forall i :: 0 <= i < |es| ==> es[i].0 != e.0
    ensures Rising(Placed(es, e))
  {
    if es != [] && !Before(e.0, es[0].0) {
      var rest := Placed(es[1..], e);
      PlacedRises(es[1..], e);
      forall j | 0 <= j < |rest|
        ensures Before(es[0].0, rest[j].0)
      {
        PlacedIs(es[1..], e, rest[j]);
      }
    }
  }

  /** Behind all others, the new record is appended. */
  lemma {:induction false} PlacedLast(es: seq<Entry>, e: Entry)
    requires forall i :: 0 <= i < |es| ==> Before(es[i].0, e.0)
    ensures Placed(es, e) == es + [e]
  {
    if es != [] {
      PlacedLast(es[1..], e);
      assert es == [es[0]] + es[1..];
    }
  }

  // ----- the operations

  lemma AddedIsNew(t: Table, n: nat)
    requires n <= |t|
    ensures !InRange(t, Added(t, n))
  {
  }

  lemma AddLive(t: Table, n: nat, r: Text, id: Tid)
    requires n <= |t| && r != []
    ensures Live(Add(t, n, r), id) <==> Live(t, id) || id == Added(t, n)
    ensures Live(t, id) ==> At(Add(t, n, r), id) == At(t, id)
    ensures At(Add(t, n, r), Added(t, n)) == r
  {
  }

  /** Adding a record puts it where its TID belongs in the scan and changes nothing else. */
  lemma AddListing(t: Table, n: nat, r: Text)
    requires n <= |t| && r != []
    ensures Listing(Add(t, n, r)) == Placed(Listing(t), (Added(t, n), r))
  {
    hide Listing, Add, Added, Placed, Rising, Live, At;
    var e := (Added(t, n), r);
    AddedIsNew(t, n);
    forall f ensures f in Listing(Add(t, n, r)) <==> f in Placed(Listing(t), e) {
      ListingIsExact(Add(t, n, r), f);
      ListingIsExact(t, f);
      AddLive(t, n, r, f.0);
      PlacedIs(Listing(t), e, f);
    }
    forall i | 0 <= i < |Listing(t)| ensures Listing(t)[i].0 != e.0 { NotListed(t, e.0, Listing(t)[i]); }
    ListingRises(t);
    ListingRises(Add(t, n, r));
    PlacedRises(Listing(t), e);
    SameElements(Listing(Add(t, n, r)), Placed(Listing(t), e));
  }

  lemma NotListed(t: Table, id: Tid, f: Entry)
    requires !InRange(t, id) && f in Listing(t)
    ensures f.0 != id
  {
    hide Listing;
    ListingIsExact(t, f);
  }

  /** On the last page or a new one, where inserts go, that is at the end. */
  lemma AppendListing(t: Table, n: nat, r: Text)
    requires |t| - 1 <= n <= |t| && r != []
    ensures Listing(Add(t, n, r)) == Listing(t) + [(Added(t, n), r)]
  {
    hide Listing, Add;
    AddListing(t, n, r);
    forall i | 0 <= i < |Listing(t)|
      ensures Before(Listing(t)[i].0, Added(t, n))
    {
      ListingIsExact(t, Listing(t)[i]);
    }
    PlacedLast(Listing(t), (Added(t, n), r));
  }

  lemma ClearLive(t: Table, id: Tid, other: Tid)
    requires InRange(t, id)
    ensures Live(Clear(t, id), other) <==> Live(t, other) && other != id
    ensures Live(t, other) && other != id ==> At(Clear(t, id), other) == At(t, other)
  {
  }

  /** Clearing a record takes exactly that one out of the scan. */
  lemma ClearListing(t: Table, id: Tid)
    requires InRange(t, id)
    ensures Listing(Clear(t, id)) == Without(Listing(t), id)
  {
    hide Listing, Clear, Without, Rising, Live, At;
    forall f ensures f in Listing(Clear(t, id)) <==> f in Without(Listing(t), id) {
      ListingIsExact(Clear(t, id), f);
      ListingIsExact(t, f);
      ClearLive(t, id, f.0);
      WithoutIs(Listing(t), id, f);
    }
    ListingRises(t);
    ListingRises(Clear(t, id));
    WithoutRises(Listing(t), id);
    SameElements(Listing(Clear(t, id)), Without(Listing(t), id));
  }

  /** Nothing is taken out for a TID that names no live record. */
  lemma NothingToClear(t: Table, id: Tid)
    requires !Live(t, id)
    ensures Without(Listing(t), id) == Listing(t)
  {
    hide Listing, Without, Live;
    forall i | 0 <= i < |Listing(t)|
      ensures Listing(t)[i].0 != id
    {
      ListingIsExact(t, Listing(t)[i]);
    }
    WithoutNone(Listing(t), id);
  }

  lemma {:induction false} WithoutNone(es: seq<Entry>, id: Tid)
    requires forall i :: 0 <= i < |es| ==> es[i].0 != id
    ensures Without(es, id) == es
  {
    if es != [] {
      WithoutNone(es[1..], id);
      assert es == [es[0]] + es[1..];
    }
  }

  /** An update takes the old record out and puts the new one where its TID belongs. */
  lemma UpdateListing(t: Table, n: nat, r: Text, id: Tid)
    requires n <= |t| && r != [] && InRange(t, id)
    ensures Listing(Rewritten(t, n, r, id)) == Without(Placed(Listing(t), (Added(t, n), r)), id)
  {
    hide Listing, Add, Clear, Added, Placed, Without;
    AddKeeps(t, n, r, id);
    AddListing(t, n, r);
    ClearListing(Add(t, n, r), id);
  }

  /** An empty page more is no record more. */
  lemma EmptyPageListing(t: Table)
    ensures Listing(t + [[]]) == Listing(t)
  {
    hide Listing, Rising;
    forall f ensures f in Listing(t + [[]]) <==> f in Listing(t) {
      ListingIsExact(t + [[]], f);
      ListingIsExact(t, f);
    }
    ListingRises(t);
    ListingRises(t + [[]]);
    SameElements(Listing(t + [[]]), Listing(t));
  }
}
