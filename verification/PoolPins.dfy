/** Pins: when eviction respects them, what clients that hold one pin at a time get, and scan resistance. */
module PoolPins {
  import opened Wrappers
  import opened Bytes
  import opened PageImages
  import opened Disks
  import opened PoolModel
  import opened PoolInvariant
  import opened PoolRuns
  import L = LruLists

  predicate Pinned(p: Pool, pid: PageId) {
    Cached(p, pid) && p.frames[p.table[pid]].pins > 0
  }

  // ----- a pinned page can lose its frame

  /** A fetch takes a pinned page's frame away exactly when it misses and the next victim is pinned. */
  lemma FetchEvictsPinnedIff(p: Pool, pid: PageId)
    requires Inv(p)
    ensures (exists id :: Pinned(p, id) && !Cached(FetchPage(p, pid).0, id)) <==> !Cached(p, pid) && !SafeVictim(p)
  {
    var q := FetchPage(p, pid).0;
    if !Cached(p, pid) && !SafeVictim(p) {
      var id := UnsafeVictim(p, pid);
      assert Pinned(p, id) && !Cached(q, id);
    }
    if Cached(p, pid) || SafeVictim(p) {
      forall id | Pinned(p, id)
        ensures Cached(q, id)
      {
        PinnedStays(p, pid, id);
      }
    }
  }

  lemma UnsafeVictim(p: Pool, pid: PageId) returns (id: PageId)
    requires Inv(p) && !Cached(p, pid) && !SafeVictim(p)
    ensures Pinned(p, id) && !Cached(FetchPage(p, pid).0, id)
  {
    id := VictimLost(p);
    VictimKeeps(p, {});
    LoadedOthers(FindVictim(p).0, FindVictim(p).1, pid, id);
  }

  /** An unsafe victim is a pinned page, and choosing it takes its frame away. */
  lemma VictimLost(p: Pool) returns (id: PageId)
    requires Inv(p) && !SafeVictim(p)
    ensures Pinned(p, id) && !Cached(FindVictim(p).0, id)
  {
    var o := p.lru.Order();
    var f := o[|o| - 1];
    FirstEmptyFinds(p.frames, 0);
    L.EvictTakesLast(p.lru);
    assert f in o && FrameOk(p, f);
    ReleaseKeeps(p, f, {});
    id := p.frames[f].pid;
  }

  /** NewPage takes a pinned page's frame away exactly when it allocates a page and the next victim is pinned. */
  lemma NewPageEvictsPinnedIff(p: Pool, file: u32)
    requires Inv(p)
    ensures (exists id :: Pinned(p, id) && !Cached(NewPage(p, file).0, id))
            <==> AllocatePage(p.disk, file).1.IsValid() && !SafeVictim(p)
  {
    var (d, pid) := AllocatePage(p.disk, file);
    var a := p.(disk := d);
    AllocateKeeps(p, file, {});
    if pid.IsValid() {
      AllocatedIsFresh(p, file);
      VictimKeeps(a, {});
      if !SafeVictim(p) {
        var id := VictimLost(a);
        FormattedOthers(FindVictim(a).0, FindVictim(a).1, pid, id);
        assert Pinned(p, id) && !Cached(NewPage(p, file).0, id);
      } else {
        forall id | Pinned(p, id)
          ensures Cached(NewPage(p, file).0, id)
        {
          FormattedOthers(FindVictim(a).0, FindVictim(a).1, pid, id);
          PinnedNotVictim(a, id);
        }
      }
    }
  }

  /** Formatting a new page in an empty frame neither caches nor uncaches any other page. */
  lemma FormattedOthers(q: Pool, v: Option<nat>, pid: PageId, id: PageId)
    requires Inv(q) && id != pid
    requires v.Some? ==> v.value < |q.frames| && q.frames[v.value].state.Empty?
    ensures Cached(FormatInto(q, v, pid).0, id) <==> Cached(q, id)
  {
    assert id in q.table ==> EntryOk(q, id);
  }

  /** A safe victim is not pinned, so a pinned page keeps its frame while one is chosen. */
  lemma PinnedNotVictim(p: Pool, id: PageId)
    requires Inv(p) && Pinned(p, id) && SafeVictim(p)
    ensures Cached(FindVictim(p).0, id)
  {
    FirstEmptyFinds(p.frames, 0);
    L.EvictTakesLast(p.lru);
    VictimCaches(p, id);
  }

  /** Loading a page into an empty frame neither caches nor uncaches any other page. */
  lemma LoadedOthers(q: Pool, v: Option<nat>, pid: PageId, id: PageId)
    requires Inv(q) && id != pid
    requires v.Some? ==> v.value < |q.frames| && q.frames[v.value].state.Empty?
    ensures Cached(LoadInto(q, v, pid).0, id) <==> Cached(q, id)
  {
    assert id in q.table ==> EntryOk(q, id);
  }

  lemma PinnedStays(p: Pool, pid: PageId, id: PageId)
    requires Inv(p) && Pinned(p, id) && (Cached(p, pid) || SafeVictim(p))
    ensures Cached(FetchPage(p, pid).0, id)
  {
    if !Cached(p, pid) {
      PinnedNotVictim(p, id);
      VictimKeeps(p, {});
      assert EntryOk(p, id);
      LoadedOthers(FindVictim(p).0, FindVictim(p).1, pid, id);
    }
  }

  const A := PageId(0, 0)
  const B := PageId(0, 1)

  /** One frame, one file of two pages: A is fetched, unpinned and fetched again, so A is pinned. */
  function PinnedTwice(blocks: Blocks): Pool
    requires |blocks| == 2
  {
    var p0 := Initial(1, 1, Disk(map[0 := blocks], 1));
    FetchPage(UnpinPage(FetchPage(p0, A).0, A, false).0, A).0
  }

  /** A hit does not take the frame off the replacer list, so fetching B then evicts the pinned page A. */
  lemma PinDoesNotPreventEviction(blocks: Blocks)
    requires |blocks| == 2
    ensures Pinned(PinnedTwice(blocks), A) && !Cached(FetchPage(PinnedTwice(blocks), B).0, A)
  {
    var d := Disk(map[0 := blocks], 1);
    var p0 := Initial(1, 1, d);
    var page := ReadDisk(d, A);
    var p1 := FetchPage(p0, A).0;
    assert FirstEmpty(p0.frames, 0) == Some(0);
    assert p1.frames == [Frame(page, A, 1, false, Ready)] && p1.lru == p0.lru && p1.table == map[A := 0];
    var p2 := UnpinPage(p1, A, false).0;
    assert p2.lru.young == [] && p2.lru.elder == [0];
    var p3 := FetchPage(p2, A).0;
    assert p3.frames == [Frame(page, A, 2 - 1, false, Ready)];
    assert p3.lru.Order() == [0] && p3.table == map[A := 0] && p3.disk == d;
    assert FirstEmpty(p3.frames, 1).None?;
    assert FirstEmpty(p3.frames, 0).None?;
  }

  // ----- one pin at a time

  predicate NoPins(p: Pool) {
    forall f :: 0 <= f < |p.frames| && p.frames[f].state.Ready? ==> p.frames[f].pins == 0
  }

  /** Page pid is in frame f with one pin, and nothing else is pinned. */
  predicate OnlyPin(p: Pool, pid: PageId, f: nat) {
    && Cached(p, pid) && p.table[pid] == f && p.frames[f].pins == 1
    && forall g :: 0 <= g < |p.frames| && p.frames[g].state.Ready? && g != f ==> p.frames[g].pins == 0
  }

  lemma NoPinsIsSafe(p: Pool)
    requires Inv(p) && NoPins(p)
    ensures SafeVictim(p) && (|p.frames| >= 1 ==> FindVictim(p).1.Some?)
  {
    var o := p.lru.Order();
    FirstEmptyFinds(p.frames, 0);
    if o != [] {
      assert o[|o| - 1] in o && FrameOk(p, o[|o| - 1]);
    }
    NoVictimIff(p);
    assert |p.frames| >= 1 && p.frames[0].state.Ready? ==> p.frames[0].pins == 0;
  }

  lemma OnlyPinFrom(p: Pool, q: Pool, pid: PageId, f: nat)
    requires NoPins(p) && |p.frames| == |q.frames| && Cached(q, pid) && q.table[pid] == f && q.frames[f].pins == 1
    requires forall g :: 0 <= g < |p.frames| && g != f ==> q.frames[g] == p.frames[g]
    ensures OnlyPin(q, pid, f)
  {
  }

  /** With no pin held and at least one frame, a fetch of an existing page succeeds. */
  lemma FetchAlone(p: Pool, pid: PageId)
    requires Inv(p) && NoPins(p) && |p.frames| >= 1 && OnDisk(p.disk, pid)
    ensures var (q, r) := FetchPage(p, pid);
            && r.Some? && OnlyPin(q, pid, r.value) && |q.frames| == |p.frames|
  {
    FetchFailsIff(p, pid);
    assert p.frames[0].state.Ready? ==> p.frames[0].pins == 0;
    FetchResult(p, pid);
    if Cached(p, pid) { assert EntryOk(p, pid); }
    OnlyPinFrom(p, FetchPage(p, pid).0, pid, FetchPage(p, pid).1.value);
  }

  /** It hands out the stored page and leaves every stored page as it was. */
  lemma FetchAloneView(p: Pool, pid: PageId)
    requires Inv(p) && Clean(p, {}) && NoPins(p) && |p.frames| >= 1 && OnDisk(p.disk, pid)
    ensures var (q, r) := FetchPage(p, pid);
            && Inv(q) && Clean(q, {}) && View(q) == View(p) && q.disk.nextFile == p.disk.nextFile
            && r.Some? && r.value < |q.frames| && q.frames[r.value].page == View(p)[pid.file][pid.num]
  {
    NoPinsIsSafe(p);
    FetchAlone(p, pid);
    FetchKeeps(p, pid, {});
    FetchKeepsNextFile(p, pid);
    ViewAt(p, pid);
    FetchReturnsStored(p, pid, {});
  }

  lemma NewPageAlone(p: Pool, file: FileId, pid: PageId)
    requires Inv(p) && NoPins(p) && |p.frames| >= 1
    requires file in p.disk.files && |p.disk.files[file]| < INVALID_ID && pid == PageId(file, |p.disk.files[file]|)
    ensures var (q, r) := NewPage(p, file);
            && r.Some? && r.value.0 == pid && OnlyPin(q, pid, r.value.1)
            && q.frames[r.value.1].page == FreshPage(pid) && |q.frames| == |p.frames|
  {
    var a := p.(disk := AllocatePage(p.disk, file).0);
    AllocateKeeps(p, file, {});
    NoPinsIsSafe(a);
    VictimKeeps(a, {});
    NewPageResult(p, file);
    OnlyPinFrom(p, NewPage(p, file).0, pid, NewPage(p, file).1.value.1);
  }

  lemma NewPageAloneView(p: Pool, file: FileId, pid: PageId)
    requires Inv(p) && Clean(p, {}) && NoPins(p) && |p.frames| >= 1
    requires file in p.disk.files && |p.disk.files[file]| < INVALID_ID && pid == PageId(file, |p.disk.files[file]|)
    ensures var q := NewPage(p, file).0;
            && Inv(q) && Clean(q, {}) && View(q) == AppendPage(View(p), file, FreshPage(pid))
            && q.disk.nextFile == p.disk.nextFile
  {
    NoPinsIsSafe(p);
    NewPageAlone(p, file, pid);
    NewPageKeeps(p, file, {});
    NewPageView(p, file, AllocatePage(p.disk, file).0, pid, {});
    NewKeepsNextFile(p, file);
  }

  lemma UnpinLast(p: Pool, pid: PageId, f: nat, dirty: bool, touched: set<PageId>)
    requires Inv(p) && OnlyPin(p, pid, f) && Clean(p, touched) && touched == if dirty then {pid} else {}
    ensures var (q, ok) := UnpinPage(p, pid, dirty);
            && ok && NoPins(q) && |q.frames| == |p.frames|
            && Inv(q) && Clean(q, {}) && View(q) == View(p) && q.disk == p.disk
  {
    UnpinKeeps(p, pid, dirty, touched);
    assert touched - {pid} == {};
  }

  lemma WriteThroughPin(p: Pool, pid: PageId, f: nat, page: PageImage)
    requires Inv(p) && Clean(p, {}) && OnlyPin(p, pid, f)
    ensures var q := WriteFrame(p, f, page);
            && OnlyPin(q, pid, f) && Inv(q) && Clean(q, {pid}) && View(q) == SetPage(View(p), pid, page)
            && |q.frames| == |p.frames| && q.disk == p.disk
  {
    WriteKeeps(p, pid, page, {});
    assert {} + {pid} == {pid};
  }

  // ----- scans do not push young pages out

  /** One page of a sequential scan: fetch it, read it, unpin it. */
  function ReadVisit(p: Pool, pid: PageId): Pool { UnpinPage(FetchPage(p, pid).0, pid, false).0 }

  function ScanPages(p: Pool, pids: seq<PageId>): Pool
    decreases |pids|
  {
    if pids == [] then p else ScanPages(ReadVisit(p, pids[0]), pids[1..])
  }

  lemma FullVictim(p: Pool, f: nat)
    requires Inv(p) && Full(p) && p.lru.elder != [] && f == p.lru.elder[|p.lru.elder| - 1]
    ensures FindVictim(p).1 == Some(f)
    ensures FindVictim(p).0.lru == p.lru.(elder := p.lru.elder[..|p.lru.elder| - 1])
  {
    FirstEmptyFinds(p.frames, 0);
    assert f in p.lru.Order();
  }

  /** The fetch of an uncached page in a full pool evicts the last old frame and does not list it yet. */
  lemma ScanFetch(p: Pool, pid: PageId, f: nat)
    requires Inv(p) && NoPins(p) && Full(p) && OnDisk(p.disk, pid) && !Cached(p, pid)
    requires p.lru.elder != [] && f == p.lru.elder[|p.lru.elder| - 1]
    ensures var (q, r) := FetchPage(p, pid);
            && r == Some(f) && f !in q.lru.Order() && Full(q)
            && q.lru == p.lru.(elder := p.lru.elder[..|p.lru.elder| - 1])
  {
    FullVictim(p, f);
    VictimKeeps(p, {});
    VictimCaches(p, pid);
    var (q, v) := FindVictim(p);
    assert FrameOk(q, f);
    L.PinKeeps(q.lru, f);
  }

  /** Reading an uncached page in a full pool turns over one old frame and no young one. */
  lemma VisitTurnsOverOld(p: Pool, pid: PageId, f: nat)
    requires Inv(p) && Clean(p, {}) && NoPins(p) && Full(p) && OnDisk(p.disk, pid) && !Cached(p, pid)
    requires 1 <= |p.lru.elder| <= p.lru.target && f == p.lru.elder[|p.lru.elder| - 1]
    ensures var q := ReadVisit(p, pid);
            && Inv(q) && Clean(q, {}) && NoPins(q) && Full(q) && View(q) == View(p)
            && q.lru == p.lru.(elder := [f] + p.lru.elder[..|p.lru.elder| - 1])
  {
    var q := FetchPage(p, pid).0;
    FrameCount(p, f);
    ScanFetch(p, pid, f);
    FetchAlone(p, pid);
    FetchAloneView(p, pid);
    UnpinLast(q, pid, f, false, {});
    UnpinEnters(q.lru, f);
  }

  lemma UnpinEnters(l: L.Lru, f: nat)
    requires f !in l.Order() && l.limbo == {} && |l.elder| < l.target
    ensures L.Unpin(l, f) == l.(elder := [f] + l.elder)
  {
  }

  lemma FrameCount(p: Pool, f: nat)
    requires Inv(p) && f in p.lru.elder
    ensures f < |p.frames|
  {
    assert f in p.lru.Order();
  }

  /** What a visit caches: the visited page, and whatever was cached in a frame other than the victim's. */
  lemma VisitCaches(p: Pool, pid: PageId, f: nat, id: PageId)
    requires Inv(p) && NoPins(p) && Full(p) && OnDisk(p.disk, pid) && !Cached(p, pid)
    requires p.lru.elder != [] && f == p.lru.elder[|p.lru.elder| - 1]
    ensures var q := ReadVisit(p, pid);
            && (Cached(q, id) && id != pid ==> Cached(p, id))
            && (Cached(p, id) && p.table[id] != f ==> Cached(q, id) && q.table[id] == p.table[id])
  {
    FullVictim(p, f);
    VictimKeeps(p, {});
    VictimCaches(p, id);
    FetchKeeps(p, pid, {});
    if id != pid { LoadedOthers(FindVictim(p).0, FindVictim(p).1, pid, id); }
  }

  /** The pages a scan still has to read: existing, pairwise different and not cached. */
  predicate Ahead(p: Pool, pids: seq<PageId>) {
    && (forall i :: 0 <= i < |pids| ==> OnDisk(p.disk, pids[i]) && !Cached(p, pids[i]))
    && (forall i, j :: 0 <= i < j < |pids| ==> pids[i] != pids[j])
  }

  lemma AheadAfterVisit(p: Pool, pids: seq<PageId>, f: nat)
    requires Inv(p) && Clean(p, {}) && NoPins(p) && Full(p) && pids != [] && Ahead(p, pids)
    requires 1 <= |p.lru.elder| <= p.lru.target && f == p.lru.elder[|p.lru.elder| - 1]
    ensures Ahead(ReadVisit(p, pids[0]), pids[1..])
  {
    var q := ReadVisit(p, pids[0]);
    VisitTurnsOverOld(p, pids[0], f);
    forall i | 1 <= i < |pids|
      ensures OnDisk(q.disk, pids[i]) && !Cached(q, pids[i])
    {
      VisitCaches(p, pids[0], f, pids[i]);
      ViewAt(p, pids[i]);
      ViewAt(q, pids[i]);
    }
  }

  /** A sequential scan of any length leaves every young page cached in its frame, and the young order as it was. */
  lemma {:induction false} ScanKeepsYoungPages(p: Pool, pids: seq<PageId>, id: PageId)
    requires Inv(p) && Clean(p, {}) && NoPins(p) && Full(p) && Ahead(p, pids)
    requires 1 <= |p.lru.elder| <= p.lru.target
    requires Cached(p, id) && p.table[id] in p.lru.young
    ensures var q := ScanPages(p, pids);
            && Inv(q) && Clean(q, {}) && NoPins(q) && View(q) == View(p)
            && q.lru.young == p.lru.young && Cached(q, id) && q.table[id] == p.table[id]
    decreases |pids|
  {
    if pids != [] {
      var f := p.lru.elder[|p.lru.elder| - 1];
      L.OnlyOnce(p.lru.young, p.lru.elder, f);
      VisitTurnsOverOld(p, pids[0], f);
      VisitCaches(p, pids[0], f, id);
      AheadAfterVisit(p, pids, f);
      ScanKeepsYoungPages(ReadVisit(p, pids[0]), pids[1..], id);
    }
  }
}
