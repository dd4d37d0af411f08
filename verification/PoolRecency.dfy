/** Recency: what a hit, a miss and an unpin do to the order in which frames are given up, and that pages get young. */
module PoolRecency {
  import opened Wrappers
  import opened Bytes
  import opened PageImages
  import opened Disks
  import opened PoolModel
  import opened PoolInvariant
  import opened PoolRuns
  import opened PoolPins
  import L = LruLists

  // ----- the order of eviction

  /** The frames around a listed one. */
  lemma Around(p: Pool, f: nat) returns (before: seq<nat>, after: seq<nat>)
    requires f in p.lru.Order()
    ensures p.lru.Order() == before + [f] + after
  {
    var o := p.lru.Order();
    var k :| 0 <= k < |o| && o[k] == f;
    before, after := o[..k], o[k + 1..];
  }

  /** Around a listed frame, taking it to the front leaves the others in order. */
  lemma ToFront(l: L.Lru, f: nat, before: seq<nat>, after: seq<nat>)
    requires L.Wf(l) && l.Order() == before + [f] + after
    ensures L.Access(l, f).Order() == [f] + before + after
  {
    hide L.Access;
    assert l.Order()[|before|] == f;
    L.AccessMovesToFront(l, f);
    L.RemoveAt(l.Order(), |before|);
    assert l.Order()[..|before|] == before && l.Order()[|before| + 1..] == after;
    assert [f] + (before + after) == [f] + before + after;
  }

  lemma HitIs(p: Pool, pid: PageId)
    requires Cached(p, pid)
    ensures FetchPage(p, pid).0.lru == L.Access(p.lru, p.table[pid]) && FetchPage(p, pid).1 == Some(p.table[pid])
  {
    hide L.Access;
  }

  /** A hit makes the frame of the page the most recently used one, and all others keep their order. */
  lemma HitRefreshes(p: Pool, pid: PageId) returns (before: seq<nat>, after: seq<nat>)
    requires Inv(p) && Cached(p, pid) && p.table[pid] in p.lru.Order()
    ensures var f := p.table[pid];
            && p.lru.Order() == before + [f] + after && FetchPage(p, pid).0.lru.Order() == [f] + before + after
            && FetchPage(p, pid).1 == Some(f)
  {
    hide FetchPage, L.Access, FrameOk, EntryOk;
    before, after := Around(p, p.table[pid]);
    ToFront(p.lru, p.table[pid], before, after);
    HitIs(p, pid);
  }

  /** A full pool gives up the last frame of the order. */
  lemma VictimIsLast(p: Pool)
    requires Inv(p) && Full(p) && p.lru.Order() != []
    ensures var (o, q) := (p.lru.Order(), FindVictim(p).0);
            && FindVictim(p).1 == Some(o[|o| - 1]) && q.lru.Order() == o[..|o| - 1] && o[|o| - 1] !in q.lru.Order()
  {
    hide EntryOk, Cached, L.Evict, Release;
    var o := p.lru.Order();
    var last := o[|o| - 1];
    FirstEmptyFinds(p.frames, 0);
    L.EvictTakesLast(p.lru);
    L.EvictKeeps(p.lru);
    assert last in o;
    ReleaseIs(p.(lru := L.Evict(p.lru).0), last);
  }

  lemma ReleaseIs(p: Pool, f: nat)
    requires f < |p.frames|
    ensures Release(p, f).lru == p.lru
  {
  }

  /** A miss in a full pool gives up the least recently used frame, and every other page stays where it is. */
  lemma MissTakesLast(p: Pool, pid: PageId)
    requires Inv(p) && Full(p) && !Cached(p, pid) && OnDisk(p.disk, pid) && p.lru.Order() != []
    ensures var (o, q) := (p.lru.Order(), FetchPage(p, pid).0);
            var last := o[|o| - 1];
            && FetchPage(p, pid).1 == Some(last) && q.lru.Order() == o[..|o| - 1]
            && forall id :: Cached(p, id) && p.table[id] != last ==> Cached(q, id) && q.table[id] == p.table[id]
  {
    hide FindVictim, Inv, L.Pin, FetchPage;
    var o := p.lru.Order();
    var last := o[|o| - 1];
    VictimIsLast(p);
    VictimKeeps(p, {});
    var (q, v) := FindVictim(p);
    FetchMiss(p, pid);
    LoadedOrder(q, last);
    forall id | Cached(p, id) && p.table[id] != last
      ensures Cached(FetchPage(p, pid).0, id) && FetchPage(p, pid).0.table[id] == p.table[id]
    {
      VictimCaches(p, id);
      LoadedOthers(q, v, pid, id);
    }
  }

  /** A miss while a frame is empty gives up nothing: every page stays in its frame, the order and the disk stay as
      they are, and the page goes to the first empty frame. */
  lemma MissWithRoom(p: Pool, pid: PageId)
    requires Inv(p) && !Full(p) && !Cached(p, pid) && OnDisk(p.disk, pid)
    ensures var (q, f) := FetchPage(p, pid);
            && f.Some? && f.value < |p.frames| && p.frames[f.value].state.Empty?
            && (forall g :: 0 <= g < f.value ==> !p.frames[g].state.Empty?)
            && (forall id :: id in p.table ==> id in q.table && q.table[id] == p.table[id] != f.value)
            && (forall g :: 0 <= g < |p.frames| && g != f.value ==> q.frames[g] == p.frames[g])
            && q.lru == p.lru && q.disk == p.disk
  {
    var g :| 0 <= g < |p.frames| && !p.frames[g].state.Ready?;
    assert FrameOk(p, g);
    FirstEmptyFinds(p.frames, 0);
    FirstEmptyIsFirst(p.frames, 0);
    var f := FirstEmpty(p.frames, 0).value;
    assert FrameOk(p, f);
    LoadedOrder(p, f);
    FetchMiss(p, pid);
    forall id | id in p.table ensures p.table[id] != f && id != pid { assert EntryOk(p, id); }
  }

  lemma {:induction false} FirstEmptyIsFirst(frames: seq<Frame>, i: nat)
    requires i <= |frames|
    ensures var r := FirstEmpty(frames, i);
            r.Some? ==> i <= r.value < |frames| && forall g :: i <= g < r.value ==> !frames[g].state.Empty?
    decreases |frames| - i
  {
    if i < |frames| { FirstEmptyIsFirst(frames, i + 1); }
  }

  lemma LoadedOrder(q: Pool, f: nat)
    requires Inv(q) && f !in q.lru.Order()
    ensures L.Pin(q.lru, f) == q.lru
  {
    L.PinKeeps(q.lru, f);
  }

  /** So the page that was just hit survives the next miss while another frame is listed. */
  lemma HitSurvivesMiss(p: Pool, pid: PageId, next: PageId)
    requires Inv(p) && Full(p) && Cached(p, pid) && p.table[pid] in p.lru.Order() && |p.lru.Order()| >= 2
    requires !Cached(FetchPage(p, pid).0, next) && OnDisk(p.disk, next)
    ensures Cached(FetchPage(FetchPage(p, pid).0, next).0, pid)
  {
    var f := p.table[pid];
    var q := FetchPage(p, pid).0;
    var before, after := HitRefreshes(p, pid);
    FetchKeeps(p, pid, {});
    var o := q.lru.Order();
    assert |o| >= 2 && o[0] == f;
    assert o[|o| - 1] != f;
    MissTakesLast(q, next);
  }

  /** The last unpin lists the frame behind the young frames; any other one leaves the order as it is. */
  lemma UnpinLists(p: Pool, pid: PageId, dirty: bool)
    requires Inv(p) && Cached(p, pid) && p.frames[p.table[pid]].pins > 0
    ensures var (f, q) := (p.table[pid], UnpinPage(p, pid, dirty).0);
            q.lru.Order() == if p.frames[f].pins == 1 && f !in p.lru.Order() then p.lru.young + [f] + p.lru.elder
                             else p.lru.Order()
  {
    var f := p.table[pid];
    if f !in p.lru.Order() { L.UnpinEntersAtMidpoint(p.lru, f); }
  }

  // ----- pins

  function Pins(p: Pool, id: PageId): nat { if Cached(p, id) then p.frames[p.table[id]].pins else 0 }

  /** What one operation does to the pins of a page that has some. */
  function PinChange(op: Op, id: PageId, pins: nat): int {
    match op
    case Fetch(pid) => if pid == id then 1 else 0
    case Unpin(pid, _) => if pid == id && pins > 0 then -1 else 0
    case _ => 0
  }

  /** A page that stays cached gains a pin with every fetch and loses one with every unpin, down to none; a page that
      comes in has one pin. */
  lemma PinBalance(p: Pool, touched: set<PageId>, op: Op, id: PageId)
    requires Inv(p) && Legal(p, touched, op)
    ensures var q := Step(p, touched, op);
            && (Cached(p, id) && Cached(q, id) ==> Pins(q, id) == Pins(p, id) + PinChange(op, id, Pins(p, id)))
            && (!Cached(p, id) && Cached(q, id) ==>
                  Pins(q, id) == 1 && (op == Fetch(id) || (op.New? && op.file == id.file)))
  {
    match op
    case Fetch(pid) => FetchPins(p, pid, id);
    case New(file) => NewPins(p, file, id);
    case FlushEverything => FlushPins(p, |p.frames|, id);
    case _ => if id in p.table { assert EntryOk(p, id); }
  }

  lemma VictimPins(p: Pool, id: PageId)
    requires Inv(p)
    ensures var q := FindVictim(p).0; Cached(q, id) ==> Cached(p, id) && Pins(q, id) == Pins(p, id)
  {
    VictimCaches(p, id);
    VictimKeeps(p, {});
  }

  lemma FetchPins(p: Pool, pid: PageId, id: PageId)
    requires Inv(p)
    ensures var q := FetchPage(p, pid).0;
            && (Cached(p, id) && Cached(q, id) ==> Pins(q, id) == Pins(p, id) + if pid == id then 1 else 0)
            && (!Cached(p, id) && Cached(q, id) ==> Pins(q, id) == 1 && pid == id)
  {
    if Cached(p, pid) {
      assert EntryOk(p, pid);
      if id in p.table { assert EntryOk(p, id); }
    } else {
      var (q, v) := FindVictim(p);
      VictimKeeps(p, {});
      VictimPins(p, id);
      if id in q.table { assert EntryOk(q, id); }
    }
  }

  lemma NewPins(p: Pool, file: FileId, id: PageId)
    requires Inv(p)
    ensures var q := NewPage(p, file).0;
            && (Cached(p, id) && Cached(q, id) ==> Pins(q, id) == Pins(p, id))
            && (!Cached(p, id) && Cached(q, id) ==> Pins(q, id) == 1 && file == id.file)
  {
    var (d, pid) := AllocatePage(p.disk, file);
    AllocateKeeps(p, file, {});
    if pid.IsValid() {
      var a := p.(disk := d);
      AllocatedIsFresh(p, file);
      VictimKeeps(a, {});
      VictimPins(a, id);
      var q := FindVictim(a).0;
      if id in q.table { assert EntryOk(q, id); }
    }
  }

  lemma {:induction false} FlushPins(p: Pool, n: nat, id: PageId)
    requires n <= |p.frames|
    ensures Cached(FlushUpTo(p, n), id) <==> Cached(p, id)
    ensures Pins(FlushUpTo(p, n), id) == Pins(p, id) && |FlushUpTo(p, n).frames| == |p.frames|
    ensures FlushUpTo(p, n).table == p.table
    decreases n
  {
    if n > 0 { FlushPins(p, n - 1, id); }
  }

  // ----- young pages

  /** A hit makes the frame young exactly when the old sublist without it is within its share. */
  lemma HitMakesYoungIff(p: Pool, pid: PageId)
    requires Inv(p) && Cached(p, pid) && p.table[pid] in p.lru.Order()
    ensures var f := p.table[pid];
            f in FetchPage(p, pid).0.lru.young <==> f in p.lru.young || |p.lru.elder| <= p.lru.target + 1
  {
    var f := p.table[pid];
    if f in p.lru.elder {
      L.OnlyOnce(p.lru.young, p.lru.elder, f);
      var k :| 0 <= k < |p.lru.elder| && p.lru.elder[k] == f;
      L.DistinctPart(p.lru.young, p.lru.elder);
      L.RemoveAt(p.lru.elder, k);
      var m := p.lru.(young := [f] + p.lru.young, elder := L.Remove(p.lru.elder, f));
      L.RebalanceMovesMidpoint(m);
      L.RebalanceDemotesAll(m);
    }
  }

  // ----- young pages are reached

  /** Fetch a page, let it go, and do so once more. */
  function Twice(pid: PageId): seq<Op> { [Fetch(pid), Unpin(pid, false), Fetch(pid), Unpin(pid, false)] }

  lemma {:induction false} RunThen(p: Pool, touched: set<PageId>, ops: seq<Op>, more: seq<Op>)
    requires LegalRun(p, touched, ops)
    requires LegalRun(Run(p, touched, ops).0, Run(p, touched, ops).1, more)
    ensures LegalRun(p, touched, ops + more)
    ensures Run(p, touched, ops + more) == Run(Run(p, touched, ops).0, Run(p, touched, ops).1, more)
    decreases |ops|
  {
    if ops == [] {
      assert ops + more == more;
    } else {
      assert (ops + more)[0] == ops[0] && (ops + more)[1..] == ops[1..] + more;
      RunThen(Step(p, touched, ops[0]), Touched(touched, ops[0]), ops[1..], more);
    }
  }

  lemma OneStep(p: Pool, touched: set<PageId>, op: Op)
    requires Legal(p, touched, op)
    ensures LegalRun(p, touched, [op]) && Run(p, touched, [op]) == (Step(p, touched, op), Touched(touched, op))
  {
    assert [op][1..] == [];
  }

  lemma FirstEmptyIs(frames: seq<Frame>, i: nat, f: nat)
    requires i <= f < |frames| && frames[f].state.Empty? && forall g :: i <= g < f ==> !frames[g].state.Empty?
    ensures FirstEmpty(frames, i) == Some(f)
    decreases f - i
  {
  }

  /** What fetching an uncached page into an empty frame and letting it go makes of the pool. */
  lemma VisitFresh(p: Pool, pid: PageId, f: nat)
    requires Inv(p) && OnDisk(p.disk, pid) && !Cached(p, pid) && p.lru.elder == []
    requires f < |p.frames| && p.frames[f].state.Empty? && forall g :: 0 <= g < f ==> !p.frames[g].state.Empty?
    ensures LegalRun(p, {}, [Fetch(pid), Unpin(pid, false)])
    ensures Run(p, {}, [Fetch(pid), Unpin(pid, false)]).1 == {}
    ensures var q := Run(p, {}, [Fetch(pid), Unpin(pid, false)]).0;
            && q.frames == p.frames[f := Frame(ReadDisk(p.disk, pid), pid, 0, false, Ready)]
            && q.table == p.table[pid := f] && q.disk == p.disk && q.lru == p.lru.(elder := [f])
  {
    FirstEmptyIs(p.frames, 0, f);
    assert FrameOk(p, f);
    LoadedOrder(p, f);
    var q := FetchPage(p, pid).0;
    assert q == p.(frames := p.frames[f := Frame(ReadDisk(p.disk, pid), pid, 1, false, Ready)],
                   table := p.table[pid := f]);
    OneStep(p, {}, Fetch(pid));
    OneStep(q, {}, Unpin(pid, false));
    RunThen(p, {}, [Fetch(pid)], [Unpin(pid, false)]);
    assert [Fetch(pid)] + [Unpin(pid, false)] == [Fetch(pid), Unpin(pid, false)];
    assert {} - {pid} == {};
    UnpinEnters(p.lru, f);
  }

  /** Fetching it again while it is the only old frame makes it young. */
  lemma VisitAgain(p: Pool, pid: PageId, f: nat)
    requires Inv(p) && Cached(p, pid) && p.table[pid] == f && p.frames[f].pins == 0 && p.lru.elder == [f]
    ensures LegalRun(p, {}, [Fetch(pid), Unpin(pid, false)])
    ensures Run(p, {}, [Fetch(pid), Unpin(pid, false)])
            == (p.(lru := p.lru.(young := [f] + p.lru.young, elder := [])), {})
  {
    var l := p.lru.(young := [f] + p.lru.young, elder := []);
    assert p.lru.elder[0] == f && f in p.lru.Order();
    assert L.Access(p.lru, f) == l by { assert L.Remove([f], f) == []; }
    var q := FetchPage(p, pid).0;
    assert q == p.(frames := p.frames[f := p.frames[f].(pins := 1)], lru := l);
    assert f in l.Order() by { assert l.Order()[0] == f; }
    OneStep(p, {}, Fetch(pid));
    OneStep(q, {}, Unpin(pid, false));
    RunThen(p, {}, [Fetch(pid)], [Unpin(pid, false)]);
    assert [Fetch(pid)] + [Unpin(pid, false)] == [Fetch(pid), Unpin(pid, false)];
    assert {} - {pid} == {};
    assert q.frames[f := q.frames[f].(pins := 0)] == p.frames;
  }

  /** In every pool, whatever its size and target: the first page that is fetched twice gets young. */
  lemma YoungIsReached(size: nat, target: nat, disk: Disk, pid: PageId)
    requires size >= 1 && target >= 1 && DiskOk(disk) && OnDisk(disk, pid)
    ensures var p := Initial(size, target, disk);
            && LegalRun(p, {}, Twice(pid)) && Run(p, {}, Twice(pid)).1 == {}
            && var q := Run(p, {}, Twice(pid)).0;
               && q.frames == p.frames[0 := Frame(ReadDisk(disk, pid), pid, 0, false, Ready)]
               && q.table == map[pid := 0] && q.lru == L.Lru([0], [], {}, target) && q.disk == disk
  {
    hide FetchPage, UnpinPage, Inv, Clean, View, DiskOk;
    var p, visit := Initial(size, target, disk), [Fetch(pid), Unpin(pid, false)];
    InitialOk(size, target, disk);
    VisitFresh(p, pid, 0);
    var q := Run(p, {}, visit).0;
    RunRefines(p, {}, visit);
    VisitAgain(q, pid, 0);
    RunThen(p, {}, visit, visit);
    assert visit + visit == Twice(pid);
  }

  /** So scan resistance speaks of pools that are reached: here is one that meets every condition it has. */
  lemma ScanStartIsReached(disk: Disk, a: PageId, b: PageId)
    requires DiskOk(disk) && OnDisk(disk, a) && OnDisk(disk, b) && a != b
    ensures var p, ops := Initial(2, 1, disk), Twice(a) + [Fetch(b), Unpin(b, false)];
            && LegalRun(p, {}, ops)
            && var q := Run(p, {}, ops).0;
               && Inv(q) && Clean(q, {}) && NoPins(q) && Full(q) && 1 <= |q.lru.elder| <= q.lru.target
               && Cached(q, a) && q.table[a] in q.lru.young
  {
    hide FetchPage, UnpinPage, View, DiskOk, Step, Run, LegalRun, Inv, Clean, OnDisk, StoreRun, MadeInRun, Abstract,
         ReadDisk;
    var p, visit := Initial(2, 1, disk), [Fetch(b), Unpin(b, false)];
    YoungIsReached(2, 1, disk, a);
    InitialOk(2, 1, disk);
    RunRefines(p, {}, Twice(a));
    var q := Run(p, {}, Twice(a)).0;
    VisitFresh(q, b, 1);
    RunRefines(q, {}, visit);
    RunThen(p, {}, Twice(a), visit);
    var r := Run(q, {}, visit).0;
    assert r.frames[0].pid == a && r.table[a] == 0 && r.lru == L.Lru([0], [1], {}, 1);
  }
}
