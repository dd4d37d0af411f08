/**
 * Clients that hold at most one pin at a time, a discipline stated on their operations and the plain store
 * alone: every run under it goes through a pool of any size as it goes on the plain store, answers included.
 */
module PoolDiscipline {
  import opened Wrappers
  import opened Bytes
  import opened PageImages
  import opened Disks
  import opened PoolModel
  import opened PoolInvariant
  import opened PoolRuns
  import opened PoolPins

  // ----- the discipline

  /** The page the client holds, and whether it has written to it since it got it. */
  datatype Hold = Free | Held(pid: PageId, written: bool)

  /** No Fetch, New or Drop while a page is held; writes go to the held page; a page written to is unpinned as
      dirty. Fetch names a page of an open file and Open has a file id left. */
  predicate Allowed(t: PlainStore, h: Hold, op: Op) {
    match op
    case Fetch(pid) => h.Free? && pid.file in t.files
    case New(_) => h.Free?
    case Write(pid, _) => h.Held? && h.pid == pid
    case Unpin(pid, dirty) => h.Held? && h.pid == pid && (h.written ==> dirty)
    case Open(_) => t.nextFile < INVALID_ID
    case Drop(_) => h.Free?
    case Flush(_) => true
    case FlushEverything => true
  }

  predicate HasRoom(t: PlainStore, file: FileId) { file in t.files && |t.files[file]| < INVALID_ID }

  /** What the client holds after an operation, said of the plain store. */
  function HoldAfter(t: PlainStore, h: Hold, op: Op): Hold {
    match op
    case Fetch(pid) => if Stored(t.files, pid) then Held(pid, false) else Free
    case New(file) => if HasRoom(t, file) then Held(PageId(file, |t.files[file]|), false) else Free
    case Write(pid, _) => Held(pid, true)
    case Unpin(_, _) => Free
    case _ => h
  }

  predicate Disciplined(t: PlainStore, h: Hold, ops: seq<Op>)
    decreases |ops|
  {
    ops == [] ||
    (Allowed(t, h, ops[0]) && Disciplined(StoreStep(t, ops[0], true), HoldAfter(t, h, ops[0]), ops[1..]))
  }

  // ----- runs of the plain store, with what the client is told

  /** What a client is handed: a page with its id and contents, or nothing. */
  datatype Answer = Nothing | Page(pid: PageId, page: PageImage)

  function StoreAnswer(t: PlainStore, op: Op): Answer {
    match op
    case Fetch(pid) => if Stored(t.files, pid) then Page(pid, t.files[pid.file][pid.num]) else Nothing
    case New(file) =>
      if HasRoom(t, file) then
        var pid := PageId(file, |t.files[file]|);
        Page(pid, FreshPage(pid))
      else Nothing
    case _ => Nothing
  }

  function PoolAnswer(p: Pool, op: Op): Answer {
    match op
    case Fetch(pid) =>
      var (q, r) := FetchPage(p, pid);
      if r.Some? && r.value < |q.frames| then Page(pid, q.frames[r.value].page) else Nothing
    case New(file) =>
      var (q, r) := NewPage(p, file);
      if r.Some? && r.value.1 < |q.frames| then Page(r.value.0, q.frames[r.value.1].page) else Nothing
    case _ => Nothing
  }

  /** The run on the plain store, where every New succeeds: final store, final hold and the answers in order. */
  function PlainRun(t: PlainStore, h: Hold, ops: seq<Op>): (PlainStore, Hold, seq<Answer>)
    decreases |ops|
  {
    if ops == [] then (t, h, [])
    else
      var (u, k, answers) := PlainRun(StoreStep(t, ops[0], true), HoldAfter(t, h, ops[0]), ops[1..]);
      (u, k, [StoreAnswer(t, ops[0])] + answers)
  }

  function PoolAnswers(p: Pool, touched: set<PageId>, ops: seq<Op>): seq<Answer>
    requires LegalRun(p, touched, ops)
    decreases |ops|
  {
    if ops == [] then []
    else [PoolAnswer(p, ops[0])] + PoolAnswers(Step(p, touched, ops[0]), Touched(touched, ops[0]), ops[1..])
  }

  // ----- what the discipline keeps in the pool

  /** The pool of a client with hold h: nothing is pinned but the held page, once, and only it may be unclean. */
  predicate Agrees(p: Pool, touched: set<PageId>, h: Hold) {
    && Inv(p) && Clean(p, touched) && |p.frames| >= 1
    && match h {
         case Free => NoPins(p) && touched == {}
         case Held(pid, written) =>
           pid in p.table && OnlyPin(p, pid, p.table[pid]) && touched == if written then {pid} else {}
       }
  }

  /** From p to q no pin, page or frame changed place; dirty flags and disk copies may differ. */
  predicate SamePins(p: Pool, q: Pool) {
    && p.table == q.table && |p.frames| == |q.frames|
    && forall f :: 0 <= f < |p.frames| ==> q.frames[f] == p.frames[f].(dirty := q.frames[f].dirty)
  }

  lemma SamePinsAgree(p: Pool, q: Pool, touched: set<PageId>, h: Hold)
    requires Agrees(p, touched, h) && SamePins(p, q) && Inv(q) && Clean(q, touched)
    ensures Agrees(q, touched, h)
  {
  }

  lemma {:induction false} FlushKeepsPins(p: Pool, n: nat)
    requires n <= |p.frames|
    ensures SamePins(p, FlushUpTo(p, n))
    decreases n
  {
    if n > 0 {
      FlushKeepsPins(p, n - 1);
    }
  }

  lemma FetchAllowed(p: Pool, pid: PageId)
    requires Agrees(p, {}, Free) && pid.file in View(p)
    ensures var q := FetchPage(p, pid).0;
            && Agrees(q, {}, HoldAfter(Abstract(p), Free, Fetch(pid)))
            && PoolAnswer(p, Fetch(pid)) == StoreAnswer(Abstract(p), Fetch(pid))
  {
    ViewAt(p, pid);
    FetchResult(p, pid);
    if OnDisk(p.disk, pid) {
      FetchAlone(p, pid);
      FetchAloneView(p, pid);
    } else {
      assert pid in p.table ==> EntryOk(p, pid) && FrameOk(p, p.table[pid]);
      FetchKeeps(p, pid, {});
      VictimKeeps(p, {});
      VictimCaches(p, pid);
      assert !OnDisk(FindVictim(p).0.disk, pid);
    }
  }

  lemma NewAllowed(p: Pool, file: FileId)
    requires Agrees(p, {}, Free)
    ensures Agrees(NewPage(p, file).0, {}, HoldAfter(Abstract(p), Free, New(file)))
    ensures Made(p, New(file)) <==> HasRoom(Abstract(p), file)
    ensures PoolAnswer(p, New(file)) == StoreAnswer(Abstract(p), New(file))
  {
    assert file in View(p) ==> |View(p)[file]| == |p.disk.files[file]|;
    if HasRoom(Abstract(p), file) {
      var pid := PageId(file, |p.disk.files[file]|);
      NewPageAlone(p, file, pid);
      NewPageAloneView(p, file, pid);
    }
  }

  lemma WriteAllowed(p: Pool, touched: set<PageId>, h: Hold, page: PageImage)
    requires Agrees(p, touched, h) && h.Held?
    ensures Agrees(WriteFrame(p, p.table[h.pid], page), touched + {h.pid}, Held(h.pid, true))
  {
    WriteKeeps(p, h.pid, page, touched);
    assert touched + {h.pid} == {h.pid};
  }

  lemma UnpinAllowed(p: Pool, touched: set<PageId>, h: Hold, dirty: bool)
    requires Agrees(p, touched, h) && h.Held? && (h.written ==> dirty)
    ensures Agrees(UnpinPage(p, h.pid, dirty).0, touched - {h.pid}, Free)
  {
    UnpinKeeps(p, h.pid, dirty, touched);
    assert touched - {h.pid} == {};
  }

  lemma FlushAllowed(p: Pool, touched: set<PageId>, h: Hold, pid: PageId)
    requires Agrees(p, touched, h)
    ensures Agrees(FlushPage(p, pid).0, touched, h)
  {
    if pid in p.table {
      assert EntryOk(p, pid);
      FlushKeeps(p, p.table[pid], touched);
      SamePinsAgree(p, FlushPage(p, pid).0, touched, h);
    }
  }

  /** An allowed step is legal, a New with room succeeds, the answer is the plain store's, and the pool agrees
      with the new hold. */
  lemma AllowedStep(p: Pool, touched: set<PageId>, h: Hold, op: Op)
    requires Agrees(p, touched, h) && Allowed(Abstract(p), h, op)
    ensures Legal(p, touched, op)
    ensures Agrees(Step(p, touched, op), Touched(touched, op), HoldAfter(Abstract(p), h, op))
    ensures Abstract(Step(p, touched, op)) == StoreStep(Abstract(p), op, true)
    ensures PoolAnswer(p, op) == StoreAnswer(Abstract(p), op)
  {
    if h.Free? { NoPinsIsSafe(p); }
    StepRefines(p, touched, op);
    match op
    case Fetch(pid) => FetchAllowed(p, pid);
    case New(file) => NewAllowed(p, file);
    case Write(pid, page) => WriteAllowed(p, touched, h, page);
    case Unpin(pid, dirty) => UnpinAllowed(p, touched, h, dirty);
    case Flush(pid) => FlushAllowed(p, touched, h, pid);
    case FlushEverything =>
      FlushKeepsPins(p, |p.frames|);
      SamePinsAgree(p, FlushAll(p), touched, h);
    case Open(pages) => SamePinsAgree(p, Opened(p, pages), touched, h);
    case Drop(file) => SamePinsAgree(p, Dropped(p, file), touched, h);
  }

  // ----- runs

  lemma {:induction false} DisciplinedFrom(p: Pool, touched: set<PageId>, h: Hold, ops: seq<Op>)
    requires Agrees(p, touched, h) && Disciplined(Abstract(p), h, ops)
    ensures LegalRun(p, touched, ops)
    ensures var (t, k, answers) := PlainRun(Abstract(p), h, ops);
            && Abstract(Run(p, touched, ops).0) == t
            && Agrees(Run(p, touched, ops).0, Run(p, touched, ops).1, k)
            && PoolAnswers(p, touched, ops) == answers
    decreases |ops|
  {
    if ops != [] {
      AllowedStep(p, touched, h, ops[0]);
      DisciplinedFrom(Step(p, touched, ops[0]), Touched(touched, ops[0]), HoldAfter(Abstract(p), h, ops[0]), ops[1..]);
    }
  }

  /** From a pool with nothing pinned and at least one frame, every disciplined run is legal, every New with room
      succeeds, the client is told what the plain store says, and the pool stands for the plain store's result. */
  lemma DisciplineRefines(p: Pool, ops: seq<Op>)
    requires Inv(p) && Clean(p, {}) && NoPins(p) && |p.frames| >= 1
    requires Disciplined(Abstract(p), Free, ops)
    ensures LegalRun(p, {}, ops)
    ensures var (t, h, answers) := PlainRun(Abstract(p), Free, ops);
            && Abstract(Run(p, {}, ops).0) == t
            && PoolAnswers(p, {}, ops) == answers
            && Inv(Run(p, {}, ops).0) && (h.Free? ==> NoPins(Run(p, {}, ops).0))
  {
    DisciplinedFrom(p, {}, Free, ops);
  }

  /** The discipline starts from any disk: an empty pool over it answers as the plain store of that disk does. */
  lemma DisciplineFromDisk(size: nat, target: nat, disk: Disk, ops: seq<Op>)
    requires size >= 1 && target >= 1 && DiskOk(disk)
    requires Disciplined(PlainStore(DiskView(disk), disk.nextFile), Free, ops)
    ensures var p := Initial(size, target, disk);
            && LegalRun(p, {}, ops)
            && PoolAnswers(p, {}, ops) == PlainRun(PlainStore(DiskView(disk), disk.nextFile), Free, ops).2
            && Abstract(Run(p, {}, ops).0) == PlainRun(PlainStore(DiskView(disk), disk.nextFile), Free, ops).0
  {
    InitialOk(size, target, disk);
    DisciplineRefines(Initial(size, target, disk), ops);
  }
}
