/** Whole runs of the buffer pool: it behaves as a plain store of pages, whatever is evicted in between. */
module PoolRuns {
  import opened Wrappers
  import opened Bytes
  import opened PageImages
  import opened Disks
  import opened PoolModel
  import opened PoolInvariant
  import L = LruLists

  // ----- opening and dropping files

  function Opened(p: Pool, pages: Blocks): Pool
    requires p.disk.nextFile < INVALID_ID
  {
    p.(disk := OpenFile(p.disk, pages))
  }

  /** Dropping a table closes its file; its cached pages stay behind until they are evicted. */
  function Dropped(p: Pool, file: FileId): Pool {
    p.(disk := DropFile(p.disk, file))
  }

  lemma OpenKeeps(p: Pool, pages: Blocks, touched: set<PageId>)
    requires Inv(p) && p.disk.nextFile < INVALID_ID
    ensures var q := Opened(p, pages);
            && Inv(q) && (Clean(p, touched) ==> Clean(q, touched))
            && View(q) == View(p)[p.disk.nextFile := Decoded(pages)]
  {
    var q, id := Opened(p, pages), p.disk.nextFile;
    forall g | 0 <= g < |q.frames|
      ensures FrameOk(q, g) && (Clean(p, touched) ==> CleanAt(q, touched, g))
    {
      assert FrameOk(p, g);
      assert Clean(p, touched) ==> CleanAt(p, touched, g);
    }
    forall pid | pid in q.table
      ensures EntryOk(q, pid)
    {
      assert EntryOk(p, pid);
    }
    var s := View(p)[id := Decoded(pages)];
    forall pid | OnDisk(q.disk, pid)
      ensures PageAt(q, pid) == s[pid.file][pid.num]
    {
      if pid in q.table { assert EntryOk(p, pid) && FrameOk(p, p.table[pid]); }
      ViewAt(p, pid);
    }
    ViewIs(q, s);
  }

  lemma DropKeeps(p: Pool, file: FileId, touched: set<PageId>)
    requires Inv(p)
    ensures var q := Dropped(p, file);
            && Inv(q) && (Clean(p, touched) ==> Clean(q, touched)) && View(q) == View(p) - {file}
  {
    var q := Dropped(p, file);
    forall g | 0 <= g < |q.frames|
      ensures FrameOk(q, g) && (Clean(p, touched) ==> CleanAt(q, touched, g))
    {
      assert FrameOk(p, g);
      assert Clean(p, touched) ==> CleanAt(p, touched, g);
    }
    forall pid | pid in q.table
      ensures EntryOk(q, pid)
    {
      assert EntryOk(p, pid);
    }
    var s := View(p) - {file};
    forall pid | OnDisk(q.disk, pid)
      ensures PageAt(q, pid) == s[pid.file][pid.num]
    {
      ViewAt(p, pid);
    }
    ViewIs(q, s);
  }

  // ----- runs

  datatype Op =
    | Fetch(pid: PageId)
    | New(file: FileId)
    | Write(pid: PageId, page: PageImage)
    | Unpin(pid: PageId, dirty: bool)
    | Flush(pid: PageId)
    | FlushEverything
    | Open(pages: Blocks)
    | Drop(file: FileId)

  /** A client may write only what it has pinned, must unpin what it wrote as dirty, and may force an eviction
      only when the frame that would go is not pinned. */
  predicate Legal(p: Pool, touched: set<PageId>, op: Op) {
    match op
    case Fetch(pid) => Cached(p, pid) || SafeVictim(p)
    case New(_) => SafeVictim(p)
    case Write(pid, _) => Cached(p, pid) && p.frames[p.table[pid]].pins > 0
    case Unpin(pid, dirty) => dirty || pid !in touched
    case Open(_) => p.disk.nextFile < INVALID_ID
    case _ => true
  }

  function Touched(touched: set<PageId>, op: Op): set<PageId> {
    match op
    case Write(pid, _) => touched + {pid}
    case Unpin(pid, _) => touched - {pid}
    case _ => touched
  }

  function Step(p: Pool, touched: set<PageId>, op: Op): Pool
    requires Legal(p, touched, op)
  {
    match op
    case Fetch(pid) => FetchPage(p, pid).0
    case New(file) => NewPage(p, file).0
    case Write(pid, page) => WriteFrame(p, p.table[pid], page)
    case Unpin(pid, dirty) => UnpinPage(p, pid, dirty).0
    case Flush(pid) => FlushPage(p, pid).0
    case FlushEverything => FlushAll(p)
    case Open(pages) => Opened(p, pages)
    case Drop(file) => Dropped(p, file)
  }

  /** The specification: open files as sequences of pages, and the id the next opened file gets. */
  datatype PlainStore = PlainStore(files: Store, nextFile: u32)

  function Abstract(p: Pool): PlainStore { PlainStore(View(p), p.disk.nextFile) }

  /** The same step on the plain store. `made` tells whether New found a frame for the page it allocated. */
  function StoreStep(t: PlainStore, op: Op, made: bool): PlainStore {
    match op
    case New(file) =>
      if file !in t.files || |t.files[file]| >= INVALID_ID then t
      else
        var page := if made then FreshPage(PageId(file, |t.files[file]|)) else BLANK_PAGE;
        t.(files := AppendPage(t.files, file, page))
    case Write(pid, page) => t.(files := SetPage(t.files, pid, page))
    case Open(pages) =>
      if t.nextFile < INVALID_ID then PlainStore(t.files[t.nextFile := Decoded(pages)], t.nextFile + 1) else t
    case Drop(file) => t.(files := t.files - {file})
    case _ => t
  }

  predicate Made(p: Pool, op: Op) {
    op.New? && NewPage(p, op.file).1.Some?
  }

  lemma NewRefines(p: Pool, touched: set<PageId>, file: FileId)
    requires Inv(p) && Clean(p, touched) && SafeVictim(p)
    ensures Inv(NewPage(p, file).0) && Clean(NewPage(p, file).0, touched)
    ensures View(NewPage(p, file).0) == StoreStep(Abstract(p), New(file), Made(p, New(file))).files
  {
    NewPageKeeps(p, file, touched);
    var (d, pid) := AllocatePage(p.disk, file);
    if pid.IsValid() {
      NewPageView(p, file, d, pid, touched);
      assert file in p.disk.files && |View(p)[file]| == |p.disk.files[file]|;
    }
  }

  lemma FetchKeepsNextFile(p: Pool, pid: PageId)
    requires Inv(p)
    ensures FetchPage(p, pid).0.disk.nextFile == p.disk.nextFile
  {
    VictimKeeps(p, {});
  }

  lemma NewKeepsNextFile(p: Pool, file: u32)
    requires Inv(p)
    ensures NewPage(p, file).0.disk.nextFile == p.disk.nextFile
  {
    AllocateKeeps(p, file, {});
    VictimKeeps(p.(disk := AllocatePage(p.disk, file).0), {});
  }

  lemma NextFileKept(p: Pool, touched: set<PageId>, op: Op)
    requires Inv(p) && Legal(p, touched, op)
    ensures Step(p, touched, op).disk.nextFile == if op.Open? then p.disk.nextFile + 1 else p.disk.nextFile
  {
    match op
    case Fetch(pid) => FetchKeepsNextFile(p, pid);
    case New(file) => NewKeepsNextFile(p, file);
    case FlushEverything => FlushKeepsNextFile(p, |p.frames|);
    case _ =>
  }

  lemma {:induction false} FlushKeepsNextFile(p: Pool, n: nat)
    requires n <= |p.frames|
    ensures FlushUpTo(p, n).disk.nextFile == p.disk.nextFile
    decreases n
  {
    if n > 0 {
      FlushKeepsNextFile(p, n - 1);
    }
  }

  /** One step: the invariant holds afterwards, and the pool's store changed exactly as the plain store does. */
  lemma StepRefines(p: Pool, touched: set<PageId>, op: Op)
    requires Inv(p) && Clean(p, touched) && Legal(p, touched, op)
    ensures Inv(Step(p, touched, op)) && Clean(Step(p, touched, op), Touched(touched, op))
    ensures Abstract(Step(p, touched, op)) == StoreStep(Abstract(p), op, Made(p, op))
  {
    NextFileKept(p, touched, op);
    match op
    case Fetch(pid) => FetchKeeps(p, pid, touched);
    case New(file) => NewRefines(p, touched, file);
    case Write(pid, page) => WriteKeeps(p, pid, page, touched);
    case Unpin(pid, dirty) => UnpinKeeps(p, pid, dirty, touched);
    case Flush(pid) =>
      if pid in p.table {
        assert EntryOk(p, pid);
        FlushKeeps(p, p.table[pid], touched);
        FlushView(p, p.table[pid]);
      }
    case FlushEverything =>
      FlushUpToKeeps(p, |p.frames|, touched);
      FlushUpToView(p, |p.frames|);
    case Open(pages) => OpenKeeps(p, pages, touched);
    case Drop(file) => DropKeeps(p, file, touched);
  }

  function Run(p: Pool, touched: set<PageId>, ops: seq<Op>): (Pool, set<PageId>)
    requires LegalRun(p, touched, ops)
    decreases |ops|
  {
    if ops == [] then (p, touched) else Run(Step(p, touched, ops[0]), Touched(touched, ops[0]), ops[1..])
  }

  predicate LegalRun(p: Pool, touched: set<PageId>, ops: seq<Op>)
    decreases |ops|
  {
    ops == [] ||
    (Legal(p, touched, ops[0]) && LegalRun(Step(p, touched, ops[0]), Touched(touched, ops[0]), ops[1..]))
  }

  /** The run on the plain store, told which New found a frame. */
  function StoreRun(t: PlainStore, ops: seq<Op>, made: seq<bool>): PlainStore
    requires |made| == |ops|
    decreases |ops|
  {
    if ops == [] then t else StoreRun(StoreStep(t, ops[0], made[0]), ops[1..], made[1..])
  }

  function MadeInRun(p: Pool, touched: set<PageId>, ops: seq<Op>): (r: seq<bool>)
    requires LegalRun(p, touched, ops)
    ensures |r| == |ops|
    decreases |ops|
  {
    if ops == [] then []
    else [Made(p, ops[0])] + MadeInRun(Step(p, touched, ops[0]), Touched(touched, ops[0]), ops[1..])
  }

  /** For every pool size and every legal run, pool plus disk refines the plain store, and no frame is lost. */
  lemma {:induction false} RunRefines(p: Pool, touched: set<PageId>, ops: seq<Op>)
    requires Inv(p) && Clean(p, touched) && LegalRun(p, touched, ops)
    ensures Inv(Run(p, touched, ops).0) && Clean(Run(p, touched, ops).0, Run(p, touched, ops).1)
    ensures Abstract(Run(p, touched, ops).0) == StoreRun(Abstract(p), ops, MadeInRun(p, touched, ops))
    decreases |ops|
  {
    if ops != [] {
      StepRefines(p, touched, ops[0]);
      RunRefines(Step(p, touched, ops[0]), Touched(touched, ops[0]), ops[1..]);
      var made := MadeInRun(p, touched, ops);
      assert made[1..] == MadeInRun(Step(p, touched, ops[0]), Touched(touched, ops[0]), ops[1..]);
    }
  }

  /** Whatever was evicted in between, a fetch hands out the stored contents of an existing page. */
  lemma FetchReturnsStored(p: Pool, pid: PageId, touched: set<PageId>)
    requires Inv(p) && Clean(p, touched) && Legal(p, touched, Fetch(pid)) && Stored(View(p), pid)
    requires FetchPage(p, pid).1.Some?
    ensures var (q, r) := FetchPage(p, pid);
            r.value < |q.frames| && q.frames[r.value].page == View(p)[pid.file][pid.num]
  {
    FetchKeeps(p, pid, touched);
    FetchResult(p, pid);
    ViewAt(p, pid);
    ViewAt(FetchPage(p, pid).0, pid);
  }

  lemma InitialOk(size: nat, target: nat, disk: Disk)
    requires target >= 1 && DiskOk(disk)
    ensures Inv(Initial(size, target, disk)) && Clean(Initial(size, target, disk), {})
    ensures View(Initial(size, target, disk)) == DiskView(disk)
  {
    SameView(Initial(size, target, disk), Pool([], map[], L.Lru([], [], {}, 1), disk));
  }
}
