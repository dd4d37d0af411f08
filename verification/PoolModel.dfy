/**
 * The buffer pool as a value: frames, page table, replacer list and disk. Every function is one BufferPool
 * method, taken as one atomic step under the pool latch.
 */
module PoolModel {
  import opened Wrappers
  import opened Bytes
  import opened PageImages
  import opened Disks
  import L = LruLists

  datatype FrameState = Empty | Loading | Ready

  datatype Frame = Frame(page: PageImage, pid: PageId, pins: nat, dirty: bool, state: FrameState)

  datatype Pool = Pool(frames: seq<Frame>, table: map<PageId, nat>, lru: L.Lru, disk: Disk)

  /** The pool starts empty; nothing is cached and the store is what the disk holds. */
  function Initial(size: nat, target: nat, disk: Disk): Pool {
    Pool(seq(size, _ => Frame(FreshPage(INVALID_PAGE_ID), INVALID_PAGE_ID, 0, false, Empty)), map[],
         L.Lru([], [], {}, target), disk)
  }

  // ----- steps

  function FirstEmpty(frames: seq<Frame>, i: nat): Option<nat>
    requires i <= |frames|
    decreases |frames| - i
  {
    if i == |frames| then None else if frames[i].state.Empty? then Some(i) else FirstEmpty(frames, i + 1)
  }

  /** Writes a dirty frame back; when the write fails (its file is closed) the frame stays dirty. */
  function FlushFrame(p: Pool, f: nat): Pool
    requires f < |p.frames|
  {
    var fr := p.frames[f];
    if !fr.state.Ready? || !fr.dirty || !OnDisk(p.disk, fr.pid) then p
    else p.(disk := WriteDisk(p.disk, fr.pid, fr.page), frames := p.frames[f := fr.(dirty := false)])
  }

  /** Flushes the frame, forgets its page and marks it empty. */
  function Release(p: Pool, f: nat): Pool
    requires f < |p.frames|
  {
    var q := FlushFrame(p, f);
    q.(table := q.table - {q.frames[f].pid}, frames := q.frames[f := q.frames[f].(state := Empty)])
  }

  /** A never-used frame if there is one, else the replacer's victim. */
  function FindVictim(p: Pool): (Pool, Option<nat>) {
    if FirstEmpty(p.frames, 0).Some? then (p, FirstEmpty(p.frames, 0))
    else
      var (l, victim) := L.Evict(p.lru);
      if victim.None? || victim.value >= |p.frames| then (p.(lru := l), None)
      else (Release(p.(lru := l), victim.value), victim)
  }

  /** Puts a pinned page into a frame and enters it in the page table. */
  function Install(p: Pool, f: nat, pid: PageId, page: PageImage, dirty: bool): Pool
    requires f < |p.frames|
  {
    p.(frames := p.frames[f := Frame(page, pid, 1, dirty, Ready)], table := p.table[pid := f], lru := L.Pin(p.lru, f))
  }

  /** A failed load leaves the frame empty, with its page bytes as they were. */
  function LoadFailed(p: Pool, f: nat, pid: PageId): Pool
    requires f < |p.frames|
  {
    p.(frames := p.frames[f := Frame(p.frames[f].page, pid, 0, false, Empty)], lru := L.Pin(p.lru, f))
  }

  predicate Cached(p: Pool, pid: PageId) {
    pid in p.table && p.table[pid] < |p.frames| && p.frames[p.table[pid]].state.Ready?
  }

  /** Loads an existing page into the chosen frame. */
  function LoadInto(p: Pool, victim: Option<nat>, pid: PageId): (Pool, Option<nat>) {
    if victim.None? || victim.value >= |p.frames| then (p, None)
    else if OnDisk(p.disk, pid) then (Install(p, victim.value, pid, ReadDisk(p.disk, pid), false), victim)
    else (LoadFailed(p, victim.value, pid), None)
  }

  function FetchPage(p: Pool, pid: PageId): (Pool, Option<nat>) {
    if Cached(p, pid) then (HitFrame(p, p.table[pid]), Some(p.table[pid]))
    else
      var (q, victim) := FindVictim(p);
      LoadInto(q, victim, pid)
  }

  /** A hit counts one pin more and tells the replacer about the access. */
  function HitFrame(p: Pool, f: nat): Pool
    requires f < |p.frames|
  {
    p.(frames := p.frames[f := p.frames[f].(pins := p.frames[f].pins + 1)], lru := L.Access(p.lru, f))
  }

  lemma FetchMiss(p: Pool, pid: PageId)
    requires !Cached(p, pid)
    ensures FetchPage(p, pid) == LoadInto(FindVictim(p).0, FindVictim(p).1, pid)
  {
  }

  lemma VictimEvicted(p: Pool, l: L.Lru, v: Option<nat>)
    requires FirstEmpty(p.frames, 0).None? && (l, v) == L.Evict(p.lru) && (v.Some? ==> v.value < |p.frames|)
    ensures FindVictim(p) == if v.None? then (p.(lru := l), None) else (Release(p.(lru := l), v.value), v)
  {
  }

  /** Formats a page that was just allocated in the chosen frame. */
  function FormatInto(p: Pool, victim: Option<nat>, pid: PageId): (Pool, Option<(PageId, nat)>) {
    if victim.None? || victim.value >= |p.frames| then (p, None)
    else (Install(p, victim.value, pid, FreshPage(pid), true), Some((pid, victim.value)))
  }

  function FormatPage(p: Pool, pid: PageId): (Pool, Option<(PageId, nat)>) {
    var (q, victim) := FindVictim(p);
    FormatInto(q, victim, pid)
  }

  function NewPage(p: Pool, file: u32): (Pool, Option<(PageId, nat)>) {
    var (d, pid) := AllocatePage(p.disk, file);
    if pid.IsValid() then FormatPage(p.(disk := d), pid) else (p.(disk := d), None)
  }

  /** One pin less on a frame; the last one lists it for eviction. */
  function Unpinned(p: Pool, f: nat, dirty: bool): Pool
    requires f < |p.frames| && p.frames[f].pins > 0
  {
    var fr := p.frames[f];
    p.(frames := p.frames[f := fr.(pins := fr.pins - 1, dirty := fr.dirty || dirty)],
       lru := if fr.pins == 1 then L.Unpin(p.lru, f) else p.lru)
  }

  function UnpinPage(p: Pool, pid: PageId, dirty: bool): (Pool, bool) {
    if pid !in p.table || p.table[pid] >= |p.frames| || p.frames[p.table[pid]].pins == 0 then (p, false)
    else (Unpinned(p, p.table[pid], dirty), true)
  }

  function FlushPage(p: Pool, pid: PageId): (Pool, bool) {
    if pid !in p.table || p.table[pid] >= |p.frames| then (p, false) else (FlushFrame(p, p.table[pid]), true)
  }

  /** Flushes the first n frames in order; frames that are clean or empty are left alone. */
  function FlushUpTo(p: Pool, n: nat): Pool
    requires n <= |p.frames|
    decreases n
  {
    if n == 0 then p else
      var q := FlushUpTo(p, n - 1);
      if n - 1 < |q.frames| then FlushFrame(q, n - 1) else q
  }

  function FlushAll(p: Pool): Pool { FlushUpTo(p, |p.frames|) }

  /** The dirty frames among the first n, in order, as FlushAll snapshots them. */
  function DirtyUpTo(p: Pool, n: nat): seq<nat>
    requires n <= |p.frames|
    decreases n
  {
    if n == 0 then []
    else if p.frames[n - 1].state.Ready? && p.frames[n - 1].dirty then DirtyUpTo(p, n - 1) + [n - 1]
    else DirtyUpTo(p, n - 1)
  }

  function FlushList(p: Pool, fs: seq<nat>): Pool {
    if fs == [] then p
    else
      var q, f := FlushList(p, fs[..|fs| - 1]), fs[|fs| - 1];
      if f < |q.frames| then FlushFrame(q, f) else q
  }

  /** Flushing the snapshot of dirty frames is flushing every frame. */
  lemma {:induction false} SnapshotFlushesAll(p: Pool, n: nat)
    requires n <= |p.frames|
    ensures FlushList(p, DirtyUpTo(p, n)) == FlushUpTo(p, n)
    ensures |FlushUpTo(p, n).frames| == |p.frames| && FlushUpTo(p, n).frames[n..] == p.frames[n..]
    decreases n
  {
    if n > 0 {
      SnapshotFlushesAll(p, n - 1);
      var q := FlushUpTo(p, n - 1);
      assert q.frames[n - 1] == q.frames[n - 1..][0] == p.frames[n - 1..][0] == p.frames[n - 1];
      assert q.frames[n..] == q.frames[n - 1..][1..] && p.frames[n..] == p.frames[n - 1..][1..];
      assert p.frames[n - 1].state.Ready? && p.frames[n - 1].dirty ==>
          DirtyUpTo(p, n)[..|DirtyUpTo(p, n)| - 1] == DirtyUpTo(p, n - 1);
    }
  }

  /** What a client does through the pointer it holds: overwrite the page in a frame. */
  function WriteFrame(p: Pool, f: nat, page: PageImage): Pool
    requires f < |p.frames|
  {
    p.(frames := p.frames[f := p.frames[f].(page := page)])
  }

  // ----- the invariant

  /** A ready frame is in the page table and, unpinned, on the replacer list; an empty frame is on neither. */
  predicate FrameOk(p: Pool, f: nat)
    requires f < |p.frames|
  {
    var fr := p.frames[f];
    if fr.state.Ready? then
      && fr.pid in p.table && p.table[fr.pid] == f
      && fr.pid.file < p.disk.nextFile && (fr.pid.file in p.disk.files ==> OnDisk(p.disk, fr.pid))
      && (fr.pins == 0 ==> f in p.lru.Order())
    else fr.state.Empty? && f !in p.lru.Order()
  }

  predicate EntryOk(p: Pool, pid: PageId)
    requires pid in p.table
  {
    Cached(p, pid) && p.frames[p.table[pid]].pid == pid
  }

  predicate Inv(p: Pool) {
    && (forall f :: 0 <= f < |p.frames| ==> FrameOk(p, f))
    && (forall pid :: pid in p.table ==> EntryOk(p, pid))
    && L.Wf(p.lru) && L.Balanced(p.lru) && p.lru.limbo == {} && p.lru.target >= 1
    && (forall f :: f in p.lru.Order() ==> f < |p.frames|)
    && DiskOk(p.disk)
  }

  /** Clean frames agree with disk, except where a client is still writing (`touched`). */
  predicate CleanAt(p: Pool, touched: set<PageId>, f: nat)
    requires f < |p.frames|
  {
    var fr := p.frames[f];
    fr.state.Ready? ==>
      && (fr.pid in touched ==> fr.pins > 0)
      && (OnDisk(p.disk, fr.pid) && !fr.dirty && fr.pid !in touched ==> fr.page == ReadDisk(p.disk, fr.pid))
  }

  predicate Clean(p: Pool, touched: set<PageId>) {
    forall f :: 0 <= f < |p.frames| ==> CleanAt(p, touched, f)
  }

  // ----- what the pool stores

  /** The contents of a page of an open file: the cached copy if there is one, else the disk copy. */
  function PageAt(p: Pool, pid: PageId): PageImage
    requires OnDisk(p.disk, pid)
  {
    if Cached(p, pid) then p.frames[p.table[pid]].page else ReadDisk(p.disk, pid)
  }

  /** The plain store a pool stands for: every open file as a sequence of pages. */
  type Store = map<FileId, seq<PageImage>>

  predicate Stored(s: Store, pid: PageId) { pid.file in s && pid.num < |s[pid.file]| }

  function SetPage(s: Store, pid: PageId, page: PageImage): Store {
    if Stored(s, pid) then s[pid.file := s[pid.file][pid.num := page]] else s
  }

  function AppendPage(s: Store, file: FileId, page: PageImage): Store
    requires file in s
  {
    s[file := s[file] + [page]]
  }

  function View(p: Pool): Store {
    map file | file in p.disk.files :: FileView(p, file)
  }

  function FileView(p: Pool, file: FileId): (r: seq<PageImage>)
    requires file in p.disk.files
    ensures |r| == |p.disk.files[file]|
  {
    seq(|p.disk.files[file]|, n requires 0 <= n < |p.disk.files[file]| => PageAt(p, PageId(file, n)))
  }

  /** A store with the pool's files, page counts and contents is the pool's store. */
  lemma ViewIs(p: Pool, s: Store)
    requires s.Keys == p.disk.files.Keys
    requires forall file :: file in s ==> |s[file]| == |p.disk.files[file]|
    requires forall pid :: OnDisk(p.disk, pid) ==> PageAt(p, pid) == s[pid.file][pid.num]
    ensures View(p) == s
  {
    forall file | file in s
      ensures FileView(p, file) == s[file]
    {
      forall n | 0 <= n < |s[file]|
        ensures FileView(p, file)[n] == s[file][n]
      {
        assert OnDisk(p.disk, PageId(file, n));
      }
    }
  }

  lemma ViewAt(p: Pool, pid: PageId)
    ensures Stored(View(p), pid) <==> OnDisk(p.disk, pid)
    ensures OnDisk(p.disk, pid) ==> View(p)[pid.file][pid.num] == PageAt(p, pid)
  {
    if OnDisk(p.disk, pid) {
      assert FileView(p, pid.file)[pid.num] == PageAt(p, PageId(pid.file, pid.num));
    }
  }

  /** Two pools with the same files and the same contents of every page store the same thing. */
  lemma SameView(p: Pool, q: Pool)
    requires p.disk.files.Keys == q.disk.files.Keys
    requires forall file :: file in p.disk.files ==> |p.disk.files[file]| == |q.disk.files[file]|
    requires forall pid :: OnDisk(p.disk, pid) ==> PageAt(p, pid) == PageAt(q, pid)
    ensures View(p) == View(q)
  {
    forall pid | OnDisk(p.disk, pid)
      ensures PageAt(p, pid) == View(q)[pid.file][pid.num]
    {
      ViewAt(q, pid);
    }
    ViewIs(p, View(q));
  }

  /** Changing the contents of one page changes exactly that entry of the store. */
  lemma PageReplaced(p: Pool, q: Pool, pid: PageId, page: PageImage)
    requires OnDisk(p.disk, pid) && p.disk == q.disk && PageAt(q, pid) == page
    requires forall id :: OnDisk(p.disk, id) && id != pid ==> PageAt(q, id) == PageAt(p, id)
    ensures View(q) == SetPage(View(p), pid, page)
  {
    var s := SetPage(View(p), pid, page);
    ViewAt(p, pid);
    forall id | OnDisk(q.disk, id)
      ensures PageAt(q, id) == s[id.file][id.num]
    {
      ViewAt(p, id);
    }
    ViewIs(q, s);
  }
}
