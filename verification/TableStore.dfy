/** The store as clients of the pool see it between their operations: nothing pinned, every page well formed. */
module TableStores {
  import opened Wrappers
  import opened Bytes
  import opened PageImages
  import opened Disks
  import opened PoolModel
  import opened PoolInvariant
  import opened PoolRuns
  import opened PoolPins
  import opened Rows
  import opened HeapTables

  ghost predicate AllPagesOk(s: Store) {
    forall file :: file in s ==> PagesOk(s[file])
  }

  /** No client holds a pin, and there is a frame to work with. */
  ghost predicate Settled(p: Pool) {
    Inv(p) && Clean(p, {}) && NoPins(p) && |p.frames| >= 1 && AllPagesOk(View(p))
  }

  /** One client holds one pin, on page pid in frame f, and has written nothing. */
  ghost predicate Holding(p: Pool, pid: PageId, f: nat) {
    Inv(p) && Clean(p, {}) && OnDisk(p.disk, pid) && f < |p.frames| && OnlyPin(p, pid, f) && AllPagesOk(View(p))
  }

  /** From `s` to `t` only the given file changed. */
  ghost predicate OnlyFile(s: Store, t: Store, file: FileId) {
    file in s && file in t && t == s[file := t[file]]
  }

  /** The table stored in a file. */
  function TableIn(s: Store, file: FileId): Table
    requires file in s
  {
    TableOf(s[file])
  }

  lemma InitialSettled(size: nat, target: nat, disk: Disk)
    requires size >= 1 && target >= 1 && DiskOk(disk) && AllPagesOk(DiskView(disk))
    ensures Settled(Initial(size, target, disk)) && View(Initial(size, target, disk)) == DiskView(disk)
  {
    InitialOk(size, target, disk);
  }

  lemma SameFiles(s: Store, file: FileId)
    requires file in s
    ensures OnlyFile(s, s, file)
  {
  }

  lemma OnlyFileHas(s: Store, t: Store, file: FileId)
    requires OnlyFile(s, t, file)
    ensures file in t && t.Keys == s.Keys
  {
  }

  lemma OnlyFileTwice(s: Store, t: Store, u: Store, file: FileId)
    requires OnlyFile(s, t, file) && OnlyFile(t, u, file)
    ensures OnlyFile(s, u, file)
  {
  }

  lemma SettledIsInv(p: Pool)
    requires Settled(p)
    ensures Inv(p)
  {
  }

  lemma SettledPages(p: Pool, file: FileId)
    requires Settled(p) && file in View(p)
    ensures PagesOk(View(p)[file]) && |View(p)[file]| <= INVALID_ID
  {
    assert |View(p)[file]| == |p.disk.files[file]|;
  }

  /** Page numbers and slot ids of a stored table fit their fields. */
  lemma TidFits(p: Pool, file: FileId, id: Tid)
    requires Settled(p) && file in View(p) && InRange(TableIn(View(p), file), id)
    ensures id.page < 0x1_0000_0000 && id.slot < 0x1_0000
  {
    ViewAt(p, PageId(file, 0));
    assert PageOk(View(p)[file][id.page]);
    SlotCountIs(View(p)[file][id.page]);
    assert |View(p)[file]| == |p.disk.files[file]|;
  }

  lemma HoldingIsInv(p: Pool, pid: PageId, f: nat)
    requires Holding(p, pid, f)
    ensures Inv(p) && pid.file in View(p) && pid.num < |View(p)[pid.file]|
  {
  }

  // ----- single-pin operations

  /** Fetching a page of an open file pins it, whatever that evicts, and fails only if there is no such page. */
  lemma FetchSettled(p: Pool, pid: PageId)
    requires Settled(p) && pid.file in View(p)
    ensures var (q, r) := FetchPage(p, pid);
            && View(q) == View(p)
            && (r.None? <==> pid.num >= |View(p)[pid.file]|) && (r.None? ==> Settled(q))
            && (r.Some? ==>
                  && Holding(q, pid, r.value) && q.frames[r.value].page == View(p)[pid.file][pid.num]
                  && PageOk(q.frames[r.value].page))
  {
    ViewAt(p, pid);
    if OnDisk(p.disk, pid) {
      FetchAlone(p, pid);
      FetchAloneView(p, pid);
      ViewAt(FetchPage(p, pid).0, pid);
    } else {
      FetchMissing(p, pid);
    }
  }

  lemma FetchMissing(p: Pool, pid: PageId)
    requires Settled(p) && pid.file in View(p) && !OnDisk(p.disk, pid)
    ensures FetchPage(p, pid).1.None? && Settled(FetchPage(p, pid).0) && View(FetchPage(p, pid).0) == View(p)
  {
    assert pid in p.table ==> EntryOk(p, pid) && FrameOk(p, p.table[pid]);
    NoPinsIsSafe(p);
    FetchKeeps(p, pid, {});
    VictimKeeps(p, {});
    var (q, v) := FindVictim(p);
    VictimCaches(p, pid);
    assert !OnDisk(q.disk, pid);
  }

  /** Unpinning a page that was only read. */
  lemma ReadDone(p: Pool, pid: PageId, f: nat)
    requires Holding(p, pid, f)
    ensures var (q, ok) := UnpinPage(p, pid, false); ok && Settled(q) && View(q) == View(p)
  {
    UnpinLast(p, pid, f, false, {});
  }

  /** Overwriting the pinned page and unpinning it as dirty changes that page of the store and nothing else. */
  lemma WriteDone(p: Pool, pid: PageId, f: nat, page: PageImage)
    requires Holding(p, pid, f) && PageOk(page)
    ensures var (q, ok) := UnpinPage(WriteFrame(p, f, page), pid, true);
            ok && Settled(q) && View(q) == SetPage(View(p), pid, page)
    ensures OnlyFile(View(p), SetPage(View(p), pid, page), pid.file)
    ensures TableIn(SetPage(View(p), pid, page), pid.file) == TableIn(View(p), pid.file)[pid.num := Records(page)]
    ensures Inv(WriteFrame(p, f, page))
  {
    WriteThroughPin(p, pid, f, page);
    UnpinLast(WriteFrame(p, f, page), pid, f, true, {pid});
    ViewAt(p, pid);
    PageSetOk(View(p), pid, page);
  }

  lemma PageSetOk(s: Store, pid: PageId, page: PageImage)
    requires AllPagesOk(s) && PageOk(page) && Stored(s, pid)
    ensures AllPagesOk(SetPage(s, pid, page)) && OnlyFile(s, SetPage(s, pid, page), pid.file)
    ensures TableIn(SetPage(s, pid, page), pid.file) == TableIn(s, pid.file)[pid.num := Records(page)]
  {
    forall file | file in s
      ensures PagesOk(SetPage(s, pid, page)[file])
    {
      assert PagesOk(s[file]);
    }
  }

  /** A new page is pinned and fresh, unless the file has no page number left. */
  lemma NewSettled(p: Pool, file: FileId)
    requires Settled(p) && file in View(p)
    ensures var (q, r) := NewPage(p, file);
            if |View(p)[file]| == INVALID_ID then r.None? && Settled(q) && View(q) == View(p)
            else
              var pid := PageId(file, |View(p)[file]|);
              && r.Some? && r.value.0 == pid && Holding(q, pid, r.value.1)
              && q.frames[r.value.1].page == FreshPage(pid) && PageOk(FreshPage(pid)) && Records(FreshPage(pid)) == []
              && FreeSpace(FreshPage(pid)) == BODY_SIZE && View(q) == AppendPage(View(p), file, FreshPage(pid))
              && OnlyFile(View(p), View(q), file) && |View(q)[file]| == |View(p)[file]| + 1
              && TableIn(View(q), file) == TableIn(View(p), file) + [[]]
  {
    assert |View(p)[file]| == |p.disk.files[file]|;
    if |View(p)[file]| != INVALID_ID {
      var pid := PageId(file, |View(p)[file]|);
      NewPageAlone(p, file, pid);
      NewPageAloneView(p, file, pid);
      ViewAt(NewPage(p, file).0, pid);
      PageAppendOk(View(p), file, FreshPage(pid));
    }
  }

  lemma PageAppendOk(s: Store, file: FileId, page: PageImage)
    requires AllPagesOk(s) && PageOk(page) && file in s
    ensures AllPagesOk(AppendPage(s, file, page)) && OnlyFile(s, AppendPage(s, file, page), file)
    ensures TableIn(AppendPage(s, file, page), file) == TableIn(s, file) + [Records(page)]
  {
    forall f | f in s
      ensures PagesOk(AppendPage(s, file, page)[f])
    {
      assert PagesOk(s[f]);
    }
  }
}
