/** The scan of a table file: one page pinned at a time, deleted slots skipped, the current row decoded on demand. */
module TableIterators {
  import opened Wrappers
  import opened Bytes
  import opened PageImages
  import opened Pages
  import opened Disks
  import opened PoolModel
  import opened BufferPools
  import opened Rows
  import opened RowSerializer
  import opened HeapTables
  import opened TableStores
  import opened PinnedPages

  /** The inner loop of next(): the first live slot of a page from the given one on, or one past the last. */
  method NextLiveSlot(page: Page, from: nat) returns (slot: nat)
    requires page.Sized() && PageOk(page.Image())
    ensures slot == FirstLive(Records(page.Image()), from)
    ensures page.header.slotCount == |Records(page.Image())|
  {
    hide PageOk, Records;
    SlotCountIs(page.Image());
    slot := from;
    while slot < page.SlotCount()
      invariant FirstLive(Records(page.Image()), from) == FirstLive(Records(page.Image()), slot)
    {
      var r := page.GetRecord(slot);
      if r.Some? && |r.value| > 0 { return; }
      slot := slot + 1;
    }
  }

  lemma SeekIsScan(t: Table, p: nat, s: nat, slot: nat)
    requires p < |t| && slot == FirstLive(t[p], s)
    ensures slot < |t[p]| ==> Live(t, Tid(p, slot)) && Scan(t, p, s) == [Tid(p, slot)] + Scan(t, p, slot + 1)
    ensures slot >= |t[p]| ==> Scan(t, p, s) == Scan(t, p + 1, 0)
  {
    hide Scan;
    ScanFrom(t, p, s);
  }

  class HeapTableIterator {
    const file: FileId
    const totalPages: u32
    const pool: BufferPool
    const schema: Schema
    var pinnedPageId: PageId
    var currentPage: Page?
    var currentPageNum: u32
    var nextSlot: nat
    var currentRow: Row
    var rowCached: bool
    var currentTid: Tid
    var hasCurrent: bool
    var exhausted: bool
    /** The frame of the pinned page. */
    ghost var frame: nat

    ghost function Contents(): Table
      requires file in Files(pool)
      reads pool
    {
      TableIn(Files(pool), file)
    }

    /** At most one pin is held: the one on the page the scan is at, or was at before. */
    ghost predicate Pinning()
      reads this, pool, pool.pm, Owned(pool.frames), pool.replacer, pool.replacer.Repr
    {
      && this !in pool.Footprint() && file in Files(pool) && totalPages == |Files(pool)[file]|
      && if pinnedPageId.IsValid()
         then pinnedPageId.file == file && currentPage != null && Holds(pool, pinnedPageId, frame, currentPage)
         else Idle(pool)
    }

    ghost predicate Valid()
      reads this, pool, pool.pm, Owned(pool.frames), pool.replacer, pool.replacer.Repr
    {
      && Pinning()
      && (pinnedPageId.IsValid() ==> pinnedPageId.num == currentPageNum)
      && (exhausted ==> currentPageNum >= totalPages)
      && (hasCurrent ==>
            && pinnedPageId.IsValid() && currentTid.page == currentPageNum && Live(Contents(), currentTid)
            && (rowCached ==> currentRow == DecodeRow(At(Contents(), currentTid), schema)))
    }

    /** The records still to be visited. */
    ghost function Ahead(): seq<Tid>
      requires file in Files(pool)
      reads this, pool
    {
      Scan(Contents(), currentPageNum, nextSlot)
    }

    lemma AtEnd()
      requires Pinning()
      ensures currentPageNum >= totalPages ==> Ahead() == []
    {
    }

    constructor (f: FileId, pages: u32, p: BufferPool, s: Schema)
      requires Idle(p) && f in Files(p) && pages == |Files(p)[f]|
      ensures Valid() && pool == p && file == f && schema == s && Ahead() == Scan(TableIn(Files(p), f), 0, 0)
    {
      file, totalPages, pool, schema := f, pages, p, s;
      pinnedPageId, currentPage, currentPageNum, nextSlot := INVALID_PAGE_ID, null, 0, 0;
      currentRow, rowCached, currentTid, hasCurrent, exhausted := [], false, Tid(0, 0), false, false;
    }

    /** Gives back the pin, if one is held; next() does it at the end of the scan, the destructor at any point. */
    method Drop()
      requires Pinning()
      modifies this`pinnedPageId, this`currentPage, pool.Footprint()
      ensures Pinning() && !pinnedPageId.IsValid() && fresh(pool.Footprint() - old(pool.Footprint()))
      ensures Idle(pool) && Files(pool) == old(Files(pool))
      ensures unchanged(`currentPageNum, `nextSlot, `rowCached, `exhausted, `currentTid, `hasCurrent)
    {
      hide BufferPool.ValidBut, Holding, Settled, View, PageOk;
      if pinnedPageId.IsValid() {
        UnpinRead(pool, pinnedPageId, frame, currentPage);
        currentPage := null;
        pinnedPageId := INVALID_PAGE_ID;
      }
    }

    /** Swaps the pin for one on the current page; with no other pin held the fetch cannot fail. */
    method TurnPage()
      requires Pinning() && currentPageNum < totalPages
      modifies this`pinnedPageId, this`currentPage, this`frame, pool.Footprint()
      ensures Pinning() && fresh(pool.Footprint() - old(pool.Footprint())) && Files(pool) == old(Files(pool))
      ensures pinnedPageId == PageId(file, currentPageNum) && pinnedPageId.IsValid()
      ensures unchanged(`currentPageNum, `nextSlot, `rowCached, `exhausted, `currentTid, `hasCurrent)
    {
      hide BufferPool.ValidBut, Holding, Settled, View, PageOk;
      Drop();
      pinnedPageId := PageId(file, currentPageNum);
      currentPage, frame := Fetch(pool, pinnedPageId);
    }

    /** The next live slot of the pinned page and what a scan still visits from there. */
    method Seek() returns (slot: nat, ok: bool)
      requires Pinning() && pinnedPageId.IsValid() && pinnedPageId.num == currentPageNum
      ensures ok ==> Live(Contents(), Tid(currentPageNum, slot))
      ensures Ahead() == if ok then [Tid(currentPageNum, slot)] + Scan(Contents(), currentPageNum, slot + 1)
                         else Scan(Contents(), currentPageNum + 1, 0)
    {
      hide BufferPool.Valid, BufferPool.ValidBut, Holding, Settled, View, PageOk, Records, Scan, Live, FirstLive,
           TableIn;
      HeldPage(pool, pinnedPageId, frame, currentPage);
      slot := NextLiveSlot(currentPage, nextSlot);
      SeekIsScan(Contents(), currentPageNum, nextSlot, slot);
      ok := slot < currentPage.SlotCount();
    }

    /** Looks for a live slot on the pinned page from nextSlot on. */
    method FindLive() returns (ok: bool)
      requires Pinning() && pinnedPageId.IsValid() && pinnedPageId.num == currentPageNum
      modifies this`nextSlot, this`currentTid, this`hasCurrent
      ensures Pinning()
      ensures ok ==> hasCurrent && old(Ahead()) == [currentTid] + Ahead()
      ensures ok && !rowCached && !exhausted ==> Valid()
      ensures !ok ==> old(Ahead()) == Scan(Contents(), currentPageNum + 1, 0) && hasCurrent == old(hasCurrent)
    {
      hide BufferPool.Valid, BufferPool.ValidBut, Holding, Settled, View, PageOk, TableOf, Scan, Live;
      var slot: nat;
      slot, ok := Seek();
      if ok {
        nextSlot, currentTid, hasCurrent := slot + 1, Tid(currentPageNum, slot), true;
      } else {
        nextSlot := slot;
      }
    }

    method PassPage()
      requires Pinning() && currentPageNum < totalPages
      modifies this`currentPageNum, this`nextSlot
      ensures Pinning() && currentPageNum == old(currentPageNum) + 1 && nextSlot == 0
    {
      hide BufferPool.ValidBut, Holding, Settled, View, PageOk;
      currentPageNum, nextSlot := currentPageNum + 1, 0;
    }

    /** Makes sure that the current page is the pinned one. */
    method PinCurrent()
      requires Pinning() && currentPageNum < totalPages
      modifies this`pinnedPageId, this`currentPage, this`frame, pool.Footprint()
      ensures Pinning() && fresh(pool.Footprint() - old(pool.Footprint())) && Files(pool) == old(Files(pool))
      ensures pinnedPageId.IsValid() && pinnedPageId.num == currentPageNum && Ahead() == old(Ahead())
    {
      hide BufferPool.Valid, BufferPool.ValidBut, Holding, Settled, View, PageOk, Scan;
      if !pinnedPageId.IsValid() || currentPageNum != pinnedPageId.num { TurnPage(); }
    }

    /** One page of next(): pin it if it is not the pinned one, look for a live slot, else go past it. */
    method Visit() returns (ok: bool)
      requires Pinning() && currentPageNum < totalPages && !rowCached && !exhausted
      modifies this, pool.Footprint()
      ensures Pinning() && fresh(pool.Footprint() - old(pool.Footprint())) && Files(pool) == old(Files(pool))
      ensures !rowCached && !exhausted
      ensures ok ==> Valid() && hasCurrent && old(Ahead()) == [currentTid] + Ahead()
      ensures !ok ==> currentPageNum == old(currentPageNum) + 1 && Ahead() == old(Ahead())
    {
      hide BufferPool.Footprint, Owned, BufferPool.Valid, BufferPool.ValidBut, Holding, Settled, View, PageOk,
           Records, DecodeRow, Scan, TableOf, TableIn, Live, Holds, Idle;
      PinCurrent();
      ok := FindLive();
      if !ok { PassPage(); }
    }

    method Finish()
      requires Pinning() && currentPageNum >= totalPages
      modifies this`pinnedPageId, this`currentPage, this`exhausted, this`hasCurrent, pool.Footprint()
      ensures Valid() && fresh(pool.Footprint() - old(pool.Footprint())) && Files(pool) == old(Files(pool))
      ensures Idle(pool) && !pinnedPageId.IsValid() && Ahead() == [] && old(Ahead()) == []
    {
      hide BufferPool.ValidBut, Holding, Settled, View, PageOk, Records;
      Drop();
      exhausted, hasCurrent := true, false;
    }

    /** Moves to the next live record; when there is none left the last pin is given back. */
    method Next() returns (ok: bool)
      requires Valid()
      modifies this, pool.Footprint()
      ensures Valid() && fresh(pool.Footprint() - old(pool.Footprint())) && Files(pool) == old(Files(pool))
      ensures ok <==> old(Ahead()) != []
      ensures ok ==> hasCurrent && currentTid == old(Ahead())[0] && Ahead() == old(Ahead())[1..]
      ensures !ok ==> Idle(pool) && !pinnedPageId.IsValid() && Ahead() == []
    {
      hide BufferPool.ValidBut, Holding, Settled, View, PageOk, Records, DecodeRow, Scan, TableOf;
      AtEnd();
      if exhausted { return false; }
      rowCached := false;
      while currentPageNum < totalPages
        invariant Pinning() && fresh(pool.Footprint() - old(pool.Footprint())) && Files(pool) == old(Files(pool))
        invariant Ahead() == old(Ahead()) && !rowCached && !exhausted
      {
        ok := Visit();
        if ok { return; }
      }
      Finish();
      return false;
    }

    /** The record at the current position, decoded. */
    method ReadRow() returns (row: Row)
      requires Valid() && hasCurrent
      ensures row == DecodeRow(At(Contents(), currentTid), schema)
    {
      hide BufferPool.Footprint, Owned, BufferPool.Valid, BufferPool.ValidBut, Holding, Settled, View, PageOk,
           Records, DecodeRow, TableIn;
      HeldPage(pool, pinnedPageId, frame, currentPage);
      var r := currentPage.GetRecord(currentTid.slot);
      row := RowSerializer.Deserialize(r.value, schema);
    }

    /** The row at the current position, decoded once. */
    method CurrentRow() returns (row: Row)
      requires Valid()
      modifies this`currentRow, this`rowCached
      ensures Valid() && row == currentRow
      ensures hasCurrent ==> row == DecodeRow(At(Contents(), currentTid), schema)
    {
      hide BufferPool.Valid, BufferPool.ValidBut, Holding, Settled, View, PageOk, DecodeRow, Scan, Records, TableIn,
           Live, InRange;
      if !rowCached && hasCurrent {
        currentRow := ReadRow();
        rowCached := true;
      }
      return currentRow;
    }
  }
}
