/** Clients of the pool: fetch a page, read or write it through one pin, and unpin it before the next fetch. */
module PinnedPages {
  import opened Wrappers
  import opened Bytes
  import opened PageImages
  import opened Pages
  import opened Disks
  import opened PoolModel
  import opened PoolInvariant
  import opened BufferPools
  import opened Rows
  import opened TableStores

  ghost function Files(pool: BufferPool): Store
    reads pool
  {
    View(pool.state)
  }

  ghost predicate Idle(pool: BufferPool)
    reads pool, pool.pm, Owned(pool.frames), pool.replacer, pool.replacer.Repr
  {
    pool.Valid() && Settled(pool.state)
  }

  /** The bytes of the record area that no live record uses; compaction gives them back. */
  function Wasted(p: PageImage): int { PAGE_SIZE - p.header.upper - TotalLen(Records(p)) }

  /** Deleting a record and compacting leaves as many free bytes as the check of updateRow counts and the wasted ones
      besides: the check is never too generous, and right about every size exactly when nothing is wasted. */
  lemma RoomAfterCompaction(p: PageImage, slot: nat)
    requires PageOk(p) && slot < |Records(p)| && Records(p)[slot] != []
    ensures Formatted(p) && Wasted(p) >= 0
    ensures BODY_SIZE - 4 * |Records(p)| - TotalLen(Records(p)[slot := []])
            == FreeSpace(p) + |Records(p)[slot]| + Wasted(p)
  {
    FreeSpaceExact(p);
    TotalLenIsSize(p.body, Slots(p), p.header.upper);
    TotalLenUpdate(Records(p), slot, []);
  }

  /** The in-place branch of updateRow: delete, compact, insert. With the room check passed only an empty record
      fails. */
  method ReplaceOnPage(page: Page, slot: u16, r: Text) returns (ok: bool)
    requires page.Sized() && PageOk(page.Image()) && |r| <= 65535
    requires slot < |Records(page.Image())| && Records(page.Image())[slot] != []
    requires FreeSpace(page.Image()) + |Records(page.Image())[slot]| >= |r| + SLOT_SIZE
    modifies page, page.body
    ensures PageOk(page.Image()) && (ok <==> r != [])
    ensures Records(page.Image()) == old(Records(page.Image()))[slot := []] + if ok then [r] else []
  {
    hide Records, FreeSpace, TotalLen, Packed, Blank;
    RoomAfterCompaction(page.Image(), slot);
    var deleted := page.DeleteRecord(slot);
    page.Compact();
    var s := page.InsertRecord(r);
    return s.Some?;
  }

  /** One pin is held, on page pid in frame f, and `page` is that page, not yet written. */
  ghost predicate Holds(pool: BufferPool, pid: PageId, f: nat, page: Page)
    reads pool, pool.pm, Owned(pool.frames), pool.replacer, pool.replacer.Repr
  {
    && pool.Valid() && Holding(pool.state, pid, f)
    && pid.file in View(pool.state) && pid.num < |View(pool.state)[pid.file]|
    && f < |pool.frames| && page == pool.frames[f].page && page.Sized() && PageOk(page.Image())
  }

  /** The same pin, after the client wrote to the page. */
  ghost predicate Wrote(pool: BufferPool, pid: PageId, f: nat, page: Page)
    reads pool, pool.pm, Owned(pool.frames), pool.replacer, pool.replacer.Repr
  {
    && f < |pool.frames| && pool.ValidBut(f) && Holding(pool.state, pid, f)
    && pid.file in View(pool.state) && pid.num < |View(pool.state)[pid.file]|
    && page == pool.frames[f].page && page.Sized() && PageOk(page.Image())
  }

  method Fetch(pool: BufferPool, pid: PageId) returns (page: Page?, ghost f: nat)
    requires Idle(pool) && pid.file in Files(pool)
    modifies pool.Footprint()
    ensures pool.Footprint() == old(pool.Footprint()) && Files(pool) == old(Files(pool))
    ensures page == null <==> pid.num >= |Files(pool)[pid.file]|
    ensures if page == null then Idle(pool) else
              && Holds(pool, pid, f, page) && page.Sized() && page.Image() == Files(pool)[pid.file][pid.num]
  {
    hide Settled, Holding, BufferPool.ValidBut, View, Inv, PageOk, PoolModel.FetchPage;
    SettledIsInv(pool.state);
    FetchSettled(pool.state, pid);
    ghost var found := PoolModel.FetchPage(pool.state, pid).1;
    f := if found.Some? then found.value else 0;
    page := pool.FetchPage(pid);
    if page != null {
      HoldingIsInv(pool.state, pid, f);
      pool.ImageAt(f);
    }
  }

  /** A held page is the stored page. */
  lemma HeldPage(pool: BufferPool, pid: PageId, f: nat, page: Page)
    requires Holds(pool, pid, f, page)
    ensures page.Sized() && PageOk(page.Image()) && page.Image() == Files(pool)[pid.file][pid.num]
    ensures pid.num < |TableIn(Files(pool), pid.file)|
            && TableIn(Files(pool), pid.file)[pid.num] == Records(page.Image())
  {
    hide Records, FreeSpace;
    pool.ImageAt(f);
    ViewAt(pool.state, pid);
  }

  method UnpinRead(pool: BufferPool, pid: PageId, ghost f: nat, ghost page: Page)
    requires Holds(pool, pid, f, page)
    modifies pool.Footprint()
    ensures Idle(pool) && fresh(pool.Footprint() - old(pool.Footprint())) && Files(pool) == old(Files(pool))
  {
    hide Settled, Holding, BufferPool.ValidBut, PoolModel.UnpinPage, View, Inv, PageOk;
    HoldingIsInv(pool.state, pid, f);
    ReadDone(pool.state, pid, f);
    var ok := pool.UnpinPage(pid, false);
  }

  /** After the unpin the store holds what the client wrote through the pin. */
  method UnpinWritten(pool: BufferPool, pid: PageId, ghost f: nat, ghost page: Page)
    requires Wrote(pool, pid, f, page)
    modifies pool.Footprint()
    ensures Idle(pool) && fresh(pool.Footprint() - old(pool.Footprint()))
    ensures Files(pool) == SetPage(old(Files(pool)), pid, old(page.Image()))
            && OnlyFile(old(Files(pool)), Files(pool), pid.file)
    ensures TableIn(Files(pool), pid.file) == old(TableIn(Files(pool), pid.file))[pid.num := Records(old(page.Image()))]
  {
    hide Settled, Holding, BufferPool.ValidBut, PoolModel.UnpinPage, WriteFrame, View, SetPage, OnlyFile, TableIn,
         Inv, PageOk, Clean, Records;
    HoldingIsInv(pool.state, pid, f);
    WriteDone(pool.state, pid, f, page.Image());
    pool.PageWritten(f);
    var ok := pool.UnpinPage(pid, true);
  }

  /** insertRecord on the pinned page. */
  method InsertInto(pool: BufferPool, page: Page, r: Text, ghost pid: PageId, ghost f: nat) returns (slot: Option<u16>)
    requires Holds(pool, pid, f, page) && page.Sized() && |r| < 65532
    modifies pool.Footprint()
    ensures pool.Footprint() == old(pool.Footprint()) && pool.state == old(pool.state) && page.Sized()
    ensures slot.Some? <==> r != [] && |r| + SLOT_SIZE <= FreeSpace(old(page.Image()))
    ensures slot.Some? ==> Wrote(pool, pid, f, page) && Records(page.Image()) == old(Records(page.Image())) + [r]
    ensures slot.None? ==> Holds(pool, pid, f, page)
  {
    hide Settled, Holding, BufferPool.Valid, BufferPool.ValidBut, Records, FreeSpace, Formatted, Blank;
    OwnedAt(pool.frames, f);
    slot := page.InsertRecord(r);
    pool.OnlyPageChanged(f);
  }

  /** insertRecord, once the caller has compared the free space with what the record needs. */
  method InsertIfRoom(pool: BufferPool, page: Page, r: Text, ghost pid: PageId, ghost f: nat) returns (ok: bool)
    requires Holds(pool, pid, f, page) && page.Sized() && |r| < 65532
    modifies pool.Footprint()
    ensures pool.Footprint() == old(pool.Footprint()) && pool.state == old(pool.state) && page.Sized()
    ensures ok <==> r != [] && |r| + SLOT_SIZE <= FreeSpace(old(page.Image()))
    ensures ok ==> Wrote(pool, pid, f, page) && Records(page.Image()) == old(Records(page.Image())) + [r]
    ensures !ok ==> Holds(pool, pid, f, page)
  {
    hide Settled, Holding, BufferPool.Valid, BufferPool.ValidBut, Records, FreeSpace, PageOk, View;
    var free := page.GetFreeSpace();
    if free < |r| + SLOT_SIZE { return false; }
    var slot := InsertInto(pool, page, r, pid, f);
    return slot.Some?;
  }

  /** A freshly allocated page comes pinned and empty, unless the file is full. */
  method NewPage(pool: BufferPool, file: FileId) returns (page: Page?, pid: PageId, ghost f: nat)
    requires Idle(pool) && file in Files(pool)
    modifies pool.Footprint()
    ensures pool.Footprint() == old(pool.Footprint())
    ensures page == null <==> |old(Files(pool))[file]| == INVALID_ID
    ensures if page == null then Idle(pool) && Files(pool) == old(Files(pool))
            else
              && pid == PageId(file, |old(Files(pool))[file]|) && Holds(pool, pid, f, page) && page.Sized()
              && Records(page.Image()) == [] && FreeSpace(page.Image()) == BODY_SIZE
              && OnlyFile(old(Files(pool)), Files(pool), file) && |Files(pool)[file]| == |old(Files(pool))[file]| + 1
              && TableIn(Files(pool), file) == old(TableIn(Files(pool), file)) + [[]]
  {
    hide Settled, Holding, BufferPool.ValidBut, View, OnlyFile, TableIn, AppendPage, Inv, PageOk, FreshPage,
         Records, FreeSpace, PoolModel.NewPage;
    SettledIsInv(pool.state);
    NewSettled(pool.state, file);
    ghost var made := PoolModel.NewPage(pool.state, file).1;
    f := if made.Some? then made.value.1 else 0;
    page, pid := pool.NewPage(file);
    if page != null {
      HoldingIsInv(pool.state, pid, f);
      pool.ImageAt(f);
    }
  }

  /** The replacement of a live record through the pin. */
  method RewriteFound(pool: BufferPool, page: Page, slot: u16, r: Text, ghost pid: PageId, ghost f: nat)
    requires Holds(pool, pid, f, page) && page.Sized() && |r| <= 65535
    requires slot < |Records(page.Image())| && Records(page.Image())[slot] != []
    requires FreeSpace(page.Image()) + |Records(page.Image())[slot]| >= |r| + SLOT_SIZE
    modifies pool.Footprint()
    ensures pool.Footprint() == old(pool.Footprint()) && pool.state == old(pool.state) && page.Sized()
    ensures Wrote(pool, pid, f, page)
    ensures Records(page.Image()) == Records(old(page.Image()))[slot := []] + if r != [] then [r] else []
  {
    hide Settled, Holding, BufferPool.Valid, BufferPool.ValidBut, Records, FreeSpace, Formatted, Blank;
    OwnedAt(pool.frames, f);
    var ok := ReplaceOnPage(page, slot, r);
    pool.OnlyPageChanged(f);
  }

  /** What updateRow does to the page of the record it found: nothing, or the replacement when there is room. */
  method RewriteIfRoom(pool: BufferPool, page: Page, slot: u16, r: Text, ghost pid: PageId, ghost f: nat)
    returns (found: bool, done: bool)
    requires Holds(pool, pid, f, page) && page.Sized() && |r| <= 65535
    modifies pool.Footprint()
    ensures pool.Footprint() == old(pool.Footprint()) && pool.state == old(pool.state) && page.Sized()
    ensures found <==> slot < |Records(old(page.Image()))| && Records(old(page.Image()))[slot] != []
    ensures done <==> found && FreeSpace(old(page.Image())) + |Records(old(page.Image()))[slot]| >= |r| + SLOT_SIZE
    ensures if done
            then Wrote(pool, pid, f, page)
                 && Records(page.Image()) == Records(old(page.Image()))[slot := []] + if r != [] then [r] else []
            else Holds(pool, pid, f, page)
  {
    hide Settled, Holding, BufferPool.Valid, BufferPool.ValidBut, View, Records, FreeSpace, PageOk;
    var was := page.GetRecord(slot);
    if was.None? { return false, false; }
    var free := page.GetFreeSpace();
    if free + |was.value| < |r| + SLOT_SIZE { return true, false; }
    RewriteFound(pool, page, slot, r, pid, f);
    return true, true;
  }

  /** deleteRecord on the pinned page. */
  method RemoveFrom(pool: BufferPool, page: Page, slot: u16, ghost pid: PageId, ghost f: nat)
    requires Holds(pool, pid, f, page) && page.Sized()
    modifies pool.Footprint()
    ensures pool.Footprint() == old(pool.Footprint()) && pool.state == old(pool.state) && Wrote(pool, pid, f, page)
    ensures Records(page.Image()) ==
            var rs := old(Records(page.Image())); if slot < |rs| then rs[slot := []] else rs
  {
    hide Settled, Holding, BufferPool.Valid, BufferPool.ValidBut, Records, FreeSpace, Formatted, Blank;
    OwnedAt(pool.frames, f);
    var ok := page.DeleteRecord(slot);
    pool.OnlyPageChanged(f);
  }
}
