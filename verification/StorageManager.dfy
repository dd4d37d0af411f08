/** Rows in table files: where an insert goes, when an update moves a row, and what every other row sees of it. */
module StorageManagers {
  import opened Wrappers
  import opened Bytes
  import opened PageImages
  import opened Pages
  import opened Disks
  import opened PageManagers
  import opened PoolModel
  import opened PoolInvariant
  import opened BufferPools
  import opened Rows
  import opened RowSerializer
  import opened HeapTables
  import opened TableListings
  import opened TableStores
  import opened PinnedPages
  import opened TableIterators
  import C = CatalogCodec
  import L = LruLists

  const MAX_RECORD: nat := 4028

  /** The room check of insertRowInternal on the last page. */
  predicate FitsLast(pages: seq<PageImage>, r: Text) {
    pages != [] && r != [] && FreeSpace(pages[|pages| - 1]) >= |r| + SLOT_SIZE
  }

  /** The page an insert goes to: the last one if the record fits there, else a new one. */
  function InsertPage(pages: seq<PageImage>, r: Text): (n: nat)
    ensures n <= |pages|
  {
    if FitsLast(pages, r) then |pages| - 1 else |pages|
  }

  /** An insert succeeds for records a fresh page can hold, while the file can grow or its last page has room. */
  predicate Insertable(pages: seq<PageImage>, r: Text) {
    FitsLast(pages, r) || (1 <= |r| <= MAX_RECORD && |pages| < INVALID_ID)
  }

  /** What a failed insert leaves: the fresh page it could not use. */
  function AfterFailedInsert(pages: seq<PageImage>): Table {
    if |pages| < INVALID_ID then TableOf(pages) + [[]] else TableOf(pages)
  }

  /** Sizes 65532 to 65535 pass the 16-bit check of the callers but not that of Page.InsertRecord. */
  predicate NoWrap(r: Text) { |r| < 65532 || |r| > 65535 }

  lemma InsertPlace(pages: seq<PageImage>, r: Text)
    ensures pages == [] ==> !FitsLast(pages, r)
    ensures FitsLast(pages, r) ==> pages != [] && Insertable(pages, r) && InsertPage(pages, r) == |pages| - 1
    ensures !FitsLast(pages, r) ==> InsertPage(pages, r) == |pages|
    ensures !FitsLast(pages, r) ==> (Insertable(pages, r) <==> 1 <= |r| <= MAX_RECORD && |pages| < INVALID_ID)
  {
  }

  // ----- updates

  /** The room check of updateRow: the record fits on its own page once the old one is gone. */
  predicate InPlace(pages: seq<PageImage>, id: Tid, r: Text)
    requires InRange(TableOf(pages), id)
  {
    FreeSpace(pages[id.page]) + |At(TableOf(pages), id)| >= |r| + SLOT_SIZE
  }

  /** When an update of a live record succeeds. */
  predicate Updatable(pages: seq<PageImage>, id: Tid, r: Text)
    requires InRange(TableOf(pages), id)
  {
    if InPlace(pages, id, r) then r != [] else Insertable(pages, r)
  }

  /** The page it puts the record on. */
  function UpdatePage(pages: seq<PageImage>, id: Tid, r: Text): (n: nat)
    requires InRange(TableOf(pages), id)
    ensures n <= |pages|
  {
    if InPlace(pages, id, r) then id.page else InsertPage(pages, r)
  }

  /** The table after an update that failed: as it was, or with one more empty page, or without an emptied record. */
  predicate AfterFailedUpdate(t: Table, u: Table, id: Tid, r: Text) {
    u == t || u == t + [[]] || (r == [] && InRange(t, id) && u == Clear(t, id))
  }

  lemma PageBounds(p: PageImage)
    requires PageOk(p)
    ensures FreeSpace(p) <= BODY_SIZE
    ensures forall s :: 0 <= s < |Records(p)| ==> |Records(p)[s]| <= BODY_SIZE
  {
    FreeSpaceExact(p);
    forall s | 0 <= s < |Records(p)|
      ensures |Records(p)[s]| <= BODY_SIZE
    {
      TotalLenAt(Records(p), s);
      TotalLenIsSize(p.body, Slots(p), p.header.upper);
    }
  }

  /** Records too long for a 16-bit size fit nowhere, so refusing them early changes nothing. */
  lemma TooLong(pages: seq<PageImage>, id: Tid, r: Text)
    requires PagesOk(pages) && |r| > 65535
    ensures !Insertable(pages, r)
    ensures InRange(TableOf(pages), id) ==> !Updatable(pages, id, r)
  {
    hide Records, FreeSpace, PageOk;
    if pages != [] { PageBounds(pages[|pages| - 1]); }
    if InRange(TableOf(pages), id) { PageBounds(pages[id.page]); }
  }

  /** An update succeeds for every record a page can hold while the file can grow, and only for such records. */
  lemma UpdatableSize(pages: seq<PageImage>, id: Tid, r: Text)
    requires PagesOk(pages) && Live(TableOf(pages), id)
    ensures Updatable(pages, id, r) ==> 1 <= |r| <= MAX_RECORD
    ensures 1 <= |r| <= MAX_RECORD && |pages| < INVALID_ID ==> Updatable(pages, id, r)
  {
    var p := pages[id.page];
    FreeSpaceExact(p);
    TotalLenIsSize(p.body, Slots(p), p.header.upper);
    TotalLenAt(Records(p), id.slot);
    if FitsLast(pages, r) { FreeSpaceExact(pages[|pages| - 1]); }
  }

  /** The bytes of a page body that its slots and records take up, those lost since the last compaction included; a
      page that was never formatted has no room. */
  function Used(p: PageImage): int {
    if Blank(p) then BODY_SIZE else 4 * |Records(p)| + TotalLen(Records(p)) + Wasted(p)
  }

  lemma FreeIsUnused(p: PageImage)
    requires PageOk(p)
    ensures FreeSpace(p) == BODY_SIZE - Used(p)
  {
    FreeSpaceExact(p);
    SlotCountIs(p);
  }

  /** An insert goes to the last page exactly when the record and its slot still fit there, and to a new one
      otherwise. */
  lemma InsertGoesTo(pages: seq<PageImage>, r: Text)
    requires PagesOk(pages) && Insertable(pages, r)
    ensures InsertPage(pages, r)
            == if pages != [] && Used(pages[|pages| - 1]) + |r| + 4 <= BODY_SIZE then |pages| - 1 else |pages|
  {
    hide Records, FreeSpace, PageOk, TotalLen, Used;
    if pages != [] { FreeIsUnused(pages[|pages| - 1]); }
  }

  /** An update stays on its page exactly when that holds for the page without the old record. */
  lemma UpdateGoesTo(pages: seq<PageImage>, id: Tid, r: Text)
    requires PagesOk(pages) && Live(TableOf(pages), id) && Updatable(pages, id, r)
    ensures UpdatePage(pages, id, r) == id.page
            <==> Used(pages[id.page]) - |At(TableOf(pages), id)| + |r| + 4 <= BODY_SIZE
  {
    hide Records, FreeSpace, PageOk, TotalLen, Used;
    FreeIsUnused(pages[id.page]);
  }

  // ----- what the operations do to the listing

  lemma InsertListing(t: Table, pages: seq<PageImage>, r: Text)
    requires t == TableOf(pages) && Insertable(pages, r)
    ensures Listing(Add(t, InsertPage(pages, r), r)) == Listing(t) + [(Added(t, InsertPage(pages, r)), r)]
  {
    hide Listing;
    AppendListing(t, InsertPage(pages, r), r);
  }

  lemma FailedListing(t: Table, u: Table)
    requires u == t || u == t + [[]]
    ensures Listing(u) == Listing(t)
  {
    hide Listing;
    EmptyPageListing(t);
  }

  /** An insert appends the record to the listing; a failed one leaves the listing as it was. */
  ghost predicate Appended(t: Table, u: Table, n: nat, r: Text, ok: bool)
    requires n <= |t|
  {
    && Listing(u) == (if ok then Listing(t) + [(Added(t, n), r)] else Listing(t))
    && if ok then u == Add(t, n, r) else u == t || u == t + [[]]
  }

  /** An update takes the record of that TID out of the listing and puts the new one where it belongs in the scan; a
      failed one leaves the listing as it was, but for an in-place update to an empty record, which loses the old
      one. */
  ghost predicate Exchanged(t: Table, u: Table, pages: seq<PageImage>, id: Tid, r: Text, ok: bool) {
    if ok
    then InRange(TableOf(pages), id) && var n := UpdatePage(pages, id, r);
         n <= |t| && Listing(u) == Without(Placed(Listing(t), (Added(t, n), r)), id)
    else Listing(u) == Listing(t) || (r == [] && Listing(u) == Without(Listing(t), id))
  }

  lemma FailedInsertIs(pages: seq<PageImage>)
    ensures AfterFailedInsert(pages) == TableOf(pages) || AfterFailedInsert(pages) == TableOf(pages) + [[]]
  {
  }

  lemma InsertIsAppend(t: Table, u: Table, pages: seq<PageImage>, r: Text, ok: bool)
    requires t == TableOf(pages) && ok == Insertable(pages, r)
    requires if ok then u == Add(t, InsertPage(pages, r), r) else u == t || u == t + [[]]
    ensures Appended(t, u, InsertPage(pages, r), r, ok)
  {
    hide Listing, Add, Added, Insertable, InsertPage;
    if ok { InsertListing(t, pages, r); } else { FailedListing(t, u); }
  }

  /** What an update does to a table: it succeeds exactly for a live record whose replacement fits, and then the old
      record is cleared and the new one added. */
  ghost predicate Updated(t: Table, u: Table, pages: seq<PageImage>, id: Tid, r: Text, ok: bool)
    requires t == TableOf(pages)
  {
    && (ok <==> Live(t, id) && Updatable(pages, id, r))
    && (if ok then u == Rewritten(t, UpdatePage(pages, id, r), r, id) else AfterFailedUpdate(t, u, id, r))
    && Exchanged(t, u, pages, id, r, ok)
  }

  lemma UpdateIsExchange(t: Table, u: Table, pages: seq<PageImage>, id: Tid, r: Text, ok: bool)
    requires t == TableOf(pages) && (ok <==> Live(t, id) && Updatable(pages, id, r))
    requires if ok then u == Rewritten(t, UpdatePage(pages, id, r), r, id) else AfterFailedUpdate(t, u, id, r)
    ensures Updated(t, u, pages, id, r, ok)
  {
    hide Listing, Add, Added, Placed, Without, UpdatePage, Updatable;
    if ok {
      UpdatableNonEmpty(pages, id, r);
      UpdateListing(t, UpdatePage(pages, id, r), r, id);
    } else if u == t || u == t + [[]] {
      FailedListing(t, u);
    } else {
      ClearListing(t, id);
    }
  }

  lemma UpdatableNonEmpty(pages: seq<PageImage>, id: Tid, r: Text)
    requires InRange(TableOf(pages), id) && Updatable(pages, id, r)
    ensures r != []
  {
  }

  lemma DeleteIsRemoval(t: Table, id: Tid)
    ensures Without(Listing(t), id) == Listing(if InRange(t, id) then Clear(t, id) else t)
  {
    hide Listing, Without, Clear;
    if InRange(t, id) { ClearListing(t, id); } else { NothingToClear(t, id); }
  }

  class StorageManager {
    const pm: PageManager
    const pool: BufferPool
    var schemas: map<Text, Schema>
    var fileIds: map<Text, FileId>

    ghost predicate Valid()
      reads pool, pool.pm, Owned(pool.frames), pool.replacer, pool.replacer.Repr
    {
      Idle(pool) && pool.pm == pm
    }

    ghost function Table(file: FileId): Table
      requires file in Files(pool)
      reads pool
    {
      TableIn(Files(pool), file)
    }

    constructor (disk: Disk, poolSize: nat, oldPct: int)
      requires poolSize >= 1 && DiskOk(disk) && AllPagesOk(DiskView(disk))
      ensures Valid() && Files(pool) == DiskView(disk) && fresh(pool.Footprint())
      ensures schemas == map[] && fileIds == map[]
    {
      hide Settled, Initial, BufferPool.ValidBut, View, AllPagesOk, DiskView;
      var pages := new PageManager(disk);
      var frames := new BufferPool(pages, poolSize, oldPct);
      pm, pool, schemas, fileIds := pages, frames, map[], map[];
      L.TargetOldSizeBounds(poolSize, oldPct);
      InitialSettled(poolSize, frames.replacer.targetOldSize, disk);
    }

    // ----- inserting

    method InsertRowInternal(file: FileId, r: Text) returns (ok: bool)
      requires Valid() && file in Files(pool) && |r| < 65532
      modifies pool.Footprint()
      ensures Valid() && fresh(pool.Footprint() - old(pool.Footprint()))
              && OnlyFile(old(Files(pool)), Files(pool), file)
      ensures ok == Insertable(old(Files(pool))[file], r)
      ensures Table(file) ==
              if ok then Add(old(Table(file)), InsertPage(old(Files(pool))[file], r), r)
              else AfterFailedInsert(old(Files(pool))[file])
    {
      hide BufferPool.ValidBut, Settled, View, TableIn, OnlyFile, Insertable, InsertPage, FitsLast, Add,
           AfterFailedInsert;
      FilePages(file);
      InsertPlace(Files(pool)[file], r);
      var n := pm.PageCount(file);
      if n > 0 {
        ok := TryLast(file, n, r);
        if ok { return; }
      }
      ok := InsertOnNewPage(file, r);
    }

    lemma FilePages(file: FileId)
      requires Valid() && file in Files(pool)
      ensures file in pm.disk.files && |pm.disk.files[file]| == |Files(pool)[file]|
    {
    }

    /** The first half of an insert: use the last page when it has room. */
    method TryLast(file: FileId, n: u32, r: Text) returns (ok: bool)
      requires Valid() && file in Files(pool) && n == |Files(pool)[file]| && n > 0 && |r| < 65532
      modifies pool.Footprint()
      ensures Valid() && fresh(pool.Footprint() - old(pool.Footprint()))
              && OnlyFile(old(Files(pool)), Files(pool), file)
      ensures ok == FitsLast(old(Files(pool))[file], r)
      ensures if ok then Table(file) == Add(old(Table(file)), n - 1, r) else Files(pool) == old(Files(pool))
    {
      hide BufferPool.ValidBut, Settled, Holding, PageOk, View, SetPage, OnlyFile, Records, FreeSpace;
      SameFiles(Files(pool), file);
      var pid := PageId(file, n - 1);
      var page, f := Fetch(pool, pid);
      ok := InsertIfRoom(pool, page, r, pid, f);
      if ok {
        UnpinWritten(pool, pid, f, page);
      } else {
        UnpinRead(pool, pid, f, page);
      }
    }

    /** The second half: a new page, which stays in the file even when the record does not fit on it. */
    method InsertOnNewPage(file: FileId, r: Text) returns (ok: bool)
      requires Valid() && file in Files(pool) && |r| < 65532
      modifies pool.Footprint()
      ensures Valid() && fresh(pool.Footprint() - old(pool.Footprint()))
              && OnlyFile(old(Files(pool)), Files(pool), file)
      ensures ok <==> 1 <= |r| <= MAX_RECORD && |old(Files(pool))[file]| < INVALID_ID
      ensures Table(file) ==
              if ok then Add(old(Table(file)), |old(Files(pool))[file]|, r)
              else AfterFailedInsert(old(Files(pool))[file])
    {
      hide BufferPool.ValidBut, Settled, Holding, PageOk, View, SetPage, OnlyFile, Records, FreeSpace;
      SameFiles(Files(pool), file);
      var page, pid, f := PinnedPages.NewPage(pool, file);
      if page == null { return false; }
      var slot := InsertInto(pool, page, r, pid, f);
      if slot.None? {
        UnpinRead(pool, pid, f, page);
        return false;
      }
      ghost var mid := Files(pool);
      AddOnNewPage(old(Table(file)), [], r);
      UnpinWritten(pool, pid, f, page);
      OnlyFileTwice(old(Files(pool)), mid, Files(pool), file);
      return true;
    }

    // ----- updating and deleting

    /** Fetches a page, clears one of its slots and unpins it dirty, whether or not the slot was live. */
    method RemoveRecord(file: FileId, id: Tid) returns (ok: bool)
      requires Valid() && file in Files(pool) && id.page < 0x1_0000_0000 && id.slot < 0x1_0000
      modifies pool.Footprint()
      ensures Valid() && fresh(pool.Footprint() - old(pool.Footprint()))
              && OnlyFile(old(Files(pool)), Files(pool), file)
      ensures ok <==> id.page < |old(Table(file))|
      ensures Table(file) == var t := old(Table(file)); if InRange(t, id) then Clear(t, id) else t
    {
      hide BufferPool.ValidBut, Settled, Holding, PageOk, View, SetPage, OnlyFile, Records;
      SameFiles(Files(pool), file);
      var pid := PageId(file, id.page);
      var page, f := Fetch(pool, pid);
      if page == null { return false; }
      RemoveFrom(pool, page, id.slot, pid, f);
      UnpinWritten(pool, pid, f, page);
      return true;
    }

    /** The migrating branch of updateRow: insert elsewhere, then delete the old record. */
    method MoveRecord(file: FileId, id: Tid, r: Text) returns (ok: bool)
      requires Valid() && file in Files(pool) && |r| < 65532
      requires id.page < 0x1_0000_0000 && id.slot < 0x1_0000 && InRange(Table(file), id)
      modifies pool.Footprint()
      ensures Valid() && fresh(pool.Footprint() - old(pool.Footprint()))
              && OnlyFile(old(Files(pool)), Files(pool), file)
      ensures ok == Insertable(old(Files(pool))[file], r)
      ensures Table(file) ==
              if ok then Rewritten(old(Table(file)), InsertPage(old(Files(pool))[file], r), r, id)
              else AfterFailedInsert(old(Files(pool))[file])
    {
      hide BufferPool.ValidBut, Settled, View, OnlyFile, Add, Clear, AfterFailedInsert, Insertable, InsertPage, At;
      AddKeeps(Table(file), InsertPage(Files(pool)[file], r), r, id);
      ok := InsertRowInternal(file, r);
      if !ok { return; }
      ghost var mid := Files(pool);
      OnlyFileHas(old(Files(pool)), mid, file);
      var removed := RemoveRecord(file, id);
      OnlyFileTwice(old(Files(pool)), mid, Files(pool), file);
    }

    method UpdateRecord(file: FileId, id: Tid, r: Text) returns (ok: bool)
      requires Valid() && file in Files(pool) && |r| < 65532
      requires id.page < 0x1_0000_0000 && id.slot < 0x1_0000
      modifies pool.Footprint()
      ensures Valid() && fresh(pool.Footprint() - old(pool.Footprint()))
              && OnlyFile(old(Files(pool)), Files(pool), file)
      ensures ok <==> Live(old(Table(file)), id) && Updatable(old(Files(pool))[file], id, r)
      ensures if ok then Table(file) == Rewritten(old(Table(file)), UpdatePage(old(Files(pool))[file], id, r), r, id)
              else AfterFailedUpdate(old(Table(file)), Table(file), id, r)
    {
      hide BufferPool.ValidBut, Settled, Holding, PageOk, View, SetPage, OnlyFile, Records, FreeSpace, Insertable,
           InsertPage;
      SameFiles(Files(pool), file);
      var pid := PageId(file, id.page);
      var page, f := Fetch(pool, pid);
      if page == null { return false; }
      var found, done := RewriteIfRoom(pool, page, id.slot, r, pid, f);
      if done {
        ReplaceOnPageIs(Table(file), id, r, Records(page.Image()));
        UnpinWritten(pool, pid, f, page);
        return r != [];
      }
      UnpinRead(pool, pid, f, page);
      if !found { return false; }
      ok := MoveRecord(file, id, r);
    }

    // ----- rows

    /** A record of any size but the four that wrap: the check of the callers against 16 bits, then the insert. */
    method InsertBytes(file: FileId, r: Text) returns (ok: bool)
      requires Valid() && file in Files(pool) && NoWrap(r)
      modifies pool.Footprint()
      ensures Valid() && fresh(pool.Footprint() - old(pool.Footprint()))
              && OnlyFile(old(Files(pool)), Files(pool), file)
      ensures ok == Insertable(old(Files(pool))[file], r)
      ensures Appended(old(Table(file)), Table(file), InsertPage(old(Files(pool))[file], r), r, ok)
    {
      hide BufferPool.ValidBut, Settled, View, OnlyFile, Add, Insertable, InsertPage, Appended, AfterFailedInsert;
      SameFiles(Files(pool), file);
      if |r| > 65535 {
        SettledPages(pool.state, file);
        TooLong(Files(pool)[file], Tid(0, 0), r);
        InsertIsAppend(Table(file), Table(file), Files(pool)[file], r, false);
        return false;
      }
      ok := InsertRowInternal(file, r);
      OnlyFileHas(old(Files(pool)), Files(pool), file);
      FailedInsertIs(old(Files(pool))[file]);
      InsertIsAppend(old(Table(file)), Table(file), old(Files(pool))[file], r, ok);
    }

    method InsertRow(name: Text, row: Row, schema: Schema) returns (ok: bool)
      requires Valid() && Encodable(row, schema) && NoWrap(EncodeRow(AsColumns(row, schema)))
      requires name in fileIds ==> fileIds[name] in Files(pool)
      modifies pool.Footprint()
      ensures Valid() && fresh(pool.Footprint() - old(pool.Footprint()))
      ensures old(name !in fileIds) ==> !ok && Files(pool) == old(Files(pool))
      ensures old(name in fileIds) ==>
                var file, r := old(fileIds[name]), EncodeRow(AsColumns(row, schema));
                && OnlyFile(old(Files(pool)), Files(pool), file)
                && ok == Insertable(old(Files(pool))[file], r)
                && Appended(old(Table(file)), Table(file), InsertPage(old(Files(pool))[file], r), r, ok)
    {
      hide BufferPool.ValidBut, Settled, View, OnlyFile, Insertable, InsertPage, Appended, Encodable, AsColumns,
           EncodeRow, NoWrap;
      if name !in fileIds { return false; }
      var r := RowSerializer.Serialize(row, schema);
      ok := InsertBytes(fileIds[name], r);
    }

    method UpdateBytes(file: FileId, id: Tid, r: Text) returns (ok: bool)
      requires Valid() && file in Files(pool) && NoWrap(r)
      requires id.page < 0x1_0000_0000 && id.slot < 0x1_0000
      modifies pool.Footprint()
      ensures Valid() && fresh(pool.Footprint() - old(pool.Footprint()))
              && OnlyFile(old(Files(pool)), Files(pool), file)
      ensures Updated(old(Table(file)), Table(file), old(Files(pool))[file], id, r, ok)
    {
      hide BufferPool.ValidBut, Settled, View, OnlyFile, Updatable, UpdatePage, Updated;
      SameFiles(Files(pool), file);
      if |r| > 65535 {
        SettledPages(pool.state, file);
        TooLong(Files(pool)[file], id, r);
        UpdateIsExchange(Table(file), Table(file), Files(pool)[file], id, r, false);
        return false;
      }
      ok := UpdateRecord(file, id, r);
      OnlyFileHas(old(Files(pool)), Files(pool), file);
      UpdateIsExchange(old(Table(file)), Table(file), old(Files(pool))[file], id, r, ok);
    }

    method UpdateRow(file: FileId, id: Tid, row: Row, schema: Schema) returns (ok: bool)
      requires Valid() && file in Files(pool) && Encodable(row, schema) && NoWrap(EncodeRow(AsColumns(row, schema)))
      requires id.page < 0x1_0000_0000 && id.slot < 0x1_0000
      modifies pool.Footprint()
      ensures Valid() && fresh(pool.Footprint() - old(pool.Footprint()))
              && OnlyFile(old(Files(pool)), Files(pool), file)
      ensures Updated(old(Table(file)), Table(file), old(Files(pool))[file], id, EncodeRow(AsColumns(row, schema)), ok)
    {
      hide BufferPool.ValidBut, Settled, View, OnlyFile, Encodable, AsColumns, EncodeRow, NoWrap, Updated;
      var r := RowSerializer.Serialize(row, schema);
      ok := UpdateBytes(file, id, r);
    }

    /** Reports success for every existing page, even when the record was already gone. */
    method DeleteRow(file: FileId, id: Tid) returns (ok: bool)
      requires Valid() && file in Files(pool) && id.page < 0x1_0000_0000 && id.slot < 0x1_0000
      modifies pool.Footprint()
      ensures Valid() && fresh(pool.Footprint() - old(pool.Footprint()))
              && OnlyFile(old(Files(pool)), Files(pool), file)
      ensures ok <==> id.page < |old(Table(file))|
      ensures Table(file) == var t := old(Table(file)); if InRange(t, id) then Clear(t, id) else t
      ensures Listing(Table(file)) == Without(old(Listing(Table(file))), id)
    {
      hide BufferPool.ValidBut, Settled, View, OnlyFile, TableIn, Clear, InRange, Listing, Without;
      DeleteIsRemoval(Table(file), id);
      ok := RemoveRecord(file, id);
    }

    /** A scan from the start of the table, or null for a table the storage does not know. */
    method CreateIterator(name: Text) returns (it: HeapTableIterator?)
      requires Valid() && (name in fileIds ==> fileIds[name] in Files(pool))
      ensures it == null <==> name !in fileIds || name !in schemas
      ensures it != null ==>
                && fresh(it) && it.Valid() && it.pool == pool && it.file == fileIds[name] && it.schema == schemas[name]
                && it.Ahead() == Scan(Table(it.file), 0, 0)
    {
      hide Settled, View, Scan;
      if name !in fileIds || name !in schemas { return null; }
      var file := fileIds[name];
      FilePages(file);
      var n := pm.PageCount(file);
      it := new HeapTableIterator(file, n, pool, schemas[name]);
    }

    // ----- catalog.meta

    /** Writes the schemas, in the order their map is iterated, and puts the result in place of the old file. */
    method SaveCatalogMeta(order: seq<C.Entry>) returns (file: seq<byte>)
      requires C.Lists(order, schemas) && |order| < 0x1_0000_0000 && forall i :: 0 <= i < |order| ==> C.Sized(order[i])
      ensures file == C.EncodeCatalog(order)
      ensures C.CatalogFits(order) ==> C.LoadCatalog(map[], file) == Some(schemas)
    {
      file := C.WriteCatalog(order);
      C.SaveLoad(map[], order, []);
      C.LoadsAll(order, schemas);
      assert file + [] == file;
    }

    /** A missing file is an empty catalog; a file that cannot be decoded changes nothing. */
    method LoadCatalogMeta(file: Option<seq<byte>>) returns (ok: bool)
      modifies this`schemas
      ensures file.None? ==> ok && schemas == old(schemas)
      ensures file.Some? ==> (ok <==> C.LoadCatalog(old(schemas), file.value).Some?)
      ensures file.Some? ==> schemas == if ok then C.LoadCatalog(old(schemas), file.value).value else old(schemas)
    {
      if file.None? { return true; }
      ok, schemas := C.ReadCatalog(schemas, file.value);
    }
  }
}
