/** The buffer pool as the source builds it: frame objects, a page table and a replacer over a page manager. */
module BufferPools {
  import opened Wrappers
  import opened Bytes
  import opened PageImages
  import opened Pages
  import opened Disks
  import opened PageManagers
  import opened LruReplacers
  import opened PoolModel
  import opened PoolInvariant
  import L = LruLists

  class FrameObj {
    const page: Page
    var pageId: PageId
    var pinCount: nat
    var isDirty: bool
    var state: FrameState

    constructor ()
      ensures fresh(page) && page.Sized() && fresh(page.body)
      ensures Value() == Frame(FreshPage(INVALID_PAGE_ID), INVALID_PAGE_ID, 0, false, Empty)
    {
      page := new Page();
      pageId, pinCount, isDirty, state := INVALID_PAGE_ID, 0, false, Empty;
    }

    ghost function Value(): Frame
      requires page.Sized()
      reads this, page, page.body
    {
      Frame(page.Image(), pageId, pinCount, isDirty, state)
    }
  }

  /** The frames of a pool do not share pages or buffers. */
  ghost predicate Separate(frames: seq<FrameObj>) {
    && (forall i :: 0 <= i < |frames| ==> frames[i].page.Sized())
    && (forall i, j :: 0 <= i < j < |frames| ==>
          frames[i] != frames[j] && frames[i].page != frames[j].page && frames[i].page.body != frames[j].page.body)
  }

  ghost function Owned(frames: seq<FrameObj>): set<object> {
    (set i | 0 <= i < |frames| :: frames[i] as object)
    + (set i | 0 <= i < |frames| :: frames[i].page as object)
    + (set i | 0 <= i < |frames| :: frames[i].page.body as object)
  }

  lemma OwnedAppend(fs: seq<FrameObj>, fr: FrameObj)
    ensures Owned(fs + [fr]) == Owned(fs) + {fr, fr.page, fr.page.body}
  {
    var gs := fs + [fr];
    forall x | x in Owned(fs)
      ensures x in Owned(gs)
    {
      var i :| 0 <= i < |fs| && (x == fs[i] || x == fs[i].page || x == fs[i].page.body);
      assert gs[i] == fs[i];
    }
    assert gs[|fs|] == fr;
  }

  /** A frame's objects are owned. */
  lemma OwnedAt(fs: seq<FrameObj>, i: nat)
    requires i < |fs|
    ensures fs[i] in Owned(fs) && fs[i].page in Owned(fs) && fs[i].page.body in Owned(fs)
  {
  }

  method MakeFrames(n: nat) returns (fs: seq<FrameObj>)
    ensures |fs| == n && Separate(fs) && fresh(Owned(fs))
    ensures forall i :: 0 <= i < n ==>
              fs[i].Value() == Frame(FreshPage(INVALID_PAGE_ID), INVALID_PAGE_ID, 0, false, Empty)
  {
    fs := [];
    while |fs| < n
      invariant |fs| <= n && Separate(fs) && fresh(Owned(fs))
      invariant forall i :: 0 <= i < |fs| ==>
                  fs[i].Value() == Frame(FreshPage(INVALID_PAGE_ID), INVALID_PAGE_ID, 0, false, Empty)
    {
      var fr := new FrameObj();
      OwnedAppend(fs, fr);
      forall i | 0 <= i < |fs|
        ensures fs[i] != fr && fs[i].page != fr.page && fs[i].page.body != fr.page.body
      {
        OwnedAt(fs, i);
      }
      fs := fs + [fr];
    }
  }

  /** A frame while its page is being read. */
  ghost function Begun(p: Pool, f: nat, pid: PageId): Pool
    requires f < |p.frames|
  {
    p.(frames := p.frames[f := Frame(p.frames[f].page, pid, 1, false, FrameState.Loading)], lru := L.Pin(p.lru, f))
  }

  /** The same frame afterwards. */
  ghost function Ended(p: Pool, f: nat, pid: PageId): Pool
    requires f < |p.frames|
  {
    var fr := p.frames[f];
    if OnDisk(p.disk, pid)
    then p.(frames := p.frames[f := fr.(page := ReadDisk(p.disk, pid), state := Ready)], table := p.table[pid := f])
    else p.(frames := p.frames[f := fr.(state := Empty, pins := 0)])
  }

  /** The states a frame goes through while a page is loaded add up to one step. */
  lemma LoadSteps(p: Pool, f: nat, pid: PageId)
    requires f < |p.frames|
    ensures Ended(Begun(p, f, pid), f, pid) == LoadInto(p, Some(f), pid).0
    ensures LoadInto(p, Some(f), pid).1.Some? <==> OnDisk(p.disk, pid)
  {
  }

  lemma EvictedInRange(p: Pool)
    requires Inv(p)
    ensures L.Evict(p.lru).1.Some? ==> L.Evict(p.lru).1.value < |p.frames|
  {
    L.EvictTakesLast(p.lru);
    var o := p.lru.Order();
    assert o != [] ==> o[|o| - 1] in o;
  }

  class BufferPool {
    const pm: PageManager
    const frames: seq<FrameObj>
    const replacer: LruReplacer
    var pageTable: map<PageId, nat>
    /** The pool as a value; Valid ties it to the objects. */
    ghost var state: Pool

    ghost function Footprint(): set<object>
      reads replacer
    {
      {this, pm} + Owned(frames) + replacer.Repr
    }

    ghost predicate Apart()
      reads replacer
    {
      && Separate(frames) && this !in replacer.Repr && pm !in replacer.Repr
      && (forall i :: 0 <= i < |frames| ==>
            && frames[i] !in replacer.Repr && frames[i].page !in replacer.Repr && frames[i].page.body !in replacer.Repr)
    }

    /** Everything but the page bytes in frame f agrees with `state`. */
    ghost predicate ValidBut(f: int)
      reads this, pm, Owned(frames), replacer, replacer.Repr
    {
      match state
      case Pool(values, table, lru, disk) =>
        && Apart() && replacer.Valid()
        && |values| == |frames|
        && (forall i :: 0 <= i < |frames| ==> frames[i].Value() == values[i].(page := frames[i].page.Image()))
        && (forall i :: 0 <= i < |frames| && i != f ==> frames[i].page.Image() == values[i].page)
        && table == pageTable && lru == replacer.Abs() && disk == pm.disk
    }

    ghost predicate Valid()
      reads this, pm, Owned(frames), replacer, replacer.Repr
    {
      ValidBut(-1)
    }

    constructor (pages: PageManager, poolSize: nat, oldPct: int)
      requires poolSize >= 1
      ensures Valid() && pm == pages && |frames| == poolSize && fresh(Footprint() - {pages})
      ensures state == Initial(poolSize, replacer.targetOldSize, pages.disk)
      ensures replacer.targetOldSize == L.TargetOldSize(poolSize, oldPct)
    {
      hide FreshPage, L.TargetOldSize;
      var fs := MakeFrames(poolSize);
      var lru := new LruReplacer(poolSize, oldPct);
      pm, frames, replacer, pageTable := pages, fs, lru, map[];
      state := Initial(poolSize, lru.targetOldSize, pages.disk);
    }

    // ----- flushing

    method FlushFrame(f: nat)
      requires Valid() && f < |frames|
      modifies this`state, pm, frames[f]
      ensures Valid() && state == PoolModel.FlushFrame(old(state), f)
    {
      var fr := frames[f];
      if fr.state != Ready || !fr.isDirty { return; }
      fr.isDirty := false;
      var ok := pm.WritePage(fr.pageId, fr.page);
      if !ok { fr.isDirty := true; }
      state := PoolModel.FlushFrame(state, f);
    }

    // ----- finding a frame

    method FindEmpty() returns (v: Option<nat>)
      requires Valid()
      ensures v == FirstEmpty(state.frames, 0)
    {
      for f := 0 to |frames|
        invariant FirstEmpty(state.frames, 0) == FirstEmpty(state.frames, f)
      {
        if frames[f].state == Empty { return Some(f); }
      }
      return None;
    }

    /** Flushes the victim, drops it from the page table and marks it empty. */
    method ReleaseFrame(f: nat)
      requires Valid() && f < |frames|
      modifies this, pm, frames[f]
      ensures Valid() && state == Release(old(state), f)
    {
      FlushFrame(f);
      pageTable := pageTable - {frames[f].pageId};
      frames[f].state := Empty;
      state := Release(old(state), f);
    }

    /** The replacer gives up its last frame; frames and pages are not touched. */
    method EvictFrame() returns (v: Option<nat>)
      requires Valid()
      modifies this`state, replacer.Repr
      ensures Valid() && replacer.Repr == old(replacer.Repr)
      ensures v == L.Evict(old(state).lru).1 && state == old(state).(lru := L.Evict(old(state).lru).0)
    {
      v := replacer.Evict();
      state := state.(lru := L.Evict(state.lru).0);
    }

    method FindVictim() returns (v: Option<nat>)
      requires Valid() && Inv(state)
      modifies Footprint()
      ensures Valid() && replacer.Repr == old(replacer.Repr)
      ensures (state, v) == PoolModel.FindVictim(old(state))
    {
      hide FirstEmpty, BufferPool.Apart;
      v := FindEmpty();
      if v.Some? { return; }
      EvictedInRange(state);
      VictimEvicted(state, L.Evict(state.lru).0, L.Evict(state.lru).1);
      v := EvictFrame();
      if v.None? { return; }
      OwnedAt(frames, v.value);
      ReleaseFrame(v.value);
    }

    // ----- pages

    method FetchPage(pid: PageId) returns (page: Page?)
      requires Valid() && Inv(state)
      modifies Footprint()
      ensures Valid() && replacer.Repr == old(replacer.Repr)
      ensures state == PoolModel.FetchPage(old(state), pid).0
      ensures var r := PoolModel.FetchPage(old(state), pid).1;
              if r.None? then page == null else r.value < |frames| && page == frames[r.value].page
    {
      var hit := InPool(pid);
      if hit {
        var f := pageTable[pid];
        OwnedAt(frames, f);
        Hit(f);
        return frames[f].page;
      }
      FetchMiss(state, pid);
      page := Miss(pid);
    }

    method InPool(pid: PageId) returns (hit: bool)
      requires Valid() && Inv(state)
      ensures hit == Cached(state, pid)
    {
      if pid !in pageTable { return false; }
      assert EntryOk(state, pid);
      var f := pageTable[pid];
      assert frames[f].Value() == state.frames[f];
      return frames[f].state == Ready;
    }

    method Miss(pid: PageId) returns (page: Page?)
      requires Valid() && Inv(state)
      modifies Footprint()
      ensures Valid() && replacer.Repr == old(replacer.Repr)
      ensures state == LoadInto(PoolModel.FindVictim(old(state)).0, PoolModel.FindVictim(old(state)).1, pid).0
      ensures var r := LoadInto(PoolModel.FindVictim(old(state)).0, PoolModel.FindVictim(old(state)).1, pid).1;
              if r.None? then page == null else r.value < |frames| && page == frames[r.value].page
    {
      VictimKeeps(state, {});
      var v := FindVictim();
      if v.None? { return null; }
      page := Load(v.value, pid);
    }

    /** A hit counts the pin and tells the replacer about the access; the frame stays where it is listed. */
    method Hit(f: nat)
      requires Valid() && f < |frames| && f !in state.lru.limbo && frames[f].state == Ready
      modifies this`state, frames[f], replacer.Repr
      ensures Valid() && replacer.Repr == old(replacer.Repr)
      ensures state == HitFrame(old(state), f)
    {
      AddPin(f);
      ListAccess(f);
    }

    method AddPin(f: nat)
      requires Valid() && f < |frames|
      modifies this`state, frames[f]
      ensures Valid()
      ensures var p := old(state); state == p.(frames := p.frames[f := p.frames[f].(pins := p.frames[f].pins + 1)])
    {
      frames[f].pinCount := frames[f].pinCount + 1;
      state := state.(frames := state.frames[f := state.frames[f].(pins := state.frames[f].pins + 1)]);
    }

    method ListAccess(f: nat)
      requires Valid() && f !in state.lru.limbo
      modifies this`state, replacer.Repr
      ensures Valid() && replacer.Repr == old(replacer.Repr)
      ensures state == old(state).(lru := L.Access(old(state).lru, f))
    {
      replacer.Access(f);
      state := state.(lru := L.Access(state.lru, f));
    }

    /** The miss path after a frame was found: mark it loading, read the page, and enter or give up. */
    method Load(f: nat, pid: PageId) returns (page: Page?)
      requires Valid() && Inv(state) && f < |frames| && state.frames[f].state.Empty?
      modifies Footprint()
      ensures Valid() && replacer.Repr == old(replacer.Repr)
      ensures state == LoadInto(old(state), Some(f), pid).0
      ensures page == if LoadInto(old(state), Some(f), pid).1.Some? then frames[f].page else null
    {
      OwnedAt(frames, f);
      LoadSteps(state, f, pid);
      BeginLoad(f, pid);
      var ok := pm.GetPage(pid, frames[f].page);
      EndLoad(f, pid, ok);
      return if ok then frames[f].page else null;
    }

    /** The frame is marked as loading, pinned and off the replacer list before the disk is read. */
    method BeginLoad(f: nat, pid: PageId)
      requires Valid() && f < |frames| && f !in state.lru.limbo
      modifies this`state, frames[f], replacer.Repr
      ensures Valid() && replacer.Repr == old(replacer.Repr)
      ensures state == Begun(old(state), f, pid)
    {
      SetMeta(f, pid, FrameState.Loading, false);
      ListPin(f);
    }

    /** Gives a frame one pin and new metadata. */
    method SetMeta(f: nat, pid: PageId, st: FrameState, dirty: bool)
      requires Valid() && f < |frames|
      modifies this`state, frames[f]
      ensures Valid()
      ensures state == old(state).(frames := old(state).frames[f := Frame(old(state).frames[f].page, pid, 1, dirty,
              st)])
    {
      var fr := frames[f];
      fr.pageId, fr.state, fr.pinCount, fr.isDirty := pid, st, 1, dirty;
      state := state.(frames := state.frames[f := Frame(state.frames[f].page, pid, 1, dirty, st)]);
    }

    method ListPin(f: nat)
      requires Valid() && f !in state.lru.limbo
      modifies this`state, replacer.Repr
      ensures Valid() && replacer.Repr == old(replacer.Repr)
      ensures state == old(state).(lru := L.Pin(old(state).lru, f))
    {
      replacer.Pin(f);
      state := state.(lru := L.Pin(state.lru, f));
    }

    /** A loaded frame becomes ready and enters the page table; a failed one is empty again. */
    method EndLoad(f: nat, pid: PageId, ok: bool)
      requires f < |frames| && ValidBut(f) && state.frames[f].pid == pid && ok == OnDisk(state.disk, pid)
      requires frames[f].page.Image() == if ok then ReadDisk(state.disk, pid) else state.frames[f].page
      modifies this, frames[f]
      ensures Valid() && state == Ended(old(state), f, pid)
    {
      var fr := frames[f];
      state := Ended(state, f, pid);
      if !ok {
        fr.state, fr.pinCount := Empty, 0;
        return;
      }
      fr.state := Ready;
      pageTable := pageTable[pid := f];
    }

    method NewPage(file: u32) returns (page: Page?, pid: PageId)
      requires Valid() && Inv(state)
      modifies Footprint()
      ensures Valid() && replacer.Repr == old(replacer.Repr)
      ensures state == PoolModel.NewPage(old(state), file).0
      ensures var r := PoolModel.NewPage(old(state), file).1;
              if r.None? then page == null
              else r.value.1 < |frames| && page == frames[r.value.1].page && pid == r.value.0
    {
      AllocateKeeps(state, file, {});
      pid := Extend(file);
      if !pid.IsValid() { return null, pid; }
      page := NewFrame(pid);
    }

    method Extend(file: u32) returns (pid: PageId)
      requires Valid()
      modifies this`state, pm
      ensures Valid()
      ensures pid == Disks.AllocatePage(old(state).disk, file).1
      ensures state == old(state).(disk := Disks.AllocatePage(old(state).disk, file).0)
    {
      pid := pm.AllocatePage(file);
      state := state.(disk := Disks.AllocatePage(state.disk, file).0);
    }

    /** The second half of NewPage: find a frame and format the page there. */
    method NewFrame(pid: PageId) returns (page: Page?)
      requires Valid() && Inv(state)
      modifies Footprint()
      ensures Valid() && replacer.Repr == old(replacer.Repr)
      ensures state == FormatPage(old(state), pid).0
      ensures var r := FormatPage(old(state), pid).1;
              if r.None? then page == null
              else r.value.1 < |frames| && page == frames[r.value.1].page && r.value.0 == pid
    {
      VictimKeeps(state, {});
      var v := FindVictim();
      if v.None? { return null; }
      OwnedAt(frames, v.value);
      Format(v.value, pid);
      return frames[v.value].page;
    }

    method Format(f: nat, pid: PageId)
      requires Valid() && f < |frames| && f !in state.lru.limbo
      modifies this, frames[f], frames[f].page, frames[f].page.body, replacer.Repr
      ensures Valid() && replacer.Repr == old(replacer.Repr)
      ensures state == Install(old(state), f, pid, FreshPage(pid), true)
    {
      frames[f].page.Format(pid);
      PageWritten(f);
      SetMeta(f, pid, Ready, true);
      ListPin(f);
      Enter(pid, f);
    }

    method Enter(pid: PageId, f: nat)
      requires Valid()
      modifies this`state, this`pageTable
      ensures Valid() && state == old(state).(table := old(state).table[pid := f])
    {
      pageTable := pageTable[pid := f];
      state := state.(table := pageTable);
    }

    /** Gives up one pin; the last one makes the frame eligible for eviction. */
    method UnpinPage(pid: PageId, dirty: bool) returns (ok: bool)
      requires Valid() && Inv(state)
      modifies Footprint()
      ensures Valid() && fresh(replacer.Repr - old(replacer.Repr))
      ensures (state, ok) == PoolModel.UnpinPage(old(state), pid, dirty)
    {
      if pid !in pageTable { return false; }
      assert EntryOk(state, pid);
      var f := pageTable[pid];
      OwnedAt(frames, f);
      assert frames[f].Value() == state.frames[f];
      if frames[f].pinCount == 0 { return false; }
      DropPin(f, dirty);
      return true;
    }

    method DropPin(f: nat, dirty: bool)
      requires Valid() && f < |frames| && frames[f].pinCount > 0 && state.frames[f].pins > 0
      modifies this`state, frames[f], replacer.Repr
      ensures Valid() && fresh(replacer.Repr - old(replacer.Repr))
      ensures state == Unpinned(old(state), f, dirty)
    {
      var expected := TakePin(f, dirty);
      if expected == 1 { ListUnpin(f); }
    }

    /** Decrements the pin count and keeps or sets the dirty flag; returns the count before. */
    method TakePin(f: nat, dirty: bool) returns (expected: nat)
      requires Valid() && f < |frames| && frames[f].pinCount > 0 && state.frames[f].pins > 0
      modifies this`state, frames[f]
      ensures Valid() && expected == old(state).frames[f].pins
      ensures var p := old(state);
              var fr := p.frames[f];
              state == p.(frames := p.frames[f := fr.(pins := fr.pins - 1, dirty := fr.dirty || dirty)])
    {
      expected := frames[f].pinCount;
      frames[f].pinCount := expected - 1;
      if dirty { frames[f].isDirty := true; }
      ghost var fr := state.frames[f];
      state := state.(frames := state.frames[f := fr.(pins := fr.pins - 1, dirty := fr.dirty || dirty)]);
    }

    method ListUnpin(f: nat)
      requires Valid()
      modifies this`state, replacer.Repr
      ensures Valid() && fresh(replacer.Repr - old(replacer.Repr))
      ensures state == old(state).(lru := L.Unpin(old(state).lru, f))
    {
      replacer.Unpin(f);
      state := state.(lru := L.Unpin(state.lru, f));
    }

    method FlushPage(pid: PageId) returns (ok: bool)
      requires Valid() && Inv(state)
      modifies Footprint()
      ensures Valid() && replacer.Repr == old(replacer.Repr)
      ensures (state, ok) == PoolModel.FlushPage(old(state), pid)
    {
      if pid !in pageTable { return false; }
      assert EntryOk(state, pid);
      OwnedAt(frames, pageTable[pid]);
      FlushFrame(pageTable[pid]);
      return true;
    }

    // ----- flushing everything

    method SnapshotDirty() returns (dirty: seq<nat>)
      requires Valid()
      ensures dirty == DirtyUpTo(state, |frames|)
    {
      dirty := [];
      for f := 0 to |frames|
        invariant dirty == DirtyUpTo(state, f)
      {
        assert frames[f].Value() == state.frames[f];
        if frames[f].state == Ready && frames[f].isDirty { dirty := dirty + [f]; }
      }
    }

    method FlushAll()
      requires Valid()
      modifies Footprint()
      ensures Valid() && replacer.Repr == old(replacer.Repr)
      ensures state == PoolModel.FlushAll(old(state))
    {
      SnapshotFlushesAll(state, |frames|);
      var dirty := SnapshotDirty();
      FlushEach(dirty);
    }

    method FlushEach(dirty: seq<nat>)
      requires Valid()
      modifies Footprint()
      ensures Valid() && replacer.Repr == old(replacer.Repr)
      ensures state == FlushList(old(state), dirty)
    {
      for k := 0 to |dirty|
        invariant Valid() && replacer.Repr == old(replacer.Repr)
        invariant state == FlushList(old(state), dirty[..k])
      {
        assert dirty[..k + 1][..k] == dirty[..k];
        FlushListed(dirty[k]);
      }
      assert dirty[..|dirty|] == dirty;
    }

    method FlushListed(f: nat)
      requires Valid()
      modifies Footprint()
      ensures Valid() && replacer.Repr == old(replacer.Repr)
      ensures state == if f < |old(state).frames| then PoolModel.FlushFrame(old(state), f) else old(state)
    {
      if f < |frames| {
        OwnedAt(frames, f);
        FlushFrame(f);
      }
    }

    // ----- clients

    lemma ImageAt(f: nat)
      requires Valid() && f < |frames|
      ensures frames[f].page.Sized() && frames[f].page.Image() == state.frames[f].page
    {
    }

    /** A client that changed nothing but the page in frame f leaves the rest of the pool valid. */
    twostate lemma OnlyPageChanged(f: nat)
      requires f < |frames| && old(Valid()) && unchanged(this, pm, replacer)
      requires unchanged(old(replacer.Repr) - {frames[f].page, frames[f].page.body})
      requires forall i :: 0 <= i < |frames| ==>
                 && unchanged(frames[i])
                 && (frames[i].page != frames[f].page ==> unchanged(frames[i].page))
                 && (frames[i].page.body != frames[f].page.body ==> unchanged(frames[i].page.body))
      ensures ValidBut(f)
      ensures frames[f].page.Image() == old(frames[f].page.Image()) ==> Valid()
    {
    }

    /** Records that the client wrote to the page in frame f through the pointer it got. */
    ghost method PageWritten(f: nat)
      requires f < |frames| && ValidBut(f)
      modifies this`state
      ensures Valid() && state == WriteFrame(old(state), f, frames[f].page.Image())
    {
      state := WriteFrame(state, f, frames[f].page.Image());
    }
  }
}
