/** Every pool step keeps the invariant, and what it does to the stored pages. */
module PoolInvariant {
  import opened Wrappers
  import opened Bytes
  import opened PageImages
  import opened Disks
  import opened PoolModel
  import L = LruLists

  // ----- flushing

  lemma FlushKeeps(p: Pool, f: nat, touched: set<PageId>)
    requires Inv(p) && f < |p.frames|
    ensures Inv(FlushFrame(p, f))
    ensures Clean(p, touched) ==> Clean(FlushFrame(p, f), touched)
  {
    var q, fr := FlushFrame(p, f), p.frames[f];
    if q != p {
      forall g | 0 <= g < |q.frames|
        ensures FrameOk(q, g) && (Clean(p, touched) ==> CleanAt(q, touched, g))
      {
        assert FrameOk(p, g) && FrameOk(p, f);
        assert Clean(p, touched) ==> CleanAt(p, touched, g);
        ReadWrite(p.disk, fr.pid, fr.page, p.frames[g].pid);
      }
      forall pid | pid in q.table
        ensures EntryOk(q, pid)
      {
        assert EntryOk(p, pid);
      }
    }
  }

  /** A flush stores nothing new: cached pages stay cached, and disk copies change only under cached ones. */
  lemma FlushView(p: Pool, f: nat)
    requires Inv(p) && f < |p.frames|
    ensures View(FlushFrame(p, f)) == View(p)
  {
    var q, fr := FlushFrame(p, f), p.frames[f];
    if q != p {
      assert FrameOk(p, f);
      forall pid | OnDisk(p.disk, pid)
        ensures PageAt(p, pid) == PageAt(q, pid)
      {
        ReadWrite(p.disk, fr.pid, fr.page, pid);
        assert pid in p.table ==> EntryOk(p, pid);
      }
      SameView(p, q);
    }
  }

  // ----- choosing a frame

  lemma {:induction false} FirstEmptyFinds(frames: seq<Frame>, i: nat)
    requires i <= |frames|
    ensures var r := FirstEmpty(frames, i);
            && (r.Some? ==> i <= r.value < |frames| && frames[r.value].state.Empty?)
            && (r.None? ==> forall k :: i <= k < |frames| ==> !frames[k].state.Empty?)
    decreases |frames| - i
  {
    if i < |frames| {
      FirstEmptyFinds(frames, i + 1);
    }
  }

  /** Releasing an evicted frame keeps the invariant: the frame leaves page table and list together. */
  lemma ReleaseKeeps(p: Pool, f: nat, touched: set<PageId>)
    requires Inv(p) && L.Evict(p.lru).1 == Some(f)
    ensures f < |p.frames| && p.frames[f].state.Ready? && f in p.lru.Order()
    ensures Inv(Release(p.(lru := L.Evict(p.lru).0), f))
    ensures Clean(p, touched) ==> Clean(Release(p.(lru := L.Evict(p.lru).0), f), touched)
  {
    L.EvictKeeps(p.lru);
    L.EvictTakesLast(p.lru);
    assert f in p.lru.Order();
    assert FrameOk(p, f);
    FlushKeeps(p, f, touched);
    var q := FlushFrame(p, f);
    assert FrameOk(q, f);
    var r := Release(p.(lru := L.Evict(p.lru).0), f);
    assert r == q.(lru := r.lru, table := q.table - {q.frames[f].pid},
        frames := q.frames[f := q.frames[f].(state := Empty)]);
    forall g | 0 <= g < |r.frames|
      ensures FrameOk(r, g) && (Clean(p, touched) ==> CleanAt(r, touched, g))
    {
      assert FrameOk(q, g);
      assert Clean(p, touched) ==> CleanAt(q, touched, g);
    }
    forall pid | pid in r.table
      ensures EntryOk(r, pid)
    {
      assert EntryOk(q, pid);
    }
  }

  /** After a flush, the disk copy of an untouched cached page is its contents. */
  lemma FlushedIsOnDisk(p: Pool, f: nat, touched: set<PageId>)
    requires Inv(p) && Clean(p, touched) && f < |p.frames| && p.frames[f].state.Ready?
    requires p.frames[f].pid !in touched && OnDisk(p.disk, p.frames[f].pid)
    ensures ReadDisk(FlushFrame(p, f).disk, p.frames[f].pid) == p.frames[f].page
  {
    assert CleanAt(p, touched, f);
    ReadWrite(p.disk, p.frames[f].pid, p.frames[f].page, p.frames[f].pid);
  }

  /** Giving up a frame loses nothing unless a client is writing to it. */
  lemma ReleaseView(p: Pool, f: nat, touched: set<PageId>)
    requires Inv(p) && Clean(p, touched) && L.Evict(p.lru).1 == Some(f)
    requires f < |p.frames| && p.frames[f].pid !in touched
    ensures View(Release(p.(lru := L.Evict(p.lru).0), f)) == View(p)
  {
    var r, q, id := Release(p.(lru := L.Evict(p.lru).0), f), FlushFrame(p, f), p.frames[f].pid;
    ReleaseKeeps(p, f, touched);
    FlushKeeps(p, f, touched);
    FlushView(p, f);
    assert FrameOk(q, f);
    if OnDisk(p.disk, id) { FlushedIsOnDisk(p, f, touched); }
    forall pid | OnDisk(q.disk, pid)
      ensures PageAt(q, pid) == PageAt(r, pid)
    {
      assert pid in q.table ==> EntryOk(q, pid);
    }
    SameView(q, r);
  }

  /** Nobody holds a pin on the frame that would be evicted next. */
  predicate SafeVictim(p: Pool) {
    var o := p.lru.Order();
    FirstEmpty(p.frames, 0).Some? || o == [] || (o[|o| - 1] < |p.frames| && p.frames[o[|o| - 1]].pins == 0)
  }

  lemma VictimKeeps(p: Pool, touched: set<PageId>)
    requires Inv(p)
    ensures var (q, v) := FindVictim(p);
            && Inv(q) && (Clean(p, touched) ==> Clean(q, touched))
            && (Clean(p, touched) && SafeVictim(p) ==> View(q) == View(p))
            && |q.frames| == |p.frames| && q.disk.nextFile == p.disk.nextFile && q.lru.target == p.lru.target
            && (forall pid :: OnDisk(q.disk, pid) <==> OnDisk(p.disk, pid))
            && (v.Some? ==> v.value < |q.frames| && q.frames[v.value].state.Empty?)
  {
    FirstEmptyFinds(p.frames, 0);
    L.EvictTakesLast(p.lru);
    if FirstEmpty(p.frames, 0).None? && L.Evict(p.lru).1.Some? {
      var f := L.Evict(p.lru).1.value;
      ReleaseKeeps(p, f, touched);
      if Clean(p, touched) && SafeVictim(p) {
        assert CleanAt(p, touched, f);
        assert FrameOk(p, f);
        ReleaseView(p, f, touched);
      }
      forall pid
        ensures OnDisk(Release(p.(lru := L.Evict(p.lru).0), f).disk, pid) <==> OnDisk(p.disk, pid)
      {
        ReadWrite(p.disk, p.frames[f].pid, p.frames[f].page, pid);
      }
    }
  }

  // ----- filling a frame

  /** Loading an existing page into an empty frame, or formatting a new one there. */
  lemma InstallKeeps(p: Pool, f: nat, pid: PageId, page: PageImage, dirty: bool, touched: set<PageId>)
    requires Inv(p) && f < |p.frames| && p.frames[f].state.Empty? && !Cached(p, pid)
    requires OnDisk(p.disk, pid)
    ensures Inv(Install(p, f, pid, page, dirty))
    ensures Clean(p, touched) && (dirty || page == ReadDisk(p.disk, pid)) ==>
              Clean(Install(p, f, pid, page, dirty), touched)
  {
    var q := Install(p, f, pid, page, dirty);
    assert FrameOk(p, f);
    assert pid !in p.table by {
      assert pid in p.table ==> EntryOk(p, pid);
    }
    L.PinKeeps(p.lru, f);
    forall g | 0 <= g < |q.frames|
      ensures FrameOk(q, g)
      ensures Clean(p, touched) && (dirty || page == ReadDisk(p.disk, pid)) ==> CleanAt(q, touched, g)
    {
      assert FrameOk(p, g);
      assert Clean(p, touched) ==> CleanAt(p, touched, g);
    }
    forall id | id in q.table
      ensures EntryOk(q, id)
    {
      assert id in p.table ==> EntryOk(p, id);
    }
  }

  lemma InstallView(p: Pool, f: nat, pid: PageId, page: PageImage, dirty: bool)
    requires Inv(p) && f < |p.frames| && p.frames[f].state.Empty? && !Cached(p, pid)
    requires OnDisk(p.disk, pid)
    ensures var q := Install(p, f, pid, page, dirty);
            && q.disk == p.disk && PageAt(q, pid) == page
            && forall id :: OnDisk(p.disk, id) && id != pid ==> PageAt(q, id) == PageAt(p, id)
  {
    var q := Install(p, f, pid, page, dirty);
    forall id | OnDisk(p.disk, id) && id != pid
      ensures PageAt(q, id) == PageAt(p, id)
    {
      assert id in p.table ==> EntryOk(p, id);
    }
  }

  lemma LoadFailedKeeps(p: Pool, f: nat, pid: PageId, touched: set<PageId>)
    requires Inv(p) && f < |p.frames| && p.frames[f].state.Empty?
    ensures Inv(LoadFailed(p, f, pid)) && (Clean(p, touched) ==> Clean(LoadFailed(p, f, pid), touched))
    ensures View(LoadFailed(p, f, pid)) == View(p)
  {
    var q := LoadFailed(p, f, pid);
    assert FrameOk(p, f);
    L.PinKeeps(p.lru, f);
    forall g | 0 <= g < |q.frames|
      ensures FrameOk(q, g) && (Clean(p, touched) ==> CleanAt(q, touched, g))
    {
      assert FrameOk(p, g);
      assert Clean(p, touched) ==> CleanAt(p, touched, g);
    }
    forall id | id in q.table
      ensures EntryOk(q, id)
    {
      assert EntryOk(p, id);
    }
    forall id | OnDisk(p.disk, id)
      ensures PageAt(p, id) == PageAt(q, id)
    {
      assert id in p.table ==> EntryOk(p, id);
    }
    SameView(p, q);
  }

  // ----- FetchPage

  lemma HitKeeps(p: Pool, pid: PageId, touched: set<PageId>)
    requires Inv(p) && Cached(p, pid)
    ensures var q := FetchPage(p, pid).0;
            && Inv(q) && View(q) == View(p) && (Clean(p, touched) ==> Clean(q, touched))
  {
    var q, f := FetchPage(p, pid).0, p.table[pid];
    assert EntryOk(p, pid);
    L.AccessKeeps(p.lru, f);
    forall g | 0 <= g < |q.frames|
      ensures FrameOk(q, g) && (Clean(p, touched) ==> CleanAt(q, touched, g))
    {
      assert FrameOk(p, g);
      assert Clean(p, touched) ==> CleanAt(p, touched, g);
    }
    forall id | id in q.table
      ensures EntryOk(q, id)
    {
      assert EntryOk(p, id);
    }
    SameView(p, q);
  }

  /** A fetch never changes what is stored, provided the frame it may have to give up is not in use. */
  lemma FetchKeeps(p: Pool, pid: PageId, touched: set<PageId>)
    requires Inv(p)
    ensures Inv(FetchPage(p, pid).0) && (Clean(p, touched) ==> Clean(FetchPage(p, pid).0, touched))
    ensures Clean(p, touched) && (Cached(p, pid) || SafeVictim(p)) ==> View(FetchPage(p, pid).0) == View(p)
  {
    if Cached(p, pid) {
      HitKeeps(p, pid, touched);
    } else {
      VictimKeeps(p, touched);
      VictimCaches(p, pid);
      var (q, v) := FindVictim(p);
      if v.Some? {
        if OnDisk(q.disk, pid) {
          InstallKeeps(q, v.value, pid, ReadDisk(q.disk, pid), false, touched);
          InstallView(q, v.value, pid, ReadDisk(q.disk, pid), false);
          SameView(q, FetchPage(p, pid).0);
        } else {
          LoadFailedKeeps(q, v.value, pid, touched);
        }
      }
    }
  }

  /** Choosing a victim caches nothing, uncaches at most the victim's page and leaves other frames alone. */
  lemma VictimCaches(p: Pool, pid: PageId)
    requires Inv(p)
    ensures var (q, v) := FindVictim(p);
            && (Cached(q, pid) ==> Cached(p, pid) && q.table[pid] == p.table[pid])
            && (Cached(p, pid) && v != Some(p.table[pid]) ==> Cached(q, pid) && q.table[pid] == p.table[pid])
            && (v.Some? ==> forall g :: 0 <= g < |p.frames| && g != v.value ==> q.frames[g] == p.frames[g])
            && (v.None? ==> q.frames == p.frames && p.lru.Order() == [])
  {
    FirstEmptyFinds(p.frames, 0);
    L.EvictTakesLast(p.lru);
    if FirstEmpty(p.frames, 0).None? && L.Evict(p.lru).1.Some? {
      ReleaseKeeps(p, L.Evict(p.lru).1.value, {});
      assert FrameOk(p, L.Evict(p.lru).1.value);
      if pid in p.table { assert EntryOk(p, pid); }
    }
  }

  /** A fetch hands out the stored page, pinned once more than before; other frames keep their pins. */
  lemma FetchResult(p: Pool, pid: PageId)
    requires Inv(p)
    ensures var (q, r) := FetchPage(p, pid);
            && |q.frames| == |p.frames|
            && (r.Some? ==>
                  && r.value < |q.frames| && Cached(q, pid) && q.table[pid] == r.value
                  && q.frames[r.value].pins == (if Cached(p, pid) then p.frames[r.value].pins else 0) + 1
                  && forall g :: 0 <= g < |p.frames| && g != r.value ==> q.frames[g] == p.frames[g])
  {
    if Cached(p, pid) {
      assert EntryOk(p, pid);
    } else {
      VictimKeeps(p, {});
      VictimCaches(p, pid);
    }
  }

  predicate Full(p: Pool) {
    forall f :: 0 <= f < |p.frames| ==> p.frames[f].state.Ready?
  }

  lemma NoVictimIff(p: Pool)
    requires Inv(p)
    ensures FindVictim(p).1.None? <==> p.lru.Order() == [] && Full(p)
    ensures FindVictim(p).1.Some? ==> FindVictim(p).1.value < |p.frames|
    ensures FindVictim(p).1.None? ==> forall f :: 0 <= f < |p.frames| ==> p.frames[f].pins > 0
  {
    FirstEmptyFinds(p.frames, 0);
    L.EvictTakesLast(p.lru);
    assert p.lru.Order() != [] ==> p.lru.Order()[|p.lru.Order()| - 1] in p.lru.Order();
    forall f | 0 <= f < |p.frames|
      ensures p.frames[f].state.Empty? || p.frames[f].state.Ready?
      ensures p.lru.Order() == [] && p.frames[f].state.Ready? ==> p.frames[f].pins > 0
    {
      assert FrameOk(p, f);
    }
  }

  /** FetchPage of an existing page fails exactly when it is not cached and every frame is withheld from eviction. */
  lemma FetchFailsIff(p: Pool, pid: PageId)
    requires Inv(p) && OnDisk(p.disk, pid)
    ensures FetchPage(p, pid).1.None? <==> !Cached(p, pid) && p.lru.Order() == [] && Full(p)
    ensures FetchPage(p, pid).1.None? ==> forall f :: 0 <= f < |p.frames| ==> p.frames[f].pins > 0
  {
    if !Cached(p, pid) {
      NoVictimIff(p);
      VictimKeeps(p, {});
    }
  }

  // ----- NewPage

  lemma AllocateKeeps(p: Pool, file: u32, touched: set<PageId>)
    requires Inv(p)
    ensures var q := p.(disk := AllocatePage(p.disk, file).0);
            && Inv(q) && (Clean(p, touched) ==> Clean(q, touched))
  {
    var d := AllocatePage(p.disk, file).0;
    var q := p.(disk := d);
    forall g | 0 <= g < |q.frames|
      ensures FrameOk(q, g) && (Clean(p, touched) ==> CleanAt(q, touched, g))
    {
      assert FrameOk(p, g);
      assert Clean(p, touched) ==> CleanAt(p, touched, g);
      ReadAllocated(p.disk, file, p.frames[g].pid);
    }
    forall pid | pid in q.table
      ensures EntryOk(q, pid)
    {
      assert EntryOk(p, pid);
    }
  }

  /** The id that allocatePage returns is not in use. */
  lemma AllocatedIsFresh(p: Pool, file: u32)
    requires Inv(p) && AllocatePage(p.disk, file).1.IsValid()
    ensures file in p.disk.files && AllocatePage(p.disk, file).1 == PageId(file, |p.disk.files[file]|)
    ensures !Cached(p, AllocatePage(p.disk, file).1)
  {
    var pid := AllocatePage(p.disk, file).1;
    forall f | 0 <= f < |p.frames| && p.frames[f].state.Ready?
      ensures p.frames[f].pid != pid
    {
      assert FrameOk(p, f);
    }
    assert pid in p.table ==> EntryOk(p, pid);
  }

  ghost predicate Grown(p: Pool, d: Disk, pid: PageId) {
    && pid.file in p.disk.files && pid.num == |p.disk.files[pid.file]| && !Cached(p, pid)
    && d.files.Keys == p.disk.files.Keys
    && (forall f :: f in d.files ==> |d.files[f]| == |p.disk.files[f]| + if f == pid.file then 1 else 0)
    && (forall id :: OnDisk(p.disk, id) ==> OnDisk(d, id) && ReadDisk(d, id) == ReadDisk(p.disk, id))
  }

  lemma GrownFile(p: Pool, d: Disk, pid: PageId, file: FileId)
    requires Grown(p, d, pid) && file in d.files
    ensures FileView(p.(disk := d), file) == FileView(p, file) + if file == pid.file then [ReadDisk(d, pid)] else []
  {
    var q := p.(disk := d);
    forall n | 0 <= n < |p.disk.files[file]|
      ensures FileView(q, file)[n] == FileView(p, file)[n]
    {
      assert OnDisk(p.disk, PageId(file, n));
    }
    if file == pid.file {
      assert FileView(q, file)[pid.num] == ReadDisk(d, pid);
    }
  }

  lemma GrownView(p: Pool, d: Disk, pid: PageId)
    requires Grown(p, d, pid)
    ensures View(p.(disk := d)) == AppendPage(View(p), pid.file, ReadDisk(d, pid))
  {
    forall file | file in d.files
      ensures FileView(p.(disk := d), file) == AppendPage(View(p), pid.file, ReadDisk(d, pid))[file]
    {
      GrownFile(p, d, pid, file);
    }
  }

  /** allocatePage appends a blank page to the file and leaves every stored page alone. */
  lemma AllocateView(p: Pool, file: FileId, d: Disk, pid: PageId)
    requires Inv(p) && (d, pid) == AllocatePage(p.disk, file) && pid.IsValid()
    ensures file in View(p) && pid.file == file && pid.num == |View(p)[file]|
    ensures OnDisk(d, pid) && ReadDisk(d, pid) == BLANK_PAGE && !Cached(p, pid)
    ensures View(p.(disk := d)) == AppendPage(View(p), file, BLANK_PAGE)
  {
    AllocatedIsFresh(p, file);
    ReadAllocated(p.disk, file, pid);
    forall id | OnDisk(p.disk, id)
      ensures OnDisk(d, id) && ReadDisk(d, id) == ReadDisk(p.disk, id)
    {
      ReadAllocated(p.disk, file, id);
    }
    GrownView(p, d, pid);
  }

  lemma NewPageKeeps(p: Pool, file: u32, touched: set<PageId>)
    requires Inv(p)
    ensures Inv(NewPage(p, file).0) && (Clean(p, touched) ==> Clean(NewPage(p, file).0, touched))
  {
    var (d, pid) := AllocatePage(p.disk, file);
    var a := p.(disk := d);
    AllocateKeeps(p, file, touched);
    if pid.IsValid() {
      AllocatedIsFresh(p, file);
      ReadAllocated(p.disk, file, pid);
      VictimKeeps(a, touched);
      VictimCaches(a, pid);
      var (q, v) := FindVictim(a);
      if v.Some? { InstallKeeps(q, v.value, pid, FreshPage(pid), true, touched); }
    }
  }

  /** NewPage adds one page to the end of the file: a formatted one, or a blank one if no frame is free. */
  lemma NewPageView(p: Pool, file: FileId, d: Disk, pid: PageId, touched: set<PageId>)
    requires Inv(p) && Clean(p, touched) && SafeVictim(p)
    requires (d, pid) == AllocatePage(p.disk, file) && pid.IsValid()
    ensures file in View(p) && pid.file == file && pid.num == |View(p)[file]|
    ensures OnDisk(d, pid)
    ensures var page := if NewPage(p, file).1.Some? then FreshPage(pid) else BLANK_PAGE;
            View(NewPage(p, file).0) == AppendPage(View(p), file, page)
  {
    AllocateKeeps(p, file, touched);
    AllocateView(p, file, d, pid);
    FindAndFormat(p.(disk := d), pid, View(p), BLANK_PAGE, touched);
  }

  /** The second half of NewPage, once the page exists on disk. */
  lemma FindAndFormat(a: Pool, pid: PageId, s: Store, blank: PageImage, touched: set<PageId>)
    requires Inv(a) && Clean(a, touched) && SafeVictim(a) && OnDisk(a.disk, pid) && !Cached(a, pid)
    requires pid.file in s && pid.num == |s[pid.file]| && View(a) == AppendPage(s, pid.file, blank)
    ensures var page := if FormatPage(a, pid).1.Some? then FreshPage(pid) else blank;
            View(FormatPage(a, pid).0) == AppendPage(s, pid.file, page)
  {
    VictimFor(a, pid, touched);
    var (q, v) := FindVictim(a);
    if v.Some? { FormatView(q, v.value, pid, s, blank); }
  }

  lemma VictimFor(a: Pool, pid: PageId, touched: set<PageId>)
    requires Inv(a) && Clean(a, touched) && SafeVictim(a) && OnDisk(a.disk, pid) && !Cached(a, pid)
    ensures var (q, v) := FindVictim(a);
            && Inv(q) && View(q) == View(a) && OnDisk(q.disk, pid) && !Cached(q, pid)
            && (v.Some? ==> v.value < |q.frames| && q.frames[v.value].state.Empty?)
  {
    VictimKeeps(a, touched);
    VictimCaches(a, pid);
  }

  /** Formatting the page that was just allocated replaces the blank page at the end of the file. */
  lemma FormatView(q: Pool, f: nat, pid: PageId, s: Store, blank: PageImage)
    requires Inv(q) && f < |q.frames| && q.frames[f].state.Empty? && !Cached(q, pid) && OnDisk(q.disk, pid)
    requires pid.file in s && pid.num == |s[pid.file]| && View(q) == AppendPage(s, pid.file, blank)
    ensures View(Install(q, f, pid, FreshPage(pid), true)) == AppendPage(s, pid.file, FreshPage(pid))
  {
    InstallView(q, f, pid, FreshPage(pid), true);
    PageReplaced(q, Install(q, f, pid, FreshPage(pid), true), pid, FreshPage(pid));
    LastPage(s, pid.file, blank, FreshPage(pid), pid);
  }

  lemma LastPage(s: Store, file: FileId, blank: PageImage, made: PageImage, pid: PageId)
    requires file in s && pid.file == file && pid.num == |s[file]|
    ensures SetPage(AppendPage(s, file, blank), pid, made) == AppendPage(s, file, made)
  {
    assert (s[file] + [blank])[|s[file]| := made] == s[file] + [made];
  }

  lemma NewPageResult(p: Pool, file: u32)
    requires Inv(p)
    ensures var (q, r) := NewPage(p, file);
            && |q.frames| == |p.frames|
            && (r.Some? ==>
                  var (pid, f) := r.value;
                  && f < |q.frames| && Cached(q, pid) && q.table[pid] == f
                  && q.frames[f] == Frame(FreshPage(pid), pid, 1, true, Ready)
                  && forall g :: 0 <= g < |p.frames| && g != f ==> q.frames[g] == p.frames[g])
  {
    var (d, pid) := AllocatePage(p.disk, file);
    AllocateKeeps(p, file, {});
    if pid.IsValid() {
      VictimKeeps(p.(disk := d), {});
      VictimCaches(p.(disk := d), pid);
    }
  }

  // ----- UnpinPage and writing through a pin

  /** The last unpin of a page puts its frame on the replacer list; stored pages do not change. */
  lemma UnpinKeeps(p: Pool, pid: PageId, dirty: bool, touched: set<PageId>)
    requires Inv(p)
    ensures var q := UnpinPage(p, pid, dirty).0;
            && Inv(q) && View(q) == View(p)
            && (Clean(p, touched) && (dirty || pid !in touched) ==> Clean(q, touched - {pid}))
  {
    var (q, ok) := UnpinPage(p, pid, dirty);
    if pid in p.table { assert EntryOk(p, pid); }
    if ok {
      var f := p.table[pid];
      L.UnpinKeeps(p.lru, f);
      assert FrameOk(p, f);
      forall g | 0 <= g < |q.frames|
        ensures FrameOk(q, g)
        ensures Clean(p, touched) && (dirty || pid !in touched) ==> CleanAt(q, touched - {pid}, g)
      {
        assert FrameOk(p, g);
        assert Clean(p, touched) ==> CleanAt(p, touched, g);
      }
      forall id | id in q.table
        ensures EntryOk(q, id)
      {
        assert EntryOk(p, id);
      }
      SameView(p, q);
    } else {
      forall g | 0 <= g < |q.frames|
        ensures Clean(p, touched) && (dirty || pid !in touched) ==> CleanAt(q, touched - {pid}, g)
      {
        assert FrameOk(p, g);
        assert Clean(p, touched) ==> CleanAt(p, touched, g);
      }
    }
  }

  /** A client that holds a pin may overwrite the page; only that page changes. */
  lemma WriteKeeps(p: Pool, pid: PageId, page: PageImage, touched: set<PageId>)
    requires Inv(p) && Cached(p, pid) && p.frames[p.table[pid]].pins > 0
    ensures var q := WriteFrame(p, p.table[pid], page);
            && Inv(q) && (Clean(p, touched) ==> Clean(q, touched + {pid}))
            && View(q) == SetPage(View(p), pid, page)
  {
    var f := p.table[pid];
    var q := WriteFrame(p, f, page);
    assert EntryOk(p, pid);
    forall g | 0 <= g < |q.frames|
      ensures FrameOk(q, g) && (Clean(p, touched) ==> CleanAt(q, touched + {pid}, g))
    {
      assert FrameOk(p, g);
      assert Clean(p, touched) ==> CleanAt(p, touched, g);
    }
    forall id | id in q.table
      ensures EntryOk(q, id)
    {
      assert EntryOk(p, id);
    }
    forall id | OnDisk(p.disk, id) && id != pid
      ensures PageAt(q, id) == PageAt(p, id)
    {
      assert id in p.table ==> EntryOk(p, id);
    }
    ViewAt(p, pid);
    if OnDisk(p.disk, pid) {
      PageReplaced(p, q, pid, page);
    } else {
      SameView(p, q);
    }
  }

  // ----- FlushAll and files

  lemma {:induction false} FlushUpToKeeps(p: Pool, n: nat, touched: set<PageId>)
    requires Inv(p) && n <= |p.frames|
    ensures Inv(FlushUpTo(p, n)) && |FlushUpTo(p, n).frames| == |p.frames|
    ensures Clean(p, touched) ==> Clean(FlushUpTo(p, n), touched)
    decreases n
  {
    if n > 0 {
      FlushUpToKeeps(p, n - 1, touched);
      FlushKeeps(FlushUpTo(p, n - 1), n - 1, touched);
    }
  }

  lemma {:induction false} FlushUpToView(p: Pool, n: nat)
    requires Inv(p) && n <= |p.frames|
    ensures View(FlushUpTo(p, n)) == View(p)
    decreases n
  {
    if n > 0 {
      var q := FlushUpTo(p, n - 1);
      FlushUpToKeeps(p, n - 1, {});
      FlushUpToView(p, n - 1);
      FlushView(q, n - 1);
    }
  }

  /** FlushAll changes dirty flags and disk copies only; flags of frames with an open file end up clear. */
  lemma {:induction false} FlushUpToClears(p: Pool, n: nat)
    requires Inv(p) && n <= |p.frames|
    ensures var q := FlushUpTo(p, n);
            && q.table == p.table && q.lru == p.lru && |q.frames| == |p.frames|
            && (forall pid :: OnDisk(q.disk, pid) <==> OnDisk(p.disk, pid))
            && (forall g :: 0 <= g < |p.frames| ==> q.frames[g] == p.frames[g].(dirty := q.frames[g].dirty))
            && (forall g :: 0 <= g < n && p.frames[g].state.Ready? && OnDisk(p.disk, p.frames[g].pid) ==>
                  !q.frames[g].dirty)
    decreases n
  {
    if n > 0 {
      FlushUpToClears(p, n - 1);
      var q := FlushUpTo(p, n - 1);
      forall pid
        ensures OnDisk(FlushUpTo(p, n).disk, pid) <==> OnDisk(p.disk, pid)
      {
        ReadWrite(q.disk, q.frames[n - 1].pid, q.frames[n - 1].page, pid);
      }
    }
  }

  /** What the disk alone holds. */
  function DiskView(d: Disk): Store {
    View(Pool([], map[], L.Lru([], [], {}, 1), d))
  }

  /** After FlushAll the disk alone holds every stored page of every open file. */
  lemma FlushAllMakesDurable(p: Pool)
    requires Inv(p) && Clean(p, {})
    ensures DiskView(FlushAll(p).disk) == View(p)
  {
    FlushUpToKeeps(p, |p.frames|, {});
    FlushUpToView(p, |p.frames|);
    FlushUpToClears(p, |p.frames|);
    var q := FlushAll(p);
    forall pid | OnDisk(q.disk, pid)
      ensures ReadDisk(q.disk, pid) == PageAt(q, pid)
    {
      if pid in q.table {
        assert EntryOk(q, pid);
        assert CleanAt(q, {}, q.table[pid]);
      }
    }
    SameView(Pool([], map[], L.Lru([], [], {}, 1), q.disk), q);
  }
}
