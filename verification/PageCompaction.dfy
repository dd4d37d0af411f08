/** What compact() relies on: the list of live slots and the invariant of its repacking loop. */
module PageCompaction {
  import opened Bytes
  import opened PageImages

  datatype LiveRecord = LiveRecord(slot: u16, oldOffset: u16, size: u16)

  /** The live slots in slot order. */
  function Live(ss: seq<Slot>): seq<LiveRecord>
    requires |ss| < 0x1_0000
  {
    if ss == [] then []
    else
      var n := |ss| - 1;
      if ss[n].size == 0 then Live(ss[..n]) else Live(ss[..n]) + [LiveRecord(n, ss[n].offset, ss[n].size)]
  }

  lemma {:induction false} LiveAt(ss: seq<Slot>, k: nat)
    requires |ss| < 0x1_0000 && k < |Live(ss)|
    ensures var r := Live(ss)[k];
            && r.slot < |ss| && Live(ss[..r.slot]) == Live(ss)[..k]
            && r.oldOffset == ss[r.slot].offset && r.size == ss[r.slot].size != 0
  {
    var n := |ss| - 1;
    if ss[n].size == 0 || k < |Live(ss[..n])| {
      LiveAt(ss[..n], k);
      var s := Live(ss[..n])[k].slot;
      assert ss[..n][..s] == ss[..s];
      assert Live(ss)[..k] == Live(ss[..n])[..k];
    } else {
      assert Live(ss)[..k] == Live(ss[..n]);
    }
  }

  /** Between two prefixes with equally many live slots there are only deleted slots. */
  lemma {:induction false} LiveGrows(ss: seq<Slot>, x: nat, y: nat)
    requires x <= y <= |ss| < 0x1_0000
    ensures |Live(ss[..x])| <= |Live(ss[..y])|
    ensures |Live(ss[..x])| == |Live(ss[..y])| ==> forall i :: x <= i < y ==> ss[i].size == 0
    decreases y
  {
    if x < y {
      LiveGrows(ss, x, y - 1);
      assert ss[..y][..y - 1] == ss[..y - 1];
    }
  }

  lemma LiveNext(ss: seq<Slot>, k: nat)
    requires |ss| < 0x1_0000 && k < |Live(ss)|
    ensures var s := Live(ss)[k].slot; s < |ss| && Live(ss[..s + 1]) == Live(ss)[..k + 1]
  {
    LiveAt(ss, k);
    var s := Live(ss)[k].slot;
    assert ss[..s + 1][..s] == ss[..s];
    assert Live(ss)[..k + 1] == Live(ss)[..k] + [Live(ss)[k]];
  }

  /** Once every live slot was visited, only deleted slots are left. */
  lemma LiveRest(ss: seq<Slot>, done: nat)
    requires done <= |ss| < 0x1_0000 && Live(ss[..done]) == Live(ss)[..|Live(ss)|]
    ensures forall i :: done <= i < |ss| ==> ss[i].size == 0
  {
    assert ss[..|ss|] == ss;
    LiveGrows(ss, done, |ss|);
  }

  lemma {:induction false} DeadBytes(ss: seq<Slot>, x: nat, y: nat)
    requires x <= y <= |ss|
    requires forall i :: x <= i < y ==> ss[i].size == 0
    ensures TotalSize(ss[..x]) == TotalSize(ss[..y])
    decreases y
  {
    if x < y {
      DeadBytes(ss, x, y - 1);
      assert ss[..y][..y - 1] == ss[..y - 1];
    }
  }

  /** Slot i of `now` is slot i of `was`, moved to bytes at or above `hi`. */
  predicate Moved(was: Body, now: Body, s: Slot, t: Slot, hi: nat) {
    t.size == s.size && SlotOk(t, hi) && Read(now, t) == Read(was, s)
  }

  /** The first `done` slots are repacked at or above `hi`; the other slot entries are untouched. */
  predicate Repacking(was: Body, now: Body, ss: seq<Slot>, ts: seq<Slot>, done: nat, hi: nat) {
    && |ss| == |ts| && done <= |ss|
    && HEADER_SIZE + 4 * |ss| <= hi == PAGE_SIZE - TotalSize(ss[..done])
    && (forall i :: 0 <= i < done ==> Moved(was, now, ss[i], ts[i], hi))
    && ss[done..] == ts[done..]
  }

  /** Deleted slots need no work. */
  lemma SkipDead(was: Body, now: Body, ss: seq<Slot>, ts: seq<Slot>, done: nat, s: nat, hi: nat)
    requires Repacking(was, now, ss, ts, done, hi) && done <= s <= |ss|
    requires forall i :: done <= i < s ==> ss[i].size == 0
    ensures Repacking(was, now, ss, ts, s, hi)
  {
    DeadBytes(ss, done, s);
    forall i | done <= i < s
      ensures Moved(was, now, ss[i], ts[i], hi)
    {
      assert ss[i] == ss[done..][i - done] == ts[done..][i - done] == ts[i];
      assert Read(was, ss[i]) == [] && Read(now, ts[i]) == [];
    }
    assert ss[s..] == ss[done..][s - done..] && ts[s..] == ts[done..][s - done..];
  }

  /** Moving slot s to the bytes just below `hi` keeps every record repacked before it. */
  lemma MoveOne(was: Body, now: Body, next: Body, ss: seq<Slot>, ts: seq<Slot>, s: nat, hi: nat, lo: nat)
    requires Repacking(was, now, ss, ts, s, hi) && s < |ss|
    requires lo == hi - ss[s].size && HEADER_SIZE + 4 * |ss| <= lo
    requires next[lo - HEADER_SIZE..hi - HEADER_SIZE] == Read(was, ss[s])
    requires now[hi - HEADER_SIZE..] == next[hi - HEADER_SIZE..]
    ensures Repacking(was, next, ss, ts[s := Slot(lo, ss[s].size)], s + 1, lo)
  {
    var us := ts[s := Slot(lo, ss[s].size)];
    assert ss[..s + 1][..s] == ss[..s];
    forall i | 0 <= i < s
      ensures Moved(was, next, ss[i], us[i], lo)
    {
      assert Moved(was, now, ss[i], ts[i], hi);
      SameRead(now, next, ts[i], hi);
    }
    assert Read(next, us[s]) == next[lo - HEADER_SIZE..hi - HEADER_SIZE];
    assert ss[s + 1..] == ss[s..][1..] && us[s + 1..] == ts[s..][1..];
  }

  /** Before slot s is moved: nothing live was skipped, its bytes are in range, and they still fit. */
  lemma ReadyToMove(was: Body, now: Body, ss: seq<Slot>, ts: seq<Slot>, done: nat, s: nat, hi: nat, upper: nat)
    requires Repacking(was, now, ss, ts, done, hi) && Packed(ss, upper)
    requires s < |ss| < 0x1_0000 && ss[s].size > 0 && Live(ss[..s]) == Live(ss[..done])
    ensures Repacking(was, now, ss, ts, s, hi)
    ensures HEADER_SIZE + 4 * |ss| <= hi - ss[s].size
    ensures HEADER_SIZE <= ss[s].offset && ss[s].offset + ss[s].size <= PAGE_SIZE
  {
    assert ss[..s + 1][..s] == ss[..s];
    if s < done { LiveGrows(ss, s + 1, done); }
    LiveGrows(ss, done, s);
    SkipDead(was, now, ss, ts, done, s, hi);
    assert SlotOk(ss[s], upper);
    TotalSizePrefix(ss, s + 1);
  }

  lemma AllRepacked(was: Body, now: Body, ss: seq<Slot>, ts: seq<Slot>, done: nat, hi: nat)
    requires Repacking(was, now, ss, ts, done, hi)
    requires forall i :: done <= i < |ss| ==> ss[i].size == 0
    ensures Packed(ts, hi) && RecordsOf(now, ts) == RecordsOf(was, ss)
    ensures hi == PAGE_SIZE - TotalLen(RecordsOf(now, ts))
  {
    SkipDead(was, now, ss, ts, done, |ss|, hi);
    SameSizes(ss, ts);
    assert ss[..|ss|] == ss;
    forall i | 0 <= i < |ss|
      ensures SlotOk(ts[i], hi) && RecordsOf(now, ts)[i] == RecordsOf(was, ss)[i]
    {
      assert Moved(was, now, ss[i], ts[i], hi);
    }
    TotalLenIsSize(now, ts, hi);
  }

  lemma {:induction false} SameSizes(ss: seq<Slot>, ts: seq<Slot>)
    requires |ss| == |ts| && forall i :: 0 <= i < |ss| ==> ss[i].size == ts[i].size
    ensures TotalSize(ss) == TotalSize(ts)
  {
    if ss != [] {
      SameSizes(ss[..|ss| - 1], ts[..|ss| - 1]);
    }
  }
}
