/** The in-memory page: header cursors and a body buffer, both changed in place. */
module Pages {
  import opened Bytes
  import opened PageImages
  import opened PageCodec
  import opened PageCompaction

  import opened Wrappers

  class Page {
    var header: Header
    const body: array<byte>

    predicate Sized() { body.Length == BODY_SIZE }

    ghost function Image(): PageImage
      requires Sized()
      reads this, body
    {
      PageImage(header, body[..])
    }

    constructor ()
      ensures Sized() && fresh(body)
      ensures Image() == FreshPage(INVALID_PAGE_ID)
    {
      header := FreshPage(INVALID_PAGE_ID).header;
      body := new byte[BODY_SIZE](_ => 0);
    }

    /** `page = Page(id, type)`: overwrite with a fresh page of that id. */
    method Format(id: PageId)
      requires Sized()
      modifies this, body
      ensures Image() == FreshPage(id)
    {
      header := FreshPage(id).header;
      CopyInto(body, 0, Zeros(BODY_SIZE));
      assert body[..] == body[0..0 + BODY_SIZE];
    }

    function SlotCount(): u16
      reads this
    {
      header.slotCount
    }

    method GetFreeSpace() returns (n: u16)
      requires Sized()
      ensures n == FreeSpace(Image())
    {
      if header.upper <= header.lower { return 0; }
      n := (header.upper - header.lower) % 0x1_0000;
    }

    // ----- slot entries

    method ReadSlot(s: nat) returns (e: Slot)
      requires Sized() && 4 * s + SLOT_SIZE <= BODY_SIZE
      ensures e == SlotAt(body[..], s)
    {
      e := Slot(body[4 * s] as int + 256 * body[4 * s + 1] as int,
                body[4 * s + 2] as int + 256 * body[4 * s + 3] as int);
    }

    /** Writes slot s of the first n: two bytes of offset, two of size. */
    method WriteSlot(s: nat, e: Slot, ghost n: nat)
      requires Sized() && s < n && 4 * n <= BODY_SIZE
      modifies body
      ensures SlotsOf(body[..], n) == old(SlotsOf(body[..], n))[s := e]
      ensures body[4 * n..] == old(body[4 * n..])
    {
      body[4 * s], body[4 * s + 1] := e.offset % 256, e.offset / 256;
      body[4 * s + 2], body[4 * s + 3] := e.size % 256, e.size / 256;
      assert SlotAt(body[..], s) == e;
    }

    /** Copies a record to page offsets lo..hi and makes slot s name it. */
    method PutRecord(s: nat, record: seq<byte>, lo: nat, hi: nat, ghost n: nat)
      requires Sized() && s < n && HEADER_SIZE + 4 * n <= lo && lo + |record| == hi <= PAGE_SIZE
      modifies body
      ensures SlotsOf(body[..], n) == old(SlotsOf(body[..], n))[s := Slot(lo, |record|)]
      ensures body[..][lo - HEADER_SIZE..hi - HEADER_SIZE] == record
      ensures body[..][hi - HEADER_SIZE..] == old(body[..])[hi - HEADER_SIZE..]
    {
      CopyInto(body, lo - HEADER_SIZE, record);
      SlotsInPrefix(old(body[..]), body[..], n, lo - HEADER_SIZE);
      ghost var mid := body[..];
      WriteSlot(s, Slot(lo, |record|), n);
      Suffix(mid, body[..], 4 * n, hi - HEADER_SIZE);
      Suffix(mid, body[..], 4 * n, lo - HEADER_SIZE);
      assert body[..][lo - HEADER_SIZE..hi - HEADER_SIZE] == body[..][lo - HEADER_SIZE..][..|record|];
    }

    // ----- records

    /** Steps 1 to 3 of an insert: data below `upper`, a slot entry at `lower`, then both cursors. */
    method Place(record: seq<byte>)
      requires Sized() && Formatted(Image())
      requires record != [] && |record| + SLOT_SIZE <= header.upper - header.lower
      modifies this, body
      ensures Formatted(Image()) && Records(Image()) == old(Records(Image())) + [record]
      ensures header.upper - header.lower == old(header.upper - header.lower) - |record| - SLOT_SIZE
    {
      ghost var was, ss := body[..], Slots(Image());
      var n, upper := header.slotCount, header.upper;
      var newUpper := upper - |record|;
      SlotsPrefix(was, n);
      PutRecord(n, record, newUpper, upper, n + 1);
      Inserted(was, body[..], ss, upper, newUpper, record);
      assert SlotsOf(body[..], n + 1) == ss + [Slot(newUpper, |record|)];
      header := header.(slotCount := n + 1, lower := header.lower + SLOT_SIZE, upper := newUpper);
    }

    /**
     * Appends a record, or returns None when it is empty or does not fit. `needed` is 16 bits wide, so for 65532
     * to 65535 bytes it wraps; the calls left out are those where the source would then write outside the page.
     */
    method InsertRecord(record: seq<byte>) returns (slot: Option<u16>)
      requires Sized() && PageOk(Image()) && |record| < 0x1_0000
      requires |record| + SLOT_SIZE < 0x1_0000 || (|record| + SLOT_SIZE) % 0x1_0000 > FreeSpace(Image())
      modifies this, body
      ensures slot.Some? <==> record != [] && |record| + SLOT_SIZE <= FreeSpace(old(Image()))
      ensures slot.None? ==> Image() == old(Image())
      ensures slot.Some? ==>
                && Formatted(Image()) && slot.value == |old(Records(Image()))|
                && Records(Image()) == old(Records(Image())) + [record]
                && FreeSpace(Image()) == FreeSpace(old(Image())) - |record| - SLOT_SIZE
    {
      var size := |record|;
      if size == 0 { return None; }
      var needed := (size + SLOT_SIZE) % 0x1_0000;
      var free := GetFreeSpace();
      if free < needed { return None; }
      assert needed == size + SLOT_SIZE;
      FreeSpaceExact(Image());
      slot := Some(header.slotCount);
      Place(record);
      FreeSpaceExact(Image());
    }

    /** The record in a slot, or None when the slot is deleted or out of range. */
    method GetRecord(s: u16) returns (r: Option<seq<byte>>)
      requires Sized() && PageOk(Image())
      ensures r == if s < |Records(Image())| && Records(Image())[s] != [] then Some(Records(Image())[s]) else None
    {
      if s >= header.slotCount { return None; }
      var e := ReadSlot(s);
      assert e == Slots(Image())[s] && SlotOk(e, header.upper);
      ReadLen(body[..], e, header.upper);
      if e.size == 0 { return None; }
      return Some(body[e.offset - HEADER_SIZE..e.offset - HEADER_SIZE + e.size]);
    }

    /** Logical delete: the slot's size becomes 0, its bytes stay until the page is compacted. */
    method DeleteRecord(s: u16) returns (ok: bool)
      requires Sized() && PageOk(Image())
      modifies body
      ensures ok <==> s < |old(Records(Image()))| && old(Records(Image()))[s] != []
      ensures !ok ==> Image() == old(Image())
      ensures ok ==> Formatted(Image()) && Records(Image()) == old(Records(Image()))[s := []]
      ensures ok ==> FreeSpace(Image()) == FreeSpace(old(Image()))
    {
      if s >= header.slotCount {
        SlotCountIs(Image());
        return false;
      }
      var e := ReadSlot(s);
      RecordIsLive(Image(), s, e);
      if e.size == 0 { return false; }
      Kill(s, e);
      ok := true;
    }

    /** Rewrites a slot entry with size 0. */
    method Kill(s: u16, e: Slot)
      requires Sized() && Formatted(Image()) && s < header.slotCount && e == Slots(Image())[s]
      modifies body
      ensures Formatted(Image()) && Records(Image()) == old(Records(Image()))[s := []]
      ensures FreeSpace(Image()) == FreeSpace(old(Image()))
    {
      ghost var was, ss, upper := body[..], Slots(Image()), header.upper;
      WriteSlot(s, e.(size := 0), header.slotCount);
      Suffix(was, body[..], 4 * header.slotCount, upper - HEADER_SIZE);
      Deleted(was, body[..], ss, upper, s);
    }

    // ----- compaction

    /** The first loop of compact(): list the live slots. */
    method CollectLive() returns (live: seq<LiveRecord>)
      requires Sized() && 4 * header.slotCount <= BODY_SIZE
      ensures live == Live(Slots(Image()))
    {
      live := [];
      ghost var ss := Slots(Image());
      for i := 0 to header.slotCount
        invariant live == Live(ss[..i])
      {
        assert ss[..i + 1][..i] == ss[..i];
        var e := ReadSlot(i);
        if e.size > 0 { live := live + [LiveRecord(i, e.offset, e.size)]; }
      }
      assert ss[..|ss|] == ss;
    }

    /** One round of the second loop: copy the record down from the snapshot and rewrite its slot. */
    method Move(temp: Body, rec: LiveRecord, upper: nat, ghost ss: seq<Slot>) returns (newUpper: nat)
      requires Sized() && 4 * |ss| <= BODY_SIZE
      requires Repacking(temp, body[..], ss, SlotsOf(body[..], |ss|), rec.slot, upper)
      requires rec.slot < |ss| && Slot(rec.oldOffset, rec.size) == ss[rec.slot]
      requires HEADER_SIZE <= rec.oldOffset && rec.oldOffset + rec.size <= PAGE_SIZE
      requires HEADER_SIZE + 4 * |ss| <= upper - rec.size && upper <= PAGE_SIZE
      modifies body
      ensures Repacking(temp, body[..], ss, SlotsOf(body[..], |ss|), rec.slot + 1, newUpper)
    {
      hide Repacking, SlotsOf, SlotAt;
      ghost var now, ts := body[..], SlotsOf(body[..], |ss|);
      newUpper := upper - rec.size;
      var bytes := temp[rec.oldOffset - HEADER_SIZE..rec.oldOffset - HEADER_SIZE + rec.size];
      assert bytes == Read(temp, ss[rec.slot]);
      PutRecord(rec.slot, bytes, newUpper, upper, |ss|);
      MoveOne(temp, now, body[..], ss, ts, rec.slot, upper, newUpper);
    }

    /** The second loop of compact(): place the live records from the end of the page downward. */
    method Repack(temp: Body, live: seq<LiveRecord>, ghost ss: seq<Slot>, ghost upper: nat) returns (newUpper: nat)
      requires Sized() && temp == body[..] && Packed(ss, upper)
      requires 4 * |ss| <= BODY_SIZE && ss == SlotsOf(temp, |ss|) && live == Live(ss)
      modifies body
      ensures Packed(SlotsOf(body[..], |ss|), newUpper)
      ensures RecordsOf(body[..], SlotsOf(body[..], |ss|)) == RecordsOf(temp, ss)
      ensures newUpper == PAGE_SIZE - TotalLen(RecordsOf(temp, ss))
    {
      newUpper := PAGE_SIZE;
      ghost var done: nat := 0;
      for k := 0 to |live|
        invariant Repacking(temp, body[..], ss, SlotsOf(body[..], |ss|), done, newUpper)
        invariant Live(ss[..done]) == live[..k]
      {
        LiveAt(ss, k);
        ReadyToMove(temp, body[..], ss, SlotsOf(body[..], |ss|), done, live[k].slot, newUpper, upper);
        newUpper := Move(temp, live[k], newUpper, ss);
        done := live[k].slot + 1;
        LiveNext(ss, k);
      }
      LiveRest(ss, done);
      AllRepacked(temp, body[..], ss, SlotsOf(body[..], |ss|), done, newUpper);
    }

    /** Moves the live records together at the top of the page; slot ids stay as they are. */
    method Compact()
      requires Sized() && Formatted(Image())
      modifies this, body
      ensures Formatted(Image()) && Records(Image()) == old(Records(Image()))
      ensures FreeSpace(Image()) == BODY_SIZE - 4 * |Records(Image())| - TotalLen(Records(Image()))
    {
      var live := CollectLive();
      var newUpper := Repack(body[..], live, Slots(Image()), header.upper);
      header := header.(upper := newUpper);
      FreeSpaceExact(Image());
    }

    // ----- disk form

    /** Writes one header field after `at` written bytes; the rest of the header is still zero. */
    static method Emit(buf: array<byte>, at: nat, s: seq<byte>)
      requires at + |s| <= HEADER_SIZE <= buf.Length && buf[at..HEADER_SIZE] == Zeros(HEADER_SIZE - at)
      modifies buf
      ensures buf[..at + |s|] == old(buf[..at]) + s
      ensures buf[at + |s|..HEADER_SIZE] == Zeros(HEADER_SIZE - at - |s|)
    {
      CopyInto(buf, at, s);
      assert buf[..at + |s|] == buf[..at] + buf[at..at + |s|];
      forall i | at + |s| <= i < HEADER_SIZE
        ensures buf[i] == 0
      {
        assert buf[i] == buf[at + |s|..][i - at - |s|] == old(buf[at + |s|..])[i - at - |s|] == old(buf[i]);
        assert old(buf[i]) == old(buf[at..HEADER_SIZE])[i - at];
      }
    }

    /** PageHeader::serialize: a zeroed header, then every field at its offset. */
    method SerializeHeader(buf: array<byte>)
      requires buf != body && buf.Length == PAGE_SIZE
      modifies buf
      ensures buf[..HEADER_SIZE] == HeaderFront(header) + HeaderBack(header)
    {
      CopyInto(buf, 0, Zeros(HEADER_SIZE));
      Emit(buf, 0, Ids(header.id));
      Emit(buf, 8, Encode(header.lower, 4) + (Encode(header.slotCount, 2) + [header.pageType, 0]));
      Emit(buf, 16, Encode(header.checksum, 4) + (Encode(header.upper, 4) + Encode(header.lsn, 8)));
      ghost var front := buf[..32];
      assert front == HeaderFront(header);
      Emit(buf, 32, Ids(header.prev) + Ids(header.next));
      assert buf[..HEADER_SIZE] == buf[..48] + buf[48..HEADER_SIZE];
    }

    method SerializeTo(buf: array<byte>)
      requires Sized() && buf != body && buf.Length == PAGE_SIZE
      modifies buf
      ensures buf[..] == Serialize(Image())
    {
      SerializeHeader(buf);
      ghost var front := buf[..HEADER_SIZE];
      CopyInto(buf, HEADER_SIZE, body[..]);
      assert buf[..] == front + buf[HEADER_SIZE..HEADER_SIZE + BODY_SIZE];
    }

    method DeserializeFrom(buf: Block)
      requires Sized()
      modifies this, body
      ensures Image() == Deserialize(buf)
    {
      header := Deserialize(buf).header;
      CopyInto(body, 0, buf[HEADER_SIZE..]);
      assert body[..] == body[0..BODY_SIZE];
    }
  }
}
