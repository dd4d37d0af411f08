/** The value of a slotted page: header fields plus the 4032-byte body, and what they mean. */
module PageImages {
  import opened Bytes

  const PAGE_SIZE: nat := 4096
  const HEADER_SIZE: nat := 64
  const BODY_SIZE: nat := 4032
  const SLOT_SIZE: nat := 4
  const INVALID_ID: u32 := 0xFFFF_FFFF

  datatype PageId = PageId(file: u32, num: u32) {
    predicate IsValid() { file != INVALID_ID && num != INVALID_ID }
  }

  const INVALID_PAGE_ID := PageId(INVALID_ID, INVALID_ID)

  /** `lower` and `upper` are free_space_offset and upper_offset; both count from byte 0 of the page. */
  datatype Header = Header(id: PageId, lower: u32, slotCount: u16, pageType: byte, checksum: u32,
                           upper: u32, lsn: u64, prev: PageId, next: PageId)

  type Body = b: seq<byte> | |b| == BODY_SIZE witness Zeros(BODY_SIZE)

  datatype PageImage = PageImage(header: Header, body: Body)

  const DATA_PAGE: byte := 0

  /** Page(id, type): no slots, the whole body free. */
  function FreshPage(id: PageId): PageImage {
    PageImage(Header(id, HEADER_SIZE, 0, DATA_PAGE, 0, PAGE_SIZE, 0, INVALID_PAGE_ID, INVALID_PAGE_ID),
              Zeros(BODY_SIZE))
  }

  // ----- slots and records

  /** A slot-directory entry; size 0 marks a deleted slot. */
  datatype Slot = Slot(offset: u16, size: u16)

  function SlotAt(b: Body, i: nat): Slot
    requires 4 * i + SLOT_SIZE <= BODY_SIZE
  {
    Slot(b[4 * i] as int + 256 * b[4 * i + 1] as int, b[4 * i + 2] as int + 256 * b[4 * i + 3] as int)
  }

  function SlotsOf(b: Body, n: nat): (r: seq<Slot>)
    requires 4 * n <= BODY_SIZE
    ensures |r| == n
  {
    seq(n, i requires 0 <= i < n => SlotAt(b, i))
  }

  /** The bytes a slot names; a deleted slot names none. */
  function Read(b: Body, s: Slot): seq<byte> {
    if HEADER_SIZE <= s.offset && s.offset + s.size <= PAGE_SIZE
    then b[s.offset - HEADER_SIZE..s.offset - HEADER_SIZE + s.size]
    else []
  }

  /** Records indexed by slot id; the empty record is a deleted slot. */
  function RecordsOf(b: Body, ss: seq<Slot>): (r: seq<seq<byte>>)
    ensures |r| == |ss|
  {
    seq(|ss|, i requires 0 <= i < |ss| => Read(b, ss[i]))
  }

  function Slots(p: PageImage): seq<Slot> {
    if 4 * p.header.slotCount <= BODY_SIZE then SlotsOf(p.body, p.header.slotCount) else []
  }

  /** A page as a sequence of records. */
  function Records(p: PageImage): (r: seq<seq<byte>>)
    ensures |r| == |Slots(p)|
  {
    RecordsOf(p.body, Slots(p))
  }

  function TotalLen(rs: seq<seq<byte>>): nat {
    if rs == [] then 0 else TotalLen(rs[..|rs| - 1]) + |rs[|rs| - 1]|
  }

  function TotalSize(ss: seq<Slot>): nat {
    if ss == [] then 0 else TotalSize(ss[..|ss| - 1]) + ss[|ss| - 1].size
  }

  function FreeSpace(p: PageImage): nat {
    if p.header.upper <= p.header.lower then 0 else (p.header.upper - p.header.lower) % 0x1_0000
  }

  predicate SlotOk(s: Slot, upper: nat) {
    s.size == 0 || (upper <= s.offset && s.offset + s.size <= PAGE_SIZE)
  }

  predicate SlotsOk(ss: seq<Slot>, upper: nat) {
    forall i :: 0 <= i < |ss| ==> SlotOk(ss[i], upper)
  }

  /** The slot array ends below `upper`, live records start at or above it, and all live bytes fit there. */
  predicate Packed(ss: seq<Slot>, upper: nat) {
    && HEADER_SIZE + 4 * |ss| <= upper <= PAGE_SIZE
    && SlotsOk(ss, upper)
    && TotalSize(ss) <= PAGE_SIZE - upper
  }

  /** The slot array ends at `lower`, record data starts at `upper`, and the two do not cross. */
  predicate Formatted(p: PageImage) {
    && p.header.lower == HEADER_SIZE + 4 * p.header.slotCount <= PAGE_SIZE
    && Packed(Slots(p), p.header.upper)
  }

  /** A page allocated on disk but never formatted: no slots and no room for any. */
  predicate Blank(p: PageImage) {
    p.header.slotCount == 0 && p.header.upper <= p.header.lower
  }

  predicate PageOk(p: PageImage) { Formatted(p) || Blank(p) }

  /** On a formatted page the 16-bit cast in freeSpace() loses nothing. */
  lemma FreeSpaceExact(p: PageImage)
    ensures Formatted(p) ==> FreeSpace(p) == p.header.upper - p.header.lower
    ensures Blank(p) ==> FreeSpace(p) == 0 && Records(p) == []
  {
  }

  lemma SlotCountIs(p: PageImage)
    requires PageOk(p)
    ensures |Records(p)| == p.header.slotCount && 4 * p.header.slotCount <= BODY_SIZE
  {
  }

  /** A slot entry of a formatted page has size 0 exactly if its record is deleted. */
  lemma RecordIsLive(p: PageImage, s: nat, e: Slot)
    requires PageOk(p) && s < p.header.slotCount && 4 * s + SLOT_SIZE <= BODY_SIZE && e == SlotAt(p.body, s)
    ensures Formatted(p) && s < |Slots(p)| && e == Slots(p)[s] && |Records(p)[s]| == e.size
  {
    assert SlotOk(Slots(p)[s], p.header.upper);
  }

  // ----- sums

  lemma TotalSizeAppend(ss: seq<Slot>, s: Slot)
    ensures TotalSize(ss + [s]) == TotalSize(ss) + s.size
  {
    assert (ss + [s])[..|ss|] == ss;
  }

  lemma {:induction false} TotalSizeUpdate(ss: seq<Slot>, i: nat, s: Slot)
    requires i < |ss|
    ensures TotalSize(ss[i := s]) == TotalSize(ss) - ss[i].size + s.size
  {
    var n := |ss| - 1;
    if i == n {
      assert ss[i := s][..n] == ss[..n];
    } else {
      TotalSizeUpdate(ss[..n], i, s);
      assert ss[i := s][..n] == ss[..n][i := s];
    }
  }

  lemma {:induction false} TotalLenUpdate(rs: seq<seq<byte>>, i: nat, r: seq<byte>)
    requires i < |rs|
    ensures TotalLen(rs[i := r]) == TotalLen(rs) - |rs[i]| + |r|
  {
    var n := |rs| - 1;
    if i == n {
      assert rs[i := r][..n] == rs[..n];
    } else {
      TotalLenUpdate(rs[..n], i, r);
      assert rs[i := r][..n] == rs[..n][i := r];
    }
  }

  lemma {:induction false} TotalLenAt(rs: seq<seq<byte>>, i: nat)
    requires i < |rs|
    ensures |rs[i]| <= TotalLen(rs)
  {
    if i < |rs| - 1 { TotalLenAt(rs[..|rs| - 1], i); }
  }

  lemma {:induction false} TotalSizePrefix(ss: seq<Slot>, k: nat)
    requires k <= |ss|
    ensures TotalSize(ss[..k]) <= TotalSize(ss)
  {
    if k == |ss| {
      assert ss[..k] == ss;
    } else {
      TotalSizePrefix(ss[..|ss| - 1], k);
      assert ss[..|ss| - 1][..k] == ss[..k];
    }
  }

  /** The live bytes of a page are the bytes of its records. */
  lemma {:induction false} TotalLenIsSize(b: Body, ss: seq<Slot>, upper: nat)
    requires SlotsOk(ss, upper) && HEADER_SIZE <= upper
    ensures TotalLen(RecordsOf(b, ss)) == TotalSize(ss)
  {
    if ss != [] {
      var n := |ss| - 1;
      TotalLenIsSize(b, ss[..n], upper);
      assert RecordsOf(b, ss)[..n] == RecordsOf(b, ss[..n]);
      ReadLen(b, ss[n], upper);
    }
  }

  // ----- slot entries as bytes

  lemma SlotsPrefix(b: Body, n: nat)
    requires 4 * n + SLOT_SIZE <= BODY_SIZE
    ensures SlotsOf(b, n + 1) == SlotsOf(b, n) + [SlotAt(b, n)]
  {
  }

  /** Slots wholly inside an unchanged prefix are unchanged. */
  lemma SlotsInPrefix(b: Body, c: Body, n: nat, at: nat)
    requires 4 * n <= at <= BODY_SIZE && b[..at] == c[..at]
    ensures SlotsOf(b, n) == SlotsOf(c, n)
  {
    forall i | 0 <= i < n
      ensures SlotAt(b, i) == SlotAt(c, i)
    {
      SlotBytes(b, at, i);
      SlotBytes(c, at, i);
    }
  }

  lemma SlotBytes(b: Body, at: nat, i: nat)
    requires 4 * i + SLOT_SIZE <= at <= BODY_SIZE
    ensures b[..at][4 * i] == b[4 * i] && b[..at][4 * i + 1] == b[4 * i + 1]
    ensures b[..at][4 * i + 2] == b[4 * i + 2] && b[..at][4 * i + 3] == b[4 * i + 3]
  {
  }

  /** A suffix of an unchanged suffix is unchanged. */
  lemma Suffix(b: Body, c: Body, from: nat, to: nat)
    requires from <= to <= BODY_SIZE && b[from..] == c[from..]
    ensures b[to..] == c[to..]
  {
    assert b[from..][to - from..] == b[to..] && c[from..][to - from..] == c[to..];
  }

  // ----- what the page operations write

  lemma ReadLen(b: Body, s: Slot, upper: nat)
    requires SlotOk(s, upper) && HEADER_SIZE <= upper
    ensures |Read(b, s)| == s.size
  {
  }

  lemma SameRead(b: Body, c: Body, s: Slot, upper: nat)
    requires SlotOk(s, upper) && HEADER_SIZE <= upper <= PAGE_SIZE
    requires b[upper - HEADER_SIZE..] == c[upper - HEADER_SIZE..]
    ensures Read(b, s) == Read(c, s)
  {
    if s.size > 0 {
      var k := s.offset - upper;
      assert b[upper - HEADER_SIZE..][k..k + s.size] == Read(b, s);
      assert c[upper - HEADER_SIZE..][k..k + s.size] == Read(c, s);
    } else {
      assert Read(b, s) == [] && Read(c, s) == [];
    }
  }

  /** Records live at or above `upper`, so bodies that agree there hold the same records. */
  lemma SameRecords(b: Body, c: Body, ss: seq<Slot>, upper: nat)
    requires SlotsOk(ss, upper) && HEADER_SIZE <= upper <= PAGE_SIZE
    requires b[upper - HEADER_SIZE..] == c[upper - HEADER_SIZE..]
    ensures RecordsOf(b, ss) == RecordsOf(c, ss)
  {
    forall i | 0 <= i < |ss|
      ensures RecordsOf(b, ss)[i] == RecordsOf(c, ss)[i]
    {
      SameRead(b, c, ss[i], upper);
    }
  }

  /** insertRecord: one slot more, naming the new bytes at `lo`; every earlier record is untouched. */
  lemma Inserted(b: Body, c: Body, ss: seq<Slot>, upper: nat, lo: nat, r: seq<byte>)
    requires Packed(ss, upper) && lo == upper - |r| && HEADER_SIZE + 4 * |ss| + SLOT_SIZE <= lo
    requires c[lo - HEADER_SIZE..upper - HEADER_SIZE] == r
    requires b[upper - HEADER_SIZE..] == c[upper - HEADER_SIZE..]
    ensures Packed(ss + [Slot(lo, |r|)], lo)
    ensures RecordsOf(c, ss + [Slot(lo, |r|)]) == RecordsOf(b, ss) + [r]
  {
    SameRecords(b, c, ss, upper);
    TotalSizeAppend(ss, Slot(lo, |r|));
    assert Read(c, Slot(lo, |r|)) == r;
  }

  /** deleteRecord: the slot's size becomes 0 and nothing else changes. */
  lemma Deleted(b: Body, c: Body, ss: seq<Slot>, upper: nat, s: nat)
    requires Packed(ss, upper) && s < |ss|
    requires b[upper - HEADER_SIZE..] == c[upper - HEADER_SIZE..]
    ensures Packed(ss[s := Slot(ss[s].offset, 0)], upper)
    ensures RecordsOf(c, ss[s := Slot(ss[s].offset, 0)]) == RecordsOf(b, ss)[s := []]
  {
    SameRecords(b, c, ss, upper);
    TotalSizeUpdate(ss, s, Slot(ss[s].offset, 0));
    assert Read(c, Slot(ss[s].offset, 0)) == [];
  }
}
