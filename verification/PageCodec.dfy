/** The 4096-byte disk form of a page: a 64-byte header at fixed offsets, then the body. */
module PageCodec {
  import opened Bytes
  import opened PageImages

  type Block = b: seq<byte> | |b| == PAGE_SIZE witness Zeros(PAGE_SIZE)

  function Ids(p: PageId): (s: seq<byte>)
    ensures |s| == 8
  {
    Encode(p.file, 4) + Encode(p.num, 4)
  }

  /** Header bytes 0..32; byte 15 is padding. */
  function HeaderFront(h: Header): (s: seq<byte>)
    ensures |s| == 32
  {
    Ids(h.id) + (Encode(h.lower, 4) + (Encode(h.slotCount, 2) + ([h.pageType, 0] +
    (Encode(h.checksum, 4) + (Encode(h.upper, 4) + Encode(h.lsn, 8))))))
  }

  /** Header bytes 32..64; the last 16 are reserved. */
  function HeaderBack(h: Header): (s: seq<byte>)
    ensures |s| == 32
  {
    Ids(h.prev) + (Ids(h.next) + Zeros(16))
  }

  function Serialize(p: PageImage): Block {
    HeaderFront(p.header) + HeaderBack(p.header) + p.body
  }

  function Word16(s: seq<byte>): u16
    requires |s| == 2
  {
    EncodeDecode(s);
    Powers();
    Decode(s)
  }

  function Word32(s: seq<byte>): u32
    requires |s| == 4
  {
    EncodeDecode(s);
    Powers();
    Decode(s)
  }

  function Word64(s: seq<byte>): u64
    requires |s| == 8
  {
    EncodeDecode(s);
    Powers();
    Decode(s)
  }

  function Deserialize(b: Block): PageImage {
    PageImage(
      Header(PageId(Word32(b[0..4]), Word32(b[4..8])), Word32(b[8..12]), Word16(b[12..14]), b[14],
             Word32(b[16..20]), Word32(b[20..24]), Word64(b[24..32]),
             PageId(Word32(b[32..36]), Word32(b[36..40])), PageId(Word32(b[40..44]), Word32(b[44..48]))),
      b[HEADER_SIZE..])
  }

  lemma WordRoundTrip(v: nat)
    ensures v < 0x1_0000 ==> Word16(Encode(v, 2)) == v
    ensures v < 0x1_0000_0000 ==> Word32(Encode(v, 4)) == v
    ensures v < 0x1_0000_0000_0000_0000 ==> Word64(Encode(v, 8)) == v
  {
    Powers();
    if v < 0x1_0000 { DecodeEncode(v, 2); }
    if v < 0x1_0000_0000 { DecodeEncode(v, 4); }
    if v < 0x1_0000_0000_0000_0000 { DecodeEncode(v, 8); }
  }

  // ----- the layout table of page_header.h, as a relation between a buffer and a page

  predicate HoldsFront(b: Block, h: Header) {
    && b[0..4] == Encode(h.id.file, 4) && b[4..8] == Encode(h.id.num, 4) && b[8..12] == Encode(h.lower, 4)
    && b[12..14] == Encode(h.slotCount, 2) && b[14] == h.pageType && b[15] == 0
    && b[16..20] == Encode(h.checksum, 4) && b[20..24] == Encode(h.upper, 4) && b[24..32] == Encode(h.lsn, 8)
  }

  predicate HoldsBack(b: Block, h: Header) {
    && b[32..36] == Encode(h.prev.file, 4) && b[36..40] == Encode(h.prev.num, 4)
    && b[40..44] == Encode(h.next.file, 4) && b[44..48] == Encode(h.next.num, 4)
    && b[48..64] == Zeros(16)
  }

  predicate Holds(b: Block, p: PageImage) {
    HoldsFront(b, p.header) && HoldsBack(b, p.header) && b[HEADER_SIZE..] == p.body
  }

  lemma Subslice(b: seq<byte>, from: nat, to: nat, i: nat, j: nat)
    requires from <= to <= |b| && i <= j <= to - from
    ensures b[from..to][i..j] == b[from + i..from + j]
  {
    var whole, s, t := b[from..to], b[from..to][i..j], b[from + i..from + j];
    forall k | 0 <= k < j - i
      ensures s[k] == t[k]
    {
      assert s[k] == whole[i + k] == b[from + i + k];
    }
    assert s == t;
  }

  lemma HoldsFrontJoin(b: Block, h: Header)
    requires HoldsFront(b, h)
    ensures b[..32] == HeaderFront(h)
  {
    var f := b[..32];
    assert f == f[0..4] + f[4..8] + f[8..12] + f[12..14] + [f[14], f[15]] + f[16..20] + f[20..24] + f[24..32];
    assert f[0..4] == b[0..4] && f[4..8] == b[4..8] && f[8..12] == b[8..12] && f[12..14] == b[12..14];
    assert f[16..20] == b[16..20] && f[20..24] == b[20..24] && f[24..32] == b[24..32];
  }

  lemma HoldsFrontSplit(b: Block, h: Header)
    requires b[..32] == HeaderFront(h)
    ensures HoldsFront(b, h)
  {
    var f, g := b[..32], HeaderFront(h);
    assert f[0..4] == b[0..4] && f[4..8] == b[4..8] && f[8..12] == b[8..12] && f[12..14] == b[12..14];
    assert f[16..20] == b[16..20] && f[20..24] == b[20..24] && f[24..32] == b[24..32];
    assert g[0..4] == Encode(h.id.file, 4) && g[4..8] == Encode(h.id.num, 4) && g[8..12] == Encode(h.lower, 4);
    assert g[12..14] == Encode(h.slotCount, 2) && g[14] == h.pageType && g[15] == 0;
    assert g[16..20] == Encode(h.checksum, 4) && g[20..24] == Encode(h.upper, 4) && g[24..32] == Encode(h.lsn, 8);
  }

  lemma HoldsBackAt(b: Block, h: Header)
    ensures HoldsBack(b, h) <==> b[32..64] == HeaderBack(h)
  {
    var f := b[32..64];
    Subslice(b, 32, 64, 0, 4); Subslice(b, 32, 64, 4, 8); Subslice(b, 32, 64, 8, 12);
    Subslice(b, 32, 64, 12, 16); Subslice(b, 32, 64, 16, 32);
    if HoldsBack(b, h) {
      assert f == f[0..4] + f[4..8] + f[8..12] + f[12..16] + f[16..32];
    }
    if f == HeaderBack(h) {
      var g := HeaderBack(h);
      assert g[0..4] == Encode(h.prev.file, 4) && g[4..8] == Encode(h.prev.num, 4);
      assert g[8..12] == Encode(h.next.file, 4) && g[12..16] == Encode(h.next.num, 4) && g[16..32] == Zeros(16);
    }
  }

  /** The layout determines the buffer: exactly one buffer holds a given page. */
  lemma HoldsIsSerialize(b: Block, p: PageImage)
    ensures Holds(b, p) <==> b == Serialize(p)
  {
    if b[..32] == HeaderFront(p.header) { HoldsFrontSplit(b, p.header); }
    if HoldsFront(b, p.header) { HoldsFrontJoin(b, p.header); }
    HoldsBackAt(b, p.header);
    assert b == b[..32] + b[32..64] + b[64..];
    var s := Serialize(p);
    assert s[..32] == HeaderFront(p.header) && s[32..64] == HeaderBack(p.header) && s[64..] == p.body;
  }

  lemma HoldsFrontDecodes(b: Block, h: Header)
    requires HoldsFront(b, h)
    ensures Deserialize(b).header == h.(prev := Deserialize(b).header.prev, next := Deserialize(b).header.next)
  {
    WordRoundTrip(h.id.file); WordRoundTrip(h.id.num); WordRoundTrip(h.lower); WordRoundTrip(h.slotCount);
    WordRoundTrip(h.checksum); WordRoundTrip(h.upper); WordRoundTrip(h.lsn);
  }

  lemma HoldsBackDecodes(b: Block, h: Header)
    requires HoldsBack(b, h)
    ensures Deserialize(b).header.prev == h.prev && Deserialize(b).header.next == h.next
  {
    WordRoundTrip(h.prev.file); WordRoundTrip(h.prev.num); WordRoundTrip(h.next.file); WordRoundTrip(h.next.num);
  }

  /** Writing a page to disk and reading it back gives the same page. */
  lemma DeserializeSerialize(p: PageImage)
    ensures Deserialize(Serialize(p)) == p
  {
    var b := Serialize(p);
    HoldsIsSerialize(b, p);
    HoldsFrontDecodes(b, p.header);
    HoldsBackDecodes(b, p.header);
  }

  lemma UnusedBytesZero(b: Block)
    requires b[15] == 0 && b[48..64] == Zeros(16)
    ensures Serialize(Deserialize(b)) == b
  {
    var p := Deserialize(b);
    HoldsIsSerialize(b, p);
    EncodeDecode(b[0..4]); EncodeDecode(b[4..8]); EncodeDecode(b[8..12]); EncodeDecode(b[12..14]);
    EncodeDecode(b[16..20]); EncodeDecode(b[20..24]); EncodeDecode(b[24..32]); EncodeDecode(b[32..36]);
    EncodeDecode(b[36..40]); EncodeDecode(b[40..44]); EncodeDecode(b[44..48]);
  }

  /** The block with its padding byte and its 16 reserved bytes set to zero. */
  function Cleared(b: Block): Block { b[..15] + [0] + b[16..48] + Zeros(16) + b[64..] }

  lemma ClearedReadsSame(b: Block)
    ensures Deserialize(Cleared(b)) == Deserialize(b)
  {
    hide Cleared;
    KeptSlice(b, 0, 4); KeptSlice(b, 4, 8); KeptSlice(b, 8, 12); KeptSlice(b, 12, 14);
    KeptSlice(b, 16, 20); KeptSlice(b, 20, 24); KeptSlice(b, 24, 32); KeptSlice(b, 32, 36);
    KeptSlice(b, 36, 40); KeptSlice(b, 40, 44); KeptSlice(b, 44, 48); KeptSlice(b, 64, |b|);
    assert Cleared(b)[14] == Cleared(b)[12..15][2] == b[12..15][2] by { KeptSlice(b, 12, 15); }
  }

  lemma KeptSlice(b: Block, i: nat, j: nat)
    requires i <= j <= 15 || 16 <= i <= j <= 48 || 64 <= i <= j <= |b|
    ensures Cleared(b)[i..j] == b[i..j]
  {
    var c := Cleared(b);
    forall k | i <= k < j
      ensures c[k] == b[k]
    {
      if 16 <= k < 48 { assert b[16..48][k - 16] == b[k]; }
      if 64 <= k { assert b[64..][k - 64] == b[k]; }
    }
  }

  /** Reading a block and writing it back clears the padding byte and the 16 reserved bytes and changes no other. */
  lemma SerializeDeserialize(b: Block)
    ensures Serialize(Deserialize(b)) == Cleared(b)
    ensures Serialize(Deserialize(b)) == b <==> b[15] == 0 && b[48..64] == Zeros(16)
  {
    var c := Cleared(b);
    ClearedReadsSame(b);
    assert c[48..64] == Zeros(16);
    UnusedBytesZero(c);
    if b == c { assert b[48..64] == Zeros(16); }
    if b[15] == 0 && b[48..64] == Zeros(16) {
      assert b == b[..15] + [b[15]] + b[16..48] + b[48..64] + b[64..];
    }
  }

  /** A block of zeros, as allocatePage writes it, reads as a blank page. */
  lemma ZeroBlockIsBlank()
    ensures Blank(Deserialize(Zeros(PAGE_SIZE)))
  {
    var b: Block := Zeros(PAGE_SIZE);
    assert b[8..12] == [0, 0, 0, 0] && b[20..24] == [0, 0, 0, 0] && b[12..14] == [0, 0];
    assert Decode([0, 0]) == 0 && Decode([0, 0, 0, 0]) == 0;
  }
}
