/** The byte formats of records on a page, of rows and of catalog.meta, said by the bytes alone: exactly these bytes are
    written. */
module DiskFormats {
  import opened Wrappers
  import opened Bytes
  import opened Rows
  import opened PageImages
  import opened PageCodec
  import R = RowSerializer
  import C = CatalogCodec

  // ----- little-endian integers

  function Four(b: seq<byte>): nat
    requires |b| == 4
  {
    b[0] as nat + 0x100 * b[1] as nat + 0x1_0000 * b[2] as nat + 0x100_0000 * b[3] as nat
  }

  function Eight(b: seq<byte>): nat
    requires |b| == 8
  {
    Four(b[..4]) + 0x1_0000_0000 * Four(b[4..])
  }

  lemma FourIs(b: seq<byte>)
    requires |b| == 4
    ensures Four(b) == Decode(b)
  {
    assert b[1..][1..] == b[2..] && b[2..][1..] == b[3..] && b[3..][1..] == [];
    assert Decode(b[3..]) == b[3] && Decode(b[2..]) == b[2] as nat + 0x100 * b[3] as nat;
    assert Decode(b[1..]) == b[1] as nat + 0x100 * b[2] as nat + 0x1_0000 * b[3] as nat;
  }

  lemma EightIs(b: seq<byte>)
    requires |b| == 8
    ensures Eight(b) == Decode(b)
  {
    hide Four;
    FourIs(b[..4]);
    FourIs(b[4..]);
    DecodeJoined(b[..4], b[4..]);
    assert b[..4] + b[4..] == b;
    Powers();
  }

  lemma {:induction false} DecodeJoined(a: seq<byte>, b: seq<byte>)
    ensures Decode(a + b) == Decode(a) + Pow256(|a|) * Decode(b)
  {
    if a == [] {
      assert a + b == b;
    } else {
      DecodeJoined(a[1..], b);
      assert (a + b)[1..] == a[1..] + b;
      Shifted(Decode(a[1..]), Pow256(|a| - 1), Decode(b));
    }
  }

  lemma Shifted(a: int, p: int, b: int)
    ensures 256 * (a + p * b) == 256 * a + (256 * p) * b
  {
  }

  lemma FourIff(v: nat, b: seq<byte>)
    requires v < 0x1_0000_0000
    ensures Encode(v, 4) == b <==> |b| == 4 && Four(b) == v
  {
    Powers();
    DecodeEncode(v, 4);
    if |b| == 4 {
      FourIs(b);
      EncodeDecode(b);
    }
  }

  lemma EightIff(v: nat, b: seq<byte>)
    requires v < 0x1_0000_0000_0000_0000
    ensures Encode(v, 8) == b <==> |b| == 8 && Eight(b) == v
  {
    hide Eight;
    Powers();
    DecodeEncode(v, 8);
    if |b| == 8 {
      EightIs(b);
      EncodeDecode(b);
    }
  }

  // ----- pages

  function Two(low: byte, high: byte): nat { low as nat + 0x100 * high as nat }

  /** A record of a page lies in the block where the slot's first two bytes say, and is as long as its last two say. */
  lemma RecordInBlock(b: Block, s: nat)
    requires Formatted(Deserialize(b)) && s < |Records(Deserialize(b))|
    ensures 64 + 4 * s + 3 < PAGE_SIZE
    ensures var at, size := Two(b[64 + 4 * s], b[64 + 4 * s + 1]), Two(b[64 + 4 * s + 2], b[64 + 4 * s + 3]);
            && |Records(Deserialize(b))| == Two(b[12], b[13]) && (size > 0 ==> at + size <= PAGE_SIZE)
            && Records(Deserialize(b))[s] == if size == 0 then [] else b[at..at + size]
  {
    var p := Deserialize(b);
    assert p.body == b[64..];
    var k := 4 * s;
    assert p.body[k] == b[64 + k] && p.body[k + 1] == b[65 + k] && p.body[k + 2] == b[66 + k]
        && p.body[k + 3] == b[67 + k];
    var at, size := Two(b[64 + 4 * s], b[64 + 4 * s + 1]), Two(b[64 + 4 * s + 2], b[64 + 4 * s + 3]);
    assert Slots(p)[s] == SlotAt(p.body, s) == Slot(at, size);
    assert SlotOk(Slots(p)[s], p.header.upper);
    assert Records(p)[s] == Read(p.body, Slot(at, size));
    if size > 0 { assert p.body[at - 64..at - 64 + size] == b[at..at + size]; }
    TwoIs(b[12..14]);
  }

  lemma TwoIs(b: seq<byte>)
    requires |b| == 2
    ensures Decode(b) == Two(b[0], b[1])
  {
    assert b[1..][1..] == [] && Decode(b[1..]) == b[1] as nat;
  }

  // ----- rows

  /** A value's bytes: 1 for NULL; else 0, then the value, integers in two's complement, lowest byte first. */
  predicate ValueBytes(v: Value, b: seq<byte>) {
    if v.Null? then b == [1]
    else
      b != [] && b[0] == 0 && var d := b[1..];
      match v
      case Integer(i) => |d| == 4 && Four(d) == if i < 0 then i + 0x1_0000_0000 else i
      case BigInt(l) => |d| == 8 && Eight(d) == if l < 0 then l + 0x1_0000_0000_0000_0000 else l
      case Float(bits) => |d| == 4 && Four(d) == bits
      case Double(bits) => |d| == 8 && Eight(d) == bits
      case Varchar(s) => |d| == 4 + |s| && Four(d[..4]) == |s| && d[4..] == s
      case Boolean(x) => d == [if x then 1 else 0]
      case Null => false
  }

  /** The values one after the other, in column order. */
  ghost predicate RowBytes(row: Row, b: seq<byte>)
    decreases |row|
  {
    if row == [] then b == []
    else exists p, q :: b == p + q && ValueBytes(row[0], p) && RowBytes(row[1..], q)
  }

  /** Strings that can be written with their length. */
  predicate Short(v: Value) { v.Varchar? ==> |v.s| < 0x1_0000_0000 }

  lemma ValueBytesIff(v: Value, b: seq<byte>)
    requires Short(v)
    ensures R.EncodeValue(v) == b <==> ValueBytes(v, b)
  {
    hide Encode, Four, Eight;
    if b != [] { assert b == [b[0]] + b[1..]; }
    match v
    case Null =>
    case Integer(i) => FourIff(ToBits32(i), if b == [] then [] else b[1..]);
    case BigInt(l) => EightIff(ToBits64(l), if b == [] then [] else b[1..]);
    case Float(bits) => FourIff(bits, if b == [] then [] else b[1..]);
    case Double(bits) => EightIff(bits, if b == [] then [] else b[1..]);
    case Boolean(x) =>
    case Varchar(s) => StringBytes(s, b);
  }

  lemma StringBytes(s: Text, b: seq<byte>)
    requires |s| < 0x1_0000_0000
    ensures R.EncodeValue(Varchar(s)) == b <==> ValueBytes(Varchar(s), b)
  {
    hide Encode, Four;
    var e := R.EncodeValue(Varchar(s));
    FourIff(|s|, Encode(|s|, 4));
    assert e[1..] == Encode(|s|, 4) + s && e[1..][..4] == Encode(|s|, 4) && e[1..][4..] == s;
    if ValueBytes(Varchar(s), b) {
      var d := b[1..];
      FourIff(|s|, d[..4]);
      assert b == [b[0]] + d && d == d[..4] + d[4..];
    }
  }

  /** The row serializer writes exactly this format. */
  lemma {:induction false} RowBytesIff(row: Row, b: seq<byte>)
    requires forall i :: 0 <= i < |row| ==> Short(row[i])
    ensures R.EncodeRow(row) == b <==> RowBytes(row, b)
    decreases |row|
  {
    hide ValueBytes, R.EncodeValue;
    if row != [] {
      var p, q := R.EncodeValue(row[0]), R.EncodeRow(row[1..]);
      ValueBytesIff(row[0], p);
      RowBytesIff(row[1..], q);
      if RowBytes(row, b) {
        var m, n :| b == m + n && ValueBytes(row[0], m) && RowBytes(row[1..], n);
        ValueBytesIff(row[0], m);
        RowBytesIff(row[1..], n);
      }
    }
  }

  /** Reading takes any flag but 0 for NULL, and any byte but 0 for true. */
  lemma AnyByteButZero(b: byte, rest: seq<byte>, t: LogicalType)
    requires b != 0
    ensures R.DecodeValue([b] + rest, t) == (Null, rest)
    ensures R.DecodeValue([0, b] + rest, BOOLEAN) == (Boolean(true), rest)
  {
    assert ([b] + rest)[1..] == rest;
    var d := ([0, b] + rest)[1..];
    assert d == [b] + rest && d[..1] == [b] && d[1..] == rest;
  }

  // ----- catalog.meta

  /** A length in four bytes, then the characters. */
  predicate TextBytes(s: Text, b: seq<byte>) { |b| == 4 + |s| && Four(b[..4]) == |s| && b[4..] == s }

  predicate TypeByte(t: LogicalType, id: byte) {
    match id
    case 0 => t == SQL_NULL case 1 => t == INTEGER case 2 => t == BIGINT case 3 => t == FLOAT case 4 => t == DOUBLE
    case 5 => t == VARCHAR case 6 => t == BOOLEAN case _ => t == UNDEFINED(id)
  }

  /** A column: its name, its type id and 1 when it may be NULL, 0 when not. */
  predicate ColumnBytes(c: Column, b: seq<byte>) {
    |b| >= 2 && TextBytes(c.name, b[..|b| - 2]) && TypeByte(c.typ, b[|b| - 2])
    && b[|b| - 1] == if c.nullable then 1 else 0
  }

  ghost predicate ColumnsBytes(cs: Schema, b: seq<byte>)
    decreases |cs|
  {
    if cs == [] then b == []
    else exists p, q :: b == p + q && ColumnBytes(cs[0], p) && ColumnsBytes(cs[1..], q)
  }

  /** A table: its name, the number of its columns and the columns. */
  ghost predicate EntryBytes(e: C.Entry, b: seq<byte>) {
    exists p, n, q :: b == p + (n + q) && TextBytes(e.name, p) && |n| == 4 && Four(n) == |e.schema|
                      && ColumnsBytes(e.schema, q)
  }

  ghost predicate EntriesBytes(es: seq<C.Entry>, b: seq<byte>)
    decreases |es|
  {
    if es == [] then b == []
    else exists p, q :: b == p + q && EntryBytes(es[0], p) && EntriesBytes(es[1..], q)
  }

  /** The number of tables, then the tables. */
  ghost predicate CatalogBytes(es: seq<C.Entry>, b: seq<byte>) {
    |b| >= 4 && Four(b[..4]) == |es| && EntriesBytes(es, b[4..])
  }

  lemma TextBytesIff(s: Text, b: seq<byte>)
    requires |s| < 0x1_0000_0000
    ensures C.EncodeText(s) == b <==> TextBytes(s, b)
  {
    hide Encode, Four;
    var e := C.EncodeText(s);
    FourIff(|s|, Encode(|s|, 4));
    assert e[..4] == Encode(|s|, 4) && e[4..] == s;
    if TextBytes(s, b) {
      FourIff(|s|, b[..4]);
      assert b == b[..4] + b[4..];
    }
  }

  lemma TypeByteIff(t: LogicalType, id: byte)
    requires C.IdToType(C.TypeToId(t)) == t
    ensures C.TypeToId(t) == id <==> TypeByte(t, id)
  {
  }

  lemma ColumnBytesIff(c: Column, b: seq<byte>)
    requires C.ColumnSized(c)
    ensures C.EncodeColumn(c) == b <==> ColumnBytes(c, b)
  {
    hide C.EncodeText, TextBytes, C.TypeToId, C.IdToType, TypeByte;
    var e, n := C.EncodeColumn(c), |C.EncodeText(c.name)|;
    TypeByteIff(c.typ, C.TypeToId(c.typ));
    TextBytesIff(c.name, C.EncodeText(c.name));
    assert e[..n] == C.EncodeText(c.name);
    if ColumnBytes(c, b) {
      var m := |b| - 2;
      TextBytesIff(c.name, b[..m]);
      TypeByteIff(c.typ, b[m]);
      assert b == b[..m] + [b[m], b[m + 1]];
    }
  }

  lemma {:induction false} ColumnsBytesIff(cs: Schema, b: seq<byte>)
    requires forall i :: 0 <= i < |cs| ==> C.ColumnSized(cs[i])
    ensures C.EncodeColumns(cs) == b <==> ColumnsBytes(cs, b)
    decreases |cs|
  {
    hide ColumnBytes, C.EncodeColumn, C.ColumnSized;
    if cs != [] {
      var p, q := C.EncodeColumn(cs[0]), C.EncodeColumns(cs[1..]);
      ColumnBytesIff(cs[0], p);
      ColumnsBytesIff(cs[1..], q);
      if ColumnsBytes(cs, b) {
        var m, n :| b == m + n && ColumnBytes(cs[0], m) && ColumnsBytes(cs[1..], n);
        ColumnBytesIff(cs[0], m);
        ColumnsBytesIff(cs[1..], n);
      }
    }
  }

  lemma EntryBytesIff(e: C.Entry, b: seq<byte>)
    requires C.Sized(e)
    ensures C.EncodeEntry(e) == b <==> EntryBytes(e, b)
  {
    hide C.EncodeText, C.EncodeColumns, ColumnsBytes, TextBytes, Encode, Four, C.ColumnSized;
    var p, n, q := C.EncodeText(e.name), Encode(|e.schema|, 4), C.EncodeColumns(e.schema);
    TextBytesIff(e.name, p);
    FourIff(|e.schema|, n);
    ColumnsBytesIff(e.schema, q);
    if EntryBytes(e, b) {
      var x, y, z :| b == x + (y + z) && TextBytes(e.name, x) && |y| == 4 && Four(y) == |e.schema|
                     && ColumnsBytes(e.schema, z);
      TextBytesIff(e.name, x);
      FourIff(|e.schema|, y);
      ColumnsBytesIff(e.schema, z);
    }
  }

  lemma {:induction false} EntriesBytesIff(es: seq<C.Entry>, b: seq<byte>)
    requires forall i :: 0 <= i < |es| ==> C.Sized(es[i])
    ensures C.EncodeEntries(es) == b <==> EntriesBytes(es, b)
    decreases |es|
  {
    hide EntryBytes, C.EncodeEntry, C.Sized;
    if es != [] {
      var p, q := C.EncodeEntry(es[0]), C.EncodeEntries(es[1..]);
      EntryBytesIff(es[0], p);
      EntriesBytesIff(es[1..], q);
      if EntriesBytes(es, b) {
        var m, n :| b == m + n && EntryBytes(es[0], m) && EntriesBytes(es[1..], n);
        EntryBytesIff(es[0], m);
        EntriesBytesIff(es[1..], n);
      }
    }
  }

  /** saveCatalogMeta writes exactly this format. */
  lemma CatalogBytesIff(es: seq<C.Entry>, b: seq<byte>)
    requires |es| < 0x1_0000_0000 && forall i :: 0 <= i < |es| ==> C.Sized(es[i])
    ensures C.EncodeCatalog(es) == b <==> CatalogBytes(es, b)
  {
    hide C.EncodeEntries, EntriesBytes, Encode, Four, C.Sized;
    var e := C.EncodeCatalog(es);
    FourIff(|es|, Encode(|es|, 4));
    EntriesBytesIff(es, C.EncodeEntries(es));
    assert e[..4] == Encode(|es|, 4) && e[4..] == C.EncodeEntries(es);
    if CatalogBytes(es, b) {
      FourIff(|es|, b[..4]);
      EntriesBytesIff(es, b[4..]);
      assert b == b[..4] + b[4..];
    }
  }
}
