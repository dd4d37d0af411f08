/** The byte form of a row: per column a null flag, then the value in the column's format. */
module RowSerializer {
  import opened Bytes
  import opened Rows

  // ----- the format

  function Payload(v: Value): seq<byte> {
    match v
    case Null => []
    case Integer(i) => Encode(ToBits32(i), 4)
    case BigInt(l) => Encode(ToBits64(l), 8)
    case Float(b) => Encode(b, 4)
    case Double(b) => Encode(b, 8)
    case Varchar(s) => Encode(|s|, 4) + s
    case Boolean(b) => [if b then 1 else 0]
  }

  function EncodeValue(v: Value): seq<byte> {
    [if v.Null? then 1 else 0] + Payload(v)
  }

  /** The encoded columns one after the other. */
  function EncodeRow(row: Row): seq<byte> {
    if row == [] then [] else EncodeValue(row[0]) + EncodeRow(row[1..])
  }

  /** Bytes a value of the type takes after its flag; VARCHAR adds the length it reads to its length field. */
  function Width(t: LogicalType): nat {
    match t
    case INTEGER => 4
    case BIGINT => 8
    case FLOAT => 4
    case DOUBLE => 8
    case BOOLEAN => 1
    case VARCHAR => 4
    case _ => 0
  }

  /** Reads one column: its value and the bytes left. Once a value does not fit, nothing is left. */
  function DecodeValue(b: seq<byte>, t: LogicalType): (Value, seq<byte>) {
    if b == [] then (Null, [])
    else if b[0] != 0 then (Null, b[1..])
    else
      var d, w := b[1..], Width(t);
      if w > |d| then (Null, [])
      else if t.VARCHAR? then
        var len := Decode(d[..4]);
        if len > |d| - 4 then (Null, []) else (Varchar(d[4..4 + len]), d[4 + len..])
      else (ReadFixed(d[..w], t), d[w..])
  }

  function ReadFixed(d: seq<byte>, t: LogicalType): Value
    requires |d| == Width(t)
  {
    match t
    case INTEGER => Integer(FromBits32(Word(d, 4)))
    case BIGINT => BigInt(FromBits64(Word(d, 8)))
    case FLOAT => Float(Word(d, 4))
    case DOUBLE => Double(Word(d, 8))
    case BOOLEAN => Boolean(d[0] != 0)
    case _ => Null
  }

  function Word(d: seq<byte>, n: nat): (v: nat)
    requires |d| == n
    ensures v < Pow256(n)
    ensures n == 4 ==> v < 0x1_0000_0000
    ensures n == 8 ==> v < 0x1_0000_0000_0000_0000
  {
    EncodeDecode(d);
    Powers();
    Decode(d)
  }

  function DecodeRow(b: seq<byte>, schema: Schema): (row: Row)
    ensures |row| == |schema|
    decreases |schema|
  {
    if schema == [] then []
    else
      var (v, rest) := DecodeValue(b, schema[0].typ);
      [v] + DecodeRow(rest, schema[1..])
  }

  // ----- round trip

  lemma DecodeEncoded(v: Value, t: LogicalType, rest: seq<byte>)
    requires Conforms(v, t)
    ensures DecodeValue(EncodeValue(v) + rest, t) == (v, rest)
  {
    var b, p := EncodeValue(v) + rest, Payload(v);
    Powers();
    assert b[1..] == p + rest;
    if v.Null? {
      assert p + rest == rest;
    } else {
      var d, w := b[1..], Width(t);
      PayloadRoundTrip(v, t);
      assert d[..w] == p[..w];
      if v.Varchar? {
        assert d[4..4 + |v.s|] == v.s && d[4 + |v.s|..] == rest;
      } else {
        assert p[..w] == p && d[w..] == rest;
      }
    }
  }

  lemma PayloadRoundTrip(v: Value, t: LogicalType)
    requires Conforms(v, t) && !v.Null?
    ensures |Payload(v)| >= Width(t)
    ensures if v.Varchar? then Decode(Payload(v)[..4]) == |v.s| && Payload(v)[4..] == v.s
            else |Payload(v)| == Width(t) && ReadFixed(Payload(v), t) == v
  {
    Powers();
    match v
    case Integer(i) => DecodeEncode(ToBits32(i), 4);
    case BigInt(l) => DecodeEncode(ToBits64(l), 8);
    case Float(b) => DecodeEncode(b, 4);
    case Double(b) => DecodeEncode(b, 8);
    case Varchar(s) =>
      DecodeEncode(|s|, 4);
      assert Payload(v)[..4] == Encode(|s|, 4);
    case Boolean(b) =>
  }

  /** Reading an encoded row gives the row back, whatever bytes follow it. */
  lemma {:induction false} DecodeEncodeRow(row: Row, schema: Schema, junk: seq<byte>)
    requires RowConforms(row, schema)
    ensures DecodeRow(EncodeRow(row) + junk, schema) == row
    decreases |row|
  {
    if row != [] {
      var rest := EncodeRow(row[1..]) + junk;
      assert EncodeRow(row) + junk == EncodeValue(row[0]) + rest;
      DecodeEncoded(row[0], schema[0].typ, rest);
      DecodeEncodeRow(row[1..], schema[1..], junk);
    }
  }

  // ----- truncated input

  /** Whatever the bytes, decoding gives values of the columns' types. */
  lemma {:induction false} DecodeConforms(b: seq<byte>, schema: Schema)
    ensures RowConforms(DecodeRow(b, schema), schema)
    decreases |schema|
  {
    if schema != [] {
      var (v, rest) := DecodeValue(b, schema[0].typ);
      DecodedConforms(b, schema[0].typ);
      DecodeConforms(rest, schema[1..]);
    }
  }

  lemma DecodedConforms(b: seq<byte>, t: LogicalType)
    ensures Conforms(DecodeValue(b, t).0, t)
  {
    if b != [] && b[0] == 0 && t.VARCHAR? && Width(t) <= |b| - 1 {
      var d := b[1..];
      assert Word(d[..4], 4) == Decode(d[..4]);
    }
  }

  function Nulls(n: nat): Row { seq(n, _ => Null) }

  /** How many columns lie entirely within the first k bytes. */
  function WholeColumns(row: Row, k: nat): (n: nat)
    ensures n <= |row|
    decreases |row|
  {
    if row == [] || |EncodeValue(row[0])| > k then 0 else 1 + WholeColumns(row[1..], k - |EncodeValue(row[0])|)
  }

  lemma DecodePartial(v: Value, t: LogicalType, k: nat)
    requires Conforms(v, t) && k < |EncodeValue(v)|
    ensures DecodeValue(EncodeValue(v)[..k], t) == (Null, [])
  {
    if k > 0 {
      var b, p := EncodeValue(v)[..k], Payload(v);
      assert b[1..] == p[..k - 1];
      PayloadRoundTrip(v, t);
      if v.Varchar? && k - 1 >= 4 {
        assert b[1..][..4] == p[..4];
      }
    }
  }

  lemma {:induction false} DecodeNothing(schema: Schema)
    ensures DecodeRow([], schema) == Nulls(|schema|)
    decreases |schema|
  {
    if schema != [] {
      DecodeNothing(schema[1..]);
    }
  }

  /** One more whole column in front of a truncated row. */
  lemma FirstColumn(row: Row, m: nat, t: Row, r: Row)
    requires row != [] && m <= |row| - 1 && t == row[1..][..m] + Nulls(|row| - 1 - m) && r == [row[0]] + t
    ensures r == row[..m + 1] + Nulls(|row| - (m + 1))
  {
  }

  lemma TruncatedFirst(row: Row, schema: Schema, k: nat)
    requires RowConforms(row, schema) && row != [] && k <= |EncodeRow(row)|
    ensures var w := |EncodeValue(row[0])|;
            DecodeRow(EncodeRow(row)[..k], schema) ==
            if w <= k then [row[0]] + DecodeRow(EncodeRow(row[1..])[..k - w], schema[1..])
            else [Null] + DecodeRow([], schema[1..])
  {
    hide EncodeValue, DecodeValue, Conforms;
    var e, w := EncodeValue(row[0]), |EncodeValue(row[0])|;
    if w <= k {
      var rest := EncodeRow(row[1..])[..k - w];
      assert EncodeRow(row)[..k] == e + rest;
      DecodeEncoded(row[0], schema[0].typ, rest);
    } else {
      assert EncodeRow(row)[..k] == e[..k];
      DecodePartial(row[0], schema[0].typ, k);
    }
  }

  lemma NoColumn(row: Row)
    requires row != []
    ensures [Null] + Nulls(|row| - 1) == row[..0] + Nulls(|row|)
  {
  }

  lemma NothingTruncated(schema: Schema)
    requires schema == []
    ensures DecodeRow(EncodeRow([]), schema) == [] && Nulls(0) == []
  {
  }

  /** Reading a cut-off encoding gives the columns that are there in full, then NULLs. */
  lemma {:induction false} DecodeTruncated(row: Row, schema: Schema, k: nat, n: nat)
    requires RowConforms(row, schema) && k <= |EncodeRow(row)| && n == WholeColumns(row, k)
    ensures DecodeRow(EncodeRow(row)[..k], schema) == row[..n] + Nulls(|row| - n)
    decreases |row|
  {
    hide EncodeValue, DecodeValue, DecodeRow, Conforms, Nulls;
    if row == [] {
      NothingTruncated(schema);
    } else {
      var r, w := DecodeRow(EncodeRow(row)[..k], schema), |EncodeValue(row[0])|;
      TruncatedFirst(row, schema, k);
      if w <= k {
        var t := DecodeRow(EncodeRow(row[1..])[..k - w], schema[1..]);
        DecodeTruncated(row[1..], schema[1..], k - w, n - 1);
        FirstColumn(row, n - 1, t, r);
      } else {
        DecodeNothing(schema[1..]);
        NoColumn(row);
      }
    }
  }

  // ----- the loops

  lemma {:induction false} EncodeAppend(row: Row, v: Value)
    ensures EncodeRow(row + [v]) == EncodeRow(row) + EncodeValue(v)
    decreases |row|
  {
    hide EncodeValue;
    if row == [] {
      assert [v][1..] == [];
      assert row + [v] == [v];
    } else {
      EncodeAppend(row[1..], v);
      assert (row + [v])[1..] == row[1..] + [v];
    }
  }

  lemma EncodePrefix(row: Row, i: nat)
    requires i < |row|
    ensures EncodeRow(row[..i + 1]) == EncodeRow(row[..i]) + EncodeValue(row[i])
  {
    EncodeAppend(row[..i], row[i]);
    assert row[..i + 1] == row[..i] + [row[i]];
  }

  lemma {:induction false} EncodedPrefixFits(row: Row, i: nat)
    requires i <= |row|
    ensures |EncodeRow(row[..i])| <= |EncodeRow(row)|
    decreases |row| - i
  {
    if i == |row| {
      assert row[..i] == row;
    } else {
      EncodePrefix(row, i);
      EncodedPrefixFits(row, i + 1);
    }
  }

  // ----- values whose type is not the column's

  /** The eight bytes in which a value keeps its number, as an integer: zero first, then one member is assigned. */
  function Raw(v: Value): u64 {
    match v
    case Integer(i) => ToBits32(i)
    case BigInt(l) => ToBits64(l)
    case Float(b) => b
    case Double(b) => b
    case Boolean(b) => if b then 1 else 0
    case _ => 0
  }

  function TextOf(v: Value): Text { if v.Varchar? then v.s else [] }

  /** What a column keeps of a value: its bytes read as the column's type, whatever type the value has. */
  function AsColumn(v: Value, t: LogicalType): Value {
    if v.Null? then Null
    else
      match t
      case INTEGER => Integer(FromBits32(Raw(v) % 0x1_0000_0000))
      case BIGINT => BigInt(FromBits64(Raw(v)))
      case FLOAT => Float(Raw(v) % 0x1_0000_0000)
      case DOUBLE => Double(Raw(v))
      case VARCHAR => Varchar(TextOf(v))
      case BOOLEAN => Boolean(Raw(v) % 0x100 != 0)
      case _ => v
  }

  function AsColumns(row: Row, schema: Schema): (r: Row)
    requires |row| == |schema|
    ensures |r| == |row|
  {
    seq(|row|, i requires 0 <= i < |row| => AsColumn(row[i], schema[i].typ))
  }

  /** The columns have types that rows are written in, and no text needs more than 32 bits for its length. */
  predicate Encodable(row: Row, schema: Schema) {
    |row| == |schema| && RowConforms(AsColumns(row, schema), schema)
  }

  lemma AsColumnKeeps(v: Value, t: LogicalType)
    ensures Conforms(v, t) ==> AsColumn(v, t) == v
    ensures Conforms(AsColumn(v, t), t) && AsColumn(v, t) == v ==> Conforms(v, t)
  {
  }

  /** A row whose values have the columns' types is kept as it is, and such a row is what is kept of any other. */
  lemma AsColumnsKeeps(row: Row, schema: Schema)
    requires |row| == |schema|
    ensures RowConforms(row, schema) ==> AsColumns(row, schema) == row
    ensures Encodable(row, schema) ==> AsColumns(AsColumns(row, schema), schema) == AsColumns(row, schema)
  {
    hide AsColumn, Conforms;
    var kept := AsColumns(row, schema);
    forall i | 0 <= i < |row|
      ensures Conforms(row[i], schema[i].typ) ==> kept[i] == row[i]
      ensures Conforms(kept[i], schema[i].typ) ==> AsColumn(kept[i], schema[i].typ) == kept[i]
    {
      AsColumnKeeps(row[i], schema[i].typ);
      AsColumnKeeps(kept[i], schema[i].typ);
    }
  }

  lemma ConformingRow(row: Row, schema: Schema)
    requires RowConforms(row, schema)
    ensures Encodable(row, schema) && AsColumns(row, schema) == row
  {
    AsColumnsKeeps(row, schema);
  }

  /** An integer literal, which is a BIGINT, is kept in an INTEGER column exactly when 32 bits hold it; an INTEGER is
      kept in a BIGINT column exactly when it is not negative. */
  lemma IntegerKept(l: i64, i: i32)
    ensures var v := AsColumn(BigInt(l), INTEGER);
            v.Integer? && (v.i == l <==> -0x8000_0000 <= l < 0x8000_0000)
    ensures var v := AsColumn(Integer(i), BIGINT);
            v.BigInt? && (v.l == i <==> i >= 0)
  {
    var n := Raw(BigInt(l));
    if -0x8000_0000 <= l < 0 {
      assert n == 0xFFFF_FFFF * 0x1_0000_0000 + (l + 0x1_0000_0000);
      assert n % 0x1_0000_0000 == l + 0x1_0000_0000;
    }
  }

  /** A float literal, which is a DOUBLE, is kept in a FLOAT column as the low half of its bits: 1.5 becomes 0. */
  lemma DoubleInFloatColumn()
    ensures AsColumn(Double(0x3FF8_0000_0000_0000), FLOAT) == Float(0)
  {
    assert 0x3FF8_0000_0000_0000 == 0x3FF8_0000 * 0x1_0000_0000;
  }

  // ----- serialize

  /** Bytes a value takes, as the first pass of serialize counts them. */
  function SizeOf(v: Value, t: LogicalType): nat {
    if v.Null? then 1 else 1 + Width(t) + if t.VARCHAR? then |TextOf(v)| else 0
  }

  lemma SizeIsExact(v: Value, t: LogicalType)
    requires Conforms(AsColumn(v, t), t)
    ensures SizeOf(v, t) == |EncodeValue(AsColumn(v, t))|
  {
    if !v.Null? { PayloadRoundTrip(AsColumn(v, t), t); }
  }

  /** The first pass: the size of the buffer. */
  method EncodedSize(row: Row, schema: Schema) returns (total: nat)
    requires Encodable(row, schema)
    ensures total == |EncodeRow(AsColumns(row, schema))|
  {
    hide AsColumn, EncodeValue, SizeOf;
    ghost var kept := AsColumns(row, schema);
    total := 0;
    for i := 0 to |schema|
      invariant total == |EncodeRow(kept[..i])|
    {
      EncodePrefix(kept, i);
      SizeIsExact(row[i], schema[i].typ);
      total := total + SizeOf(row[i], schema[i].typ);
    }
    assert kept[..|schema|] == kept;
  }

  /** Two passes over the columns: count the bytes, then write exactly that many. */
  method Serialize(row: Row, schema: Schema) returns (bytes: seq<byte>)
    requires Encodable(row, schema)
    ensures bytes == EncodeRow(AsColumns(row, schema))
  {
    hide AsColumn, EncodeValue;
    ghost var kept := AsColumns(row, schema);
    var total := EncodedSize(row, schema);
    var buf := new byte[total];
    var ptr := 0;
    for i := 0 to |schema|
      invariant ptr == |EncodeRow(kept[..i])| <= total
      invariant buf[..ptr] == EncodeRow(kept[..i])
    {
      EncodePrefix(kept, i);
      EncodedPrefixFits(kept, i + 1);
      ptr := WriteBytes(buf, ptr, EncodeValue(AsColumn(row[i], schema[i].typ)));
    }
    assert kept[..|schema|] == kept && buf[..ptr] == buf[..];
    bytes := buf[..];
  }

  /** Copies bytes to the write pointer and advances it. */
  method WriteBytes(buf: array<byte>, ptr: nat, bytes: seq<byte>) returns (next: nat)
    requires ptr + |bytes| <= buf.Length
    modifies buf
    ensures next == ptr + |bytes| && buf[..next] == old(buf[..ptr]) + bytes
  {
    CopyInto(buf, ptr, bytes);
    next := ptr + |bytes|;
    assert buf[..next] == buf[..ptr] + buf[ptr..next];
  }

  /** A pointer walks the bytes; once a value is cut off it jumps to the end. */
  method Deserialize(data: seq<byte>, schema: Schema) returns (row: Row)
    ensures row == DecodeRow(data, schema)
  {
    row := [];
    var ptr := 0;
    for i := 0 to |schema|
      invariant ptr <= |data| && |row| == i
      invariant row + DecodeRow(data[ptr..], schema[i..]) == DecodeRow(data, schema)
    {
      ghost var rest := DecodeRow(data[ptr..], schema[i..]);
      var v, next := ReadColumn(data, ptr, schema[i].typ);
      assert schema[i..][1..] == schema[i + 1..];
      assert row + rest == row + [v] + DecodeRow(data[next..], schema[i + 1..]);
      row := row + [v];
      ptr := next;
    }
    assert row + [] == row;
  }

  /** One round of the loop, with its bounds checks. */
  method ReadColumn(data: seq<byte>, ptr: nat, t: LogicalType) returns (v: Value, next: nat)
    requires ptr <= |data|
    ensures ptr <= next <= |data| && (v, data[next..]) == DecodeValue(data[ptr..], t)
  {
    var end := |data|;
    assert data[end..] == [];
    if ptr >= end { return Null, ptr; }
    var p := ptr + 1;
    assert data[ptr..][1..] == data[p..];
    if data[ptr] != 0 { return Null, p; }
    var w := Width(t);
    if p + w > end { return Null, end; }
    assert data[p..][..w] == data[p..p + w] && data[p..][w..] == data[p + w..];
    if !t.VARCHAR? { return ReadFixed(data[p..p + w], t), p + w; }
    var len := Decode(data[p..p + 4]);
    ghost var d := data[p..];
    p := p + 4;
    if len > end - p { return Null, end; }
    assert d[4..4 + len] == data[p..p + len] && d[4 + len..] == data[p + len..];
    return Varchar(data[p..p + len]), p + len;
  }
}
