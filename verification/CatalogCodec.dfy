/** catalog.meta: the table schemas as one byte string, and what loading makes of any byte string. */
module CatalogCodec {
  import opened Wrappers
  import opened Bytes
  import opened Rows

  const MAX_TABLE_COUNT: nat := 10000
  const MAX_COLUMN_COUNT: nat := 1000
  const MAX_STRING_LENGTH: nat := 65536
  const MAX_LOGICAL_TYPE_ID: nat := 10

  type Catalog = map<Text, Schema>

  /** The catalog's entries in the order its map is iterated. */
  datatype Entry = Entry(name: Text, schema: Schema)

  function TypeToId(t: LogicalType): byte {
    match t
    case SQL_NULL => 0 case INTEGER => 1 case BIGINT => 2 case FLOAT => 3 case DOUBLE => 4 case VARCHAR => 5
    case BOOLEAN => 6 case UNDEFINED(id) => id
  }

  function IdToType(id: byte): LogicalType {
    match id
    case 0 => SQL_NULL case 1 => INTEGER case 2 => BIGINT case 3 => FLOAT case 4 => DOUBLE case 5 => VARCHAR
    case 6 => BOOLEAN case _ => UNDEFINED(id)
  }

  // ----- saving

  function EncodeText(s: Text): seq<byte> { Encode(|s|, 4) + s }

  function EncodeColumn(c: Column): seq<byte> {
    EncodeText(c.name) + [TypeToId(c.typ), if c.nullable then 1 else 0]
  }

  function EncodeColumns(cs: Schema): seq<byte> {
    if cs == [] then [] else EncodeColumn(cs[0]) + EncodeColumns(cs[1..])
  }

  function EncodeEntry(e: Entry): seq<byte> { EncodeText(e.name) + (Encode(|e.schema|, 4) + EncodeColumns(e.schema)) }

  function EncodeEntries(es: seq<Entry>): seq<byte> {
    if es == [] then [] else EncodeEntry(es[0]) + EncodeEntries(es[1..])
  }

  function EncodeCatalog(es: seq<Entry>): seq<byte> { Encode(|es|, 4) + EncodeEntries(es) }

  // ----- loading

  datatype Read<+T> = Short | Item(value: T, rest: seq<byte>)

  function ReadU32(b: seq<byte>): (r: Read<nat>)
    ensures r.Item? ==> |r.rest| < |b|
  {
    if |b| < 4 then Short else Item(Decode(b[..4]), b[4..])
  }

  function ReadText(b: seq<byte>): (r: Read<Text>)
    ensures r.Item? ==> |r.rest| < |b|
  {
    var n := ReadU32(b);
    if n.Short? || n.value > MAX_STRING_LENGTH || |n.rest| < n.value then Short
    else Item(n.rest[..n.value], n.rest[n.value..])
  }

  function ReadColumn(b: seq<byte>): (r: Read<Column>)
    ensures r.Item? ==> |r.rest| < |b|
  {
    var name := ReadText(b);
    if name.Short? || |name.rest| < 2 || name.rest[0] > MAX_LOGICAL_TYPE_ID then Short
    else Item(Column(name.value, IdToType(name.rest[0]), name.rest[1] != 0), name.rest[2..])
  }

  /** `left` more columns after those already read. */
  function ReadColumns(done: Schema, left: nat, b: seq<byte>): (r: Read<Schema>)
    ensures r.Item? ==> |r.rest| <= |b|
    decreases left
  {
    if left == 0 then Item(done, b)
    else
      var c := ReadColumn(b);
      if c.Short? then Short else ReadColumns(done + [c.value], left - 1, c.rest)
  }

  function ReadEntry(b: seq<byte>): (r: Read<Entry>)
    ensures r.Item? ==> |r.rest| < |b|
  {
    var name := ReadText(b);
    if name.Short? then Short
    else
      var n := ReadU32(name.rest);
      if n.Short? || n.value > MAX_COLUMN_COUNT then Short
      else
        var cs := ReadColumns([], n.value, n.rest);
        if cs.Short? then Short else Item(Entry(name.value, cs.value), cs.rest)
  }

  /** emplace: an entry whose name is already there changes nothing. */
  function Emplace(c: Catalog, e: Entry): Catalog { if e.name in c then c else c[e.name := e.schema] }

  function EmplaceAll(c: Catalog, es: seq<Entry>): Catalog
    decreases |es|
  {
    if es == [] then c else EmplaceAll(Emplace(c, es[0]), es[1..])
  }

  /** The declared tables one after the other; None as soon as one cannot be read. */
  function ReadEntries(c: Catalog, left: nat, b: seq<byte>): Option<Catalog>
    decreases left
  {
    if left == 0 then Some(c)
    else
      var e := ReadEntry(b);
      if e.Short? then None else ReadEntries(Emplace(c, e.value), left - 1, e.rest)
  }

  /** What loading a file into schemas c gives; None is failure, after which the schemas are those of before. */
  function LoadCatalog(c: Catalog, b: seq<byte>): Option<Catalog> {
    var n := ReadU32(b);
    if n.Short? || n.value > MAX_TABLE_COUNT then None else ReadEntries(c, n.value, n.rest)
  }

  // ----- what can be loaded back

  predicate ColumnFits(c: Column) { |c.name| <= MAX_STRING_LENGTH && TypeToId(c.typ) <= MAX_LOGICAL_TYPE_ID }

  predicate EntryFits(e: Entry) {
    && |e.name| <= MAX_STRING_LENGTH && |e.schema| <= MAX_COLUMN_COUNT
    && forall i :: 0 <= i < |e.schema| ==> ColumnFits(e.schema[i])
  }

  predicate CatalogFits(es: seq<Entry>) {
    |es| <= MAX_TABLE_COUNT && forall i :: 0 <= i < |es| ==> EntryFits(es[i])
  }

  /** Lengths and counts that fit their 32-bit fields, and type ids as LogicalType has them. */
  predicate Sized(e: Entry) {
    && |e.name| < 0x1_0000_0000 && |e.schema| < 0x1_0000_0000
    && forall i :: 0 <= i < |e.schema| ==> ColumnSized(e.schema[i])
  }

  predicate ColumnSized(c: Column) { |c.name| < 0x1_0000_0000 && IdToType(TypeToId(c.typ)) == c.typ }

  lemma CountBack(n: nat, rest: seq<byte>)
    requires n < 0x1_0000_0000
    ensures ReadU32(Encode(n, 4) + rest) == Item(n, rest)
  {
    var b := Encode(n, 4) + rest;
    Powers();
    DecodeEncode(n, 4);
    assert b[..4] == Encode(n, 4) && b[4..] == rest;
  }

  lemma TextBack(s: Text, rest: seq<byte>)
    requires |s| < 0x1_0000_0000
    ensures ReadText(EncodeText(s) + rest) == if |s| <= MAX_STRING_LENGTH then Item(s, rest) else Short
  {
    hide Encode, ReadU32;
    CountBack(|s|, s + rest);
    assert EncodeText(s) + rest == Encode(|s|, 4) + (s + rest);
    assert (s + rest)[..|s|] == s && (s + rest)[|s|..] == rest;
  }

  lemma ColumnBack(c: Column, rest: seq<byte>)
    requires ColumnSized(c)
    ensures ReadColumn(EncodeColumn(c) + rest) == if ColumnFits(c) then Item(c, rest) else Short
  {
    hide EncodeText, ReadText;
    var tail := [TypeToId(c.typ), if c.nullable then 1 else 0] + rest;
    TextBack(c.name, tail);
    assert EncodeColumn(c) + rest == EncodeText(c.name) + tail;
    assert tail[2..] == rest;
  }

  lemma {:induction false} ColumnsBack(done: Schema, cs: Schema, rest: seq<byte>)
    requires forall i :: 0 <= i < |cs| ==> ColumnSized(cs[i])
    ensures ReadColumns(done, |cs|, EncodeColumns(cs) + rest)
            == if forall i :: 0 <= i < |cs| ==> ColumnFits(cs[i]) then Item(done + cs, rest) else Short
    decreases |cs|
  {
    hide EncodeColumn, ReadColumn, ColumnFits, ColumnSized;
    if cs == [] {
      assert EncodeColumns(cs) + rest == rest && done + cs == done;
    } else {
      var us := EncodeColumns(cs[1..]) + rest;
      ColumnBack(cs[0], us);
      ColumnsBack(done + [cs[0]], cs[1..], rest);
      assert EncodeColumns(cs) + rest == EncodeColumn(cs[0]) + us;
      assert done + cs == (done + [cs[0]]) + cs[1..];
      AllFirst(cs);
    }
  }

  lemma AllFirst(cs: Schema)
    requires cs != []
    ensures (forall i :: 0 <= i < |cs| ==> ColumnFits(cs[i]))
            <==> ColumnFits(cs[0]) && forall i :: 0 <= i < |cs[1..]| ==> ColumnFits(cs[1..][i])
  {
    hide ColumnFits;
    assert cs == [cs[0]] + cs[1..];
  }

  lemma EntryBack(e: Entry, rest: seq<byte>)
    requires Sized(e)
    ensures ReadEntry(EncodeEntry(e) + rest) == if EntryFits(e) then Item(e, rest) else Short
  {
    hide EncodeText, ReadText, Encode, ReadU32, EncodeColumns, ReadColumns, ColumnFits, ColumnSized, ReadEntry,
         EncodeEntry;
    var us := EncodeColumns(e.schema) + rest;
    var ts := Encode(|e.schema|, 4) + us;
    TextBack(e.name, ts);
    CountBack(|e.schema|, us);
    ColumnsBack([], e.schema, rest);
    assert [] + e.schema == e.schema;
    EntryShape(e, rest);
    if |e.name| <= MAX_STRING_LENGTH {
      EntryRead(EncodeText(e.name) + ts, e.name, ts, |e.schema|, us);
    } else {
      NoName(EncodeText(e.name) + ts);
    }
  }

  lemma EntryShape(e: Entry, rest: seq<byte>)
    ensures EncodeEntry(e) + rest == EncodeText(e.name) + (Encode(|e.schema|, 4) + (EncodeColumns(e.schema) + rest))
  {
    hide EncodeText, Encode, EncodeColumns;
  }

  lemma NoName(b: seq<byte>)
    requires ReadText(b).Short?
    ensures ReadEntry(b).Short?
  {
  }

  lemma EntryRead(b: seq<byte>, name: Text, us: seq<byte>, n: nat, vs: seq<byte>)
    requires ReadText(b) == Item(name, us) && ReadU32(us) == Item(n, vs)
    ensures var cs := ReadColumns([], n, vs);
            ReadEntry(b) == if n > MAX_COLUMN_COUNT || cs.Short? then Short else Item(Entry(name, cs.value), cs.rest)
  {
    hide ReadText, ReadU32, ReadColumns;
  }

  lemma {:induction false} EntriesBack(c: Catalog, es: seq<Entry>, rest: seq<byte>)
    requires forall i :: 0 <= i < |es| ==> Sized(es[i])
    ensures ReadEntries(c, |es|, EncodeEntries(es) + rest)
            == if forall i :: 0 <= i < |es| ==> EntryFits(es[i]) then Some(EmplaceAll(c, es)) else None
    decreases |es|
  {
    hide EncodeEntry, ReadEntry, EntryFits, Sized, Emplace;
    if es != [] {
      var us := EncodeEntries(es[1..]) + rest;
      EntryBack(es[0], us);
      EntriesBack(Emplace(c, es[0]), es[1..], rest);
      assert EncodeEntries(es) + rest == EncodeEntry(es[0]) + us;
      assert es == [es[0]] + es[1..];
    }
  }

  /** Loading a saved catalog gives every schema back exactly when it is within the limits of the loader, and nothing
      otherwise; bytes after the last table are ignored. */
  lemma SaveLoad(c: Catalog, es: seq<Entry>, junk: seq<byte>)
    requires |es| < 0x1_0000_0000 && forall i :: 0 <= i < |es| ==> Sized(es[i])
    ensures LoadCatalog(c, EncodeCatalog(es) + junk) == if CatalogFits(es) then Some(EmplaceAll(c, es)) else None
  {
    hide Encode, ReadU32, EncodeEntries, ReadEntries, EntryFits, Sized;
    CountBack(|es|, EncodeEntries(es) + junk);
    EntriesBack(c, es, junk);
    assert EncodeCatalog(es) + junk == Encode(|es|, 4) + (EncodeEntries(es) + junk);
  }

  /** The entries list the catalog: every table once. */
  predicate Lists(es: seq<Entry>, c: Catalog) {
    && (forall i :: 0 <= i < |es| ==> es[i].name in c && c[es[i].name] == es[i].schema)
    && (forall name :: name in c ==> exists i :: 0 <= i < |es| && es[i].name == name)
  }

  /** Where a name comes from after loading. */
  lemma {:induction false} EmplacedAt(c: Catalog, es: seq<Entry>, name: Text)
    ensures name in EmplaceAll(c, es) <==> name in c || exists i :: 0 <= i < |es| && es[i].name == name
    ensures name in c ==> EmplaceAll(c, es)[name] == c[name]
    ensures name in EmplaceAll(c, es) && name !in c ==>
              exists i :: 0 <= i < |es| && es[i].name == name && es[i].schema == EmplaceAll(c, es)[name]
    decreases |es|
  {
    if es != [] {
      EmplacedAt(Emplace(c, es[0]), es[1..], name);
      assert forall i :: 0 <= i < |es| - 1 ==> es[1..][i] == es[i + 1];
    }
  }

  /** Loaded into an empty storage, the entries of a catalog are that catalog, whatever order they were saved in. */
  lemma LoadsAll(es: seq<Entry>, c: Catalog)
    requires Lists(es, c)
    ensures EmplaceAll(map[], es) == c
  {
    forall name
      ensures name in EmplaceAll(map[], es) <==> name in c
      ensures name in c ==> EmplaceAll(map[], es)[name] == c[name]
    {
      EmplacedAt(map[], es, name);
    }
  }

  // ----- the loops

  method WriteColumns(before: seq<byte>, cs: Schema) returns (out: seq<byte>)
    ensures out == before + EncodeColumns(cs)
  {
    hide EncodeColumn;
    out := before;
    for i := 0 to |cs|
      invariant out + EncodeColumns(cs[i..]) == before + EncodeColumns(cs)
    {
      assert cs[i..][1..] == cs[i + 1..];
      out := out + EncodeColumn(cs[i]);
    }
  }

  lemma OneEntry(out: seq<byte>, es: seq<Entry>, t: nat)
    requires t < |es|
    ensures out + EncodeEntries(es[t..])
            == (out + EncodeText(es[t].name) + Encode(|es[t].schema|, 4) + EncodeColumns(es[t].schema)) +
               EncodeEntries(es[t + 1..])
  {
    hide EncodeText, Encode, EncodeColumns;
    assert es[t..][1..] == es[t + 1..];
  }

  /** saveCatalogMeta: the bytes written for the given tables. */
  method WriteCatalog(es: seq<Entry>) returns (out: seq<byte>)
    requires |es| < 0x1_0000_0000 && forall i :: 0 <= i < |es| ==> Sized(es[i])
    ensures out == EncodeCatalog(es)
  {
    hide EncodeText, Encode, EncodeColumns, EncodeEntries, Sized;
    out := Encode(|es|, 4);
    assert es[0..] == es;
    for t := 0 to |es|
      invariant out + EncodeEntries(es[t..]) == EncodeCatalog(es)
    {
      OneEntry(out, es, t);
      out := out + EncodeText(es[t].name) + Encode(|es[t].schema|, 4);
      out := WriteColumns(out, es[t].schema);
    }
    NoEntries();
    assert es[|es|..] == [];
  }

  lemma NoEntries()
    ensures EncodeEntries([]) == []
  {
  }

  /** loadCatalogMeta: the schemas afterwards, those of before when the file is refused. */
  method ReadCatalog(schemas: Catalog, b: seq<byte>) returns (ok: bool, loaded: Catalog)
    ensures ok <==> LoadCatalog(schemas, b).Some?
    ensures loaded == if ok then LoadCatalog(schemas, b).value else schemas
  {
    hide ReadEntry;
    var count := ReadU32(b);
    if count.Short? || count.value > MAX_TABLE_COUNT { return false, schemas; }
    loaded := schemas;
    var rest := count.rest;
    for t := 0 to count.value
      invariant LoadCatalog(schemas, b) == ReadEntries(loaded, count.value - t, rest)
    {
      var e := ReadTable(rest);
      if e.Short? { return false, schemas; }
      loaded := Emplace(loaded, e.value);
      rest := e.rest;
    }
    return true, loaded;
  }

  method ReadTable(b: seq<byte>) returns (r: Read<Entry>)
    ensures r == ReadEntry(b)
  {
    hide ReadText, ReadColumn;
    var name := ReadText(b);
    if name.Short? { return Short; }
    var n := ReadU32(name.rest);
    if n.Short? || n.value > MAX_COLUMN_COUNT { return Short; }
    var columns, rest := [], n.rest;
    for i := 0 to n.value
      invariant ReadColumns([], n.value, n.rest) == ReadColumns(columns, n.value - i, rest)
    {
      var c := ReadColumn(rest);
      if c.Short? { return Short; }
      columns, rest := columns + [c.value], c.rest;
    }
    return Item(Entry(name.value, columns), rest);
  }
}
