/** Values, rows and schemas. FLOAT and DOUBLE are kept as their IEEE 754 bit patterns. */
module Rows {
  import opened Bytes

  /** A byte string, as std::string holds it. */
  type Text = seq<byte>

  datatype LogicalType = SQL_NULL | INTEGER | BIGINT | FLOAT | DOUBLE | VARCHAR | BOOLEAN | UNDEFINED(id: byte)

  datatype Value =
    | Null
    | Integer(i: i32)
    | BigInt(l: i64)
    | Float(bits32: u32)
    | Double(bits64: u64)
    | Varchar(s: Text)
    | Boolean(b: bool)

  type Row = seq<Value>

  datatype Column = Column(name: Text, typ: LogicalType, nullable: bool)

  type Schema = seq<Column>

  /** The value has the column's type, or is NULL. */
  predicate Conforms(v: Value, t: LogicalType) {
    match v
    case Null => true
    case Integer(_) => t.INTEGER?
    case BigInt(_) => t.BIGINT?
    case Float(_) => t.FLOAT?
    case Double(_) => t.DOUBLE?
    case Varchar(s) => t.VARCHAR? && |s| < 0x1_0000_0000
    case Boolean(_) => t.BOOLEAN?
  }

  predicate RowConforms(row: Row, schema: Schema) {
    |row| == |schema| && forall i :: 0 <= i < |row| ==> Conforms(row[i], schema[i].typ)
  }

  /** validateRow: arity and NOT NULL, nothing else. */
  predicate ValidRow(row: Row, schema: Schema) {
    |row| == |schema| && forall i :: 0 <= i < |row| ==> (row[i].Null? ==> schema[i].nullable)
  }
}
