/** Comparing values: lessThan and equals of Value, compareValues, and the ORDER BY comparator. */
module ValueOrders {
  import opened Wrappers
  import opened Bytes
  import opened Rows

  // ----- floats by their bits

  const SIGN32: nat := 0x8000_0000
  const SIGN64: nat := 0x8000_0000_0000_0000
  const INFINITY32: nat := 0x7F80_0000
  const INFINITY64: nat := 0x7FF0_0000_0000_0000

  /** The bits read as sign and magnitude; both zeros have key 0. Numbers compare as their keys do. */
  function Key(bits: nat, sign: nat): int { if bits < sign then bits else sign - bits }

  function Magnitude(bits: nat, sign: nat): int { if bits < sign then bits else bits - sign }

  predicate IsNaN(v: Value) {
    match v
    case Float(b) => Magnitude(b, SIGN32) > INFINITY32
    case Double(b) => Magnitude(b, SIGN64) > INFINITY64
    case _ => false
  }

  /** The floating-point operator <, false when either side is NaN. */
  predicate FloatLess(a: nat, b: nat, sign: nat, infinity: nat) {
    Magnitude(a, sign) <= infinity && Magnitude(b, sign) <= infinity && Key(a, sign) < Key(b, sign)
  }

  predicate FloatEqual(a: nat, b: nat, sign: nat, infinity: nat) {
    Magnitude(a, sign) <= infinity && Magnitude(b, sign) <= infinity && Key(a, sign) == Key(b, sign)
  }

  // ----- Value::lessThan and Value::equals

  function TypeId(v: Value): nat {
    match v
    case Null => 0 case Integer(_) => 1 case BigInt(_) => 2 case Float(_) => 3 case Double(_) => 4
    case Varchar(_) => 5 case Boolean(_) => 6
  }

  /** std::string's operator <: by the first differing byte, a proper prefix first. */
  predicate TextLess(a: Text, b: Text) {
    b != [] && (a == [] || a[0] < b[0] || (a[0] == b[0] && TextLess(a[1..], b[1..])))
  }

  /** NULL first, then by type, then by value; false < true. */
  predicate LessThan(a: Value, b: Value) {
    if a.Null? || b.Null? then a.Null? && !b.Null?
    else if TypeId(a) != TypeId(b) then TypeId(a) < TypeId(b)
    else
      match a
      case Integer(x) => x < b.i
      case BigInt(x) => x < b.l
      case Float(x) => FloatLess(x, b.bits32, SIGN32, INFINITY32)
      case Double(x) => FloatLess(x, b.bits64, SIGN64, INFINITY64)
      case Varchar(s) => TextLess(s, b.s)
      case Boolean(x) => !x && b.b
      case Null => false
  }

  predicate Equals(a: Value, b: Value) {
    if a.Null? || b.Null? then a.Null? && b.Null?
    else if TypeId(a) != TypeId(b) then false
    else
      match a
      case Integer(x) => x == b.i
      case BigInt(x) => x == b.l
      case Float(x) => FloatEqual(x, b.bits32, SIGN32, INFINITY32)
      case Double(x) => FloatEqual(x, b.bits64, SIGN64, INFINITY64)
      case Varchar(s) => s == b.s
      case Boolean(x) => x == b.b
      case Null => true
  }

  /** compareValues: NULL last, else by LessThan in both directions. */
  function Compare(a: Value, b: Value): int {
    if a.Null? && b.Null? then 0
    else if a.Null? then 1
    else if b.Null? then -1
    else if LessThan(a, b) then -1
    else if LessThan(b, a) then 1
    else 0
  }

  // ----- one value

  lemma {:induction false} TextOrder(a: Text, b: Text, c: Text)
    ensures !TextLess(a, a)
    ensures TextLess(a, b) || TextLess(b, a) || a == b
    ensures TextLess(a, b) ==> !TextLess(b, a)
    ensures TextLess(a, b) && TextLess(b, c) ==> TextLess(a, c)
    decreases |a| + |b| + |c|
  {
    if a != [] { TextOrder(a[1..], if b == [] then [] else b[1..], if c == [] then [] else c[1..]); }
    if a != [] && b != [] && a[0] == b[0] && a[1..] == b[1..] { assert a == b; }
  }

  /** compareValues on values that are not NaN: antisymmetric, transitive, and 0 exactly on equal values. */
  lemma CompareIsOrder(a: Value, b: Value, c: Value)
    requires !IsNaN(a) && !IsNaN(b) && !IsNaN(c)
    ensures Compare(a, b) == -Compare(b, a)
    ensures Compare(a, b) <= 0 && Compare(b, c) <= 0 ==> Compare(a, c) <= 0
    ensures Compare(a, b) == 0 <==> Equals(a, b)
  {
    if a.Varchar? && b.Varchar? {
      TextOrder(a.s, b.s, b.s);
      if c.Varchar? { TextOrder(a.s, b.s, c.s); TextOrder(c.s, b.s, a.s); TextOrder(a.s, c.s, b.s); }
    }
  }

  // ----- columns with NaN

  /** The values are strictly weakly ordered by Compare(_, _) < 0. */
  predicate StrictWeak(s: set<Value>) {
    && (forall a, b :: a in s && b in s ==> !(Compare(a, b) < 0 && Compare(b, a) < 0))
    && (forall a, b, c :: a in s && b in s && c in s && Compare(a, b) < 0 && Compare(b, c) < 0 ==> Compare(a, c) < 0)
    && (forall a, b, c :: a in s && b in s && c in s && Compare(a, b) == 0 && Compare(b, c) == 0 ==> Compare(a, c) == 0)
  }

  /** A NaN together with two different numbers of its type. */
  predicate NaNBetween(s: set<Value>, n: Value, x: Value, y: Value) {
    && n in s && x in s && y in s && IsNaN(n) && TypeId(x) == TypeId(y) == TypeId(n) && LessThan(x, y)
  }

  /** No NaN among the values meets two different numbers of its type. */
  ghost predicate Unmixed(s: set<Value>) { !exists n, x, y :: NaNBetween(s, n, x, y) }

  /** A set of values is strictly weakly ordered exactly when no NaN among them meets two different numbers of its
      type. */
  lemma StrictWeakIff(s: set<Value>)
    ensures StrictWeak(s) <==> Unmixed(s)
  {
    if n, x, y :| NaNBetween(s, n, x, y) {
      assert Compare(x, n) == 0 && Compare(n, y) == 0 && Compare(x, y) == -1;
    }
    if Unmixed(s) {
      forall a, b | a in s && b in s
        ensures !(Compare(a, b) < 0 && Compare(b, a) < 0)
      {
        Opposite(a, b);
      }
      forall a, b, c | a in s && b in s && c in s
        ensures Compare(a, b) < 0 && Compare(b, c) < 0 ==> Compare(a, c) < 0
        ensures Compare(a, b) == 0 && Compare(b, c) == 0 ==> Compare(a, c) == 0
      {
        NaNAlone(s, a, b, c);
      }
    }
  }

  lemma Opposite(a: Value, b: Value)
    ensures Compare(a, b) == -Compare(b, a)
  {
    if a.Varchar? && b.Varchar? { TextOrder(a.s, b.s, b.s); }
  }

  lemma NaNAlone(s: set<Value>, a: Value, b: Value, c: Value)
    requires a in s && b in s && c in s && Unmixed(s)
    ensures Compare(a, b) < 0 && Compare(b, c) < 0 ==> Compare(a, c) < 0
    ensures Compare(a, b) == 0 && Compare(b, c) == 0 ==> Compare(a, c) == 0
  {
    Opposite(a, c);
    if !IsNaN(a) && !IsNaN(b) && !IsNaN(c) {
      CompareIsOrder(a, b, c);
      CompareIsOrder(c, b, a);
      CompareIsOrder(a, c, b);
      CompareIsOrder(b, a, c);
    } else {
      assert !NaNBetween(s, b, a, c) && !NaNBetween(s, b, c, a);
    }
  }

  /** Three such values in any order: comparing goes on from one to the next, and is a tie only if both steps are. */
  lemma Carried(a: Value, b: Value, c: Value)
    requires Unmixed({a, b, c})
    ensures Compare(a, b) <= 0 && Compare(b, c) <= 0 ==>
              Compare(a, c) <= 0 && (Compare(a, c) == 0 ==> Compare(a, b) == 0 && Compare(b, c) == 0)
  {
    hide Compare;
    var s := {a, b, c};
    StrictWeakIff(s);
    Opposite(a, b);
    Opposite(b, c);
    Opposite(a, c);
    assert a in s && b in s && c in s;
  }

  lemma FewerUnmixed(s: set<Value>, t: set<Value>)
    requires s <= t && Unmixed(t)
    ensures Unmixed(s)
  {
    forall n, x, y
      ensures !NaNBetween(s, n, x, y)
    {
      assert !NaNBetween(t, n, x, y);
    }
  }

  // ----- the comparator

  /** A sort key: the column it was resolved to, if any, and the direction. */
  datatype SortKey = SortKey(column: Option<nat>, descending: bool)

  predicate KeysFit(keys: seq<SortKey>, width: nat) {
    forall k :: 0 <= k < |keys| && keys[k].column.Some? ==> keys[k].column.value < width
  }

  /** What the comparator of sortResultRows answers: the first key on which the rows differ decides. */
  predicate RowLess(a: Row, b: Row, keys: seq<SortKey>)
    requires KeysFit(keys, |a|) && KeysFit(keys, |b|)
  {
    if keys == [] then false
    else
      var k := keys[0];
      var c := if k.column.Some? then Compare(a[k.column.value], b[k.column.value]) else 0;
      if c != 0 then (if k.descending then c > 0 else c < 0) else RowLess(a, b, keys[1..])
  }

  /** In no key column a NaN meets two different numbers of its type. */
  ghost predicate KeysUnmixed(rows: set<Row>, keys: seq<SortKey>)
    requires forall r :: r in rows ==> KeysFit(keys, |r|)
  {
    forall k :: 0 <= k < |keys| && keys[k].column.Some? ==>
      assert forall r :: r in rows ==> KeysFit(keys, |r|) && keys[k].column.value < |r|;
      Unmixed(ColumnValues(rows, keys[k].column.value))
  }

  function ColumnValues(rows: set<Row>, i: nat): set<Value>
    requires forall r :: r in rows ==> i < |r|
  {
    set r | r in rows :: r[i]
  }

  /** Neither row goes before the other. */
  predicate Tied(a: Row, b: Row, keys: seq<SortKey>)
    requires KeysFit(keys, |a|) && KeysFit(keys, |b|)
  {
    !RowLess(a, b, keys) && !RowLess(b, a, keys)
  }

  /** The comparator on three rows is a strict weak ordering, what std::sort demands, for every list of keys, known or
      not, and every mix of directions, as long as in no key column a NaN meets two different numbers. */
  lemma {:induction false} RowLessIsStrictWeak(a: Row, b: Row, c: Row, keys: seq<SortKey>)
    requires KeysFit(keys, |a|) && KeysFit(keys, |b|) && KeysFit(keys, |c|) && KeysUnmixed({a, b, c}, keys)
    ensures !RowLess(a, a, keys)
    ensures RowLess(a, b, keys) ==> !RowLess(b, a, keys)
    ensures RowLess(a, b, keys) && RowLess(b, c, keys) ==> RowLess(a, c, keys)
    ensures Tied(a, b, keys) && Tied(b, c, keys) ==> Tied(a, c, keys)
    decreases |keys|
  {
    hide Compare, Unmixed;
    if keys != [] {
      assert forall k :: 0 <= k < |keys| - 1 ==> keys[1..][k] == keys[k + 1];
      RowLessIsStrictWeak(a, b, c, keys[1..]);
      if keys[0].column.Some? {
        var i := keys[0].column.value;
        assert ColumnValues({a, b, c}, i) == {a[i], b[i], c[i]};
        CarriedAnyway(a[i], b[i], c[i]);
        Opposite(a[i], a[i]);
        Opposite(a[i], b[i]);
        Opposite(b[i], c[i]);
        Opposite(a[i], c[i]);
      }
    }
  }

  /** The steps that decide between three rows, in both directions. */
  lemma CarriedAnyway(a: Value, b: Value, c: Value)
    requires Unmixed({a, b, c})
    ensures Compare(a, b) <= 0 && Compare(b, c) <= 0 ==>
              Compare(a, c) <= 0 && (Compare(a, c) == 0 ==> Compare(a, b) == 0 && Compare(b, c) == 0)
    ensures Compare(c, b) <= 0 && Compare(b, a) <= 0 ==>
              Compare(c, a) <= 0 && (Compare(c, a) == 0 ==> Compare(c, b) == 0 && Compare(b, a) == 0)
  {
    hide Compare, Unmixed;
    Carried(a, b, c);
    assert {c, b, a} == {a, b, c};
    Carried(c, b, a);
  }

  /** The rows are strictly weakly ordered by the comparator. */
  ghost predicate StrictWeakRows(rows: set<Row>, keys: seq<SortKey>)
    requires forall r :: r in rows ==> KeysFit(keys, |r|)
  {
    && (forall a, b :: a in rows && b in rows ==> !(RowLess(a, b, keys) && RowLess(b, a, keys)))
    && (forall a, b, c :: a in rows && b in rows && c in rows && RowLess(a, b, keys) && RowLess(b, c, keys) ==>
          RowLess(a, c, keys))
    && (forall a, b, c :: a in rows && b in rows && c in rows && Tied(a, b, keys) && Tied(b, c, keys) ==>
          Tied(a, c, keys))
  }

  /** Result rows are strictly weakly ordered by any list of keys when in no key column a NaN meets two different
      numbers. */
  lemma UnmixedIsStrictWeak(rows: set<Row>, keys: seq<SortKey>)
    requires (forall r :: r in rows ==> KeysFit(keys, |r|)) && KeysUnmixed(rows, keys)
    ensures StrictWeakRows(rows, keys)
  {
    hide RowLess, Unmixed;
    forall a, b, c | a in rows && b in rows && c in rows
      ensures !(RowLess(a, b, keys) && RowLess(b, a, keys))
      ensures RowLess(a, b, keys) && RowLess(b, c, keys) ==> RowLess(a, c, keys)
      ensures Tied(a, b, keys) && Tied(b, c, keys) ==> Tied(a, c, keys)
    {
      forall k | 0 <= k < |keys| && keys[k].column.Some?
        ensures Unmixed(ColumnValues({a, b, c}, keys[k].column.value))
      {
        FewerUnmixed(ColumnValues({a, b, c}, keys[k].column.value), ColumnValues(rows, keys[k].column.value));
      }
      RowLessIsStrictWeak(a, b, c, keys);
    }
  }

  /** By one key they are exactly when in its column no NaN meets two different numbers of its type. */
  lemma OneKeyIff(rows: set<Row>, k: SortKey)
    requires k.column.Some? && forall r :: r in rows ==> k.column.value < |r|
    ensures StrictWeakRows(rows, [k]) <==> Unmixed(ColumnValues(rows, k.column.value))
  {
    var i := k.column.value;
    var s := ColumnValues(rows, i);
    if n, x, y :| NaNBetween(s, n, x, y) {
      var a :| a in rows && a[i] == x;
      var b :| b in rows && b[i] == n;
      var c :| c in rows && c[i] == y;
      OneKey(a, b, k);
      OneKey(b, a, k);
      OneKey(b, c, k);
      OneKey(c, b, k);
      OneKey(a, c, k);
      OneKey(c, a, k);
      assert Tied(a, b, [k]) && Tied(b, c, [k]) && !Tied(a, c, [k]);
    }
    if Unmixed(s) { UnmixedIsStrictWeak(rows, [k]); }
  }

  lemma OneKey(a: Row, b: Row, k: SortKey)
    requires k.column.Some? && k.column.value < |a| && k.column.value < |b|
    ensures var c := Compare(a[k.column.value], b[k.column.value]);
            RowLess(a, b, [k]) <==> if k.descending then c > 0 else c < 0
  {
    assert [k][1..] == [];
  }

  /** A key whose column is not in the result decides nothing. */
  lemma {:induction false} UnknownKeySkipped(a: Row, b: Row, before: seq<SortKey>, k: SortKey, after: seq<SortKey>)
    requires KeysFit(before + after, |a|) && KeysFit(before + after, |b|) && k.column.None?
    ensures KeysFit(before + [k] + after, |a|) && KeysFit(before + [k] + after, |b|)
    ensures RowLess(a, b, before + [k] + after) <==> RowLess(a, b, before + after)
    decreases |before|
  {
    var full, short := before + [k] + after, before + after;
    forall j | 0 <= j < |full| && full[j].column.Some?
      ensures full[j].column.value < |a| && full[j].column.value < |b|
    {
      assert j < |before| ==> full[j] == short[j];
      assert j > |before| ==> full[j] == short[j - 1];
    }
    if before == [] {
      assert full[1..] == after && short == after;
    } else {
      forall j | 0 <= j < |short| - 1 && short[1..][j].column.Some?
        ensures short[1..][j].column.value < |a| && short[1..][j].column.value < |b|
      {
        assert short[1..][j] == short[j + 1];
      }
      assert before[1..] + after == short[1..] && before[1..] + [k] + after == full[1..];
      UnknownKeySkipped(a, b, before[1..], k, after);
    }
  }
}
