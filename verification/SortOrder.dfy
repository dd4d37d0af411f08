/** The direction of every comparison, said by the values themselves: which row ORDER BY puts first, and what MIN and
    MAX return. */
module SortOrders {
  import opened Wrappers
  import opened Numbers
  import opened Bytes
  import opened Rows
  import opened ValueOrders
  import opened Aggregates
  import C = Conversions
  import S = SelectResults

  // ----- values

  /** No infinity and no NaN. */
  predicate FiniteFloat(v: Value) {
    (v.Float? && Magnitude(v.bits32, SIGN32) < INFINITY32) || (v.Double? && Magnitude(v.bits64, SIGN64) < INFINITY64)
  }

  predicate PlusInfinity(v: Value) { v == Float(INFINITY32) || v == Double(INFINITY64) }

  predicate MinusInfinity(v: Value) { v == Float(SIGN32 + INFINITY32) || v == Double(SIGN64 + INFINITY64) }

  /** By the numbers the floats stand for, the infinities outside them. */
  predicate FloatBelow(a: Value, b: Value) {
    if FiniteFloat(a) && FiniteFloat(b) then Number(a) < Number(b)
    else (MinusInfinity(a) && !MinusInfinity(b)) || (PlusInfinity(b) && !PlusInfinity(a))
  }

  /** The texts agree up to a byte in which a has the smaller one, or a is a proper prefix of b. */
  ghost predicate TextBelow(a: Text, b: Text) {
    exists n :: DiffersAt(a, b, n)
  }

  predicate DiffersAt(a: Text, b: Text, n: nat) {
    n <= |a| && n < |b| && a[..n] == b[..n] && (n == |a| || a[n] < b[n])
  }

  /** Smaller, among values of one type. */
  ghost predicate Smaller(a: Value, b: Value) {
    match a
    case Null => false
    case Integer(x) => b.Integer? && x < b.i
    case BigInt(x) => b.BigInt? && x < b.l
    case Float(_) => b.Float? && FloatBelow(a, b)
    case Double(_) => b.Double? && FloatBelow(a, b)
    case Varchar(s) => b.Varchar? && TextBelow(s, b.s)
    case Boolean(x) => b.Boolean? && !x && b.b
  }

  /** Goes before under an ascending key: the smaller value, and every other value before NULL. */
  ghost predicate Earlier(a: Value, b: Value) {
    if a.Null? || b.Null? then !a.Null? else Smaller(a, b)
  }

  /** Values of one column without NaN: of one type, or NULL. */
  predicate Comparable(a: Value, b: Value) {
    !IsNaN(a) && !IsNaN(b) && (a.Null? || b.Null? || TypeId(a) == TypeId(b))
  }

  // ----- floats

  /** A larger magnitude stands for more steps. */
  lemma DigitsGrow(a: nat, b: nat, unit: nat)
    requires a < b && unit > 0
    ensures C.Digits(a, unit) < C.Digits(b, unit)
  {
    hide Pow2;
    var d, e := a / unit, b / unit;
    var m, n := a % unit, b % unit;
    Quotients(a, b, unit);
    if d == e {
      if d > 0 { Scaled(m + unit, n + unit, Pow2(d - 1)); }
    } else {
      PowersApart(m, n, d, e, unit);
    }
  }

  lemma Quotients(a: nat, b: nat, unit: nat)
    requires a < b && unit > 0
    ensures a / unit <= b / unit && (a / unit == b / unit ==> a % unit < b % unit)
  {
    var d, e := a / unit, b / unit;
    assert a == d * unit + a % unit && b == e * unit + b % unit;
    if d > e { Scaled(e, d, unit); }
  }

  lemma Distribute(x: nat, k: nat, p: nat)
    ensures (x + k) * p == x * p + k * p
  {
  }

  lemma {:induction false} AtLeast(k: nat, p: nat)
    ensures k > 0 ==> k * p >= p
  {
    if k > 1 { assert k * p == (k - 1) * p + p; AtLeast(k - 1, p); }
  }

  lemma Scaled(x: nat, y: nat, p: nat)
    requires x < y && p > 0
    ensures x * p < y * p && x * p + p <= y * p
  {
    AtLeast(y - x, p);
    Distribute(x, y - x, p);
  }

  lemma PowersApart(m: nat, n: nat, d: nat, e: nat, unit: nat)
    requires m < unit && n < unit && d < e
    ensures (if d == 0 then m else (m + unit) * Pow2(d - 1)) < (n + unit) * Pow2(e - 1)
  {
    hide Pow2;
    var p := Pow2(e - 1);
    Distribute(n, unit, p);
    if d == 0 {
      AtLeast(p, unit);
      assert p * unit == unit * p;
    } else {
      Pow2Grows(d, e - 1);
      HalfStep(m, d, unit);
      Grows(unit, Pow2(d), p);
    }
  }

  lemma HalfStep(m: nat, d: nat, unit: nat)
    requires m < unit && d > 0
    ensures (m + unit) * Pow2(d - 1) < unit * Pow2(d)
  {
    var q := Pow2(d - 1);
    Scaled(m + unit, 2 * unit, q);
    Regrouped(unit, q);
  }

  lemma Regrouped(unit: nat, q: nat)
    ensures (2 * unit) * q == unit * (2 * q)
  {
  }

  lemma Grows(unit: nat, x: nat, y: nat)
    requires x <= y
    ensures unit * x <= unit * y
  {
    Distribute(x, y - x, unit);
    assert unit * x == x * unit && unit * y == y * unit;
  }

  lemma Divided(x: nat, y: nat, p: nat)
    requires p > 0
    ensures x < y <==> x as real / p as real < y as real / p as real
    ensures x as real / p as real >= 0.0 && (x > 0 ==> x as real / p as real > 0.0)
  {
    var u, v := x as real / p as real, y as real / p as real;
    assert u * p as real == x as real && v * p as real == y as real;
    Ordered(u, v, p as real);
    Ordered(0.0, u, p as real);
  }

  lemma Ordered(u: real, v: real, p: real)
    requires p > 0.0
    ensures u < v <==> u * p < v * p
  {
    if u < v { assert (v - u) * p > 0.0; } else { assert (u - v) * p >= 0.0; }
  }

  /** Sign and magnitude decide as the numbers do. */
  lemma SignedOrder(a: nat, b: nat, sign: nat, unit: nat, p: nat)
    requires unit > 0 && p > 0
    ensures var x, y := Magnitude(a, sign), Magnitude(b, sign);
            Key(a, sign) < Key(b, sign) <==>
            C.WithSign(a >= sign, C.Digits(x, unit) as real / p as real)
            < C.WithSign(b >= sign, C.Digits(y, unit) as real / p as real)
  {
    hide Pow2, C.Digits;
    var x, y := Magnitude(a, sign), Magnitude(b, sign);
    if x < y { DigitsGrow(x, y, unit); }
    if y < x { DigitsGrow(y, x, unit); }
    ZeroSteps(unit);
    if x > 0 { DigitsGrow(0, x, unit); }
    if y > 0 { DigitsGrow(0, y, unit); }
    Divided(C.Digits(x, unit), C.Digits(y, unit), p);
    Divided(C.Digits(y, unit), C.Digits(x, unit), p);
  }

  lemma ZeroSteps(unit: nat)
    requires unit > 0
    ensures C.Digits(0, unit) == 0
  {
  }

  lemma FloatOrder(a: Value, b: Value)
    requires Comparable(a, b) && ((a.Float? && b.Float?) || (a.Double? && b.Double?))
    ensures LessThan(a, b) <==> FloatBelow(a, b)
  {
    hide Number, C.Digits, C.WithSign, Pow2;
    if FiniteFloat(a) && FiniteFloat(b) {
      if a.Float? {
        C.FloatIs(a.bits32);
        C.FloatIs(b.bits32);
        SignedOrder(a.bits32, b.bits32, SIGN32, C.UNIT32, Pow2(149));
      } else {
        C.DoubleIs(a.bits64);
        C.DoubleIs(b.bits64);
        SignedOrder(a.bits64, b.bits64, SIGN64, C.UNIT64, Pow2(1074));
      }
    }
  }

  // ----- texts

  lemma {:induction false} TextOrderIs(a: Text, b: Text)
    ensures TextLess(a, b) <==> TextBelow(a, b)
    decreases a
  {
    if a != [] && b != [] && a[0] == b[0] {
      TextOrderIs(a[1..], b[1..]);
      if n: nat :| DiffersAt(a[1..], b[1..], n) {
        assert a[..n + 1] == [a[0]] + a[1..][..n] && b[..n + 1] == [b[0]] + b[1..][..n];
        assert DiffersAt(a, b, n + 1);
      }
      if n: nat :| DiffersAt(a, b, n) {
        assert n > 0;
        assert a[1..][..n - 1] == a[..n][1..] && b[1..][..n - 1] == b[..n][1..];
        assert DiffersAt(a[1..], b[1..], n - 1);
      }
    } else {
      if TextLess(a, b) { assert DiffersAt(a, b, 0); }
      if n: nat :| DiffersAt(a, b, n) { FirstByte(a, b, n); }
    }
  }

  lemma FirstByte(a: Text, b: Text, n: nat)
    requires DiffersAt(a, b, n)
    ensures n > 0 ==> a != [] && a[0] == b[0]
  {
    if n > 0 { assert a[0] == a[..n][0] && b[0] == b[..n][0]; }
  }

  // ----- comparing

  /** lessThan, on values other than NULL and NaN of one type, is smaller. */
  lemma LessIsSmaller(a: Value, b: Value)
    requires Comparable(a, b) && !a.Null? && !b.Null?
    ensures LessThan(a, b) <==> Smaller(a, b)
  {
    hide TextBelow, TextLess, FloatBelow, FloatLess;
    if a.Varchar? { TextOrderIs(a.s, b.s); }
    if a.Float? || a.Double? { FloatOrder(a, b); }
  }

  /** compareValues answers by which value goes first. */
  lemma CompareIsEarlier(a: Value, b: Value)
    requires Comparable(a, b)
    ensures Compare(a, b) < 0 <==> Earlier(a, b)
    ensures Compare(a, b) > 0 <==> Earlier(b, a)
    ensures Equals(a, b) <==> !Earlier(a, b) && !Earlier(b, a)
  {
    hide LessThan, Smaller, Equals;
    if !a.Null? && !b.Null? {
      LessIsSmaller(a, b);
      LessIsSmaller(b, a);
    }
    CompareIsOrder(a, b, b);
    Opposite(a, b);
  }

  // ----- rows

  /** Row a goes before row b by this key alone. */
  ghost predicate KeyPrefers(a: Row, b: Row, k: SortKey)
    requires k.column.Some? ==> k.column.value < |a| && k.column.value < |b|
  {
    k.column.Some? && if k.descending then Earlier(b[k.column.value], a[k.column.value])
                      else Earlier(a[k.column.value], b[k.column.value])
  }

  /** Key k prefers row a, and no earlier key prefers either. */
  ghost predicate Decides(a: Row, b: Row, keys: seq<SortKey>, k: int)
    requires KeysFit(keys, |a|) && KeysFit(keys, |b|)
  {
    && 0 <= k < |keys| && KeyPrefers(a, b, keys[k])
    && forall j :: 0 <= j < k ==> !KeyPrefers(a, b, keys[j]) && !KeyPrefers(b, a, keys[j])
  }

  predicate RowsComparable(a: Row, b: Row, keys: seq<SortKey>)
    requires KeysFit(keys, |a|) && KeysFit(keys, |b|)
  {
    forall k :: 0 <= k < |keys| && keys[k].column.Some? ==>
      Comparable(a[keys[k].column.value], b[keys[k].column.value])
  }

  /** ORDER BY puts row a before row b exactly when the first key on which they differ prefers it: under an ascending
      key the smaller value goes first and NULL last, under a descending one the other way round. */
  lemma {:induction false} SortsByValue(a: Row, b: Row, keys: seq<SortKey>)
    requires KeysFit(keys, |a|) && KeysFit(keys, |b|) && RowsComparable(a, b, keys)
    ensures RowLess(a, b, keys) <==> exists k :: Decides(a, b, keys, k)
    decreases |keys|
  {
    hide Compare, Earlier, Comparable;
    if keys != [] {
      var rest := keys[1..];
      forall j | 0 <= j < |rest|
        ensures rest[j] == keys[j + 1]
      {
      }
      SortsByValue(a, b, rest);
      KeyDecides(a, b, keys[0]);
      FirstDecides(a, b, keys);
    }
  }

  lemma KeyDecides(a: Row, b: Row, k: SortKey)
    requires k.column.Some? ==>
               k.column.value < |a| && k.column.value < |b| && Comparable(a[k.column.value], b[k.column.value])
    ensures var c := if k.column.Some? then Compare(a[k.column.value], b[k.column.value]) else 0;
            && (KeyPrefers(a, b, k) <==> c != 0 && if k.descending then c > 0 else c < 0)
            && (KeyPrefers(b, a, k) <==> c != 0 && if k.descending then c < 0 else c > 0)
  {
    hide Compare, Earlier, Comparable;
    if k.column.Some? { CompareIsEarlier(a[k.column.value], b[k.column.value]); }
  }

  lemma FirstDecides(a: Row, b: Row, keys: seq<SortKey>)
    requires keys != [] && KeysFit(keys, |a|) && KeysFit(keys, |b|)
    requires KeysFit(keys[1..], |a|) && KeysFit(keys[1..], |b|)
    requires !(KeyPrefers(a, b, keys[0]) && KeyPrefers(b, a, keys[0]))
    ensures (exists k :: Decides(a, b, keys, k)) <==>
            KeyPrefers(a, b, keys[0]) || (!KeyPrefers(b, a, keys[0]) && exists k :: Decides(a, b, keys[1..], k))
  {
    hide KeyPrefers;
    if KeyPrefers(a, b, keys[0]) {
      assert Decides(a, b, keys, 0);
    } else if !KeyPrefers(b, a, keys[0]) {
      if k :| Decides(a, b, keys[1..], k) {
        forall j | 0 <= j < k + 1
          ensures !KeyPrefers(a, b, keys[j]) && !KeyPrefers(b, a, keys[j])
        {
          if j > 0 { assert keys[1..][j - 1] == keys[j]; }
        }
        assert Decides(a, b, keys, k + 1);
      }
      if k :| Decides(a, b, keys, k) {
        forall j | 0 <= j < k - 1
          ensures !KeyPrefers(a, b, keys[1..][j]) && !KeyPrefers(b, a, keys[1..][j])
        {
          assert keys[1..][j] == keys[j + 1];
        }
        assert Decides(a, b, keys[1..], k - 1);
      }
    }
  }

  // ----- ORDER BY items

  /** The first alias entry with this alias names the original column; without one the name stands for itself. */
  ghost predicate StandsFor(name: string, aliases: seq<(string, string)>, original: string) {
    || (original == name && forall j :: 0 <= j < |aliases| ==> aliases[j].1 != name)
    || exists j :: FirstAlias(name, aliases, original, j)
  }

  predicate FirstAlias(name: string, aliases: seq<(string, string)>, original: string, j: int) {
    0 <= j < |aliases| && aliases[j] == (original, name) && forall i :: 0 <= i < j ==> aliases[i].1 != name
  }

  lemma {:induction false} UnaliasedStandsFor(name: string, aliases: seq<(string, string)>)
    ensures StandsFor(name, aliases, S.Unaliased(name, aliases))
  {
    if aliases != [] && aliases[0].1 != name {
      UnaliasedStandsFor(name, aliases[1..]);
      var original := S.Unaliased(name, aliases[1..]);
      if j :| FirstAlias(name, aliases[1..], original, j) {
        assert FirstAlias(name, aliases, original, j + 1);
      } else {
        assert forall j :: 1 <= j < |aliases| ==> aliases[j] == aliases[1..][j - 1];
      }
    } else if aliases != [] {
      assert FirstAlias(name, aliases, aliases[0].0, 0);
    }
  }

  lemma StandsForOne(name: string, aliases: seq<(string, string)>, x: string, y: string)
    requires StandsFor(name, aliases, x) && StandsFor(name, aliases, y)
    ensures x == y
  {
    if i, j :| FirstAlias(name, aliases, x, i) && FirstAlias(name, aliases, y, j) {
      assert i == j;
    }
  }

  /** Column i is the first one with the name the item stands for. */
  ghost predicate IsColumnOf(o: S.OrderItem, aliases: seq<(string, string)>, columns: seq<string>, i: int) {
    0 <= i < |columns| && StandsFor(o.name, aliases, columns[i]) && columns[i] !in columns[..i]
  }

  lemma NotBefore(columns: seq<string>, i: nat, k: nat)
    requires i <= |columns| && k < |columns|
    ensures columns[k] !in columns[..i] ==> i <= k
  {
    if k < i { assert columns[..i][k] == columns[k]; }
  }

  lemma ResolvedIs(o: S.OrderItem, aliases: seq<(string, string)>, columns: seq<string>, i: int)
    ensures IsColumnOf(o, aliases, columns, i) <==> i >= 0 && S.Resolved(o, aliases, columns).column == Some(i)
  {
    hide StandsFor;
    var name := S.Unaliased(o.name, aliases);
    UnaliasedStandsFor(o.name, aliases);
    S.ColumnIsFirst(name, columns, 0);
    var found := S.ColumnOf(name, columns, 0);
    assert columns[0..] == columns;
    if found.Some? { assert columns[0..found.value] == columns[..found.value]; }
    if IsColumnOf(o, aliases, columns, i) {
      StandsForOne(o.name, aliases, name, columns[i]);
      NotBefore(columns, i, found.value);
      NotBefore(columns, found.value, i);
    }
  }

  /** Row a goes before row b by this ORDER BY item alone; an item that names no result column prefers neither. */
  ghost predicate ItemPrefers(a: Row, b: Row, o: S.OrderItem, aliases: seq<(string, string)>, columns: seq<string>)
    requires |columns| <= |a| && |columns| <= |b|
  {
    exists i :: IsColumnOf(o, aliases, columns, i) && PrefersAt(a, b, o, i)
  }

  ghost predicate PrefersAt(a: Row, b: Row, o: S.OrderItem, i: int) {
    0 <= i < |a| && i < |b| && if o.descending then Earlier(b[i], a[i]) else Earlier(a[i], b[i])
  }

  /** ORDER BY by its items: row a goes before row b exactly when some item prefers it and no earlier item prefers
      either. */
  lemma OrderByMeaning(a: Row, b: Row, order: seq<S.OrderItem>, aliases: seq<(string, string)>, columns: seq<string>)
    requires |columns| <= |a| && |columns| <= |b|
    requires forall i :: 0 <= i < |columns| ==> Comparable(a[i], b[i])
    ensures RowLess(a, b, S.Keys(order, aliases, columns)) <==>
            exists k :: ItemDecides(a, b, order, aliases, columns, k)
  {
    hide RowLess, Comparable, KeyPrefers, ItemPrefers, S.Resolved;
    var keys := S.Keys(order, aliases, columns);
    SortsByValue(a, b, keys);
    forall k | 0 <= k < |order|
      ensures KeyPrefers(a, b, keys[k]) <==> ItemPrefers(a, b, order[k], aliases, columns)
      ensures KeyPrefers(b, a, keys[k]) <==> ItemPrefers(b, a, order[k], aliases, columns)
    {
      KeyIsItem(a, b, order[k], aliases, columns);
      KeyIsItem(b, a, order[k], aliases, columns);
    }
    if k :| Decides(a, b, keys, k) { assert ItemDecides(a, b, order, aliases, columns, k); }
    if k :| ItemDecides(a, b, order, aliases, columns, k) { assert Decides(a, b, keys, k); }
  }

  ghost predicate ItemDecides(a: Row, b: Row, order: seq<S.OrderItem>, aliases: seq<(string, string)>,
        columns: seq<string>, k: int)
    requires |columns| <= |a| && |columns| <= |b|
  {
    && 0 <= k < |order| && ItemPrefers(a, b, order[k], aliases, columns)
    && forall j :: 0 <= j < k ==>
         !ItemPrefers(a, b, order[j], aliases, columns) && !ItemPrefers(b, a, order[j], aliases, columns)
  }

  lemma KeyIsItem(a: Row, b: Row, o: S.OrderItem, aliases: seq<(string, string)>, columns: seq<string>)
    requires |columns| <= |a| && |columns| <= |b|
    ensures KeyPrefers(a, b, S.Resolved(o, aliases, columns)) <==> ItemPrefers(a, b, o, aliases, columns)
  {
    hide Earlier, IsColumnOf, S.Unaliased;
    var k := S.Resolved(o, aliases, columns);
    if k.column.Some? { ResolvedIs(o, aliases, columns, k.column.value); }
    if ItemPrefers(a, b, o, aliases, columns) {
      var i :| IsColumnOf(o, aliases, columns, i) && PrefersAt(a, b, o, i);
      ResolvedIs(o, aliases, columns, i);
    }
  }

  // ----- MIN and MAX

  /** Of values of one type, MIN is one of them that none is smaller than, and MAX one that is smaller than none. */
  lemma ExtremesByValue(vs: seq<Value>)
    requires forall i, j :: 0 <= i < |NonNull(vs)| && 0 <= j < |NonNull(vs)| ==>
               Comparable(NonNull(vs)[i], NonNull(vs)[j])
    ensures NonNull(vs) != [] ==>
              && Aggregated(Min, vs).Exact? && Aggregated(Min, vs).v in NonNull(vs)
              && forall i :: 0 <= i < |NonNull(vs)| ==> !Smaller(NonNull(vs)[i], Aggregated(Min, vs).v)
    ensures NonNull(vs) != [] ==>
              && Aggregated(Max, vs).Exact? && Aggregated(Max, vs).v in NonNull(vs)
              && forall i :: 0 <= i < |NonNull(vs)| ==> !Smaller(Aggregated(Max, vs).v, NonNull(vs)[i])
  {
    hide Fold, NonNull, LessThan, Smaller, Comparable;
    FoldExtremes(vs);
    NoneIsNull(vs);
    var ns := NonNull(vs);
    if ns != [] {
      var least, greatest := Fold(Min, vs).least.value, Fold(Max, vs).greatest.value;
      var j :| 0 <= j < |ns| && ns[j] == least;
      var k :| 0 <= k < |ns| && ns[k] == greatest;
      forall i | 0 <= i < |ns|
        ensures !Smaller(ns[i], least) && !Smaller(greatest, ns[i])
      {
        assert Comparable(ns[i], ns[j]) && Comparable(ns[k], ns[i]);
        LessIsSmaller(ns[i], least);
        LessIsSmaller(greatest, ns[i]);
      }
    }
  }

  lemma {:induction false} NoneIsNull(vs: seq<Value>)
    ensures forall i :: 0 <= i < |NonNull(vs)| ==> !NonNull(vs)[i].Null?
  {
    if vs != [] { NoneIsNull(vs[..|vs| - 1]); }
  }
}
