/** Aggregates and GROUP BY: accumulators as folds, and groups built row by row as the classes of equal keys. */
module Aggregates {
  import opened Wrappers
  import opened Bytes
  import opened Numbers
  import opened Rows
  import opened ValueOrders

  // ----- numbers

  /** The number a finite float stands for; NaN and the infinities are not summed here and count as 0. */
  function Number(v: Value): real {
    match v
    case Integer(i) => i as real
    case BigInt(l) => l as real
    case Float(b) => Decoded(Magnitude(b, SIGN32), b >= SIGN32, 0x80_0000, 255, 149)
    case Double(b) => Decoded(Magnitude(b, SIGN64), b >= SIGN64, 0x10_0000_0000_0000, 2047, 1074)
    case _ => 0.0
  }

  /** Mantissa below `unit`, then the exponent, biased so that the smallest step is 2 to the power -scale. */
  function Decoded(magnitude: nat, negative: bool, unit: nat, top: nat, scale: nat): real
    requires unit > 0
  {
    var e, m := magnitude / unit, magnitude % unit;
    if e >= top then 0.0
    else
      var x := (if e == 0 then m else (m + unit) * Pow2(e - 1)) as real / Pow2(scale) as real;
      if negative then -x else x
  }

  /** The double a value is added as; a BIGINT of more than 53 bits is rounded. */
  function AsDouble(v: Value): real { Nearest(Number(v)) }

  // ----- accumulators

  datatype Kind = CountStar | CountColumn | CountDistinct | Sum | Avg | Min | Max

  datatype Acc =
    | CountAcc(star: bool, count: nat)
    | DistinctAcc(seen: seq<Value>)
    | SumAcc(sum: real, hasValue: bool, isFloat: bool)
    | AvgAcc(total: real, n: nat)
    | MinAcc(least: Option<Value>)
    | MaxAcc(greatest: Option<Value>)

  function Fresh(k: Kind): Acc {
    match k
    case CountStar => CountAcc(true, 0) case CountColumn => CountAcc(false, 0) case CountDistinct => DistinctAcc([])
    case Sum => SumAcc(0.0, false, false) case Avg => AvgAcc(0.0, 0) case Min => MinAcc(None) case Max => MaxAcc(None)
  }

  predicate Seen(vs: seq<Value>, v: Value) { exists i :: 0 <= i < |vs| && Equals(vs[i], v) }

  function Accumulate(a: Acc, v: Value): Acc {
    match a
    case CountAcc(star, n) => if star || !v.Null? then CountAcc(star, n + 1) else a
    case DistinctAcc(vs) => if v.Null? || Seen(vs, v) then a else DistinctAcc(vs + [v])
    case SumAcc(s, _, f) => if v.Null? then a else SumAcc(Nearest(s + AsDouble(v)), true, f || v.Float? || v.Double?)
    case AvgAcc(s, n) => if v.Null? then a else AvgAcc(Nearest(s + AsDouble(v)), n + 1)
    case MinAcc(least) => if !v.Null? && (least.None? || LessThan(v, least.value)) then MinAcc(Some(v)) else a
    case MaxAcc(greatest) => if !v.Null? && (greatest.None? || LessThan(greatest.value, v)) then MaxAcc(Some(v)) else a
  }

  function Fold(k: Kind, vs: seq<Value>): Acc {
    if vs == [] then Fresh(k) else Accumulate(Fold(k, vs[..|vs| - 1]), vs[|vs| - 1])
  }

  // ----- what the folds compute

  function NonNull(vs: seq<Value>): seq<Value> {
    if vs == [] then []
    else NonNull(vs[..|vs| - 1]) + if vs[|vs| - 1].Null? then [] else [vs[|vs| - 1]]
  }

  lemma NonNullLast(vs: seq<Value>, v: Value)
    ensures NonNull(vs + [v]) == if v.Null? then NonNull(vs) else NonNull(vs) + [v]
  {
    assert (vs + [v])[..|vs|] == vs;
  }

  /** The values added up in order as doubles, every addition rounded. */
  function Total(vs: seq<Value>): real {
    if vs == [] then 0.0 else Nearest(Total(vs[..|vs| - 1]) + AsDouble(vs[|vs| - 1]))
  }

  lemma TotalLast(vs: seq<Value>, v: Value)
    ensures Total(vs + [v]) == Nearest(Total(vs) + AsDouble(v))
  {
    hide Nearest, AsDouble;
    assert (vs + [v])[..|vs|] == vs;
  }

  lemma LessThanOrder(a: Value, b: Value, c: Value)
    ensures !LessThan(a, a)
    ensures LessThan(a, b) && LessThan(b, c) ==> LessThan(a, c)
  {
    if a.Varchar? {
      TextOrder(a.s, a.s, a.s);
      if b.Varchar? && c.Varchar? { TextOrder(a.s, b.s, c.s); }
    }
  }

  /** Every value of xs equals one of ys. */
  predicate Covered(xs: seq<Value>, ys: seq<Value>) {
    forall i :: 0 <= i < |xs| && !IsNaN(xs[i]) ==> Seen(ys, xs[i])
  }

  predicate AllDifferent(vs: seq<Value>) {
    forall i, j :: 0 <= i < j < |vs| ==> !Equals(vs[i], vs[j])
  }

  predicate IsLeast(v: Value, vs: seq<Value>) { v in vs && forall i :: 0 <= i < |vs| ==> !LessThan(vs[i], v) }

  predicate IsGreatest(v: Value, vs: seq<Value>) { v in vs && forall i :: 0 <= i < |vs| ==> !LessThan(v, vs[i]) }

  /** Counts, sums and averages are those of the values that are not NULL; COUNT(*) counts them all. */
  lemma {:induction false} FoldCounts(vs: seq<Value>)
    ensures Fold(CountStar, vs) == CountAcc(true, |vs|)
    ensures Fold(CountColumn, vs) == CountAcc(false, |NonNull(vs)|)
    ensures Fold(Avg, vs) == AvgAcc(Total(NonNull(vs)), |NonNull(vs)|)
  {
    hide Nearest, AsDouble, NonNull, Total;
    if vs == [] {
      NoSum();
    } else {
      var init, last := vs[..|vs| - 1], vs[|vs| - 1];
      FoldCounts(init);
      NonNullLast(init, last);
      assert vs == init + [last];
      TotalLast(NonNull(init), last);
    }
  }

  predicate HasFraction(vs: seq<Value>) { exists i :: 0 <= i < |vs| && (vs[i].Float? || vs[i].Double?) }

  lemma HasFractionLast(vs: seq<Value>, v: Value)
    ensures HasFraction(vs + [v]) <==> HasFraction(vs) || v.Float? || v.Double?
  {
    var ws := vs + [v];
    assert ws[|vs|] == v;
    assert forall i :: 0 <= i < |vs| ==> ws[i] == vs[i];
  }

  lemma {:induction false} FoldSums(vs: seq<Value>)
    ensures Fold(Sum, vs) == SumAcc(Total(NonNull(vs)), NonNull(vs) != [], HasFraction(vs))
  {
    hide HasFraction, AsDouble, Nearest, NonNull, Total;
    if vs == [] {
      NoSum();
    } else {
      var init, last := vs[..|vs| - 1], vs[|vs| - 1];
      FoldSums(init);
      NonNullLast(init, last);
      assert vs == init + [last];
      TotalLast(NonNull(init), last);
      HasFractionLast(init, last);
    }
  }

  lemma NoSum()
    ensures NonNull([]) == [] && Total([]) == 0.0 && !HasFraction([])
  {
  }

  /** COUNT(DISTINCT) keeps one value of every class of equal ones, and nothing else. */
  lemma {:induction false} FoldDistinct(vs: seq<Value>)
    ensures Fold(CountDistinct, vs).DistinctAcc?
    ensures var seen := Fold(CountDistinct, vs).seen;
            AllDifferent(seen) && Covered(NonNull(vs), seen) && forall v :: v in seen ==> v in NonNull(vs)
  {
    if vs != [] {
      var init, last := vs[..|vs| - 1], vs[|vs| - 1];
      FoldDistinct(init);
      var before, after := Fold(CountDistinct, init).seen, Fold(CountDistinct, vs).seen;
      assert forall i :: 0 <= i < |before| ==> after[i] == before[i];
      forall i | 0 <= i < |NonNull(vs)| && !IsNaN(NonNull(vs)[i])
        ensures Seen(after, NonNull(vs)[i])
      {
        var v := NonNull(vs)[i];
        if i < |NonNull(init)| {
          assert v == NonNull(init)[i] && Seen(before, v);
          var j :| 0 <= j < |before| && Equals(before[j], v);
          assert Equals(after[j], v);
        } else if !Seen(before, v) {
          CompareIsOrder(v, v, v);
          assert after[|before|] == v;
        }
      }
    }
  }

  /** MIN and MAX are a least and a greatest value that is not NULL, and there is one exactly when some value is not
      NULL. */
  lemma {:induction false} FoldExtremes(vs: seq<Value>)
    ensures var m := Fold(Min, vs);
            m.MinAcc? && (m.least.None? <==> NonNull(vs) == [])
                && (m.least.Some? ==> IsLeast(m.least.value, NonNull(vs)))
    ensures var m := Fold(Max, vs);
            m.MaxAcc? && (m.greatest.None? <==> NonNull(vs) == [])
            && (m.greatest.Some? ==> IsGreatest(m.greatest.value, NonNull(vs)))
  {
    if vs != [] {
      var init, last := vs[..|vs| - 1], vs[|vs| - 1];
      FoldExtremes(init);
      var ns := NonNull(init);
      LessThanOrder(last, last, last);
      forall i | 0 <= i < |ns|
        ensures Fold(Min, init).least.Some? && LessThan(ns[i], last) && LessThan(last, Fold(Min, init).least.value)
                ==> LessThan(ns[i], Fold(Min, init).least.value)
        ensures Fold(Max, init).greatest.Some? && LessThan(last, ns[i])
                && LessThan(Fold(Max, init).greatest.value, last)
                ==> LessThan(Fold(Max, init).greatest.value, ns[i])
      {
        if Fold(Min, init).least.Some? { LessThanOrder(ns[i], last, Fold(Min, init).least.value); }
        if Fold(Max, init).greatest.Some? { LessThanOrder(Fold(Max, init).greatest.value, last, ns[i]); }
      }
    }
  }

  // ----- finalize

  /** What finalize returns: a value as it is stored, a DOUBLE as the number it holds, or, for a sum of integers that
      64 bits cannot hold, nothing that C++ defines. */
  datatype Summary = Exact(v: Value) | Fraction(x: real) | OutOfRange

  /** static_cast<int32_t> of a 64-bit count: its low 32 bits. */
  function Int32(n: nat): i32 { FromBits32(n % 0x1_0000_0000) }

  predicate FitsInt64(n: int) { -0x8000_0000_0000_0000 <= n < 0x8000_0000_0000_0000 }

  /** static_cast<int64_t> of a double: toward zero, undefined outside the 64-bit range. */
  function Int64(x: real): Summary {
    var n := if x >= 0.0 then x.Floor else -(-x).Floor;
    if FitsInt64(n) then Exact(BigInt(n)) else OutOfRange
  }

  function OrNull(v: Option<Value>): Summary { Exact(if v.Some? then v.value else Null) }

  function Finalize(a: Acc): Summary {
    match a
    case CountAcc(_, n) => Exact(Integer(Int32(n)))
    case DistinctAcc(vs) => Exact(Integer(Int32(|vs|)))
    case SumAcc(s, hasValue, isFloat) => if !hasValue then Exact(Null) else if isFloat then Fraction(s) else Int64(s)
    case AvgAcc(s, n) => if n == 0 then Exact(Null) else Fraction(Nearest(s / n as real))
    case MinAcc(least) => OrNull(least)
    case MaxAcc(greatest) => OrNull(greatest)
  }

  /** The result of an aggregate over its argument values. */
  function Aggregated(k: Kind, vs: seq<Value>): Summary { Finalize(Fold(k, vs)) }

  /** r is the INTEGER that n becomes: n itself exactly below 2^31, and n less a multiple of 2^32 in any case. */
  predicate CountedAs(r: Summary, n: nat) {
    && r.Exact? && r.v.Integer?
    && (r.v.i == n <==> n < 0x8000_0000)
    && (n - r.v.i) % 0x1_0000_0000 == 0
  }

  /** COUNT is the number of rows, of values that are not NULL, or of different such values, exactly below 2^31. */
  lemma CountResult(vs: seq<Value>)
    ensures CountedAs(Aggregated(CountStar, vs), |vs|)
    ensures CountedAs(Aggregated(CountColumn, vs), |NonNull(vs)|)
    ensures Fold(CountDistinct, vs).DistinctAcc?
    ensures CountedAs(Aggregated(CountDistinct, vs), |Fold(CountDistinct, vs).seen|)
  {
    hide Fold, NonNull;
    FoldCounts(vs);
    FoldDistinct(vs);
    LowBits(|vs|);
    LowBits(|NonNull(vs)|);
    LowBits(|Fold(CountDistinct, vs).seen|);
  }

  lemma LowBits(n: nat)
    ensures CountedAs(Exact(Integer(Int32(n))), n)
  {
    assert n - n % 0x1_0000_0000 == 0x1_0000_0000 * (n / 0x1_0000_0000);
    assert (0x1_0000_0000 * (n / 0x1_0000_0000)) % 0x1_0000_0000 == 0;
    assert (0x1_0000_0000 * (n / 0x1_0000_0000 + 1)) % 0x1_0000_0000 == 0;
  }

  function Whole(v: Value): int { if v.Integer? then v.i else if v.BigInt? then v.l else 0 }

  /** The integers among the values, added up. */
  function IntTotal(vs: seq<Value>): int {
    if vs == [] then 0 else IntTotal(vs[..|vs| - 1]) + Whole(vs[|vs| - 1])
  }

  lemma IntTotalLast(vs: seq<Value>, v: Value)
    ensures IntTotal(vs + [v]) == IntTotal(vs) + Whole(v)
  {
    assert (vs + [v])[..|vs|] == vs;
  }

  predicate Fits53(n: int) { n <= Pow2(53) && -n <= Pow2(53) }

  /** Every integer among the values and every sum on the way fit the 53 bits of a double's mantissa. */
  predicate Exactly(vs: seq<Value>) {
    vs == [] || (Exactly(vs[..|vs| - 1]) && Fits53(Whole(vs[|vs| - 1])) && Fits53(IntTotal(vs)))
  }

  lemma ExactlyLast(vs: seq<Value>, v: Value)
    ensures Exactly(vs + [v]) <==> Exactly(vs) && Fits53(Whole(v)) && Fits53(IntTotal(vs + [v]))
  {
    assert (vs + [v])[..|vs|] == vs;
  }

  lemma AddedExactly(total: int, v: Value)
    requires Fits53(Whole(v)) && Fits53(total + Whole(v)) && !v.Float? && !v.Double?
    ensures Nearest(total as real + AsDouble(v)) == (total + Whole(v)) as real
  {
    hide Nearest, Pow2;
    IntegerIsDouble(Whole(v));
    IntegerIsDouble(total + Whole(v));
    assert Number(v) == Whole(v) as real;
  }

  lemma {:induction false} TotalIsInteger(vs: seq<Value>)
    requires !HasFraction(vs) && Exactly(NonNull(vs))
    ensures Total(NonNull(vs)) == IntTotal(NonNull(vs)) as real
  {
    hide HasFraction, NonNull, Total, IntTotal, Exactly, Fits53, Nearest, AsDouble, Whole;
    if vs == [] {
      NoSum();
      NoIntegers();
    } else {
      var init, last := vs[..|vs| - 1], vs[|vs| - 1];
      assert vs == init + [last];
      HasFractionLast(init, last);
      NonNullLast(init, last);
      TotalLast(NonNull(init), last);
      IntTotalLast(NonNull(init), last);
      ExactlyLast(NonNull(init), last);
      TotalIsInteger(init);
      if !last.Null? { AddedExactly(IntTotal(NonNull(init)), last); }
    }
  }

  lemma NoIntegers()
    ensures IntTotal([]) == 0
  {
  }

  /** SUM is NULL exactly when no value is other than NULL; else a DOUBLE, the running double sum, when some value is
      FLOAT or DOUBLE; else a BIGINT, which is the sum when that and all sums on the way fit 53 bits. */
  lemma SumResult(vs: seq<Value>)
    ensures Aggregated(Sum, vs) == Exact(Null) <==> NonNull(vs) == []
    ensures NonNull(vs) != [] && HasFraction(vs) ==> Aggregated(Sum, vs) == Fraction(Total(NonNull(vs)))
    ensures NonNull(vs) != [] && !HasFraction(vs) ==> Aggregated(Sum, vs) == Int64(Total(NonNull(vs)))
    ensures NonNull(vs) != [] && !HasFraction(vs) && Exactly(NonNull(vs)) ==>
              var n := IntTotal(NonNull(vs)); FitsInt64(n) && Aggregated(Sum, vs) == Exact(BigInt(n))
  {
    hide Fold, HasFraction, NonNull, Total, IntTotal, Nearest, Pow2;
    FoldSums(vs);
    if NonNull(vs) != [] && !HasFraction(vs) && Exactly(NonNull(vs)) {
      TotalIsInteger(vs);
      Pow2Values();
    }
  }

  /** Past 53 bits a sum loses the last bits: 2^53 + 1 comes out as 2^53. */
  lemma SumLosesBits()
    ensures Aggregated(Sum, [BigInt(9007199254740992), Integer(1)]) == Exact(BigInt(9007199254740992))
  {
    hide Nearest, Int64, Pow2;
    var big := BigInt(9007199254740992);
    var ts := [big, Integer(1)];
    assert ts[..1] == [big] && [big][..0] == [];
    Pow2Values();
    IntegerIsDouble(9007199254740992);
    IntegerIsDouble(1);
    HalfwayDown();
    assert Fold(Sum, [big]) == SumAcc(9007199254740992.0, true, false);
    assert Fold(Sum, ts) == SumAcc(9007199254740992.0, true, false);
    assert 9007199254740992.0.Floor == 9007199254740992;
    IntegerCast(9007199254740992);
  }

  lemma IntegerCast(n: nat)
    requires FitsInt64(n)
    ensures Int64(n as real) == Exact(BigInt(n))
  {
  }

  /** Halfway between two doubles the even one is taken. */
  lemma HalfwayDown()
    ensures Nearest(9007199254740993.0) == 9007199254740992.0
  {
    hide Power, ExponentFrom;
    var x := 9007199254740993.0;
    Pow2Values();
    PowerIs(53);
    PowerNext(53);
    PowerIs(1);
    SameExponent(x, 53);
    assert Spacing(x) == 2.0;
    assert RoundEven(x / 2.0) == 4503599627370496;
  }

  /** AVG is NULL exactly when no value is other than NULL; else the double nearest to the running double sum over the
      count, which is the sum when that and all sums on the way fit 53 bits. */
  lemma AverageResult(vs: seq<Value>)
    ensures Aggregated(Avg, vs) == Exact(Null) <==> NonNull(vs) == []
    ensures NonNull(vs) != [] ==> Aggregated(Avg, vs) == Fraction(Nearest(Total(NonNull(vs)) / |NonNull(vs)| as real))
    ensures NonNull(vs) != [] && !HasFraction(vs) && Exactly(NonNull(vs)) ==>
              Total(NonNull(vs)) == IntTotal(NonNull(vs)) as real
  {
    hide Fold, NonNull, Total, IntTotal, Exactly, HasFraction, Nearest;
    FoldCounts(vs);
    if !HasFraction(vs) && Exactly(NonNull(vs)) { TotalIsInteger(vs); }
  }

  /** MIN and MAX are NULL exactly when no value is other than NULL; else a least and a greatest such value. */
  lemma ExtremeResult(vs: seq<Value>)
    ensures var r := Aggregated(Min, vs);
            r.Exact? && (r.v.Null? <==> NonNull(vs) == []) && (!r.v.Null? ==> IsLeast(r.v, NonNull(vs)))
    ensures var r := Aggregated(Max, vs);
            r.Exact? && (r.v.Null? <==> NonNull(vs) == []) && (!r.v.Null? ==> IsGreatest(r.v, NonNull(vs)))
  {
    hide Fold, NonNull;
    FoldExtremes(vs);
    NoNullLeft(vs);
  }

  lemma {:induction false} NoNullLeft(vs: seq<Value>)
    ensures forall v :: v in NonNull(vs) ==> !v.Null?
  {
    if vs != [] { NoNullLeft(vs[..|vs| - 1]); }
  }
}
