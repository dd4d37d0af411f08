/** Numbers as doubles hold them: powers of two, rounding to the nearest, ties to even, and the spacing of doubles. */
module Numbers {

  function Pow2(n: nat): (p: nat)
    ensures p >= 1
  {
    if n == 0 then 1 else 2 * Pow2(n - 1)
  }

  lemma {:induction false} Pow2Sum(a: nat, b: nat)
    ensures Pow2(a + b) == Pow2(a) * Pow2(b)
  {
    if a > 0 {
      Pow2Sum(a - 1, b);
      assert 2 * (Pow2(a - 1) * Pow2(b)) == (2 * Pow2(a - 1)) * Pow2(b);
    }
  }

  lemma {:induction false} Pow2Grows(a: nat, b: nat)
    requires a <= b
    ensures Pow2(a) <= Pow2(b)
  {
    if a < b { Pow2Grows(a, b - 1); }
  }

  /** Two to the power e, of either sign. */
  function Power(e: int): (r: real)
    ensures r > 0.0
  {
    if e >= 0 then Pow2(e) as real else 1.0 / Pow2(-e) as real
  }

  lemma PowerNext(e: int)
    ensures Power(e + 1) == 2.0 * Power(e)
  {
    if e >= 0 {
      assert Pow2(e + 1) == 2 * Pow2(e);
    } else {
      assert Pow2(-e) == 2 * Pow2(-e - 1);
      var x := Pow2(-e - 1) as real;
      assert Power(e) == 1.0 / (2.0 * x) == (1.0 / x) / 2.0;
      if e == -1 { assert x == 1.0; }
    }
  }

  /** Steps up by n. */
  lemma {:induction false} PowerUp(e: int, n: nat)
    ensures Power(e + n) == Pow2(n) as real * Power(e)
  {
    hide Power;
    if n > 0 {
      PowerUp(e, n - 1);
      PowerNext(e + n - 1);
      Twice(Pow2(n - 1), Power(e));
    }
  }

  lemma Twice(p: int, x: real)
    ensures 2.0 * (p as real * x) == (2 * p) as real * x
  {
  }

  lemma PowerGrows(a: int, b: int)
    requires a <= b
    ensures Power(a) <= Power(b)
  {
    hide Power;
    PowerUp(a, b - a);
    AtLeastOnce(Pow2(b - a), Power(a));
  }

  lemma AtLeastOnce(n: nat, x: real)
    requires n >= 1 && x >= 0.0
    ensures n as real * x >= x
  {
  }

  // ----- rounding to an integer

  /** The nearest integer, of two the even one. */
  function RoundEven(x: real): int {
    var below := x.Floor;
    var part := x - below as real;
    if part < 0.5 || (part == 0.5 && below % 2 == 0) then below else below + 1
  }

  lemma RoundNear(x: real)
    ensures -0.5 <= RoundEven(x) as real - x <= 0.5
  {
  }

  lemma RoundIs(x: real, n: int)
    requires -0.5 < x - n as real < 0.5
    ensures RoundEven(x) == n
  {
    RoundNear(x);
  }

  lemma RoundAtLeast(x: real, n: int)
    ensures x >= n as real ==> RoundEven(x) >= n
    ensures x <= n as real ==> RoundEven(x) <= n
  {
  }

  // ----- the spacing of doubles

  const LEAST: int := -1022

  /** The exponent of x, at most e: the largest power of two not above x, not below that of the normal doubles. */
  function ExponentFrom(x: real, e: int): (r: int)
    requires e >= LEAST
    ensures LEAST <= r <= e
    decreases e - LEAST
  {
    if e == LEAST || x >= Power(e) then e else ExponentFrom(x, e - 1)
  }

  function Exponent(x: real): (e: int)
    ensures LEAST <= e <= 1023
  {
    ExponentFrom(x, 1023)
  }

  lemma {:induction false} ExponentFromIs(x: real, e: int, k: int)
    requires LEAST <= k <= e && (k > LEAST ==> x >= Power(k)) && (k < e ==> x < Power(k + 1))
    ensures ExponentFrom(x, e) == k
    decreases e - k
  {
    if k < e {
      PowerGrows(k + 1, e);
      ExponentFromIs(x, e - 1, k);
    }
  }

  /** x lies between the power of two of its exponent and the next. */
  lemma {:induction false} ExponentFromBounds(x: real, e: int)
    requires e >= LEAST
    ensures var k := ExponentFrom(x, e);
            (k > LEAST ==> x >= Power(k)) && (k < e ==> x < Power(k + 1))
    decreases e - LEAST
  {
    if e > LEAST && x < Power(e) { ExponentFromBounds(x, e - 1); }
  }

  function Abs(x: real): (r: real)
    ensures r >= 0.0
  {
    if x >= 0.0 then x else -x
  }

  /** Doubles near x are the multiples of this; above the largest double the grid is taken to go on. */
  function Spacing(x: real): (u: real)
    ensures u > 0.0
  {
    Power(Exponent(Abs(x)) - 52)
  }

  lemma Products(a: real, b: real, u: real)
    requires a <= b && u >= 0.0
    ensures a * u <= b * u
  {
    var d := b - a;
    assert d * u >= 0.0;
    assert b * u == a * u + d * u;
  }

  /** The multiple of u nearest to x, of two the even one. */
  function OnGrid(x: real, u: real): (d: real)
    requires u > 0.0
    ensures x >= 0.0 ==> d >= 0.0
  {
    var n := RoundEven(x / u);
    RoundAtLeast(x / u, 0);
    Products(if n >= 0 then 0.0 else n as real, if n >= 0 then n as real else 0.0, u);
    n as real * u
  }

  lemma OnGridNear(x: real, u: real)
    requires u > 0.0
    ensures -u <= 2.0 * (OnGrid(x, u) - x) <= u
  {
    hide RoundEven;
    var y := x / u;
    RoundNear(y);
    var n := RoundEven(y) as real;
    var d := n - y;
    Products(-0.5, d, u);
    Products(d, 0.5, u);
    assert y * u == x && d * u == n * u - y * u;
    assert OnGrid(x, u) == n * u;
    assert OnGrid(x, u) - x == d * u;
    assert -0.5 * u <= d * u;
    assert d * u <= 0.5 * u;
  }

  /** Rounding does not cross a multiple. */
  lemma OnGridBounds(x: real, u: real, n: int)
    requires u > 0.0
    ensures x <= n as real * u ==> OnGrid(x, u) <= n as real * u
    ensures x >= n as real * u ==> OnGrid(x, u) >= n as real * u
  {
    hide RoundEven;
    var y := x / u;
    var r := RoundEven(y) as real;
    assert y * u == x;
    RoundAtLeast(y, n);
    Orders(y, n as real, u);
    Orders(n as real, y, u);
    Orders(r, n as real, u);
    Orders(n as real, r, u);
    var at, m := OnGrid(x, u), n as real * u;
    assert at == r * u;
    assert (x <= m ==> at <= m) && (x >= m ==> at >= m);
  }

  lemma Orders(a: real, b: real, u: real)
    requires u > 0.0
    ensures a <= b <==> a * u <= b * u
  {
    var d, x, y := b - a, a * u, b * u;
    assert y == x + d * u;
    if d >= 0.0 { assert d * u >= 0.0; } else { assert d * u < 0.0; }
  }

  /** Closer to a multiple than half the spacing. */
  lemma OnGridIs(x: real, u: real, n: int)
    requires u > 0.0 && -u < 2.0 * (x - n as real * u) < u
    ensures OnGrid(x, u) == n as real * u
  {
    hide RoundEven;
    var y := x / u;
    var d := y - n as real;
    var at := d * u;
    assert at == x - n as real * u;
    if d >= 0.5 { Products(0.5, d, u); }
    if d <= -0.5 { Products(d, -0.5, u); }
    RoundIs(y, n);
    assert OnGrid(x, u) == RoundEven(y) as real * u;
  }

  /** The double nearest to x, ties to even, as std::strtod and every double operation round. */
  function Nearest(x: real): (d: real)
    ensures x >= 0.0 ==> d >= 0.0
  {
    OnGrid(x, Spacing(x))
  }

  predicate IsDouble(x: real) { Nearest(x) == x }

  /** A multiple of a power of two that is at least the spacing is a double. */
  lemma MultipleIsDouble(x: real, n: int, e: int)
    requires x == n as real * Power(e) && Exponent(Abs(x)) - 52 <= e
    ensures IsDouble(x)
  {
    hide Power, Exponent, OnGrid, Abs;
    var low := Exponent(Abs(x)) - 52;
    PowerUp(low, e - low);
    Regroup(n, Pow2(e - low), Power(low));
    OnGridIs(x, Power(low), n * Pow2(e - low));
  }

  lemma Regroup(n: int, p: nat, u: real)
    ensures n as real * (p as real * u) == (n * p) as real * u
  {
  }

  lemma ExponentAtMost(x: real, k: int)
    requires k >= LEAST && x < Power(k + 1)
    ensures Exponent(x) <= k
  {
    hide Power, ExponentFrom;
    var e := Exponent(x);
    ExponentFromBounds(x, 1023);
    if e > k { PowerGrows(k + 1, e); }
  }

  lemma ExponentAtLeast(x: real, k: int)
    requires LEAST <= k <= 1023 && x >= Power(k)
    ensures Exponent(x) >= k
  {
    hide Power, ExponentFrom;
    var e := Exponent(x);
    ExponentFromBounds(x, 1023);
    if e < k { PowerGrows(e + 1, k); }
  }

  /** Rounding stays below the next power of two, or reaches it. */
  lemma NearestBelow(x: real)
    requires x >= 0.0 && Exponent(x) < 1023
    ensures Nearest(x) <= Power(Exponent(x) + 1)
  {
    hide Power, Exponent, OnGrid, Pow2;
    var e := Exponent(x);
    ExponentBounds(x);
    PowerUp(e - 52, 53);
    OnGridBounds(x, Power(e - 52), Pow2(53));
  }

  lemma ExponentBounds(x: real)
    ensures var k := Exponent(x); (k > LEAST ==> x >= Power(k)) && (k < 1023 ==> x < Power(k + 1))
  {
    hide Power, ExponentFrom;
    ExponentFromBounds(x, 1023);
  }

  /** What rounding gives is a double. */
  lemma NearestIsDouble(x: real)
    requires x >= 0.0
    ensures IsDouble(Nearest(x))
  {
    hide Power, Exponent, RoundEven;
    var e, d := Exponent(x), Nearest(x);
    var n := RoundEven(x / Power(e - 52));
    if e < 1023 {
      NearestBelow(x);
      if d < Power(e + 1) {
        ExponentAtMost(d, e);
        MultipleIsDouble(d, n, e - 52);
      } else {
        PowerIsDouble(e + 1);
      }
    } else {
      ExponentAtMostTop(d);
      MultipleIsDouble(d, n, e - 52);
    }
  }

  lemma ExponentAtMostTop(x: real)
    ensures Exponent(x) <= 1023
  {
  }

  lemma PowerIsDouble(e: int)
    requires e >= LEAST
    ensures IsDouble(Power(e))
  {
    hide Power, ExponentFrom;
    PowerNext(e);
    if e <= 1022 { ExponentAtMost(Power(e), e); }
    assert Power(e) == 1 as real * Power(e);
    MultipleIsDouble(Power(e), 1, e);
  }

  /** Integers of up to 53 bits are doubles. */
  lemma IntegerIsDouble(n: int)
    requires n <= Pow2(53) && -n <= Pow2(53)
    ensures IsDouble(n as real)
  {
    hide Power, ExponentFrom, OnGrid, Pow2;
    var x := Abs(n as real);
    PowerIs(53);
    if x < Power(53) {
      ExponentAtMost(x, 52);
      PowerIs(0);
      MultipleIsDouble(n as real, n, 0);
    } else {
      PowerNext(53);
      ExponentAtMost(x, 53);
      MultipleIsDouble(n as real, if n > 0 then 1 else -1, 53);
    }
  }

  lemma PowerIs(n: int)
    requires n >= 0
    ensures Power(n) == Pow2(n) as real && Power(-n) == 1.0 / Pow2(n) as real
    ensures Pow2(0) == 1
  {
  }

  // ----- six decimals

  /** A number without a sign. */
  type Size = r: real | r >= 0.0

  /** std::to_string gives six decimals: the nearest number of millionths. */
  function Millionths(r: Size): nat {
    RoundAtLeast(1000000.0 * r, 0);
    RoundEven(1000000.0 * r)
  }

  /** The number that is printed for r. */
  function Spelled(r: Size): Size { Millionths(r) as real / 1000000.0 }

  lemma Pow2Values()
    ensures Pow2(19) == 524288 && Pow2(20) == 1048576 && Pow2(33) == 8589934592 && Pow2(53) == 9007199254740992
  {
    assert Pow2(10) == 1024;
    Pow2Sum(9, 10);
    Pow2Sum(10, 10);
    Pow2Sum(13, 20);
    Pow2Sum(20, 33);
  }

  /** Doubles from 2^33 on are further apart than millionths, so what is printed for one is nearest to it. */
  lemma LargeSurvives(d: Size)
    requires IsDouble(d) && d >= Power(33)
    ensures Nearest(Spelled(d)) == d
  {
    hide Power, ExponentFrom, RoundEven;
    var e, s := Exponent(d), Spelled(d);
    var u := Power(e - 52);
    var n := RoundEven(d / u);
    ExponentAtLeast(d, 33);
    ExponentBounds(d);
    LargeSpacing(e);
    RoundNear(1000000.0 * d);
    assert 1000000.0 * s == Millionths(d) as real;
    SpelledAtLeast(d, e);
    assert s >= Power(e);
    if e < 1023 {
      RoomAbove(d, n, e);
      assert s < Power(e + 1);
    }
    SameExponent(s, e);
    assert d == n as real * u;
    assert -0.000001 <= 2.0 * (s - d) <= 0.000001;
    OnGridIs(s, u, n);
  }

  lemma LargeSpacing(e: int)
    requires e >= 33
    ensures Power(e - 52) >= 1.0 / 524288.0
  {
    hide Power;
    PowerGrows(-19, e - 52);
    PowerIs(19);
    Pow2Values();
  }

  lemma SpelledAtLeast(d: Size, e: nat)
    requires d >= Power(e)
    ensures Spelled(d) >= Power(e)
  {
    hide RoundEven;
    RoundAtLeast(1000000.0 * d, 1000000 * Pow2(e));
    assert 1000000.0 * Spelled(d) == Millionths(d) as real;
  }

  lemma RoomAbove(d: Size, n: int, e: int)
    requires d == n as real * Power(e - 52) && d < Power(e + 1)
    ensures d <= Power(e + 1) - Power(e - 52)
  {
    hide Power, Pow2;
    PowerUp(e - 52, 53);
    LastMultiple(n, Pow2(53), Power(e - 52), d, Power(e + 1));
  }

  lemma LastMultiple(n: int, m: int, u: real, x: real, top: real)
    requires u > 0.0 && x == n as real * u && top == m as real * u && x < top
    ensures x <= top - u
  {
    if n >= m { Products(m as real, n as real, u); }
    var below := m as real - 1.0;
    Products(n as real, below, u);
    assert below * u == top - u;
  }

  lemma SameExponent(x: real, e: int)
    requires LEAST <= e <= 1023 && x >= Power(e) && (e < 1023 ==> x < Power(e + 1))
    ensures Exponent(x) == e
  {
    hide Power, ExponentFrom;
    ExponentFromIs(x, 1023, e);
  }

  /** Below 2^33 doubles are closer together than millionths, so the double nearest to a number of six decimals is
      printed as that number. */
  lemma SmallSurvives(k: nat)
    requires k as real / 1000000.0 < Power(33)
    ensures Spelled(Nearest(k as real / 1000000.0)) == k as real / 1000000.0
  {
    hide Power, ExponentFrom, RoundEven;
    var s := k as real / 1000000.0;
    var d := Nearest(s);
    ExponentAtMost(s, 32);
    PowerGrows(Exponent(s) - 52, -20);
    PowerIs(20);
    Pow2Values();
    OnGridNear(s, Spacing(s));
    RoundIs(1000000.0 * d, k);
  }

  /** What is printed for a double, read and printed again, is the same. */
  lemma SpelledStable(d: Size)
    requires IsDouble(d)
    ensures Spelled(Nearest(Spelled(d))) == Spelled(d)
  {
    hide Power, Nearest, RoundEven;
    if d >= Power(33) {
      LargeSurvives(d);
    } else {
      var s := Spelled(d);
      SpelledAtMost(d, 33);
      if s < Power(33) {
        SmallSurvives(Millionths(d));
      } else {
        assert s == Power(33);
        PowerIsDouble(33);
        assert 1000000.0 * s == Millionths(d) as real;
        RoundIs(1000000.0 * s, Millionths(d));
      }
    }
  }

  lemma SpelledAtMost(d: Size, e: nat)
    requires d <= Power(e)
    ensures Spelled(d) <= Power(e)
  {
    hide RoundEven;
    RoundAtLeast(1000000.0 * d, 1000000 * Pow2(e));
    assert 1000000.0 * Spelled(d) == Millionths(d) as real;
  }

  predicate FromMillionths(d: Size, k: nat) { d == Nearest(k as real / 1000000.0) }

  /** A double is read back as itself exactly when it is 2^33 or more, or the one nearest to a number of six
      decimals. */
  lemma SurvivesIff(d: Size)
    requires IsDouble(d)
    ensures Nearest(Spelled(d)) == d <==> d >= Power(33) || exists k :: FromMillionths(d, k)
  {
    hide Power, Nearest, RoundEven;
    if d >= Power(33) {
      LargeSurvives(d);
    } else if k :| FromMillionths(d, k) {
      if k as real / 1000000.0 < Power(33) {
        SmallSurvives(k);
      } else {
        NearestAtLeast(k as real / 1000000.0, 33);
      }
    }
    if Nearest(Spelled(d)) == d { assert FromMillionths(d, Millionths(d)); }
  }

  lemma NearestAtLeast(x: real, e: nat)
    requires e <= 1023 && x >= Power(e)
    ensures Nearest(x) >= Power(e)
  {
    hide Power, ExponentFrom, OnGrid, Pow2;
    var k := Exponent(x);
    ExponentAtLeast(x, e);
    ExponentBounds(x);
    PowerUp(k - 52, 52);
    PowerGrows(e, k);
    OnGridBounds(x, Power(k - 52), Pow2(52));
  }
}
