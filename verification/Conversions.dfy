/**
 * What a column keeps of a literal of another number type. SET stores the bytes of a value unconverted, an integer
 * literal as a BIGINT and a float literal as a DOUBLE; each lemma says exactly when the number survives.
 */
module Conversions {
  import opened Bytes
  import opened Numbers
  import opened Rows
  import opened ValueOrders
  import opened Aggregates
  import opened RowSerializer

  // ----- factors

  lemma CancelFactor(a: int, b: int, p: nat)
    requires p > 0 && a * p == b * p
    ensures a == b
  {
    assert (a - b) * p == 0;
  }

  /** A product with an odd number is a multiple of a power of two only if the other factor is. */
  lemma {:induction false} OddFactor(a: int, m: int, x: int, n: nat) returns (y: int)
    requires (2 * a + 1) * m == x * Pow2(n)
    ensures m == y * Pow2(n)
    decreases n
  {
    if n == 0 {
      y := m;
    } else {
      var half := x * Pow2(n - 1) - a * m;
      assert (2 * a + 1) * m == 2 * (a * m) + m;
      assert x * Pow2(n) == 2 * (x * Pow2(n - 1));
      assert m == 2 * half;
      assert (2 * a + 1) * (2 * half) == 2 * ((2 * a + 1) * half);
      y := OddFactor(a, half, x, n - 1);
      assert y * Pow2(n) == 2 * (y * Pow2(n - 1));
    }
  }

  lemma CancelShift(m: nat, p: nat, q: nat, t: nat)
    requires q > 0 && m * (p * q) == t * q
    ensures m * p == t
  {
    assert (m * p) * q == m * (p * q);
    CancelFactor(m * p, t, q);
  }

  /** Taking powers of two from both sides. */
  lemma Shifted(m: nat, i: nat, t: nat, j: nat)
    requires m * Pow2(i) == t * Pow2(j)
    ensures i >= j ==> m * Pow2(i - j) == t
    ensures i <= j ==> m == t * Pow2(j - i)
  {
    hide Pow2;
    if i >= j {
      Pow2Sum(i - j, j);
      CancelShift(m, Pow2(i - j), Pow2(j), t);
    }
    if i <= j {
      Pow2Sum(j - i, i);
      CancelShift(t, Pow2(j - i), Pow2(i), m);
    }
  }

  lemma {:induction false} Pow2From(k: nat, n: nat)
    requires k >= n
    ensures Pow2(k) == Pow2(n) * Pow2(k - n)
  {
    Pow2Sum(n, k - n);
  }

  // ----- the digits of a float

  const UNIT32: nat := 0x80_0000
  const UNIT64: nat := 0x10_0000_0000_0000

  /** The magnitude bits as a number of smallest steps. */
  function Digits(magnitude: nat, unit: nat): nat
    requires unit > 0
  {
    var e, m := magnitude / unit, magnitude % unit;
    if e == 0 then m else (m + unit) * Pow2(e - 1)
  }

  function Size64(b: u64): nat { if b < SIGN64 then b else b - SIGN64 }

  function Size32(b: u32): nat { if b < SIGN32 then b else b - SIGN32 }

  predicate Finite(b: u64) { Size64(b) < 2047 * UNIT64 }

  function WithSign(negative: bool, x: real): real { if negative then -x else x }

  lemma DoubleIs(b: u64)
    requires Finite(b)
    ensures Number(Double(b)) == WithSign(b >= SIGN64, Digits(Size64(b), UNIT64) as real / Pow2(1074) as real)
  {
    hide Pow2;
  }

  lemma FloatIs(b: u32)
    ensures Number(Float(b)) == if Size32(b) / UNIT32 >= 255 then 0.0
                                else WithSign(b >= SIGN32, Digits(Size32(b), UNIT32) as real / Pow2(149) as real)
  {
    hide Pow2;
  }

  /** A fraction that equals an integer. */
  lemma FractionIs(n: nat, p: nat, negative: bool, l: int)
    requires p > 0
    ensures WithSign(negative, n as real / p as real) == l as real <==>
            if negative then n == -l * p else n == l * p
  {
    WholeQuotient(n, p, if negative then -l else l);
  }

  lemma WholeQuotient(n: nat, p: nat, l: int)
    requires p > 0
    ensures n as real / p as real == l as real <==> n == l * p
  {
    if n as real / p as real == l as real { assert n as real == (l * p) as real; }
    if n == l * p { Quotient(n as real, p as real, l as real); }
  }

  lemma Quotient(n: real, p: real, l: real)
    requires p > 0.0 && n == l * p
    ensures n / p == l
  {
  }

  // ----- integers in float columns

  /** A normal double's digits are no integer that its bits could mean. */
  lemma NormalIsOther(m: nat, e: nat, t: nat)
    requires m < UNIT64 && 1 <= e <= 2046 && (t == e * UNIT64 + m || t == SIGN64 - e * UNIT64 - m)
    ensures (m + UNIT64) * Pow2(e - 1) != t * Pow2(1074)
  {
    hide Pow2;
    if (m + UNIT64) * Pow2(e - 1) == t * Pow2(1074) {
      Shifted(m + UNIT64, e - 1, t, 1074);
      if e <= 1074 {
        AtLeastTwice(t, 1075 - e);
      } else {
        SmallPowers(e - 1075);
        if e - 1075 >= 12 { TimesMore(m + UNIT64, 4096, Pow2(e - 1075)); }
      }
    }
  }

  lemma AtLeastTwice(t: nat, k: nat)
    requires k >= 1
    ensures t * Pow2(k) >= 2 * t
  {
    assert Pow2(k) == 2 * Pow2(k - 1);
    assert t * (2 * Pow2(k - 1)) == 2 * t * Pow2(k - 1) >= 2 * t;
  }

  lemma TimesMore(m: nat, p: nat, q: nat)
    requires p <= q
    ensures m * p <= m * q
  {
  }

  lemma SmallPowers(k: nat)
    ensures k == 0 ==> Pow2(k) == 1
    ensures k == 1 ==> Pow2(k) == 2
    ensures k == 2 ==> Pow2(k) == 4
    ensures k == 3 ==> Pow2(k) == 8
    ensures k == 4 ==> Pow2(k) == 16
    ensures k == 5 ==> Pow2(k) == 32
    ensures k == 6 ==> Pow2(k) == 64
    ensures k == 7 ==> Pow2(k) == 128
    ensures k == 8 ==> Pow2(k) == 256
    ensures k == 9 ==> Pow2(k) == 512
    ensures k == 10 ==> Pow2(k) == 1024
    ensures k == 11 ==> Pow2(k) == 2048
    ensures k >= 12 ==> Pow2(k) >= 4096
  {
    assert Pow2(3) == 8 && Pow2(6) == 64 && Pow2(9) == 512 && Pow2(12) == 4096;
    if k >= 12 { Pow2Grows(12, k); }
  }

  lemma DigitsAreOther(magnitude: nat, t: nat)
    requires magnitude < 2047 * UNIT64 && t > 0 && (t == magnitude || t == SIGN64 - magnitude)
    ensures Digits(magnitude, UNIT64) != t * Pow2(1074)
  {
    hide Pow2;
    var e, m := magnitude / UNIT64, magnitude % UNIT64;
    if e == 0 {
      AtLeastTwice(t, 1074);
    } else {
      NormalIsOther(m, e, t);
    }
  }

  /** A double's bits as an integer and the double: equal numbers only if the bits are zero. */
  lemma BitsAreOther(b: u64)
    requires Finite(b)
    ensures Number(Double(b)) == FromBits64(b) as real <==> b == 0
  {
    hide Pow2, Digits, Number;
    var n, p := Digits(Size64(b), UNIT64), Pow2(1074);
    var l: int := FromBits64(b);
    DoubleIs(b);
    FractionIs(n, p, b >= SIGN64, l);
    if b == 0 {
      ZeroDigits();
    } else {
      var t := if b < SIGN64 then l else -l;
      DigitsAreOther(Size64(b), t);
      assert n != t * p;
    }
  }

  lemma ZeroDigits()
    ensures Digits(0, UNIT64) == 0 && Digits(0, UNIT32) == 0
  {
  }

  lemma NotFinite(b: u64)
    ensures !Finite(b) ==> Number(Double(b)) == 0.0
  {
  }

  // ----- integers in FLOAT columns

  /** Powers of two below the 41st, in steps of 512. */
  lemma PowerMod(k: nat)
    requires k >= 9
    ensures Pow2(k) == 512 * Pow2(k - 9)
  {
    Pow2From(k, 9);
    SmallPowers(9);
  }

  lemma WholeMantissa(a: int, m: nat, c: int)
    requires UNIT32 <= m < 2 * UNIT32 && (2 * a + 1) * m == c * UNIT32
    ensures m == UNIT32 && 2 * a + 1 == c
  {
    hide Pow2;
    TwentyThree();
    var y := OddFactor(a, m, c, 23);
    assert y == 1;
    CancelFactor(2 * a + 1, c, UNIT32);
  }

  lemma NoSuchPower(k: nat, q: int)
    requires k <= 40
    ensures Pow2(k) - 1 != 512 * q + 149 + k && 0 - Pow2(k) - 1 != 512 * q + 405 + k
  {
    hide Pow2;
    SmallPowers(k);
    if k >= 9 { PowerMod(k); }
  }

  /** A float's digits are not the integer whose low 32 bits they are: the mantissa would have to be a power of two. */
  lemma PositiveIsOther(m: nat, k: nat, q: int)
    requires UNIT32 <= m < 2 * UNIT32 && k <= 40
    ensures m * Pow2(k) - m != 0x1_0000_0000 * q + (149 + k) * UNIT32
  {
    hide Pow2;
    var x, c := m * Pow2(k), 512 * q + 149 + k;
    if x - m == 0x1_0000_0000 * q + (149 + k) * UNIT32 {
      assert x - m == c * UNIT32;
      if k == 0 {
        SmallPowers(k);
      } else {
        var h := HalfPower(k);
        assert (2 * (h - 1) + 1) * m == x - m;
        WholeMantissa(h - 1, m, c);
        NoSuchPower(k, q);
      }
    }
  }

  lemma NegativeIsOther(m: nat, k: nat, q: int)
    requires UNIT32 <= m < 2 * UNIT32 && k <= 40
    ensures m * Pow2(k) + m != -0x1_0000_0000 * q - (405 + k) * UNIT32
  {
    hide Pow2;
    var x, c := m * Pow2(k), -512 * q - (405 + k);
    if x + m == -0x1_0000_0000 * q - (405 + k) * UNIT32 {
      assert x + m == c * UNIT32;
      if k == 0 {
        SmallPowers(k);
      } else {
        var h := HalfPower(k);
        assert (2 * h + 1) * m == x + m;
        WholeMantissa(h, m, c);
        NoSuchPower(k, q);
      }
    }
  }

  function HalfPower(k: nat): (h: nat)
    requires k > 0
    ensures Pow2(k) == 2 * h && h >= 1
  {
    Pow2(k - 1)
  }

  lemma TwentyThree()
    ensures Pow2(23) == UNIT32
  {
    SmallPowers(11);
    Pow2Sum(11, 12);
    assert Pow2(12) == 4096;
  }

  /** Exponents far apart: 2^41 times a float's mantissa is more than 64 bits hold. */
  lemma TooFar(m: nat, k: nat, t: nat)
    requires m >= UNIT32 && m * Pow2(k) == t && t <= SIGN64
    ensures k <= 40
  {
    hide Pow2;
    if k > 40 {
      Pow2From(41, 20);
      Pow2Values();
      Pow2From(21, 20);
      SmallPowers(1);
      Pow2Grows(41, k);
      TimesMore(m, 0x200_0000_0000, Pow2(k));
    }
  }

  /** The low 32 bits of an integer as a float, and the integer: equal numbers only if the integer is zero. */
  lemma LowBitsAreOther(l: i64)
    ensures Number(Float(ToBits64(l) % 0x1_0000_0000)) == l as real <==> l == 0
  {
    hide Pow2, Digits, Number;
    var f := ToBits64(l) % 0x1_0000_0000;
    var q := (l - f) / 0x1_0000_0000;
    LowBits(l);
    var n, p := Digits(Size32(f), UNIT32), Pow2(149);
    FloatIs(f);
    if Size32(f) / UNIT32 < 255 {
      FractionIs(n, p, f >= SIGN32, l);
      if l == 0 {
        ZeroDigits();
      } else {
        FloatDigitsAreOther(f, q, l);
      }
    } else {
      NotZero(l, q, f);
    }
  }

  lemma NotZero(l: int, q: int, f: u32)
    requires l == 0x1_0000_0000 * q + f && Size32(f) / UNIT32 >= 255
    ensures l != 0
  {
  }

  lemma LowBits(l: i64)
    ensures var f := ToBits64(l) % 0x1_0000_0000; l == 0x1_0000_0000 * ((l - f) / 0x1_0000_0000) + f
  {
  }

  lemma FloatDigitsAreOther(f: u32, q: int, l: i64)
    requires l == 0x1_0000_0000 * q + f && l != 0 && Size32(f) / UNIT32 < 255
    ensures var n := Digits(Size32(f), UNIT32);
            if f >= SIGN32 then n != -l * Pow2(149) else n != l * Pow2(149)
  {
    hide Pow2;
    var e, m := Size32(f) / UNIT32, Size32(f) % UNIT32;
    var t: int := if f >= SIGN32 then -l else l;
    var n := Digits(Size32(f), UNIT32);
    if n == t * Pow2(149) {
      SignOf(t, Pow2(149));
      if e == 0 {
        assert n == m;
        Pow2Grows(33, 149);
        Pow2Values();
        TimesMore(t, 8589934592, Pow2(149));
      } else {
        assert n == (m + UNIT32) * Pow2(e - 1);
        Shifted(m + UNIT32, e - 1, t, 149);
        if e >= 150 {
          TooFar(m + UNIT32, e - 150, t);
          if f >= SIGN32 {
            NegativeIsOther(m + UNIT32, e - 150, q);
          } else {
            PositiveIsOther(m + UNIT32, e - 150, q);
          }
        } else {
          AtLeastTwice(t, 150 - e);
        }
      }
    }
  }

  lemma SignOf(t: int, p: nat)
    requires p > 0
    ensures t * p >= 0 ==> t >= 0
  {
    if t < 0 { assert t * p < 0; }
  }

  // ----- doubles in FLOAT columns

  /** A float's digits as a mantissa below 2^24 and a power of two. */
  lemma FloatParts(size: nat) returns (g: nat, j: nat)
    ensures Digits(size, UNIT32) == g * Pow2(j) && g < 2 * UNIT32
    ensures g == Mantissa32(size)
  {
    var e, m := size / UNIT32, size % UNIT32;
    if e == 0 {
      g, j := m, 0;
      SmallPowers(0);
    } else {
      g, j := m + UNIT32, e - 1;
    }
  }

  lemma Low32(x: int, q: int, r: int)
    requires x == 0x1_0000_0000 * q + r && 0 <= r < 0x1_0000_0000
    ensures x % 0x1_0000_0000 == r
  {
  }

  /** The bits of a normal double: sign and exponent lie above the low 32 bits of the mantissa. */
  lemma BitsOf(b: u64) returns (high: int)
    requires Size64(b) / UNIT64 >= 1
    ensures b == 0x1_0000_0000 * high + (Size64(b) % UNIT64 + UNIT64)
  {
    var e, m := Size64(b) / UNIT64, Size64(b) % UNIT64;
    assert Size64(b) == UNIT64 * e + m;
    high := (if b < SIGN64 then 0 else 0x8000_0000) + 0x10_0000 * (e - 1);
  }

  /** The low 32 bits of a mantissa whose low 29 bits are zero. */
  lemma LowMantissa(b: u64, z: nat)
    requires Size64(b) / UNIT64 >= 1 && Size64(b) % UNIT64 + UNIT64 == 0x2000_0000 * z
    ensures b % 0x1_0000_0000 == 0x2000_0000 * (z % 8)
  {
    var high := BitsOf(b);
    assert z == 8 * (z / 8) + z % 8;
    Low32(b, high + z / 8, 0x2000_0000 * (z % 8));
  }

  function Mantissa32(size: nat): nat {
    if size / UNIT32 == 0 then size % UNIT32 else size % UNIT32 + UNIT32
  }

  lemma LowFloat(w: nat)
    requires w < 8
    ensures var g := Mantissa32(Size32(0x2000_0000 * w)); (g == 0 || g == UNIT32) && (w == 0 ==> g == 0)
  {
  }

  /** A mantissa that is a float's mantissa times 2^29 or more. */
  lemma MantissaIsOther(b: u64, g: nat, k: nat)
    requires Size64(b) / UNIT64 >= 1 && k >= 29 && g == Mantissa32(Size32(b % 0x1_0000_0000))
    ensures Size64(b) % UNIT64 + UNIT64 != g * Pow2(k)
  {
    hide Pow2, Size32, Mantissa32;
    var m := Size64(b) % UNIT64 + UNIT64;
    if m == g * Pow2(k) {
      var z := g * Pow2(k - 29);
      TimesTwentyNine(g, k);
      LowMantissa(b, z);
      LowFloat(z % 8);
      NoMantissa(g, z, k - 29);
    }
  }

  lemma TimesTwentyNine(g: nat, k: nat)
    requires k >= 29
    ensures g * Pow2(k) == 0x2000_0000 * (g * Pow2(k - 29))
  {
    hide Pow2;
    Pow2From(k, 29);
    TwentyNine();
    var p := Pow2(k - 29);
    assert g * (0x2000_0000 * p) == 0x2000_0000 * (g * p);
  }

  /** A full mantissa has 53 bits. */
  lemma NoMantissa(g: nat, z: nat, k: nat)
    requires g == 0 || g == UNIT32
    requires UNIT64 <= 0x2000_0000 * z < 2 * UNIT64 && z == g * Pow2(k)
    ensures g == UNIT32 && z == UNIT32
  {
    if k == 0 {
      SmallPowers(0);
    } else {
      AtLeastTwice(g, k);
    }
  }

  lemma TwentyNine()
    ensures Pow2(29) == 0x2000_0000 && Pow2(28) == 0x1000_0000
  {
    Pow2Values();
    Pow2From(29, 20);
    Pow2From(28, 20);
    SmallPowers(9);
    SmallPowers(8);
  }

  /** The digits of a double are not those of the float in its low 32 bits. */
  lemma DoubleDigitsAreOther(b: u64)
    requires Finite(b) && Size64(b) > 0
    ensures Digits(Size64(b), UNIT64) != Digits(Size32(b % 0x1_0000_0000), UNIT32) * Pow2(925)
  {
    hide Pow2;
    var e, m := Size64(b) / UNIT64, Size64(b) % UNIT64;
    var f := b % 0x1_0000_0000;
    var g, j := FloatParts(Size32(f));
    Pow2Sum(j, 925);
    Associate(g, Pow2(j), Pow2(925));
    if Digits(Size64(b), UNIT64) == g * Pow2(j + 925) {
      if e == 0 {
        assert m == g * Pow2(j + 925);
        Pow2Grows(53, j + 925);
        Pow2Values();
        TimesMore(g, 9007199254740992, Pow2(j + 925));
      } else {
        assert (m + UNIT64) * Pow2(e - 1) == g * Pow2(j + 925);
        Shifted(m + UNIT64, e - 1, g, j + 925);
        if e - 1 >= j + 925 {
          AtLeastOnceNat(m + UNIT64, Pow2(e - 1 - (j + 925)));
        } else {
          var k := j + 926 - e;
          if k >= 29 {
            MantissaIsOther(b, g, k);
          } else {
            Pow2Grows(k, 28);
            TwentyNine();
            TimesMore(g, Pow2(k), 0x1000_0000);
          }
        }
      }
    }
  }

  lemma Associate(a: nat, b: nat, c: nat)
    ensures (a * b) * c == a * (b * c)
  {
  }

  lemma AtLeastOnceNat(m: nat, p: nat)
    requires p >= 1
    ensures m * p >= m
  {
    TimesMore(m, 1, p);
  }

  /** Equal fractions over 2^1074 and 2^149. */
  lemma RatiosEqual(d: nat, f: nat)
    requires d as real / Pow2(1074) as real == f as real / Pow2(149) as real
    ensures d == f * Pow2(925)
  {
    hide Pow2;
    Pow2Sum(149, 925);
    CrossMultiplied(d, f, Pow2(149), Pow2(925));
  }

  lemma CrossMultiplied(d: nat, f: nat, p: nat, q: nat)
    requires p > 0 && q > 0 && d as real / (p * q) as real == f as real / p as real
    ensures d == f * q
  {
    var x := f as real / p as real;
    assert x * p as real == f as real;
    assert d as real == x * (p * q) as real == (x * p as real) * q as real == (f * q) as real;
  }

  lemma SomeDigits(size: nat)
    requires size > 0
    ensures Digits(size, UNIT64) > 0
  {
    var e, m := size / UNIT64, size % UNIT64;
    if e > 0 { AtLeastOnceNat(m + UNIT64, Pow2(e - 1)); }
  }

  lemma NoFraction(n: nat, p: nat)
    requires p > 0
    ensures n as real / p as real >= 0.0
    ensures n as real / p as real == 0.0 <==> n == 0
  {
    WholeQuotient(n, p, 0);
  }

  /** The low 32 bits of a double as a float, and the double: equal numbers only if both are zero. */
  lemma LowHalfIsOther(b: u64)
    requires Finite(b)
    ensures Number(Float(b % 0x1_0000_0000)) == Number(Double(b)) <==> Size64(b) == 0
  {
    hide Pow2, Digits, Number;
    var f := b % 0x1_0000_0000;
    var n, m := Digits(Size64(b), UNIT64), Digits(Size32(f), UNIT32);
    DoubleIs(b);
    FloatIs(f);
    NoFraction(n, Pow2(1074));
    NoFraction(m, Pow2(149));
    ZeroDigits();
    if Size64(b) == 0 {
      assert f == 0;
    } else {
      SomeDigits(Size64(b));
      DoubleDigitsAreOther(b);
      if n as real / Pow2(1074) as real == m as real / Pow2(149) as real { RatiosEqual(n, m); }
    }
  }

  // ----- doubles in INTEGER columns

  lemma OddMultiple(t: nat, k: nat, i: int, r: int)
    requires k >= 1 && t <= SIGN32 && (i == t || -i == t) && t * Pow2(k) == i + 0x1_0000_0000 * r
    ensures t == 0
  {
    hide Pow2;
    var h, x := HalfPower(k), t * Pow2(k);
    ThirtyTwo();
    if i == t {
      assert (2 * (h - 1) + 1) * t == x - t;
      var y := OddFactor(h - 1, t, r, 32);
    } else {
      assert (2 * h + 1) * t == x + t;
      var y := OddFactor(h, t, r, 32);
    }
  }

  lemma ThirtyTwo()
    ensures Pow2(32) == 0x1_0000_0000
  {
    Pow2Values();
    Pow2From(32, 20);
    Pow2From(12, 11);
    SmallPowers(11);
    SmallPowers(1);
  }

  lemma IntegerDigitsAreOther(b: u64, t: nat)
    requires Finite(b) && Size64(b) > 0 && t <= SIGN32
    requires var i := FromBits32(b % 0x1_0000_0000); i == t || -(i as int) == t
    ensures Digits(Size64(b), UNIT64) != t * Pow2(1074)
  {
    hide Pow2;
    var e, m := Size64(b) / UNIT64, Size64(b) % UNIT64;
    var f := b % 0x1_0000_0000;
    if Digits(Size64(b), UNIT64) == t * Pow2(1074) {
      if e == 0 {
        assert m == t * Pow2(1074);
        Pow2Grows(53, 1074);
        Pow2Values();
        TimesMore(t, 9007199254740992, Pow2(1074));
      } else {
        assert (m + UNIT64) * Pow2(e - 1) == t * Pow2(1074);
        Shifted(m + UNIT64, e - 1, t, 1074);
        if e >= 1075 {
          AtLeastOnceNat(m + UNIT64, Pow2(e - 1075));
        } else {
          var r := LowHalf(b, m + UNIT64);
          OddMultiple(t, 1075 - e, FromBits32(f), r);
        }
      }
    }
  }

  /** The low 32 bits of a double are those of its mantissa. */
  lemma LowHalf(b: u64, m: nat) returns (r: int)
    requires m == Size64(b) % UNIT64 + UNIT64 && Size64(b) / UNIT64 >= 1
    ensures m == FromBits32(b % 0x1_0000_0000) + 0x1_0000_0000 * r
  {
    var high := BitsOf(b);
    var low := m % 0x1_0000_0000;
    Low32(b, high + m / 0x1_0000_0000, low);
    r := m / 0x1_0000_0000 + if low >= 0x8000_0000 then 1 else 0;
  }

  lemma LowHalfIsOtherInteger(b: u64)
    requires Finite(b)
    ensures FromBits32(b % 0x1_0000_0000) as real == Number(Double(b)) <==> Size64(b) == 0
  {
    hide Pow2, Digits, Number;
    var n, p := Digits(Size64(b), UNIT64), Pow2(1074);
    var i: int := FromBits32(b % 0x1_0000_0000);
    DoubleIs(b);
    FractionIs(n, p, b >= SIGN64, i);
    if Size64(b) == 0 {
      ZeroDigits();
    } else {
      var t := if b >= SIGN64 then -i else i;
      SignOf(t, p);
      if t >= 0 { IntegerDigitsAreOther(b, t); }
    }
  }

  // ----- the grid of doubles

  lemma OverPower(n: int, i: nat)
    ensures (n * Pow2(i)) as real / Pow2(1074) as real == n as real * Power(i - 1074)
  {
    hide Pow2, Power;
    PowerUp(-1074, i);
    PowerIs(1074);
    assert Power(-1074) == 1.0 / Pow2(1074) as real;
    Reordered(n as real, Pow2(i) as real, Pow2(1074) as real);
  }

  lemma Reordered(n: real, p: real, q: real)
    requires q > 0.0
    ensures (n * p) / q == n * (p * (1.0 / q))
  {
  }

  /** A positive double with mantissa m lies below the power of two its exponent says. */
  lemma MantissaIsDouble(m: nat, e: int)
    requires m < 2 * UNIT64 && -1074 <= e <= 971
    ensures IsDouble(m as real * Power(e)) && IsDouble(-(m as real * Power(e)))
  {
    hide Pow2, Power, Exponent, Nearest;
    var x := m as real * Power(e);
    PowerUp(e, 53);
    Pow2Values();
    Products(0.0, m as real, Power(e));
    Below(m, 2 * UNIT64, Power(e));
    ExponentAtMost(x, e + 52);
    MultipleIsDouble(x, m, e);
    assert -x == (-(m as int)) as real * Power(e);
    MultipleIsDouble(-x, -(m as int), e);
  }

  lemma Below(a: nat, b: nat, u: real)
    requires a < b && u > 0.0
    ensures a as real * u < b as real * u
  {
    Orders(b as real, a as real, u);
  }

  lemma DigitsOver(size: nat) returns (m: nat, k: int)
    requires size < 2047 * UNIT64
    ensures Digits(size, UNIT64) as real / Pow2(1074) as real == m as real * Power(k)
    ensures m < 2 * UNIT64 && -1074 <= k <= 971
  {
    hide Pow2, Power;
    var e := size / UNIT64;
    if e == 0 {
      SmallPowers(0);
      m, k := size % UNIT64, -1074;
      OverPower(m, 0);
    } else {
      m, k := size % UNIT64 + UNIT64, e - 1075;
      OverPower(m, e - 1);
    }
  }

  /** The numbers that 64-bit patterns stand for lie on the grid that rounding goes by. */
  lemma FiniteIsDouble(b: u64)
    requires Finite(b)
    ensures IsDouble(Number(Double(b)))
  {
    hide Pow2, Power, Number, Digits, IsDouble;
    DoubleIs(b);
    var m, k := DigitsOver(Size64(b));
    MantissaIsDouble(m, k);
  }

  // ----- literals in number columns

  predicate KeepsNumber(v: Value, t: LogicalType) { Number(AsColumn(v, t)) == Number(v) }

  /** An integer literal keeps its number in a BIGINT column, in an INTEGER column exactly when 32 bits hold it, and in
      a FLOAT or DOUBLE column exactly when it is zero. */
  lemma IntegerLiteralKeptIff(l: i64)
    ensures KeepsNumber(BigInt(l), BIGINT)
    ensures KeepsNumber(BigInt(l), INTEGER) <==> -0x8000_0000 <= l < 0x8000_0000
    ensures KeepsNumber(BigInt(l), FLOAT) <==> l == 0
    ensures KeepsNumber(BigInt(l), DOUBLE) <==> l == 0
  {
    hide Pow2, Decoded;
    IntegerKept(l, 0);
    LowBitsAreOther(l);
    NotFinite(ToBits64(l));
    if Finite(ToBits64(l)) { BitsAreOther(ToBits64(l)); }
    AsColumnKeeps(BigInt(l), BIGINT);
  }

  /** A float literal keeps its number in a DOUBLE column, and in a FLOAT or INTEGER column exactly when it is zero; in
      a BIGINT column it must be the zero without a sign. */
  lemma FloatLiteralKeptIff(b: u64)
    requires Finite(b)
    ensures KeepsNumber(Double(b), DOUBLE)
    ensures KeepsNumber(Double(b), FLOAT) <==> Number(Double(b)) == 0.0
    ensures KeepsNumber(Double(b), INTEGER) <==> Number(Double(b)) == 0.0
    ensures KeepsNumber(Double(b), BIGINT) <==> b == 0
  {
    hide Pow2, Decoded, Digits;
    AsColumnKeeps(Double(b), DOUBLE);
    LowHalfIsOther(b);
    LowHalfIsOtherInteger(b);
    BitsAreOther(b);
    DoubleIs(b);
    NoFraction(Digits(Size64(b), UNIT64), Pow2(1074));
    ZeroDigits();
    if Size64(b) > 0 { SomeDigits(Size64(b)); }
  }
}
