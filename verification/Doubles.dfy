/** Reading a decimal into a double and printing it with six digits after the point, rounding to nearest with ties to
    even both times. */
module Doubles {
  import opened Names
  import opened HashMasks

  const MILLION: nat := 1000000
  const MANTISSA: nat := 0x10_0000_0000_0000      // 2^52: a normalised mantissa is at least this and less than twice this
  const MAX_EXPONENT: nat := 1024

  /** The integer nearest to `a / b`. */
  function RoundHalfEven(a: nat, b: nat): (r: nat)
    requires b > 0
  {
    var q, rest := a / b, a % b;
    if 2 * rest > b || (2 * rest == b && q % 2 == 1) then q + 1 else q
  }

  /** `n` is the integer nearest to `a / b`: the distance is less than half, or half and `n` is even. */
  predicate Nearest(a: nat, b: nat, n: nat) {
    var d := Distance(a, n * b);
    2 * d < b || (2 * d == b && n % 2 == 0)
  }

  function Distance(a: nat, b: nat): nat {
    if a >= b then a - b else b - a
  }

  lemma RoundIsNearest(a: nat, b: nat)
    requires b > 0
    ensures Nearest(a, b, RoundHalfEven(a, b))
  {
    var q, rest := a / b, a % b;
    DivMod(a, b);
    assert (q + 1) * b == q * b + b;
  }

  lemma NearestUnique(a: nat, b: nat, m: nat, n: nat)
    requires b > 0 && Nearest(a, b, m) && Nearest(a, b, n)
    ensures m == n
  {
    if m < n {
      Apart(b, m, n);
    } else if n < m {
      Apart(b, n, m);
    }
  }

  lemma Apart(b: nat, m: nat, n: nat)
    requires m < n
    ensures n * b >= m * b + b
    ensures n > m + 1 ==> n * b >= m * b + 2 * b
  {
    var d := n - m;
    assert n * b == m * b + d * b;
    Times(d, b);
    if d > 1 {
      Times(d - 1, b);
      assert d * b == (d - 1) * b + b;
    }
  }

  lemma RoundIffNearest(a: nat, b: nat, n: nat)
    requires b > 0
    ensures RoundHalfEven(a, b) == n <==> Nearest(a, b, n)
  {
    hide Nearest, RoundHalfEven;
    RoundIsNearest(a, b);
    if Nearest(a, b, n) {
      NearestUnique(a, b, n, RoundHalfEven(a, b));
    }
  }

  // ----- Doubles -----

  /** A finite double is the fraction `p / q`, where `q` is a power of two. */
  datatype Double = Finite(p: nat, q: nat) | Infinite

  /** How often `num / den` must be doubled for the mantissa to have 53 bits. */
  function Doublings(num: nat, den: nat): (u: nat)
    requires num > 0
    ensures num * Pow2(u) >= MANTISSA * den
    ensures u > 0 ==> num * Pow2(u - 1) < MANTISSA * den
    decreases MANTISSA * den - num
  {
    if num >= MANTISSA * den then 0
    else
      var u := Doublings(2 * num, den);
      DoubledOnce(num, u);
      if u > 0 then DoubledOnce(num, u - 1); u + 1 else u + 1
  }

  lemma DoubledOnce(num: nat, u: nat)
    ensures num * Pow2(u + 1) == (2 * num) * Pow2(u)
  {
  }

  /** How often it must be halved. */
  function Halvings(num: nat, den: nat): (d: nat)
    requires den > 0
    decreases if num >= 2 * MANTISSA * den then num - 2 * MANTISSA * den + 1 else 0
  {
    if num >= 2 * MANTISSA * den then 1 + Halvings(num, 2 * den) else 0
  }

  /** `atof`: the double nearest to `num / den`, of normal size, or infinity. */
  function ToDouble(num: nat, den: nat): (d: Double)
    requires den > 0
    ensures d.Finite? ==> d.q > 0
  {
    if num == 0 then Finite(0, 1)
    else
      var u := Doublings(num, den);
      if u > 0 then Finite(RoundHalfEven(num * Pow2(u), den), Pow2(u))
      else
        var unit := Pow2(Halvings(num, den));
        var p := RoundHalfEven(num, den * unit) * unit;
        if p >= Pow2(MAX_EXPONENT) then Infinite else Finite(p, 1)
  }

  // ----- The nearest double -----

  /** `a / b` is `m` times a power of two, positive or negative. */
  ghost predicate Scaled(a: nat, b: nat, m: nat, k: nat) {
    a == m * Pow2(k) * b || a * Pow2(k) == m * b
  }

  /** The fraction `a / b` has a mantissa of at most 53 bits. */
  ghost predicate IsDouble(a: nat, b: nat) {
    exists m: nat, k: nat :: m < 2 * MANTISSA && Scaled(a, b, m, k)
  }

  lemma {:induction false} Pow2Sum(a: nat, b: nat)
    ensures Pow2(a + b) == Pow2(a) * Pow2(b)
  {
    if a > 0 {
      Pow2Sum(a - 1, b);
      assert Pow2(a + b) == 2 * Pow2(a - 1 + b);
    }
  }

  /** Counted in units of `Pow2(u)` parts, a double is an integer or at most 2^52. */
  lemma FinerUnits(a: nat, b: nat, u: nat)
    requires b > 0 && IsDouble(a, b)
    ensures (exists j: nat :: a * Pow2(u) == j * b) || a * Pow2(u) <= MANTISSA * b
  {
    hide Pow2;
    var m: nat, k: nat :| m < 2 * MANTISSA && Scaled(a, b, m, k);
    var unit := Pow2(u);
    if a == m * Pow2(k) * b {
      var c := m * Pow2(k);
      Times3(c, b, unit);
      var j := c * unit;
      assert a * unit == j * b;
    } else if k <= u {
      Pow2Sum(k, u - k);
      var x, y := Pow2(k), Pow2(u - k);
      var j := m * y;
      Times3(a, x, y);
      Times3(m, b, y);
      assert a * unit == j * b;
    } else {
      FinerFraction(a, b, u, m, k);
    }
  }

  lemma FinerFraction(a: nat, b: nat, u: nat, m: nat, k: nat)
    requires m < 2 * MANTISSA && a * Pow2(k) == m * b && u < k
    ensures a * Pow2(u) <= MANTISSA * b
  {
    hide Pow2;
    Pow2Sum(u, k - u);
    AtLeastTwo(k - u);
    var x, y := a * Pow2(u), Pow2(k - u);
    Times3(a, Pow2(u), y);
    Larger(x, 2, y);
    Larger(b, m, 2 * MANTISSA);
  }

  /** The same in units of `Pow2(h)`. */
  lemma CoarserUnits(a: nat, b: nat, h: nat)
    requires b > 0 && IsDouble(a, b)
    ensures (exists j: nat :: a == j * (b * Pow2(h))) || a <= MANTISSA * (b * Pow2(h))
  {
    hide Pow2;
    var m: nat, k: nat :| m < 2 * MANTISSA && Scaled(a, b, m, k);
    var unit := Pow2(h);
    if a == m * Pow2(k) * b {
      CoarserMultiple(a, b, h, m, k);
    } else if h == 0 && k == 0 {
      PowerZero();
      assert a == m * (b * unit);
    } else {
      AtLeastTwo(if h > 0 then h else k);
      PowerZero();
      Larger(b, m, 2 * MANTISSA);
      if h > 0 {
        Larger(a, 1, Pow2(k));
        Larger(MANTISSA * b, 2, unit);
      } else {
        Larger(a, 2, Pow2(k));
      }
    }
  }

  lemma CoarserMultiple(a: nat, b: nat, h: nat, m: nat, k: nat)
    requires m < 2 * MANTISSA && a == m * Pow2(k) * b
    ensures (exists j: nat :: a == j * (b * Pow2(h))) || a <= MANTISSA * (b * Pow2(h))
  {
    hide Pow2;
    var x, unit := Pow2(k), Pow2(h);
    if h <= k {
      Pow2Sum(h, k - h);
      var y := Pow2(k - h);
      var j := m * y;
      Regrouped(m, unit, y, b);
      assert a == j * (b * unit);
    } else {
      Pow2Sum(k, h - k);
      AtLeastTwo(h - k);
      Larger(x, 2, Pow2(h - k));
      var c := x * b;
      assert a == m * c by { Times3(m, x, b); }
      Larger(c, m, 2 * MANTISSA);
      Larger(b, 2 * x, unit);
      assert 2 * c == 2 * x * b by { Times3(2, x, b); }
      assert 2 * MANTISSA * c == MANTISSA * (2 * c);
    }
  }

  lemma Times3(a: nat, b: nat, c: nat)
    ensures a * b * c == a * (b * c) == a * c * b
  {
  }

  lemma Regrouped(m: nat, unit: nat, y: nat, b: nat)
    ensures m * (unit * y) * b == m * y * (b * unit)
  {
    var uy, bu, my := unit * y, b * unit, m * y;
    assert m * uy == my * unit by { Times3(m, y, unit); }
    assert my * unit * b == my * bu by { Times3(my, unit, b); }
  }

  lemma PowerZero()
    ensures Pow2(0) == 1
  {
  }

  lemma AtLeastTwo(k: nat)
    requires k > 0
    ensures Pow2(k) >= 2
  {
  }

  /** No integer is nearer than the rounded quotient. */
  lemma RoundedNearest(n: nat, d: nat, j: nat)
    requires d > 0
    ensures Distance(n, RoundHalfEven(n, d) * d) <= Distance(n, j * d)
  {
    hide RoundHalfEven;
    RoundIsNearest(n, d);
    var r := RoundHalfEven(n, d);
    if j < r {
      Apart(d, j, r);
    } else if r < j {
      Apart(d, r, j);
    }
  }

  lemma DistanceScaled(a: nat, b: nat, c: nat)
    ensures Distance(a * c, b * c) == Distance(a, b) * c
  {
    if a >= b {
      Larger(c, b, a);
      assert (a - b) * c == a * c - b * c;
    } else {
      Larger(c, a, b);
      assert (b - a) * c == b * c - a * c;
    }
  }

  /** Nor is a fraction `y / z` that is an integer or at most 2^52, if the quotient is at least 2^52. */
  lemma UnitsNearest(n: nat, d: nat, y: nat, z: nat)
    requires d > 0 && z > 0 && MANTISSA * d <= n
    requires (exists j: nat :: y == j * z) || y <= MANTISSA * z
    ensures Distance(n, RoundHalfEven(n, d) * d) * z <= Distance(n * z, y * d)
  {
    hide RoundHalfEven, Distance;
    var r := RoundHalfEven(n, d);
    if y <= MANTISSA * z {
      RoundedNearest(n, d, MANTISSA);
      Larger(z, Distance(n, r * d), Distance(n, MANTISSA * d));
      DistanceScaled(n, MANTISSA * d, z);
      Larger(d, y, MANTISSA * z);
      Larger(z, MANTISSA * d, n);
      assert MANTISSA * z * d == MANTISSA * d * z;
      FurtherBelow(n * z, MANTISSA * d * z, y * d);
    } else {
      var j: nat :| y == j * z;
      RoundedNearest(n, d, j);
      Larger(z, Distance(n, r * d), Distance(n, j * d));
      DistanceScaled(n, j * d, z);
      assert j * d * z == y * d;
    }
  }

  lemma FurtherBelow(a: nat, b: nat, c: nat)
    requires c <= b <= a
    ensures Distance(a, b) <= Distance(a, c)
  {
  }

  /** No double is nearer to the decimal than the one it is read into. */
  lemma ToDoubleNearest(num: nat, den: nat, a: nat, b: nat)
    requires den > 0 && b > 0 && IsDouble(a, b) && ToDouble(num, den).Finite?
    ensures var d := ToDouble(num, den); Distance(num * d.q, d.p * den) * b <= Distance(num * b, a * den) * d.q
  {
    if num > 0 {
      hide ToDouble, Distance;
      if Doublings(num, den) > 0 {
        FineNearest(num, den, a, b);
      } else {
        CoarseNearest(num, den, a, b);
      }
    }
  }

  lemma FineNearest(num: nat, den: nat, a: nat, b: nat)
    requires num > 0 && den > 0 && b > 0 && IsDouble(a, b) && Doublings(num, den) > 0
    ensures var d := ToDouble(num, den);
      d.Finite? && Distance(num * d.q, d.p * den) * b <= Distance(num * b, a * den) * d.q
  {
    var u := Doublings(num, den);
    var q := Pow2(u);
    var p := RoundHalfEven(num * q, den);
    assert ToDouble(num, den) == Finite(p, q);
    hide Pow2, Distance, RoundHalfEven, Doublings, ToDouble;
    FinerUnits(a, b, u);
    UnitsNearest(num * q, den, a * q, b);
    DistanceScaled(num * b, a * den, q);
    Times3(num, q, b);
    Times3(a, q, den);
  }

  lemma {:induction false} HalvingsAre(num: nat, den: nat)
    requires den > 0 && num >= MANTISSA * den
    ensures var unit := Pow2(Halvings(num, den)); MANTISSA * (den * unit) <= num < 2 * MANTISSA * (den * unit)
    decreases if num >= 2 * MANTISSA * den then num - 2 * MANTISSA * den + 1 else 0
  {
    if num >= 2 * MANTISSA * den {
      HalvingsAre(num, 2 * den);
      assert 2 * den * Pow2(Halvings(num, 2 * den)) == den * Pow2(Halvings(num, den));
    }
  }

  lemma CoarseNearest(num: nat, den: nat, a: nat, b: nat)
    requires num > 0 && den > 0 && b > 0 && IsDouble(a, b) && ToDouble(num, den).Finite? && Doublings(num, den) == 0
    ensures var d := ToDouble(num, den); Distance(num * d.q, d.p * den) * b <= Distance(num * b, a * den) * d.q
  {
    PowerZero();
    HalvingsAre(num, den);
    var h := Halvings(num, den);
    var unit := Pow2(h);
    var r := RoundHalfEven(num, den * unit);
    assert ToDouble(num, den) == Finite(r * unit, 1);
    hide Pow2, Distance, RoundHalfEven, Doublings, Halvings, ToDouble;
    CoarserUnits(a, b, h);
    UnitsNearest(num, den * unit, a, b * unit);
    Times3(r, den, unit);
    Times3(num, b, unit);
    Times3(a, den, unit);
    DistanceScaled(num * b, a * den, unit);
    var x, y := Distance(num, r * unit * den), Distance(num * b, a * den);
    Times3(x, b, unit);
    Cancelled(x * b, y, unit);
  }

  lemma Cancelled(x: nat, y: nat, unit: nat)
    requires x * unit <= y * unit && unit > 0
    ensures x <= y
  {
    if x > y { Larger(unit, y + 1, x); }
  }

  /** What a decimal is read into is a double. */
  lemma ToDoubleHeld(num: nat, den: nat)
    requires den > 0 && ToDouble(num, den).Finite?
    ensures IsDouble(ToDouble(num, den).p, ToDouble(num, den).q)
  {
    PowerZero();
    if num == 0 {
      assert Scaled(0, 1, 0, 0);
    } else {
      var u := Doublings(num, den);
      if u > 0 {
        var q := Pow2(u);
        var p := RoundHalfEven(num * q, den);
        assert Pow2(u) == 2 * Pow2(u - 1);
        hide Pow2, Doublings, RoundHalfEven;
        assert num * q < 2 * MANTISSA * den;
        AtMost53Bits(num * q, den, p);
        MantissaHeld(p, q, u);
      } else {
        HalvingsAre(num, den);
        var h := Halvings(num, den);
        var unit := Pow2(h);
        var r := RoundHalfEven(num, den * unit);
        hide Pow2, Doublings, RoundHalfEven, Halvings;
        AtMost53Bits(num, den * unit, r);
        UnitsHeld(r, h);
      }
    }
  }

  lemma AtMost53Bits(n: nat, d: nat, r: nat)
    requires d > 0 && n < 2 * MANTISSA * d && r == RoundHalfEven(n, d)
    ensures r <= 2 * MANTISSA
  {
    hide RoundHalfEven;
    RoundIsNearest(n, d);
    if r > 2 * MANTISSA { Apart(d, 2 * MANTISSA, r); }
  }

  lemma MantissaHeld(p: nat, q: nat, u: nat)
    requires u > 0 && q == Pow2(u) && p <= 2 * MANTISSA
    ensures IsDouble(p, q)
  {
    if p < 2 * MANTISSA {
      assert Scaled(p, q, p, u);
    } else {
      assert q == 2 * Pow2(u - 1);
      assert p * Pow2(u - 1) == MANTISSA * q;
      assert Scaled(p, q, MANTISSA, u - 1);
    }
  }

  lemma UnitsHeld(r: nat, h: nat)
    requires r <= 2 * MANTISSA
    ensures IsDouble(r * Pow2(h), 1)
  {
    if r < 2 * MANTISSA {
      assert Scaled(r * Pow2(h), 1, r, h);
    } else {
      assert r * Pow2(h) == MANTISSA * Pow2(h + 1) * 1;
      assert Scaled(r * Pow2(h), 1, MANTISSA, h + 1);
    }
  }

  // ----- Overflow -----

  lemma TenBits()
    ensures Pow2(3) == 8 && Pow2(10) == 1024
  {
    assert Pow2(10) == 1024;
  }

  lemma MantissaPower()
    ensures Pow2(53) == 2 * MANTISSA
  {
    hide Pow2;
    TenBits();
    Pow2Sum(10, 10);
    Pow2Sum(20, 20);
    Pow2Sum(10, 3);
    Pow2Sum(40, 13);
  }

  lemma AtLeast(n: nat, d: nat, m: nat)
    requires d > 0 && m * d <= n
    ensures RoundHalfEven(n, d) >= m
  {
    hide RoundHalfEven;
    RoundIsNearest(n, d);
    var r := RoundHalfEven(n, d);
    if r < m { Apart(d, r, m); }
  }

  /** Infinity stands for everything from half a unit above the largest double, (2^53 - 1) * 2^971, on. */
  lemma InfiniteIff(num: nat, den: nat)
    requires den > 0
    ensures ToDouble(num, den).Infinite? <==> 2 * num >= (4 * MANTISSA - 1) * (den * Pow2(971))
  {
    var top := den * Pow2(971);
    Larger(den, 1, Pow2(971));
    if num > 0 {
      var u := Doublings(num, den);
      if u > 0 {
        assert ToDouble(num, den).Finite?;
        hide Pow2, Doublings, RoundHalfEven, ToDouble;
        Larger(num, 1, Pow2(u - 1));
        assert num < MANTISSA * den;
      } else {
        PowerZero();
        HalvingsAre(num, den);
        var h := Halvings(num, den);
        var r := RoundHalfEven(num, den * Pow2(h));
        assert ToDouble(num, den).Infinite? <==> r * Pow2(h) >= Pow2(1024);
        hide *;
        TopPower();
        LargeIff(num, den, h, r);
      }
    }
  }

  lemma TopPower()
    ensures Pow2(1024) == 2 * MANTISSA * Pow2(971)
  {
    hide Pow2;
    MantissaPower();
    Pow2Sum(53, 971);
  }

  lemma LargeIff(num: nat, den: nat, h: nat, r: nat)
    requires den > 0 && MANTISSA * (den * Pow2(h)) <= num < 2 * MANTISSA * (den * Pow2(h))
    requires r == RoundHalfEven(num, den * Pow2(h))
    ensures r * Pow2(h) >= 2 * MANTISSA * Pow2(971) <==> 2 * num >= (4 * MANTISSA - 1) * (den * Pow2(971))
  {
    hide Pow2, RoundHalfEven;
    var unit, top := Pow2(h), Pow2(971);
    AtLeast(num, den * unit, MANTISSA);
    AtMost53Bits(num, den * unit, r);
    if h == 971 {
      RoundIffNearest(num, den * unit, 2 * MANTISSA);
      TopUnit(num, den * unit, unit, r);
    } else if h > 971 {
      Pow2Sum(971, h - 971);
      AtLeastTwo(h - 971);
      Larger(top, 2, Pow2(h - 971));
      AboveTop(num, den, unit, top, r);
    } else {
      Pow2Sum(h, 971 - h);
      AtLeastTwo(971 - h);
      Larger(unit, 2, Pow2(971 - h));
      BelowTop(num, den, unit, top, r);
    }
  }

  lemma TopUnit(num: nat, d: nat, unit: nat, r: nat)
    requires d > 0 && unit > 0 && num < 2 * MANTISSA * d && r <= 2 * MANTISSA
    requires r == 2 * MANTISSA <==> Nearest(num, d, 2 * MANTISSA)
    ensures r * unit >= 2 * MANTISSA * unit <==> 2 * num >= (4 * MANTISSA - 1) * d
  {
    if r < 2 * MANTISSA { Apart(unit, r, 2 * MANTISSA); }
  }

  lemma AboveTop(num: nat, den: nat, unit: nat, top: nat, r: nat)
    requires MANTISSA * (den * unit) <= num && r >= MANTISSA && unit >= 2 * top
    ensures r * unit >= 2 * MANTISSA * top && 2 * num >= (4 * MANTISSA - 1) * (den * top)
  {
    Larger(unit, MANTISSA, r);
    Larger(den, 2 * top, unit);
    Times3(2, top, den);
  }

  lemma BelowTop(num: nat, den: nat, unit: nat, top: nat, r: nat)
    requires den > 0 && unit > 0 && num < 2 * MANTISSA * (den * unit) && r <= 2 * MANTISSA && top >= 2 * unit
    ensures r * unit < 2 * MANTISSA * top && 2 * num < (4 * MANTISSA - 1) * (den * top)
  {
    Larger(unit, r, 2 * MANTISSA);
    Larger(den, 2 * unit, top);
    Times3(2, unit, den);
  }

  // ----- Printing -----

  /** The last `k` digits of `n`. */
  function LastDigits(n: nat, k: nat): (s: string)
    ensures |s| == k && forall i :: 0 <= i < k ==> IsDigit(s[i])
  {
    if k == 0 then "" else LastDigits(n / 10, k - 1) + [Digit(n % 10)]
  }

  /** The nearest number of millionths. */
  function Millionths(d: Double): nat
    requires d.Finite? && d.q > 0
  {
    RoundHalfEven(d.p * MILLION, d.q)
  }

  /** `%f`. */
  function PrintDouble(d: Double): string
    requires d.Finite? ==> d.q > 0
  {
    if d.Infinite? then "inf"
    else Dec(Millionths(d) / MILLION) + "." + LastDigits(Millionths(d) % MILLION, 6)
  }

  // ----- Which numbers of millionths survive -----

  /** The double nearest to `n` millionths is within half a millionth of it. */
  predicate Survives(n: nat) {
    var d := ToDouble(n, MILLION);
    d.Finite? && Nearest(d.p * MILLION, d.q, n)
  }

  lemma SurvivesIff(n: nat)
    ensures Survives(n) <==> ToDouble(n, MILLION).Finite? && Millionths(ToDouble(n, MILLION)) == n
  {
    hide ToDouble, Nearest, RoundHalfEven;
    var d := ToDouble(n, MILLION);
    if d.Finite? {
      RoundIffNearest(d.p * MILLION, d.q, n);
    }
  }

  lemma {:induction false} Pow2Grows(a: nat, b: nat)
    requires a <= b
    ensures Pow2(a) <= Pow2(b)
  {
    if a < b {
      Pow2Grows(a, b - 1);
    }
  }

  lemma SmallPowers()
    ensures Pow2(18) == 262144 && Pow2(19) == 524288 && Pow2(20) == 1048576
  {
    assert Pow2(10) == 1024 && Pow2(18) == 262144;
  }

  /** Below 2^33 every number of millionths survives. */
  lemma SmallSurvive(n: nat)
    requires n < 0x2_0000_0000 * MILLION
    ensures Survives(n)
  {
    if n == 0 {
      return;
    }
    hide Pow2, Doublings, RoundHalfEven;
    var u := Doublings(n, MILLION);
    SmallPowers();
    if u <= 19 {
      Pow2Grows(u, 19);
      Larger(n, Pow2(u), Pow2(19));
    }
    Pow2Grows(20, u);
    var q := Pow2(u);
    var p := RoundHalfEven(n * q, MILLION);
    RoundIsNearest(n * q, MILLION);
    assert 2 * Distance(n * q, p * MILLION) <= MILLION < q;
    assert Distance(p * MILLION, n * q) == Distance(n * q, p * MILLION);
  }

  lemma Larger(n: nat, a: nat, b: nat)
    requires a <= b
    ensures n * a <= n * b
  {
  }

  lemma DoublingsAre(n: nat, den: nat, u: nat)
    requires n > 0 && n * Pow2(u) >= MANTISSA * den && (u > 0 ==> n * Pow2(u - 1) < MANTISSA * den)
    ensures Doublings(n, den) == u
  {
    hide Pow2;
    var v := Doublings(n, den);
    if v < u {
      Pow2Grows(v, u - 1);
      Larger(n, Pow2(v), Pow2(u - 1));
    } else if u < v {
      Pow2Grows(u, v - 1);
      Larger(n, Pow2(u), Pow2(v - 1));
    }
  }

  /** From there on some do not: 8589934592.000001 is 2^33 and a millionth. */
  lemma LargeLost()
    ensures !Survives(8589934592000001)
  {
    hide Pow2, Doublings, RoundHalfEven;
    var n := 8589934592000001;
    SmallPowers();
    DoublingsAre(n, MILLION, 19);
    assert Nearest(n * 524288, MILLION, 4503599627370497);
    RoundIffNearest(n * 524288, MILLION, 4503599627370497);
    assert !Nearest(4503599627370497 * MILLION, 524288, n);
  }
}
