/** Decimal numbers compared exactly with binary ones, digit strings, and correct rounding. */
module Decimal {
  import opened Powers

  function Plus(x: int): nat
  {
    if x > 0 then x else 0
  }

  function Minus(x: int): nat
  {
    if x < 0 then -x else 0
  }

  /**
   * The difference p * 10^x - n * 2^e of a decimal and a binary number with exponents of any
   * sign, multiplied by the positive factor 10^Minus(x) * 2^Minus(e) that clears the fractions.
   */
  function Cross(p: int, x: int, n: int, e: int): int
  {
    p * Pow(10, Plus(x)) * Pow(2, Minus(e)) - n * Pow(2, Plus(e)) * Pow(10, Minus(x))
  }

  /** z / d equals n * 2^e / 10^x. */
  ghost predicate IsScaled(n: int, e: int, z: int, d: int, x: int)
  {
    z * Pow(10, Plus(x)) * Pow(2, Minus(e)) == n * Pow(2, Plus(e)) * Pow(10, Minus(x)) * d
  }

  /** Ten times the numerator belongs to the next lower power of ten. */
  lemma ScaleNumerator(n: int, e: int, z: int, d: int, x: int, z10: int)
    requires IsScaled(n, e, z, d, x) && z10 == 10 * z
    ensures IsScaled(n, e, z10, d, x - 1)
  {
    var a, t, s, b := Pow(10, Plus(x)), Pow(2, Minus(e)), Pow(2, Plus(e)), Pow(10, Minus(x));
    if x > 0 {
      assert a == 10 * Pow(10, Plus(x - 1));
      MoveTen(z, Pow(10, Plus(x - 1)), t);
    } else {
      assert Pow(10, Minus(x - 1)) == 10 * b;
      MoveTenRight(z * a * t, n * s, b, d);
      MoveTen(z, a, t);
    }
  }

  lemma MoveTen(z: int, a: int, t: int)
    ensures (10 * z) * a * t == z * (10 * a) * t == 10 * (z * a * t)
  {
  }

  lemma MoveTenRight(l: int, ns: int, b: int, d: int)
    requires l == ns * b * d
    ensures 10 * l == ns * (10 * b) * d
  {
  }

  /** Ten times the denominator belongs to the next higher power of ten. */
  lemma ScaleDenominator(n: int, e: int, z: int, d: int, x: int, d10: int)
    requires IsScaled(n, e, z, d, x) && d10 == 10 * d
    ensures IsScaled(n, e, z, d10, x + 1)
  {
    var a, t, s, b := Pow(10, Plus(x)), Pow(2, Minus(e)), Pow(2, Plus(e)), Pow(10, Minus(x));
    if x >= 0 {
      assert Pow(10, Plus(x + 1)) == 10 * a;
      MoveTen(z, a, t);
      MoveTenIn(z * a * t, n * s, b, d);
    } else {
      assert b == 10 * Pow(10, Minus(x + 1));
      MoveTenAcross(n * s, Pow(10, Minus(x + 1)), d);
    }
  }

  lemma MoveTenAcross(ns: int, b: int, d: int)
    ensures ns * (10 * b) * d == ns * b * (10 * d)
  {
  }

  lemma MoveTenIn(l: int, ns: int, b: int, d: int)
    requires l == ns * b * d
    ensures 10 * l == ns * b * (10 * d)
  {
  }

  lemma {:induction false} ScaleDenominatorBy(n: int, e: int, z: int, d: int, x: int, k: nat)
    requires IsScaled(n, e, z, d, x)
    ensures IsScaled(n, e, z, Scale10(d, k), x + k)
  {
    if k > 0 {
      ScaleDenominatorBy(n, e, z, d, x, k - 1);
      ScaleDenominator(n, e, z, Scale10(d, k - 1), x + k - 1, Scale10(d, k));
    }
  }

  lemma {:induction false} ScaleNumeratorBy(n: int, e: int, z: int, d: int, x: int, k: nat)
    requires IsScaled(n, e, z, d, x)
    ensures IsScaled(n, e, Scale10(z, k), d, x - k)
  {
    if k > 0 {
      ScaleNumeratorBy(n, e, z, d, x, k - 1);
      ScaleNumerator(n, e, Scale10(z, k - 1), d, x - k + 1, Scale10(z, k));
    }
  }

  /** Comparing p * d with z is comparing p * 10^x with n * 2^e. */
  lemma CrossIsScaled(p: int, x: int, n: int, e: int, z: int, d: int)
    requires IsScaled(n, e, z, d, x)
    ensures Cross(p, x, n, e) * d == (p * d - z) * (Pow(10, Plus(x)) * Pow(2, Minus(e)))
    ensures Pow(10, Plus(x)) * Pow(2, Minus(e)) > 0
  {
    var a, t := Pow(10, Plus(x)), Pow(2, Minus(e));
    PowPositive(10, Plus(x));
    PowPositive(2, Minus(e));
    CrossCore(p, a, t, n * Pow(2, Plus(e)) * Pow(10, Minus(x)), z, d);
  }

  lemma CrossCore(p: int, a: int, t: int, w: int, z: int, d: int)
    requires z * a * t == w * d && a > 0 && t > 0
    ensures (p * a * t - w) * d == (p * d - z) * (a * t)
    ensures a * t > 0
  {
    assert (p * a * t - w) * d == p * a * t * d - w * d;
    assert p * a * t * d == (p * d) * (a * t);
    assert z * a * t == z * (a * t);
    assert (p * d - z) * (a * t) == (p * d) * (a * t) - z * (a * t);
  }

  /** So both differences have the same sign. */
  lemma CrossSign(p: int, x: int, n: int, e: int, z: int, d: int)
    requires IsScaled(n, e, z, d, x) && d > 0
    ensures Cross(p, x, n, e) > 0 <==> p * d > z
    ensures Cross(p, x, n, e) < 0 <==> p * d < z
  {
    CrossIsScaled(p, x, n, e, z, d);
    SameSign(Cross(p, x, n, e), d, p * d - z, Pow(10, Plus(x)) * Pow(2, Minus(e)));
  }

  lemma SameSign(u: int, d: int, v: int, w: int)
    requires u * d == v * w && d > 0 && w > 0
    ensures u > 0 <==> v > 0
    ensures u < 0 <==> v < 0
  {
    ProductSign(u, d);
    ProductSign(v, w);
  }

  lemma ProductSign(u: int, d: int)
    requires d > 0
    ensures u > 0 <==> u * d > 0
    ensures u < 0 <==> u * d < 0
  {
  }

  /** And magnitudes compare alike. */
  lemma CrossMagnitude(p: int, q: int, x: int, n: int, e: int, z: int, d: int)
    requires IsScaled(n, e, z, d, x) && d > 0
    ensures Abs(p * d - z) <= Abs(q * d - z) <==> Abs(Cross(p, x, n, e)) <= Abs(Cross(q, x, n, e))
  {
    CrossIsScaled(p, x, n, e, z, d);
    CrossIsScaled(q, x, n, e, z, d);
    SameOrder(Cross(p, x, n, e), Cross(q, x, n, e), d, p * d - z, q * d - z, Pow(10, Plus(x)) * Pow(2, Minus(e)));
  }

  function Abs(x: int): nat
  {
    if x < 0 then -x else x
  }

  lemma SameOrder(u1: int, u2: int, d: int, v1: int, v2: int, w: int)
    requires u1 * d == v1 * w && u2 * d == v2 * w && d > 0 && w > 0
    ensures Abs(v1) <= Abs(v2) <==> Abs(u1) <= Abs(u2)
  {
    AbsProduct(u1, d);
    AbsProduct(u2, d);
    AbsProduct(v1, w);
    AbsProduct(v2, w);
    ProductOrder(Abs(u1), Abs(u2), d);
    ProductOrder(Abs(v1), Abs(v2), w);
  }

  lemma AbsProduct(u: int, d: int)
    requires d > 0
    ensures Abs(u * d) == Abs(u) * d
  {
    ProductSign(u, d);
  }

  lemma ProductOrder(u: int, v: int, d: int)
    requires d > 0
    ensures u <= v <==> u * d <= v * d
  {
  }

  /** 10^k * n, one factor at a time. */
  ghost function Scale10(n: int, k: nat): int
  {
    if k == 0 then n else 10 * Scale10(n, k - 1)
  }

  lemma {:induction false} Scale10IsPow(n: int, k: nat)
    ensures Scale10(n, k) == Pow(10, k) * n
  {
    if k > 0 {
      Scale10IsPow(n, k - 1);
      TenTimes(n, Pow(10, k - 1));
    }
  }

  lemma {:induction false} Scale10Order(m: int, n: int, k: nat)
    ensures m < n ==> Scale10(m, k) < Scale10(n, k)
    ensures m > 0 ==> Scale10(m, k) > 0
  {
    if k > 0 {
      Scale10Order(m, n, k - 1);
    }
  }

  lemma {:induction false} ScaleGrows(d: int, k: nat)
    requires d > 0 && k > 0
    ensures Scale10(d, k) >= 10 * d && (k > 1 ==> Scale10(d, k) >= 100 * d)
  {
    if k > 1 {
      ScaleGrows(d, k - 1);
    } else {
      assert Scale10(d, 0) == d;
    }
  }

  /** The number a digit string writes; a character past '9' counts for more than nine. */
  function DecimalValue(s: seq<char>): int
  {
    if s == [] then 0 else 10 * DecimalValue(s[..|s| - 1]) + DigitOf(s[|s| - 1])
  }

  function DigitOf(c: char): int
  {
    c as int - '0' as int
  }

  function DigitChar(d: nat): (c: char)
    requires d <= 10
    ensures DigitOf(c) == d
  {
    ('0' as int + d) as char
  }

  predicate AllDigits(s: seq<char>)
  {
    forall i :: 0 <= i < |s| ==> '0' <= s[i] <= '9'
  }

  lemma DecimalPush(s: seq<char>, c: char)
    ensures DecimalValue(s + [c]) == 10 * DecimalValue(s) + DigitOf(c)
  {
    assert (s + [c])[..|s|] == s;
  }

  /** Changing one character changes the value by its weight. */
  lemma {:induction false} DecimalUpdate(s: seq<char>, i: nat, c: char)
    requires i < |s|
    ensures DecimalValue(s[i := c]) == DecimalValue(s) + (DigitOf(c) - DigitOf(s[i])) * Pow(10, |s| - 1 - i)
  {
    var n := |s| - 1;
    var t := s[i := c];
    if i < n {
      DecimalUpdate(s[..n], i, c);
      assert t[..n] == s[..n][i := c];
      TenTimes(DigitOf(c) - DigitOf(s[i]), Pow(10, n - 1 - i));
    } else {
      assert t[..n] == s[..n];
    }
  }

  lemma TenTimes(x: int, p: int)
    ensures 10 * (x * p) == x * (10 * p) == (10 * p) * x
  {
  }

  /** A one followed by zeros. */
  lemma {:induction false} DecimalOneZeros(s: seq<char>)
    requires s != [] && s[0] == '1' && forall i :: 1 <= i < |s| ==> s[i] == '0'
    ensures DecimalValue(s) == Pow(10, |s| - 1)
  {
    if |s| > 1 {
      DecimalOneZeros(s[..|s| - 1]);
    } else {
      assert s[..0] == [];
    }
  }

  /** q units of 10^x are n * 2^e rounded to nearest, ties to even. */
  ghost predicate NearestEven(n: int, e: int, q: int, x: int)
  {
    var twice, unit := 2 * Cross(q, x, n, e), Cross(1, x, 0, e);
    -unit <= twice <= unit && (twice == unit || twice == -unit ==> q % 2 == 0)
  }

  lemma UnitPositive(x: int, e: int)
    ensures Cross(1, x, 0, e) == Pow(10, Plus(x)) * Pow(2, Minus(e)) > 0
  {
    PowPositive(10, Plus(x));
    PowPositive(2, Minus(e));
    ProductSign(Pow(10, Plus(x)), Pow(2, Minus(e)));
  }

  lemma CrossLinear(p: int, q: int, x: int, n: int, e: int)
    ensures Cross(q, x, n, e) - Cross(p, x, n, e) == (q - p) * Cross(1, x, 0, e)
  {
    var a, t := Pow(10, Plus(x)), Pow(2, Minus(e));
    assert (q - p) * (a * t) == q * a * t - p * a * t;
  }

  /** Rounding to nearest with ties to even has only one answer. */
  lemma NearestEvenUnique(n: int, e: int, p: int, q: int, x: int)
    requires NearestEven(n, e, p, x) && NearestEven(n, e, q, x)
    ensures p == q
  {
    UnitPositive(x, e);
    CrossLinear(p, q, x, n, e);
    NearestCore(Cross(p, x, n, e), Cross(q, x, n, e), Cross(1, x, 0, e), p, q, q - p);
  }

  lemma NearestCore(cp: int, cq: int, unit: int, p: int, q: int, m: int)
    requires unit > 0 && cq - cp == m * unit && q == p + m
    requires -unit <= 2 * cp <= unit && -unit <= 2 * cq <= unit
    requires 2 * cp == unit || 2 * cp == -unit ==> p % 2 == 0
    requires 2 * cq == unit || 2 * cq == -unit ==> q % 2 == 0
    ensures p == q
  {
    if m >= 2 {
      MulAtLeast(m, 2, unit);
    } else if m <= -2 {
      MulAtLeast(-2, m, unit);
    }
  }

  /** The same rounding seen on a fraction z / d. */
  lemma NearestEvenScaled(n: int, e: int, q: int, x: int, z: int, d: int)
    requires IsScaled(n, e, z, d, x) && d > 0
    requires -d <= 2 * (q * d - z) <= d
    requires 2 * (q * d - z) == d || 2 * (q * d - z) == -d ==> q % 2 == 0
    ensures NearestEven(n, e, q, x)
  {
    CrossIsScaled(q, x, n, e, z, d);
    UnitPositive(x, e);
    HalfOrder(Cross(q, x, n, e), d, q * d - z, Cross(1, x, 0, e));
  }

  lemma HalfOrder(u: int, d: int, v: int, w: int)
    requires u * d == v * w && d > 0 && w > 0 && -d <= 2 * v <= d
    ensures -w <= 2 * u <= w
    ensures 2 * u == w ==> 2 * v == d
    ensures 2 * u == -w ==> 2 * v == -d
  {
    ProductOrder(2 * v, d, w);
    ProductOrder(-d, 2 * v, w);
    ProductOrder(2 * u, w, d);
    ProductOrder(-w, 2 * u, d);
    assert (2 * u) * d == (2 * v) * w;
    if 2 * u == w || 2 * u == -w {
      ProductOrder(d, 2 * v, w);
      ProductOrder(2 * v, -d, w);
    }
  }
}
