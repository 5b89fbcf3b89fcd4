/** format_dragon: exact printing of f * 2^e, shortest or to a given number of digits. */
module FormatDragon {
  import opened Common
  import opened Powers
  import opened Digits
  import opened Bigints
  import opened Decimal
  import opened Dragon
  import opened Boundaries

  /** Rounding the scaled value is rounding the value. */
  lemma RoundedMeaning(f: nat, e: int, n0: nat, d: nat, exp10: int, k: nat, q: int)
    requires d > 0 && IsScaled(f, e, n0, d, exp10)
    requires RoundsTo(q, d, Scale10(n0, k))
    ensures NearestEven(f, e, q, exp10 - k)
  {
    ScaleNumeratorBy(f, e, n0, d, exp10, k);
    NearestEvenScaled(f, e, q, exp10 - k, Scale10(n0, k), d);
  }

  // ---- The start --------------------------------------------------------------------------------

  /**
   * The one kind of start the first division can get wrong: a value that is exactly a power of
   * ten stored with a larger exponent than the denominator.
   */
  predicate SafeStart(f: nat, e: int, closer: bool, exp10: int)
  {
    e >= 0 && exp10 >= 0 && (e + Shift(closer)) / 32 > exp10 / 32 ==>
      f * Pow(2, e) != Pow(10, exp10) && 10 * (f * Pow(2, e)) != Pow(10, exp10)
  }

  lemma {:induction false} FivesAreOdd(k: nat)
    ensures Pow(5, k) % 2 == 1
  {
    if k > 0 {
      FivesAreOdd(k - 1);
    }
  }

  /** With more than m factors of two on the left, the two sides differ. */
  lemma TooManyTwos(x: nat, t: nat, m: nat)
    requires t > m
    ensures x * Pow(2, t) != Pow(10, m)
  {
    PowProduct(5, 2, m);
    PowAdd(2, t - m - 1, m);
    FivesAreOdd(m);
    PowPositive(2, m);
    TwosLeft(x, Pow(2, t - m - 1), Pow(2, m), Pow(5, m));
  }

  lemma TwosLeft(x: nat, r: nat, p: nat, five: nat)
    requires p > 0 && five % 2 == 1
    ensures x * (2 * (r * p)) != five * p
  {
    assert x * (2 * (r * p)) == (2 * (x * r)) * p;
    if (2 * (x * r)) * p == five * p {
      ProductOrder(2 * (x * r), five, p);
      ProductOrder(five, 2 * (x * r), p);
    }
  }

  lemma NeverMeets(f: nat, e: nat, closer: bool, exp10: nat, k: nat)
    requires (e + Shift(closer)) / 32 > exp10 / 32 && SafeStart(f, e, closer, exp10)
    ensures Scale10(Num0(f, e, exp10, closer), k) != Den0(e, exp10, closer)
  {
    var sh := Shift(closer);
    var v := f * Pow(2, e);
    assert Scale10(v, k) != Pow(10, exp10) by {
      if k >= 2 {
        Scale10IsPow(v, k);
        PowProduct(5, 2, k);
        PowAdd(2, k, e);
        TenFactors(Pow(5, k), Pow(2, k), f, Pow(2, e));
        MulPositive(f, Pow(5, k));
        TooManyTwos(f * Pow(5, k), k + e, exp10);
      } else if k == 1 {
        assert Scale10(v, 1) == 10 * Scale10(v, 0);
      }
    }
    ScaleTimes(v, Pow(2, sh), k);
    ValueLast(f, Pow(2, sh), Pow(2, e));
    PowPositive(2, sh);
    CancelFactor(Scale10(v, k), Pow(10, exp10), Pow(2, sh));
  }

  lemma TenFactors(fives: int, twos: int, f: int, p: int)
    ensures (fives * twos) * (f * p) == (f * fives) * (twos * p)
  {
    MulSwap(fives, twos, f, p);
    assert fives * f == f * fives;
  }

  lemma ValueLast(f: int, p: int, q: int)
    ensures f * p * q == (f * q) * p
  {
  }

  lemma CancelFactor(a: int, b: int, p: int)
    requires a != b && p > 0
    ensures a * p != b * p
  {
    ProductOrder(a, b, p);
    ProductOrder(b, a, p);
  }

  lemma {:induction false} ScaleTimes(v: int, p: int, k: nat)
    ensures Scale10(v * p, k) == Scale10(v, k) * p
  {
    if k > 0 {
      ScaleTimes(v, p, k - 1);
    }
  }

  /** For a negative exponent the numerator is never stored with the larger exponent. */
  lemma SmallExponents(f: nat, e: int, closer: bool, exp10: int)
    requires f > 0 && e < 0 && exp10 < 0
    requires Num0(f, e, exp10, closer) < 10 * Den0(e, exp10, closer)
    ensures NumExp(e, exp10, closer) <= DenExp(e, exp10, closer)
  {
    var a, sh := -exp10, Shift(closer);
    PowAdd(2, sh, -e);
    PowPositive(2, sh);
    TenAboveEight(a - 1);
    PowOfPow(2, 3, a - 1);
    assert Pow(2, 3) == 8;
    assert Pow(10, a) == 10 * Pow(10, a - 1);
    SmallCore(f, Pow(2, sh), Pow(10, a - 1), Pow(2, -e));
    PowOrder(2, 3 * (a - 1), -e);
  }

  lemma SmallCore(f: nat, p: nat, t: nat, q: nat)
    requires f > 0 && p > 0
    requires f * p * (10 * t) < 10 * (p * q)
    ensures t < q
  {
    assert f * p * (10 * t) == f * (p * (10 * t));
    MulPositive(p, 10 * t);
    MulAtLeast(f, 1, p * (10 * t));
    assert p * (10 * t) == t * (10 * p);
    assert 10 * (p * q) == q * (10 * p);
    ProductOrder(q, t, 10 * p);
  }

  lemma {:induction false} TenAboveEight(k: nat)
    ensures Pow(10, k) >= Pow(8, k) > 0
  {
    if k > 0 {
      TenAboveEight(k - 1);
    }
  }

  /** So under SafeStart the first division is always entitled to its answer. */
  lemma StartNeverEqual(f: nat, e: int, closer: bool, exp10: int)
    requires f > 0 && (e >= 0 ==> exp10 >= 0) && SafeStart(f, e, closer, exp10)
    requires Num0(f, e, exp10, closer) < 10 * Den0(e, exp10, closer)
    ensures NumExp(e, exp10, closer) > DenExp(e, exp10, closer) ==>
      NeverEqual(Num0(f, e, exp10, closer), Den0(e, exp10, closer))
  {
    if e < 0 && exp10 < 0 {
      SmallExponents(f, e, closer, exp10);
    } else if NumExp(e, exp10, closer) > DenExp(e, exp10, closer) {
      var n0, d0 := Num0(f, e, exp10, closer), Den0(e, exp10, closer);
      forall k: nat
        ensures Scale10(n0, k) != d0
      {
        NeverMeets(f, e, closer, exp10, k);
      }
    }
  }

  lemma {:induction false} ScaleFirst(n: int, k: nat)
    ensures Scale10(10 * n, k) == Scale10(n, k + 1)
  {
    if k > 0 {
      ScaleFirst(n, k - 1);
    }
  }

  // ---- format_dragon ------------------------------------------------------------------------------

  /** The upper boundary does not reach 10^x: it is below, or on it where the boundary is excluded. */
  ghost predicate UpperWithin(f: nat, e: int, x: int)
  {
    !(BelowUpper(f, e, 1, x) || (f % 2 == 0 && OnUpper(f, e, 1, x)))
  }

  /** The estimate of the decimal exponent after the fix-up, which makes up for one that is one too high. */
  ghost function FixedExp(f: nat, e: int, fixup: bool, exp10: int): (x: int)
    ensures fixup && UpperWithin(f, e, exp10 + 1) ==> UpperWithin(f, e, x + 1)
    ensures fixup && !UpperWithin(f, e, exp10 - 1) ==> !UpperWithin(f, e, x)
    ensures !fixup ==> x == exp10
  {
    if fixup && UpperWithin(f, e, exp10) then exp10 - 1 else exp10
  }

  /** adjust_precision: fails when the adjusted precision would not fit an int. */
  function AdjustPrecision(precision: int, exp10: int): (r: (bool, int))
  {
    if exp10 > 0 && precision > INT_MAX - exp10 then (false, precision) else (true, precision + exp10)
  }

  /** Applies the fix-up: one power of ten less if the value is below the estimated one. */
  method Fixup(numerator: Bigint, denominator: Bigint, lower: Bigint, upper: Bigint, even: bool, scaleGaps: bool)
    returns (lowered: bool)
    requires Distinct(numerator, denominator, lower, upper)
    requires Normal(numerator.bigits) && Normal(denominator.bigits)
    requires Normal(lower.bigits) && Normal(upper.bigits)
    modifies numerator, lower, upper
    ensures Normal(numerator.bigits) && Normal(lower.bigits) && Normal(upper.bigits)
    ensures numerator.exp == old(numerator.exp) && lower.exp == old(lower.exp)
    ensures lowered <==> if even then old(numerator.Value() + upper.Value()) < denominator.Value()
                         else old(numerator.Value() + upper.Value()) <= denominator.Value()
    ensures numerator.Value() == (if lowered then 10 else 1) * old(numerator.Value())
    ensures lower.Value() == (if lowered && scaleGaps then 10 else 1) * old(lower.Value())
    ensures upper.Value() == (if lowered && scaleGaps then 10 else 1) * old(upper.Value())
  {
    var c := AddCompare(numerator, upper, denominator);
    lowered := c + (if even then 1 else 0) <= 0;
    if lowered {
      numerator.Multiply32(10);
      if scaleGaps {
        lower.Multiply32(10);
        if upper != lower {
          upper.Multiply32(10);
        }
      }
    }
  }

  /** The invariant before digits are drawn: value == numerator / denominator * 10^x, and the gaps fit. */
  ghost predicate Started(numerator: Bigint, denominator: Bigint, lower: Bigint, upper: Bigint, f: nat, e: int,
                          closer: bool, exp10: int, x: int, shortest: bool)
    reads numerator, denominator, lower, upper
  {
    && Normal(numerator.bigits) && Normal(denominator.bigits) && Normal(lower.bigits) && Normal(upper.bigits)
    && denominator.Value() > 0 && IsScaled(f, e, numerator.Value(), denominator.Value(), x)
    && numerator.Value() < 10 * denominator.Value()
    && 0 < lower.Value() <= upper.Value() && (!closer ==> upper == lower)
    && (SafeStart(f, e, closer, exp10) ==> Ordered(numerator, denominator, numerator.Value(), 0))
    && (shortest ==>
          && lower.Value() < numerator.Value()
          && Placed(e, closer, exp10, x, Min(numerator.exp, denominator.exp), lower.exp, lower.Value())
          && Fraction(f, e, closer, numerator.Value(), lower.Value(), upper.Value(), denominator.Value(), x)
          && numerator.Value() + upper.Value() <= 10 * denominator.Value()
          && (f % 2 == 0 ==> numerator.Value() + upper.Value() < 10 * denominator.Value()))
  }

  /** The numbers the generators start from, with the decimal exponent fixed up. */
  method Start(f: nat, e: int, flags: Flags, numDigits: int, exp10: int)
    returns (numerator: Bigint, denominator: Bigint, lower: Bigint, upper: Bigint, x: int)
    requires 0 < f < POW128 && -INT_MAX <= exp10 < INT_MAX && (e >= 0 ==> exp10 >= 0)
    requires if numDigits < 0 then UpperWithin(f, e, exp10 + 1) else Cross(1, exp10 + 1, f, e) > 0
    ensures fresh(numerator) && fresh(denominator) && fresh(lower) && fresh(upper)
    ensures Distinct(numerator, denominator, lower, upper)
    ensures x == FixedExp(f, e, flags.fixup, exp10)
    ensures Started(numerator, denominator, lower, upper, f, e, flags.predecessorCloser, exp10, x, numDigits < 0)
  {
    numerator, denominator, lower, upper := Prepare(f, e, flags.predecessorCloser, exp10);
    PreparedStarts(numerator, denominator, lower, upper, f, e, flags.predecessorCloser, exp10, numDigits < 0);
    x := exp10;
    if flags.fixup {
      var lowered := FixStart(numerator, denominator, lower, upper, f, e, flags.predecessorCloser, exp10,
                              numDigits < 0);
      if lowered {
        x := x - 1;
      }
    }
  }

  lemma PreparedStarts(numerator: Bigint, denominator: Bigint, lower: Bigint, upper: Bigint, f: nat, e: int,
                       closer: bool, exp10: int, shortest: bool)
    requires f > 0 && (e >= 0 ==> exp10 >= 0) && (upper == lower <==> !closer)
    requires Prepared(numerator, denominator, lower, upper, f, e, closer, exp10)
    requires if shortest then UpperWithin(f, e, exp10 + 1) else Cross(1, exp10 + 1, f, e) > 0
    ensures Started(numerator, denominator, lower, upper, f, e, closer, exp10, exp10, shortest)
    ensures Fraction(f, e, closer, numerator.Value(), lower.Value(), upper.Value(), denominator.Value(), exp10)
  {
    var n, l, u, d := numerator.Value(), lower.Value(), upper.Value(), denominator.Value();
    BoundariesScaled(f, e, exp10, closer);
    GapsBelow(f, e, closer, exp10);
    StartInScale(f, e, closer, n, l, u, d, exp10, shortest);
    if SafeStart(f, e, closer, exp10) {
      StartNeverEqual(f, e, closer, exp10);
    }
    Ranks(f, e, closer, exp10);
  }

  /** The fix-up keeps the invariant, with an exponent one lower where the upper boundary allows it. */
  method FixStart(numerator: Bigint, denominator: Bigint, lower: Bigint, upper: Bigint, f: nat, e: int,
                  closer: bool, exp10: int, shortest: bool)
    returns (lowered: bool)
    requires Distinct(numerator, denominator, lower, upper)
    requires Started(numerator, denominator, lower, upper, f, e, closer, exp10, exp10, shortest)
    requires Fraction(f, e, closer, numerator.Value(), lower.Value(), upper.Value(), denominator.Value(), exp10)
    modifies numerator, lower, upper
    ensures lowered <==> UpperWithin(f, e, exp10)
    ensures Started(numerator, denominator, lower, upper, f, e, closer, exp10,
                    if lowered then exp10 - 1 else exp10, shortest)
  {
    hide Radix, SafeStart, UpperWithin, IsScaled, StoredAbove, StoredBelow, Cross, NeverEqual;
    ghost var n, l, u, d := numerator.Value(), lower.Value(), upper.Value(), denominator.Value();
    FixupMeaning(f, e, closer, n, l, u, d, exp10);
    FractionScaled(f, e, closer, n, l, u, d, exp10, 1);
    ScaleOnce(n);
    ScaleOnce(l);
    ScaleOnce(u);
    NeverEqualTen(n, d);
    lowered := Fixup(numerator, denominator, lower, upper, f % 2 == 0, shortest);
  }

  lemma NeverEqualTen(n: nat, d: nat)
    ensures NeverEqual(n, d) ==> NeverEqual(10 * n, d)
  {
    forall k: nat
      ensures Scale10(10 * n, k) == Scale10(n, k + 1)
    {
      ScaleFirst(n, k);
    }
  }

  /** Where remainder and lower stand to each other once the digits come, and what that takes. */
  ghost predicate Placed(e: int, closer: bool, exp10: int, x: int, m: nat, le: nat, l: int)
  {
    && x <= exp10 && Radix(m) <= 10 * l
    && (m > le <==> StoredAbove(e, closer, exp10)) && (m < le <==> StoredBelow(e, exp10))
    && (l < Radix(m) <==> StoredAbove(e, closer, exp10) && x == exp10)
  }

  lemma Ranks(f: nat, e: int, closer: bool, exp10: int)
    requires f > 0 && (e >= 0 ==> exp10 >= 0) && Num0(f, e, exp10, closer) < 10 * Den0(e, exp10, closer)
    ensures var m, le := Min(NumExp(e, exp10, closer), DenExp(e, exp10, closer)), GapExp(e, exp10);
      && Radix(m) <= 4 * Gap0(e, exp10)
      && (m > le <==> StoredAbove(e, closer, exp10)) && (m < le <==> StoredBelow(e, exp10))
      && (Gap0(e, exp10) < Radix(m) <==> StoredAbove(e, closer, exp10))
  {
    var m, le := Min(NumExp(e, exp10, closer), DenExp(e, exp10, closer)), GapExp(e, exp10);
    RadixIsPow2(m);
    if e >= 0 {
      PowAdd(2, 2, e);
      PowMonotone(2, 32 * m, 2 + e);
      assert Pow(2, 2) == 4;
      if m > le {
        PowMonotone(2, e + 1, 32 * m);
        PowPositive(2, e);
      } else {
        PowMonotone(2, 32 * m, e);
      }
    } else if exp10 < 0 {
      SmallExponents(f, e, closer, exp10);
      PowMonotone(2, 32 * m, -exp10);
      TenAboveTwo(-exp10);
    }
  }

  lemma {:induction false} TenAboveTwo(k: nat)
    ensures Pow(10, k) >= Pow(2, k)
  {
    if k > 0 {
      TenAboveTwo(k - 1);
    }
  }

  /** The printed decimal reads back exactly if no excluded end point is taken. */
  lemma ReadsBackExactly(f: nat, e: int, closer: bool, exp10: int, n0: int, l0: int, u0: int, d: int, x: int, k: nat,
                         st: LastStep, m: nat, le: nat)
    requires Fraction(f, e, closer, n0, l0, u0, d, x) && Placed(e, closer, exp10, x, m, le, l0)
    requires StopsAt(st, Scale10(n0, k), Scale10(l0, k), Scale10(u0, k), d, f % 2 == 0, m, le)
    requires Stuck(st) ==> FirstZero(n0, l0, d, m)
    requires f % 2 != 0 ==> u0 == l0
    ensures ReadsBack(f, e, closer, Printed(st), x - k)
       <==> !(f % 2 != 0 && StoredAbove(e, closer, exp10) && EndPointTaken(f, e, closer))
    ensures !ReadsBack(f, e, closer, Printed(st), x - k) ==> OnLower(f, e, closer, Printed(st), x - k)
  {
    var n, l, u := Scale10(n0, k), Scale10(l0, k), Scale10(u0, k);
    FractionScaled(f, e, closer, n0, l0, u0, d, x, k);
    if !ReadsBack(f, e, closer, Printed(st), x - k) {
      PrintsTaken(f, e, closer, n, l, u, d, x - k, st, m, le);
    } else if f % 2 != 0 && StoredAbove(e, closer, exp10) && EndPointTaken(f, e, closer) {
      if Stuck(st) {
        StuckMeaning(f, e, closer, exp10, n0, l0, u0, d, x, m, le);
        OddNotWhole(f, e, exp10);
      }
      TakenPrints(f, e, closer, n, l, u, d, x - k, st, m, le);
    }
  }

  lemma StuckMeaning(f: nat, e: int, closer: bool, exp10: int, n0: int, l0: int, u0: int, d: int, x: int, m: nat,
                     le: nat)
    requires Fraction(f, e, closer, n0, l0, u0, d, x) && Placed(e, closer, exp10, x, m, le, l0)
    requires FirstZero(n0, l0, d, m)
    ensures StoredAbove(e, closer, exp10) && WholeMultiple(f, e, exp10)
  {
    var j: int :| n0 == Times(j, d);
    CrossSign(j, x, f, e, n0, d);
    assert Cross(j, exp10, f, e) == 0;
  }

  /** The printed decimal is the shortest one exactly if the input is none of those named. */
  lemma ShortestExactly(f: nat, e: int, closer: bool, exp10: int, n0: int, l0: int, u0: int, d: int, x: int, k: nat,
                        st: LastStep, m: nat, le: nat)
    requires Fraction(f, e, closer, n0, l0, u0, d, x) && Placed(e, closer, exp10, x, m, le, l0)
    requires StopsAt(st, Scale10(n0, k), Scale10(l0, k), Scale10(u0, k), d, f % 2 == 0, m, le)
    requires Stuck(st) ==> FirstZero(n0, l0, d, m)
    requires f % 2 != 0 ==> u0 == l0
    ensures ShortestDecimal(f, e, closer, Printed(st), x - k) <==> !NotShortest(f, e, closer, exp10)
  {
    var n, l, u := Scale10(n0, k), Scale10(l0, k), Scale10(u0, k);
    FractionScaled(f, e, closer, n0, l0, u0, d, x, k);
    ShortestMeaning(f, e, closer, n, l, u, d, x - k, Printed(st));
    Chosen(st, n, l, u, d, f % 2 == 0, m, le);
    if Strays(st, l, d, f % 2 == 0, m, le) {
      StraysMeaning(f, e, closer, exp10, n0, l0, u0, d, x, k, st, m, le);
    } else if NotShortest(f, e, closer, exp10) {
      if f % 2 != 0 && StoredAbove(e, closer, exp10) && EndPointTaken(f, e, closer) {
        TakenStrays(f, e, closer, n, l, u, d, x - k, st, m, le);
      } else if StoredAbove(e, closer, exp10) {
        WholeStrays(f, e, closer, n, l, u, d, x - k, st, m, le, exp10);
      } else {
        MissedStrays(f, e, closer, n, l, u, d, x - k, st, m, le);
      }
    }
  }

  lemma StraysMeaning(f: nat, e: int, closer: bool, exp10: int, n0: int, l0: int, u0: int, d: int, x: int, k: nat,
                      st: LastStep, m: nat, le: nat)
    requires Fraction(f, e, closer, n0, l0, u0, d, x) && Placed(e, closer, exp10, x, m, le, l0)
    requires StopsAt(st, Scale10(n0, k), Scale10(l0, k), Scale10(u0, k), d, f % 2 == 0, m, le)
    requires Stuck(st) ==> FirstZero(n0, l0, d, m)
    requires f % 2 != 0 ==> u0 == l0
    requires Strays(st, Scale10(l0, k), d, f % 2 == 0, m, le)
    ensures NotShortest(f, e, closer, exp10)
  {
    var n, l, u := Scale10(n0, k), Scale10(l0, k), Scale10(u0, k);
    FractionScaled(f, e, closer, n0, l0, u0, d, x, k);
    if Stuck(st) {
      StuckMeaning(f, e, closer, exp10, n0, l0, u0, d, x, m, le);
    } else if f % 2 != 0 {
      TakenMeaning(f, e, closer, n, l, u, d, x - k, st, m, le);
    } else if st.before == l {
      EarlierMeaning(f, e, closer, n, l, u, d, x - k, st, m, le);
    } else {
      MissedMeaning(f, e, closer, n, l, u, d, x - k, st, m, le);
    }
  }

  lemma ScaleOnce(n: int)
    ensures Scale10(n, 1) == 10 * n
  {
    assert Scale10(n, 0) == n;
  }

  lemma GapsBelow(f: nat, e: int, closer: bool, exp10: int)
    requires f > 0
    ensures 0 < Gap0(e, exp10) < Num0(f, e, exp10, closer)
  {
    if e >= 0 {
      PowPositive(2, e);
    } else if exp10 < 0 {
      PowPositive(10, -exp10);
    }
    PowMonotone(2, 1, Shift(closer));
    assert Pow(2, 1) == 2;
    MulAtLeast(f, 1, Pow(2, Shift(closer)));
    MulAtLeast(f * Pow(2, Shift(closer)), 2, Gap0(e, exp10));
  }

  lemma StartInScale(f: nat, e: int, closer: bool, n: int, l: int, u: int, d: int, exp10: int, shortest: bool)
    requires Fraction(f, e, closer, n, l, u, d, exp10) && u > 0
    requires if shortest then UpperWithin(f, e, exp10 + 1) else Cross(1, exp10 + 1, f, e) > 0
    ensures n < 10 * d
    ensures shortest ==> n + u <= 10 * d && (f % 2 == 0 ==> n + u < 10 * d)
  {
    FractionTenths(f, e, closer, n, l, u, d, exp10);
    BoundaryTests(f, e, closer, n, l, u, 10 * d, exp10 + 1, 1);
    CrossSign(1, exp10 + 1, f, e, n, 10 * d);
  }

  lemma FixupMeaning(f: nat, e: int, closer: bool, n: int, l: int, u: int, d: int, exp10: int)
    requires Fraction(f, e, closer, n, l, u, d, exp10)
    ensures UpperWithin(f, e, exp10) <==> if f % 2 == 0 then n + u < d else n + u <= d
  {
    BoundaryTests(f, e, closer, n, l, u, d, exp10, 1);
  }

  /** No digit position left: the value rounds to nothing or to one unit. */
  method NoDigits(numerator: Bigint, denominator: Bigint, count: int) returns (digit: nat)
    requires numerator != denominator && count <= 0
    requires Normal(numerator.bigits) && Normal(denominator.bigits)
    requires numerator.Value() < 10 * denominator.Value()
    modifies denominator
    ensures digit <= 1
    ensures RoundsTo(digit, Scale10(old(denominator.Value()), 1 - count), numerator.Value())
  {
    digit := 0;
    ghost var d := denominator.Value();
    ValBound(denominator.bigits, denominator.exp);
    if count == 0 {
      denominator.Multiply32(10);
      var c := AddCompare(numerator, numerator, denominator);
      digit := if c > 0 then 1 else 0;
      assert Scale10(d, 0) == d && Scale10(d, 1) == 10 * d;
    } else {
      ScaleGrows(d, 1 - count);
    }
  }

  /**
   * What the shortest mode prints: a decimal that reads back except where an odd significand's end
   * point is taken, which is then printed, and the shortest one except where NotShortest says so.
   */
  ghost predicate ShortestOutcome(f: nat, e: int, closer: bool, exp10: int, p: int, x: int)
  {
    && (ReadsBack(f, e, closer, p, x)
        <==> !(f % 2 != 0 && StoredAbove(e, closer, exp10) && EndPointTaken(f, e, closer)))
    && (!ReadsBack(f, e, closer, p, x) ==> OnLower(f, e, closer, p, x))
    && (ShortestDecimal(f, e, closer, p, x) <==> !NotShortest(f, e, closer, exp10))
  }

  /** The shortest branch; exp10 is the estimate before the fix-up. */
  method PrintShortest(f: nat, e: int, closer: bool, numerator: Bigint, denominator: Bigint, lower: Bigint,
                       upper: Bigint, buf: CharBuffer, x10: int, ghost exp10: int)
    returns (x: int)
    requires Distinct(numerator, denominator, lower, upper) && Normal(numerator.bigits)
    requires Ready(numerator, denominator, lower, upper, f % 2 == 0, numerator.Value(), 0)
    requires lower.Value() < numerator.Value() && (!closer ==> upper == lower)
    requires Placed(e, closer, exp10, x10, Min(numerator.exp, denominator.exp), lower.exp, lower.Value())
    requires Fraction(f, e, closer, numerator.Value(), lower.Value(), upper.Value(), denominator.Value(), x10)
    modifies buf, numerator, lower, upper
    ensures AllDigits(buf.data) && |buf.data| > 0 && x == x10 - (|buf.data| - 1)
    ensures (closer ==> f % 2 == 0) ==> ShortestOutcome(f, e, closer, exp10, DecimalValue(buf.data), x)
    ensures !UpperWithin(f, e, x10) ==> buf.data[0] != '0'
  {
    hide Radix, IsScaled, Val, Pow, Cross, StopsAt, Strays, FirstZero, Best, NotShortest, ShortestDecimal;
    ghost var n, l, u, d := numerator.Value(), lower.Value(), upper.Value(), denominator.Value();
    ghost var m, le := Min(numerator.exp, denominator.exp), lower.exp;
    var digits;
    ghost var st;
    digits, st := Shortest(numerator, denominator, lower, upper, f % 2 == 0);
    FixupMeaning(f, e, closer, n, l, u, d, x10);
    ghost var k := |digits| - 1;
    if closer ==> f % 2 == 0 {
      ReadsBackExactly(f, e, closer, exp10, n, l, u, d, x10, k, st, m, le);
      ShortestExactly(f, e, closer, exp10, n, l, u, d, x10, k, st, m, le);
    }
    buf.data := digits;
    x := x10 - (|digits| - 1);
  }

  /**
   * The digits are the value rounded to a multiple of 10^unit, one digit for each place from 10^x10
   * down to the unit, however the carry came out; without such a place it is the one digit 0 or 1.
   */
  ghost predicate RoundedDecimal(f: nat, e: int, digits: seq<char>, x: int, x10: int, unit: int, fixed: bool)
  {
    var count := x10 - unit + 1;
    && (x == unit || (x == unit + 1 && !fixed && count > 0 && DecimalValue(digits) == Pow(10, count - 1)))
    && NearestEven(f, e, if x == unit then DecimalValue(digits) else 10 * DecimalValue(digits), unit)
    && (count <= 0 ==> |digits| == 1)
    && (count > 0 ==>
          || |digits| == count
          || (fixed && |digits| == count + 1 && DecimalValue(digits) == Pow(10, count)))
  }

  /** The branches for a given number of digits. */
  method PrintDigits(f: nat, e: int, fixed: bool, count: int, numerator: Bigint, denominator: Bigint,
                     buf: CharBuffer, exp10: int)
    returns (x: int)
    requires numerator != denominator && Normal(numerator.bigits) && Normal(denominator.bigits)
    requires Ordered(numerator, denominator, numerator.Value(), 0)
    requires numerator.Value() < 10 * denominator.Value()
    requires denominator.Value() > 0 && IsScaled(f, e, numerator.Value(), denominator.Value(), exp10)
    requires buf.data == []
    modifies buf, numerator, denominator
    ensures AllDigits(buf.data) && |buf.data| > 0
    ensures RoundedDecimal(f, e, buf.data, x, exp10, exp10 - count + 1, fixed)
  {
    ghost var n, d := numerator.Value(), denominator.Value();
    x := exp10 - (count - 1);
    if count <= 0 {
      var digit := NoDigits(numerator, denominator, count);
      ScaleDenominatorBy(f, e, n, d, exp10, 1 - count);
      ScaleGrows(d, 1 - count);
      RoundedMeaning(f, e, n, Scale10(d, 1 - count), exp10 + 1 - count, 0, digit);
      OneDigit(digit);
      buf.data := buf.data + [DigitChar(digit)];
      assert buf.data == [DigitChar(digit)];
    } else {
      var digits, carried := RoundedDigits(numerator, denominator, count, fixed);
      buf.data := digits;
      RoundedMeaning(f, e, n, d, exp10, count - 1, if carried then 10 * DecimalValue(digits) else DecimalValue(digits));
      if carried {
        x := x + 1;
      }
    }
  }

  /**
   * The significands of the supported floats: at most 64 bits, or 113 with the leading one, which
   * only the least exponent of binary128, a negative one, goes without.
   */
  predicate IsSignificand(f: nat, e: int)
  {
    0 < f < POW64 || Pow(2, 112) <= f < Pow(2, 113) || (e < 0 && 0 < f < Pow(2, 113))
  }

  /**
   * Prints f * 2^e: if numDigits is negative, the shortest decimal that reads back as the value,
   * unless the input is one of NotShortest; else the value rounded to nearest with ties to even, in
   * fixed notation to that many digits after the decimal point, else to that many in all. Fails only
   * if the adjusted precision does not fit an int.
   */
  method FormatDragon(f: nat, e: int, flags: Flags, numDigits: int, buf: CharBuffer, exp10: int)
    returns (ok: bool, x: int)
    requires IsSignificand(f, e) && -INT_MAX <= exp10 < INT_MAX && (e >= 0 ==> exp10 >= 0)
    requires buf.data == []
    requires if numDigits < 0 then UpperWithin(f, e, exp10 + 1) else Cross(1, exp10 + 1, f, e) > 0
    modifies buf
    ensures var x10 := FixedExp(f, e, flags.fixup, exp10);
      ok <==> !(flags.fixup && flags.fixed && x10 + 1 > 0 && numDigits > INT_MAX - (x10 + 1))
    ensures ok ==> AllDigits(buf.data) && |buf.data| > 0
    ensures ok && numDigits < 0 ==>
      && x == FixedExp(f, e, flags.fixup, exp10) - (|buf.data| - 1)
      && ((flags.predecessorCloser ==> f % 2 == 0) ==>
            ShortestOutcome(f, e, flags.predecessorCloser, exp10, DecimalValue(buf.data), x))
      && (!UpperWithin(f, e, x + |buf.data| - 1) ==> buf.data[0] != '0')
    ensures ok && numDigits >= 0 ==>
      var x10 := FixedExp(f, e, flags.fixup, exp10);
      var unit := if flags.fixup && flags.fixed then -numDigits else x10 - numDigits + 1;
      RoundedDecimal(f, e, buf.data, x, x10, unit, flags.fixed)
  {
    SignificandsSafe(f, e, flags.predecessorCloser, exp10);
    var numerator, denominator, lower, upper;
    numerator, denominator, lower, upper, x := Start(f, e, flags, numDigits, exp10);
    ok := true;
    var count := numDigits;
    if flags.fixup && flags.fixed {
      var adjusted := AdjustPrecision(count, x + 1);
      if !adjusted.0 {
        return false, x;
      }
      count := adjusted.1;
    }
    if numDigits < 0 {
      x := PrintShortest(f, e, flags.predecessorCloser, numerator, denominator, lower, upper, buf, x, exp10);
    } else {
      x := PrintDigits(f, e, flags.fixed, count, numerator, denominator, buf, x);
    }
  }

  lemma OneDigit(digit: nat)
    requires digit <= 9
    ensures DecimalValue([DigitChar(digit)]) == digit && AllDigits([DigitChar(digit)])
  {
    DecimalPush([], DigitChar(digit));
    assert [] + [DigitChar(digit)] == [DigitChar(digit)];
  }

  // ---- Which starts are safe ------------------------------------------------------------------------

  lemma FivesPast64()
    ensures Pow(5, 28) > POW64
  {
    assert Pow(5, 7) == 78125 by {
      PowAdd(5, 4, 3);
      assert Pow(5, 4) == 625 && Pow(5, 3) == 125;
    }
    PowAdd(5, 7, 7);
    PowAdd(5, 14, 14);
  }

  /** A significand of at most 64 bits cannot be a power of ten of 28 digits or more over a power of two. */
  lemma NoLargePowers(f: nat, e: nat, m: nat)
    requires f < POW64 && e >= 28
    ensures f * Pow(2, e) != Pow(10, m)
  {
    if m < e {
      TooManyTwos(f, e, m);
    } else {
      FivesPast64();
      PowMonotone(5, 28, m);
      PowMonotone(2, e, m);
      PowProduct(5, 2, m);
      PowPositive(2, e);
      MulAtLeast(Pow(5, m), POW64, Pow(2, m));
      MulAtLeast(Pow(2, m), Pow(2, e), POW64);
      MulStrict(f, POW64, Pow(2, e));
      assert POW64 * Pow(2, m) == Pow(2, m) * POW64 && POW64 * Pow(2, e) == Pow(2, e) * POW64;
    }
  }

  /** So every binary32, binary64 and 80-bit extended value starts safely, whatever the estimate. */
  lemma NarrowSafe(f: nat, e: int, closer: bool, exp10: int)
    requires f < POW64
    ensures SafeStart(f, e, closer, exp10)
  {
    if e >= 0 && exp10 >= 0 && (e + Shift(closer)) / 32 > exp10 / 32 {
      NoLargePowers(f, e, exp10);
      if exp10 > 0 {
        NoLargePowers(f, e, exp10 - 1);
        assert Pow(10, exp10) == 10 * Pow(10, exp10 - 1);
      }
    }
  }

  // A significand of 113 bits: 5^48 is just below 2^112, 5^49 above 2^113.

  lemma FivesAround113()
    ensures 2 * Pow(5, 47) < Pow(5, 48) < Pow(2, 112)
    ensures Pow(5, 49) > Pow(2, 113) == 2 * Pow(2, 112)
  {
    PowKnown(5, 6, 6, 15625, 15625);
    PowKnown(5, 12, 12, 244140625, 244140625);
    Powers112();
    hide Pow;
    PowKnown(5, 24, 24, 59604644775390625, 59604644775390625);
    PowStep(5, 47);
    PowStep(5, 48);
    PowStep(2, 112);
  }

  lemma PowStep(b: nat, e: nat)
    ensures Pow(b, e + 1) == b * Pow(b, e)
  {
  }

  lemma Powers112()
    ensures Pow(2, 112) == 0x1_0000_0000_0000_0000_0000_0000_0000
  {
    Pow2To32();
    PowKnown(2, 8, 8, 256, 256);
    hide Pow;
    PowKnown(2, 32, 32, 0x1_0000_0000, 0x1_0000_0000);
    PowKnown(2, 64, 32, 0x1_0000_0000_0000_0000, 0x1_0000_0000);
    PowKnown(2, 96, 16, 0x1_0000_0000_0000_0000_0000_0000, 65536);
  }

  /** The only power of ten with a normalised 113-bit significand and hardly more fives than twos. */
  lemma WidePower(f: nat, e: nat, m: nat)
    requires Pow(2, 112) <= f < Pow(2, 113) && f * Pow(2, e) == Pow(10, m) && m <= e + 1
    ensures m == 48 && e == 47
  {
    PowStep(2, e);
    hide Pow;
    if m < e {
      TooManyTwos(f, e, m);
    }
    PowProduct(5, 2, m);
    PowPositive(2, e);
    if m == e {
      SameFactor(f, Pow(5, m), Pow(2, e));
    } else {
      BelowProduct(Pow(5, m), 2, Pow(2, e));
      SameFactor(f, 2 * Pow(5, m), Pow(2, e));
    }
    WideFives(f, m);
  }

  lemma WideFives(f: nat, m: nat)
    requires Pow(2, 112) <= f < Pow(2, 113) && (f == Pow(5, m) || f == 2 * Pow(5, m))
    ensures m == 48 && f == 2 * Pow(5, m)
  {
    hide Pow;
    FivesAround113();
    if m >= 49 {
      PowMonotone(5, 49, m);
    } else if m <= 47 {
      PowMonotone(5, m, 47);
    }
  }

  lemma SameFactor(a: int, b: int, p: int)
    requires a * p == b * p && p > 0
    ensures a == b
  {
    ProductOrder(a, b, p);
    ProductOrder(b, a, p);
  }

  /** So every normalised 113-bit significand starts safely too. */
  lemma WideSafe(f: nat, e: int, closer: bool, exp10: int)
    requires Pow(2, 112) <= f < Pow(2, 113)
    ensures SafeStart(f, e, closer, exp10)
  {
    if e >= 0 && exp10 >= 0 && (e + Shift(closer)) / 32 > exp10 / 32 {
      if f * Pow(2, e) == Pow(10, exp10) {
        WidePower(f, e, exp10);
      }
      if 10 * (f * Pow(2, e)) == Pow(10, exp10) {
        assert exp10 > 0 && Pow(10, exp10) == 10 * Pow(10, exp10 - 1);
        WidePower(f, e, exp10 - 1);
      }
    }
  }

  /** The division never goes wrong in format_dragon. */
  lemma SignificandsSafe(f: nat, e: int, closer: bool, exp10: int)
    requires IsSignificand(f, e)
    ensures SafeStart(f, e, closer, exp10) && f < POW128
  {
    if f < POW64 {
      NarrowSafe(f, e, closer, exp10);
    } else if e >= 0 {
      WideSafe(f, e, closer, exp10);
    }
    Pow2To128();
    PowMonotone(2, 113, 128);
  }

  // ---- When shortest output is certain ----------------------------------------------------------------

  /** Up to 64 bits the remainder never has the larger exponent, if the estimate is at most one too high. */
  lemma NarrowBelow(f: nat, e: int, closer: bool, exp10: int)
    requires f < POW64
    requires e >= 0 && exp10 > 0 ==> Pow(10, exp10 - 1) <= f * Pow(2, e)
    ensures !StoredAbove(e, closer, exp10)
  {
    if e >= 28 && exp10 > e {
      FivesPast64();
      PowMonotone(5, 28, e);
      PowMonotone(10, e, exp10 - 1);
      PowProduct(5, 2, e);
      PowPositive(2, e);
      MulStrict(f, POW64, Pow(2, e));
      MulAtLeast(Pow(5, e), POW64, Pow(2, e));
    }
  }

  /** Nor does the value ever come out whole with 113 bits, if the estimate is not below the power of two. */
  lemma WideNotWhole(f: nat, e: nat, closer: bool, exp10: nat)
    requires Pow(2, 112) <= f < Pow(2, 113) && (closer ==> f == Pow(2, 112))
    requires closer || Pow(2, e + 112) <= Pow(10, exp10)
    ensures !(StoredAbove(e, closer, exp10) && WholeMultiple(f, e, exp10))
  {
    if StoredAbove(e, closer, exp10) && WholeMultiple(f, e, exp10) {
      var j: int :| Cross(j, exp10, f, e) == 0;
      if closer {
        PowAdd(2, 112, e);
        TwosNotWhole(112 + e, exp10, j);
      } else {
        WholeIsLarge(f, e, exp10, j);
        EstimateIsLarge(e, exp10);
        PowAdd(2, 113, e);
        PowPositive(2, e);
        MulStrict(f, Pow(2, 113), Pow(2, e));
      }
    }
  }

  /** A power of two is no multiple of ten. */
  lemma {:induction false} TwosNotWhole(n: nat, x: nat, j: int)
    requires x > 0
    ensures j * Pow(10, x) != Pow(2, n)
  {
    TwosNotFives(n);
    assert Pow(10, x) == 10 * Pow(10, x - 1);
    hide Pow;
    FiveDivides(j, Pow(10, x - 1));
  }

  lemma FiveDivides(j: int, p: int)
    ensures j * (10 * p) % 5 == 0
  {
    var k := j * p;
    assert j * (10 * p) == 5 * (2 * k);
  }

  lemma {:induction false} TwosNotFives(n: nat)
    ensures Pow(2, n) % 5 != 0
  {
    if n > 0 {
      TwosNotFives(n - 1);
    }
  }

  lemma WholeIsLarge(f: nat, e: nat, exp10: nat, j: int)
    requires f > 0 && Cross(j, exp10, f, e) == 0
    ensures f * Pow(2, e) >= Pow(10, exp10)
  {
    PowPositive(2, e);
    PowPositive(10, exp10);
    MulPositive(f, Pow(2, e));
    assert j * Pow(10, exp10) * 1 == f * Pow(2, e) * 1;
    ProductSign(j, Pow(10, exp10));
    MulAtLeast(j, 1, Pow(10, exp10));
  }

  lemma EstimateIsLarge(e: nat, exp10: nat)
    requires StoredAbove(e, false, exp10) && Pow(2, e + 112) <= Pow(10, exp10)
    ensures Pow(10, exp10) > Pow(2, e + 113)
  {
    hide Pow;
    if e >= 63 {
      PowMonotone(10, e + 1, exp10);
      TensAbove(e);
    } else {
      assert e == 31;
      FortyFour();
      if exp10 <= 43 {
        PowMonotone(10, exp10, 43);
      } else {
        PowMonotone(10, 44, exp10);
      }
    }
  }

  lemma TensAbove(e: nat)
    requires e >= 48
    ensures Pow(10, e + 1) > Pow(2, e + 113)
  {
    hide Pow;
    FivesAround113();
    PowProduct(5, 2, e + 1);
    PowMonotone(5, 49, e + 1);
    PowMonotone(2, e, e + 1);
    PowPositive(2, e);
    PowAdd(2, 113, e);
    MulAtLeast(Pow(2, e + 1), Pow(2, e), Pow(5, e + 1));
    MulStrict(Pow(2, 113), Pow(5, e + 1), Pow(2, e));
  }

  lemma FortyFour()
    ensures Pow(10, 43) < Pow(2, 143) && Pow(2, 144) < Pow(10, 44)
  {
    PowKnown(10, 6, 5, 1000000, 100000);
    PowKnown(2, 8, 8, 256, 256);
    Powers112();
    hide Pow;
    PowKnown(2, 112, 16, 0x1_0000_0000_0000_0000_0000_0000_0000, 65536);
    PowKnown(2, 128, 16, 0x1_0000_0000_0000_0000_0000_0000_0000_0000, 65536);
    PowKnown(10, 11, 11, 100000000000, 100000000000);
    PowKnown(10, 22, 22, 10000000000000000000000, 10000000000000000000000);
    PowStep(2, 143);
    PowStep(10, 43);
  }
}
