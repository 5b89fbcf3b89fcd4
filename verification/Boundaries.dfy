/** Binary values with their rounding boundaries, and when a run of the generator prints the shortest decimal. */
module Boundaries {
  import opened Powers
  import opened Digits
  import opened Decimal
  import opened Dragon

  // ---- What the fraction means ----------------------------------------------------------------

  /** n * 2^e2 is a whole number of the units numerator, lower and upper are counted in. */
  lemma StartScaled(n: int, e2: int, e: int, exp10: int, closer: bool)
    requires e2 - e + Shift(closer) >= 0 && (e >= 0 ==> exp10 >= 0)
    ensures IsScaled(n, e2, n * (Pow(2, e2 - e + Shift(closer)) * Gap0(e, exp10)), Den0(e, exp10, closer), exp10)
  {
    var sh := Shift(closer);
    var g := e2 - e + sh;
    var m, s := Minus(e2), Plus(e2);
    if e >= 0 {
      PowAdd(2, g, e);
      PowAdd(2, g + e, m);
      PowAdd(2, s, sh);
      assert g + e + m == s + sh;
      StartInteger(n, Pow(2, g), Pow(2, e), Pow(2, m), Pow(2, s), Pow(2, sh), Pow(10, exp10));
    } else {
      PowAdd(2, g, m);
      PowAdd(2, s, sh - e);
      assert g + m == s + (sh - e);
      StartFraction(n, Pow(2, g), Pow(2, m), Pow(2, s), Pow(2, sh - e), Pow(10, Plus(exp10)), Pow(10, Minus(exp10)));
    }
  }

  lemma StartInteger(n: int, g: int, e: int, m: int, s: int, sh: int, ten: int)
    requires (g * e) * m == s * sh
    ensures n * (g * e) * ten * m == n * s * 1 * (ten * sh)
  {
    assert n * (g * e) * ten * m == (n * ten) * ((g * e) * m);
    assert n * s * 1 * (ten * sh) == (n * ten) * (s * sh);
  }

  lemma StartFraction(n: int, g: int, m: int, s: int, t: int, plus: int, minus: int)
    requires g * m == s * t
    ensures n * (g * minus) * plus * m == n * s * minus * (plus * t)
  {
    assert n * (g * minus) * plus * m == (n * plus * minus) * (g * m);
    assert n * s * minus * (plus * t) == (n * plus * minus) * (s * t);
  }

  /** The value and both of its boundaries over the same denominator. */
  lemma BoundariesScaled(f: nat, e: int, exp10: int, closer: bool)
    requires e >= 0 ==> exp10 >= 0
    ensures Fraction(f, e, closer, Num0(f, e, exp10, closer), Gap0(e, exp10), UpperGap0(e, exp10, closer),
                     Den0(e, exp10, closer), exp10)
  {
    var sh, gap := Shift(closer), Gap0(e, exp10);
    DenPositive(e, exp10, closer);
    StartScaled(f, e, e, exp10, closer);
    ValueUnits(f, Pow(2, sh), gap);
    StartScaled(f * Pow(2, sh) - 1, e - sh, e, exp10, closer);
    LowerUnits(f, Pow(2, sh), gap);
    StartScaled(2 * f + 1, e - 1, e, exp10, closer);
    assert Pow(2, 1) == 2 && Pow(2, 2) == 4;
    UpperUnits(f, Pow(2, sh - 1), gap);
  }

  lemma DenPositive(e: int, exp10: int, closer: bool)
    ensures Den0(e, exp10, closer) > 0
  {
    PowPositive(2, Shift(closer) + Minus(e));
    PowPositive(10, Plus(exp10));
    ProductSign(Pow(10, Plus(exp10)), Pow(2, Shift(closer) + Minus(e)));
  }

  lemma ValueUnits(f: int, p: int, gap: int)
    ensures f * (p * gap) == f * p * gap
  {
  }

  lemma LowerUnits(f: int, p: int, gap: int)
    ensures (f * p - 1) * (1 * gap) == f * p * gap - gap
  {
  }

  lemma UpperUnits(f: int, p: int, gap: int)
    ensures (2 * f + 1) * (p * gap) == f * (2 * p) * gap + p * gap
  {
    assert (2 * f + 1) * (p * gap) == 2 * f * (p * gap) + p * gap;
    assert 2 * f * (p * gap) == f * (2 * p) * gap;
  }

  /** m * 10^x is strictly above the lower boundary, half an ulp (or a quarter) below the value. */
  ghost predicate AboveLower(f: nat, e: int, closer: bool, m: int, x: int)
  {
    Cross(m, x, f * Pow(2, Shift(closer)) - 1, e - Shift(closer)) > 0
  }

  /** m * 10^x is strictly below the upper boundary, half an ulp above the value. */
  ghost predicate BelowUpper(f: nat, e: int, m: int, x: int)
  {
    Cross(m, x, 2 * f + 1, e - 1) < 0
  }

  /** m * 10^x is the lower boundary. */
  ghost predicate OnLower(f: nat, e: int, closer: bool, m: int, x: int)
  {
    Cross(m, x, f * Pow(2, Shift(closer)) - 1, e - Shift(closer)) == 0
  }

  /** m * 10^x is the upper boundary. */
  ghost predicate OnUpper(f: nat, e: int, m: int, x: int)
  {
    Cross(m, x, 2 * f + 1, e - 1) == 0
  }

  /**
   * Both boundaries are half way to a neighbour, that is half the sum with it: the successor is one
   * unit above, the predecessor one unit below or, if it is closer, half a unit.
   */
  lemma BoundariesAreMidpoints(f: nat, e: int, closer: bool, m: int, x: int)
    ensures var pred, pe := if closer then 2 * f - 1 else f - 1, if closer then e - 1 else e;
      var sum := (if closer then 2 * f else f) + pred;
      && (AboveLower(f, e, closer, m, x) <==> Cross(m, x, sum, pe - 1) > 0)
      && (OnLower(f, e, closer, m, x) <==> Cross(m, x, sum, pe - 1) == 0)
    ensures BelowUpper(f, e, m, x) <==> Cross(m, x, f + (f + 1), e - 1) < 0
    ensures OnUpper(f, e, m, x) <==> Cross(m, x, f + (f + 1), e - 1) == 0
  {
    assert Pow(2, 1) == 2 && Pow(2, 2) == 4;
    hide Cross;
  }

  /** m * 10^x reads back as f * 2^e: it is between the boundaries, or on one of an even significand. */
  ghost predicate ReadsBack(f: nat, e: int, closer: bool, m: int, x: int)
  {
    && (AboveLower(f, e, closer, m, x) || (f % 2 == 0 && OnLower(f, e, closer, m, x)))
    && (BelowUpper(f, e, m, x) || (f % 2 == 0 && OnUpper(f, e, m, x)))
  }

  /** p * 10^x is at least as near to f * 2^e as m * 10^x is. */
  ghost predicate AsNear(f: nat, e: int, p: int, m: int, x: int)
  {
    Abs(Cross(p, x, f, e)) <= Abs(Cross(m, x, f, e))
  }

  /** No multiple of 10^x reads back. */
  ghost predicate NoneReadsBack(f: nat, e: int, closer: bool, x: int)
  {
    forall m: int :: !ReadsBack(f, e, closer, m, x)
  }

  /** Of the multiples of 10^x that read back none is nearer than p * 10^x. */
  ghost predicate NearestOne(f: nat, e: int, closer: bool, p: int, x: int)
  {
    forall m: int :: ReadsBack(f, e, closer, m, x) ==> AsNear(f, e, p, m, x)
  }

  /** p * 10^x reads back as f * 2^e, no decimal with fewer digits does, and none as short is nearer. */
  ghost predicate ShortestDecimal(f: nat, e: int, closer: bool, p: int, x: int)
  {
    ReadsBack(f, e, closer, p, x) && NoneReadsBack(f, e, closer, x + 1) && NearestOne(f, e, closer, p, x)
  }

  // ---- When the printed decimal is not the shortest ---------------------------------------------

  /** From the first digit on the remainder is stored with a larger exponent than lower. */
  predicate StoredAbove(e: int, closer: bool, exp10: int)
  {
    e >= 0 && exp10 >= 0 && (e + Shift(closer)) / 32 > e / 32 && exp10 / 32 > e / 32
  }

  /** From the first digit on the remainder is stored with a smaller exponent than lower. */
  predicate StoredBelow(e: int, exp10: int)
  {
    e >= 0 && exp10 >= 0 && exp10 / 32 < e / 32
  }

  /** The lower boundary is a multiple of some power of ten, but nothing that reads back is. */
  ghost predicate EndPointTaken(f: nat, e: int, closer: bool)
  {
    exists x: int, m: int :: OnLower(f, e, closer, m, x) && NoneReadsBack(f, e, closer, x)
  }

  /** All other multiples of 10^x that read back are farther off than m * 10^x. */
  ghost predicate NearestAlone(f: nat, e: int, closer: bool, m: int, x: int)
  {
    forall j: int :: ReadsBack(f, e, closer, j, x) && j != m ==> !AsNear(f, e, j, m, x)
  }

  /** No multiple of 10^x but the lower boundary reads back. */
  ghost predicate AtMostLower(f: nat, e: int, closer: bool, x: int)
  {
    forall j: int :: ReadsBack(f, e, closer, j, x) ==> OnLower(f, e, closer, j, x)
  }

  /**
   * The lower boundary, which reads back, is the only multiple of some power of ten that does, or
   * nearer than the others; and with one digit less there is no other.
   */
  ghost predicate EndPointMissed(f: nat, e: int, closer: bool)
  {
    exists x: int, m: int ::
      OnLower(f, e, closer, m, x) && NearestAlone(f, e, closer, m, x) && AtMostLower(f, e, closer, x + 1)
  }

  /** The value is a multiple of the estimated power of ten. */
  ghost predicate WholeMultiple(f: nat, e: int, exp10: int)
  {
    exists j: int :: Cross(j, exp10, f, e) == 0
  }

  /** The inputs for which the printed decimal is not the shortest. */
  ghost predicate NotShortest(f: nat, e: int, closer: bool, exp10: int)
  {
    || (StoredAbove(e, closer, exp10) && f % 2 != 0 && EndPointTaken(f, e, closer))
    || (StoredAbove(e, closer, exp10) && WholeMultiple(f, e, exp10))
    || (StoredBelow(e, exp10) && f % 2 == 0 && EndPointMissed(f, e, closer))
  }

  // ---- Fractions --------------------------------------------------------------------------------

  /** value, lower and upper boundary as n, n - l and n + u over d. */
  ghost predicate Fraction(f: nat, e: int, closer: bool, n: int, l: int, u: int, d: int, x: int)
  {
    && d > 0 && IsScaled(f, e, n, d, x)
    && IsScaled(f * Pow(2, Shift(closer)) - 1, e - Shift(closer), n - l, d, x)
    && IsScaled(2 * f + 1, e - 1, n + u, d, x)
  }

  lemma FractionScaled(f: nat, e: int, closer: bool, n: int, l: int, u: int, d: int, x: int, k: nat)
    requires Fraction(f, e, closer, n, l, u, d, x)
    ensures Fraction(f, e, closer, Scale10(n, k), Scale10(l, k), Scale10(u, k), d, x - k)
  {
    ScaleNumeratorBy(f, e, n, d, x, k);
    ScaleNumeratorBy(f * Pow(2, Shift(closer)) - 1, e - Shift(closer), n - l, d, x, k);
    ScaleNumeratorBy(2 * f + 1, e - 1, n + u, d, x, k);
    Scale10Difference(n, l, k);
    Scale10Difference(n + u, u, k);
  }

  lemma FractionTenths(f: nat, e: int, closer: bool, n: int, l: int, u: int, d: int, x: int)
    requires Fraction(f, e, closer, n, l, u, d, x)
    ensures Fraction(f, e, closer, n, l, u, 10 * d, x + 1)
  {
    ScaleDenominator(f, e, n, d, x, 10 * d);
    ScaleDenominator(f * Pow(2, Shift(closer)) - 1, e - Shift(closer), n - l, d, x, 10 * d);
    ScaleDenominator(2 * f + 1, e - 1, n + u, d, x, 10 * d);
  }

  lemma BoundaryTests(f: nat, e: int, closer: bool, n: int, l: int, u: int, d: int, x: int, m: int)
    requires Fraction(f, e, closer, n, l, u, d, x)
    ensures AboveLower(f, e, closer, m, x) <==> n - l < Times(m, d)
    ensures OnLower(f, e, closer, m, x) <==> n - l == Times(m, d)
    ensures BelowUpper(f, e, m, x) <==> Times(m, d) < n + u
    ensures OnUpper(f, e, m, x) <==> Times(m, d) == n + u
    ensures ReadsBack(f, e, closer, m, x) <==> Inside(Times(m, d), n, l, u, f % 2 == 0)
  {
    CrossSign(m, x, f * Pow(2, Shift(closer)) - 1, e - Shift(closer), n - l, d);
    CrossSign(m, x, 2 * f + 1, e - 1, n + u, d);
  }

  lemma {:induction false} Scale10Difference(a: int, b: int, k: nat)
    ensures Scale10(a - b, k) == Scale10(a, k) - Scale10(b, k)
  {
    if k > 0 {
      Scale10Difference(a, b, k - 1);
    }
  }

  /** Moving the power of ten into the multiple changes neither side. */
  lemma {:induction false} CrossFiner(m: int, x: int, n: int, e: int, k: nat)
    ensures Cross(Scale10(m, k), x - k, n, e) > 0 <==> Cross(m, x, n, e) > 0
    ensures Cross(Scale10(m, k), x - k, n, e) < 0 <==> Cross(m, x, n, e) < 0
  {
    if k > 0 {
      CrossFiner(m, x, n, e, k - 1);
      CrossTen(Scale10(m, k - 1), x - k + 1, n, e);
    }
  }

  lemma CrossTen(m: int, x: int, n: int, e: int)
    ensures Cross(10 * m, x - 1, n, e) == (if x > 0 then 1 else 10) * Cross(m, x, n, e)
  {
    var t, s := Pow(2, Minus(e)), Pow(2, Plus(e));
    if x > 0 {
      assert Pow(10, Plus(x)) == 10 * Pow(10, Plus(x - 1));
      MoveTen(m, Pow(10, Plus(x - 1)), t);
    } else {
      assert Pow(10, Minus(x - 1)) == 10 * Pow(10, Minus(x));
      assert n * s * (10 * Pow(10, Minus(x))) == 10 * (n * s * Pow(10, Minus(x)));
      MoveTen(m, Pow(10, Plus(x)), t);
    }
  }

  lemma ReadsBackFiner(f: nat, e: int, closer: bool, m: int, x: int, k: nat)
    ensures ReadsBack(f, e, closer, Scale10(m, k), x - k) <==> ReadsBack(f, e, closer, m, x)
    ensures OnLower(f, e, closer, Scale10(m, k), x - k) <==> OnLower(f, e, closer, m, x)
    ensures AboveLower(f, e, closer, Scale10(m, k), x - k) <==> AboveLower(f, e, closer, m, x)
    ensures BelowUpper(f, e, Scale10(m, k), x - k) <==> BelowUpper(f, e, m, x)
  {
    CrossFiner(m, x, f * Pow(2, Shift(closer)) - 1, e - Shift(closer), k);
    CrossFiner(m, x, 2 * f + 1, e - 1, k);
  }

  lemma CoarsestMeaning(f: nat, e: int, closer: bool, n: int, l: int, u: int, d: int, x: int)
    requires Fraction(f, e, closer, n, l, u, d, x)
    ensures NoneReadsBack(f, e, closer, x + 1) <==> Coarsest(n, l, u, d, f % 2 == 0)
  {
    FractionTenths(f, e, closer, n, l, u, d, x);
    var y := x + 1;
    forall m: int
      ensures ReadsBack(f, e, closer, m, y) <==> Inside(Times(m, 10 * d), n, l, u, f % 2 == 0)
    {
      BoundaryTests(f, e, closer, n, l, u, 10 * d, y, m);
    }
  }

  lemma ClosestMeaning(f: nat, e: int, closer: bool, n: int, l: int, u: int, d: int, x: int, p: int)
    requires Fraction(f, e, closer, n, l, u, d, x)
    ensures NearestOne(f, e, closer, p, x) <==> Closest(p, n, l, u, d, f % 2 == 0)
  {
    hide Inside, ReadsBack, AsNear;
    forall m: int
      ensures ReadsBack(f, e, closer, m, x) <==> Inside(Times(m, d), n, l, u, f % 2 == 0)
      ensures AsNear(f, e, p, m, x) <==> Abs(Times(p, d) - n) <= Abs(Times(m, d) - n)
    {
      BoundaryTests(f, e, closer, n, l, u, d, x, m);
      NearTest(f, e, closer, n, l, u, d, x, p, m);
    }
  }

  lemma NearTest(f: nat, e: int, closer: bool, n: int, l: int, u: int, d: int, x: int, p: int, m: int)
    requires Fraction(f, e, closer, n, l, u, d, x)
    ensures AsNear(f, e, p, m, x) <==> Abs(Times(p, d) - n) <= Abs(Times(m, d) - n)
  {
    CrossMagnitude(p, m, x, f, e, n, d);
  }

  /** The best multiple of the scaled unit is the shortest decimal. */
  lemma ShortestMeaning(f: nat, e: int, closer: bool, n: int, l: int, u: int, d: int, x: int, p: int)
    requires Fraction(f, e, closer, n, l, u, d, x)
    ensures ShortestDecimal(f, e, closer, p, x) <==> Best(p, n, l, u, d, f % 2 == 0)
  {
    hide Inside, ReadsBack, NearestOne, Closest, Coarsest, NoneReadsBack;
    BoundaryTests(f, e, closer, n, l, u, d, x, p);
    CoarsestMeaning(f, e, closer, n, l, u, d, x);
    ClosestMeaning(f, e, closer, n, l, u, d, x, p);
  }

  /** The run over the fraction of f * 2^e ended with st; its unit is 10^x. */
  ghost predicate Ended(f: nat, e: int, closer: bool, n: int, l: int, u: int, d: int, x: int, st: LastStep,
                        m: nat, le: nat)
  {
    Fraction(f, e, closer, n, l, u, d, x) && StopsAt(st, n, l, u, d, f % 2 == 0, m, le)
  }

  // ---- Every stray run comes from one of the inputs named -----------------------------------------

  /** A tie that was taken for low. */
  lemma TakenMeaning(f: nat, e: int, closer: bool, n: int, l: int, u: int, d: int, x: int, st: LastStep, m: nat,
                     le: nat)
    requires Ended(f, e, closer, n, l, u, d, x, st, m, le)
    requires f % 2 != 0 && u == l && st.rest == l && m > le && !st.up
    ensures EndPointTaken(f, e, closer)
  {
    var p0 := 10 * st.q + st.digit;
    AppendDigit(n, st.q, st.before, st.digit, st.rest, d);
    BoundaryTests(f, e, closer, n, l, u, d, x, p0);
    forall j: int
      ensures !ReadsBack(f, e, closer, j, x)
    {
      BoundaryTests(f, e, closer, n, l, u, d, x, j);
      Neighbours(j, p0, d);
    }
    assert OnLower(f, e, closer, p0, x);
  }

  /** A tie that was passed over at the last digit. */
  lemma MissedMeaning(f: nat, e: int, closer: bool, n: int, l: int, u: int, d: int, x: int, st: LastStep, m: nat,
                      le: nat)
    requires Ended(f, e, closer, n, l, u, d, x, st, m, le)
    requires f % 2 == 0 && st.before > l && st.rest == l && d > 2 * l
    ensures EndPointMissed(f, e, closer)
  {
    var p0 := 10 * st.q + st.digit;
    AppendDigit(n, st.q, st.before, st.digit, st.rest, d);
    BoundaryTests(f, e, closer, n, l, u, d, x, p0);
    forall j: int | ReadsBack(f, e, closer, j, x) && j != p0
      ensures !AsNear(f, e, j, p0, x)
    {
      BoundaryTests(f, e, closer, n, l, u, d, x, j);
      Neighbours(j, p0, d);
      BelowNeighbour(j, p0, d);
      NearTest(f, e, closer, n, l, u, d, x, j, p0);
    }
    CoarsestHere(st.q, st.before, n, l, u, d, true);
    CoarsestMeaning(f, e, closer, n, l, u, d, x);
    assert OnLower(f, e, closer, p0, x) && NearestAlone(f, e, closer, p0, x);
  }

  lemma BelowNeighbour(j: int, p: int, d: int)
    requires d > 0
    ensures j < p ==> j * d <= p * d - d
  {
    if j < p {
      MulAtLeast(p - 1, j, d);
      assert (p - 1) * d == p * d - d;
    }
  }

  /** A tie that was passed over one digit earlier. */
  lemma EarlierMeaning(f: nat, e: int, closer: bool, n: int, l: int, u: int, d: int, x: int, st: LastStep, m: nat,
                       le: nat)
    requires Ended(f, e, closer, n, l, u, d, x, st, m, le)
    requires f % 2 == 0 && st.before == l
    ensures EndPointMissed(f, e, closer)
  {
    FractionTenths(f, e, closer, n, l, u, d, x);
    var y := x + 1;
    BoundaryTests(f, e, closer, n, l, u, 10 * d, y, st.q);
    forall j: int | ReadsBack(f, e, closer, j, y)
      ensures j == st.q
    {
      BoundaryTests(f, e, closer, n, l, u, 10 * d, y, j);
      Neighbours(j, st.q, 10 * d);
      BelowNeighbour(j, st.q, 10 * d);
    }
    AtMostCoarser(f, e, closer, y);
    assert OnLower(f, e, closer, st.q, y) && NearestAlone(f, e, closer, st.q, y);
  }

  lemma AtMostCoarser(f: nat, e: int, closer: bool, x: int)
    requires AtMostLower(f, e, closer, x)
    ensures AtMostLower(f, e, closer, x + 1)
  {
    var y := x + 1;
    forall j: int | ReadsBack(f, e, closer, j, y)
      ensures OnLower(f, e, closer, j, y)
    {
      ReadsBackFiner(f, e, closer, j, y, 1);
    }
  }

  // ---- And each of them makes the run stray ---------------------------------------------------------

  /** A multiple of a coarser power of ten is one of the next. */
  lemma Coarser(f: nat, e: int, closer: bool, n: int, l: int, u: int, d: int, x: int, j: int, y: int)
    requires Fraction(f, e, closer, n, l, u, d, x) && y > x
    ensures var c := Scale10(j, y - x - 1);
      && (OnLower(f, e, closer, j, y) ==> Times(c, 10 * d) == n - l)
      && (Cross(j, y, f, e) == 0 ==> Times(c, 10 * d) == n)
  {
    var c := Scale10(j, y - x - 1);
    FractionTenths(f, e, closer, n, l, u, d, x);
    ReadsBackFiner(f, e, closer, j, y, y - x - 1);
    BoundaryTests(f, e, closer, n, l, u, 10 * d, x + 1, c);
    CrossFiner(j, y, f, e, y - x - 1);
    CrossSign(c, x + 1, f, e, n, 10 * d);
  }

  lemma TakenStrays(f: nat, e: int, closer: bool, n: int, l: int, u: int, d: int, x: int, st: LastStep, m: nat, le: nat)
    requires Ended(f, e, closer, n, l, u, d, x, st, m, le)
    requires f % 2 != 0 && m > le && EndPointTaken(f, e, closer)
    ensures !Best(Printed(st), n, l, u, d, false)
  {
    var y: int, j: int :| OnLower(f, e, closer, j, y) && NoneReadsBack(f, e, closer, y);
    if Best(Printed(st), n, l, u, d, false) {
      BoundaryTests(f, e, closer, n, l, u, d, x, Printed(st));
      if y <= x {
        ReadsBackFiner(f, e, closer, Printed(st), x, x - y);
        assert false;
      }
      Coarser(f, e, closer, n, l, u, d, x, j, y);
      TieBefore(st.q, st.before, n, l, u, d, Scale10(j, y - x - 1));
      assert false;
    }
  }

  /** If a multiple of ten units is the lower boundary and none is inside, the last remainder was a tie. */
  lemma TieBefore(q: int, before: int, n: int, l: int, u: int, d: int, c: int)
    requires n == Times(q, 10 * d) + before && d > 0 && 0 <= before < 10 * d && 0 < l <= u
    requires Times(c, 10 * d) == n - l && Coarsest(n, l, u, d, false)
    ensures before == l
  {
    assert !Inside(Times(c + 1, 10 * d), n, l, u, false);
    Neighbours(c, q, 10 * d);
    BelowNeighbour(c, q, 10 * d);
    if c < q {
      NextTimes(c, 10 * d);
    }
  }

  lemma WholeStrays(f: nat, e: int, closer: bool, n: int, l: int, u: int, d: int, x: int, st: LastStep, m: nat, le: nat,
                    exp10: int)
    requires Ended(f, e, closer, n, l, u, d, x, st, m, le)
    requires WholeMultiple(f, e, exp10) && x <= exp10 && (x == exp10 ==> l < Radix(m))
    ensures !Best(Printed(st), n, l, u, d, f % 2 == 0)
  {
    var j: int :| Cross(j, exp10, f, e) == 0;
    if x < exp10 {
      Coarser(f, e, closer, n, l, u, d, x, j, exp10);
      assert Inside(Times(Scale10(j, exp10 - x - 1), 10 * d), n, l, u, f % 2 == 0);
    } else {
      CrossSign(j, x, f, e, n, d);
      var p0 := 10 * st.q + st.digit;
      AppendDigit(n, st.q, st.before, st.digit, st.rest, d);
      Neighbours(j, p0, d);
      BelowNeighbour(j, p0, d);
      assert st.rest == 0;
      NextTimes(p0, d);
      assert Inside(Times(p0, d), n, l, u, f % 2 == 0);
    }
  }

  lemma MissedStrays(f: nat, e: int, closer: bool, n: int, l: int, u: int, d: int, x: int, st: LastStep, m: nat,
                     le: nat)
    requires Ended(f, e, closer, n, l, u, d, x, st, m, le)
    requires f % 2 == 0 && m < le && EndPointMissed(f, e, closer)
    ensures !Best(Printed(st), n, l, u, d, true)
  {
    var p := Printed(st);
    var y: int, j: int :|
      OnLower(f, e, closer, j, y) && NearestAlone(f, e, closer, j, y) && AtMostLower(f, e, closer, y + 1);
    BoundaryTests(f, e, closer, n, l, u, d, x, p);
    NotTheEndPoint(st, n, l, u, d, m, le);
    if y > x {
      Coarser(f, e, closer, n, l, u, d, x, j, y);
      assert Inside(Times(Scale10(j, y - x - 1), 10 * d), n, l, u, true);
    } else if y == x {
      BoundaryTests(f, e, closer, n, l, u, d, x, j);
      NearTest(f, e, closer, n, l, u, d, x, p, j);
    } else {
      ReadsBackFiner(f, e, closer, p, x, x - y - 1);
    }
  }

  /** With the smaller exponent on its side, a tie is never taken. */
  lemma NotTheEndPoint(st: LastStep, n: int, l: int, u: int, d: int, m: nat, le: nat)
    requires StopsAt(st, n, l, u, d, true, m, le) && m < le
    ensures Times(Printed(st), d) != n - l
  {
    AppendDigit(n, st.q, st.before, st.digit, st.rest, d);
    NextTimes(10 * st.q + st.digit, d);
  }

  // ---- When the printed decimal reads back ----------------------------------------------------------

  /** An odd value is not a whole multiple of a power of ten with more twos than its own exponent. */
  lemma OddNotWhole(f: nat, e: nat, exp10: nat)
    requires f % 2 != 0 && exp10 > e
    ensures !WholeMultiple(f, e, exp10)
  {
    if WholeMultiple(f, e, exp10) {
      var j: int :| Cross(j, exp10, f, e) == 0;
      PowProduct(5, 2, exp10);
      PowAdd(2, exp10 - e - 1, e + 1);
      assert Pow(2, e + 1) == 2 * Pow(2, e);
      PowPositive(2, e);
      OddFactor(f, j, Pow(5, exp10), Pow(2, exp10 - e - 1), Pow(2, e));
    }
  }

  lemma OddFactor(f: int, j: int, five: int, a: int, p: int)
    requires j * (five * (a * (2 * p))) == f * p && p > 0
    ensures f % 2 == 0
  {
    assert j * (five * (a * (2 * p))) == (2 * (j * (five * a))) * p;
    ProductOrder(f, 2 * (j * (five * a)), p);
    ProductOrder(2 * (j * (five * a)), f, p);
  }

  /** If the run passed over no zero, an excluded end point is printed wherever EndPointTaken says so. */
  lemma TakenPrints(f: nat, e: int, closer: bool, n: int, l: int, u: int, d: int, x: int, st: LastStep, m: nat, le: nat)
    requires Ended(f, e, closer, n, l, u, d, x, st, m, le)
    requires f % 2 != 0 && m > le && EndPointTaken(f, e, closer) && !Stuck(st)
    ensures !ReadsBack(f, e, closer, Printed(st), x)
  {
    var y: int, j: int :| OnLower(f, e, closer, j, y) && NoneReadsBack(f, e, closer, y);
    if y <= x {
      ReadsBackFiner(f, e, closer, Printed(st), x, x - y);
    } else {
      Coarser(f, e, closer, n, l, u, d, x, j, y);
      NoTie(st.q, st.before, n, l, u, d, Scale10(j, y - x - 1));
    }
  }

  /** A multiple of ten units on the lower boundary would have been a tie one digit earlier. */
  lemma NoTie(q: int, before: int, n: int, l: int, u: int, d: int, c: int)
    requires n == Times(q, 10 * d) + before && d > 0 && 0 < l <= u && l < before && before + u <= 10 * d
    ensures Times(c, 10 * d) != n - l
  {
    Neighbours(c, q, 10 * d);
    BelowNeighbour(c, q, 10 * d);
  }

  /** The other way round: what does not read back is the lower boundary, taken in a tie. */
  lemma PrintsTaken(f: nat, e: int, closer: bool, n: int, l: int, u: int, d: int, x: int, st: LastStep, m: nat, le: nat)
    requires Ended(f, e, closer, n, l, u, d, x, st, m, le)
    requires f % 2 != 0 ==> u == l
    requires !ReadsBack(f, e, closer, Printed(st), x)
    ensures f % 2 != 0 && OnLower(f, e, closer, Printed(st), x)
    ensures m > le && EndPointTaken(f, e, closer)
  {
    Chosen(st, n, l, u, d, f % 2 == 0, m, le);
    BoundaryTests(f, e, closer, n, l, u, d, x, Printed(st));
    AppendDigit(n, st.q, st.before, st.digit, st.rest, d);
    NextTimes(10 * st.q + st.digit, d);
    TakenMeaning(f, e, closer, n, l, u, d, x, st, m, le);
  }
}
