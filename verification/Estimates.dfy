/** The decimal exponent that the caller of format_dragon estimates, and what it makes of the printed decimal. */
module Estimates {
  import opened Common
  import opened Powers
  import opened Digits
  import opened Decimal
  import opened Dragon
  import opened Boundaries
  import opened FormatDragon

  // ---- The estimate -----------------------------------------------------------------------------------

  /** 10^16, the unit of the sixteen decimals that are written out of log10(2). */
  const UNIT := 1_0000_0000_0000_0000

  /**
   * The decimal exponent estimated from the exponent n of the leading bit: n * 0.3010299956639812 - 1e-10,
   * cut to an int and raised by one if that made it smaller. The product is not rounded here.
   */
  function Estimate(n: int): (x: int)
    ensures UNIT * (x - 1) < 3010299956639812 * n - 1000000 <= UNIT * x
  {
    var v := 3010299956639812 * n - 1000000;
    var cut := if v >= 0 then v / UNIT else -((-v) / UNIT);
    if v > UNIT * cut then cut + 1 else cut
  }

  /** f has this many bits, and the exponent of its leading bit is one that a supported float can have. */
  predicate HasBits(f: nat, e: int, bits: nat)
  {
    0 < bits <= 113 && Pow(2, bits - 1) <= f < Pow(2, bits) && -16494 <= e + bits - 1 <= 16383
  }

  // ---- It is not too low --------------------------------------------------------------------------------

  lemma {:induction false} BaseOrder(x: nat, y: nat, q: nat)
    requires x <= y
    ensures Pow(x, q) <= Pow(y, q)
  {
    if q > 0 {
      BaseOrder(x, y, q - 1);
      MulAtLeast(Pow(y, q - 1), Pow(x, q - 1), x);
      MulAtLeast(y, x, Pow(y, q - 1));
    }
  }

  lemma BaseStrict(x: nat, y: nat, q: nat)
    requires x < y && q > 0
    ensures Pow(x, q) < Pow(y, q)
  {
    BaseOrder(x, y, q - 1);
    PowPositive(y, q - 1);
    var a, b := Pow(x, q - 1), Pow(y, q - 1);
    assert Pow(x, q) == x * a && Pow(y, q) == y * b;
    hide Pow;
    MulAtLeast(b, a, x);
    MulAtLeast(y, x + 1, b);
    OneMore(x, b);
  }

  lemma OneMore(x: int, p: int)
    ensures (x + 1) * p == x * p + p
  {
  }

  /** A comparison of two powers carries over to others of the same bases. */
  lemma PowersCompare(u: nat, q: nat, v: nat, p: nat, a: nat, b: nat)
    requires u > 0 && v > 0 && q > 0 && Pow(u, q) <= Pow(v, p) && a * p <= b * q
    ensures Pow(u, a) <= Pow(v, b)
  {
    hide Pow;
    if Pow(u, a) > Pow(v, b) {
      BaseStrict(Pow(v, b), Pow(u, a), q);
      PowSwap(u, a, q);
      BaseOrder(Pow(u, q), Pow(v, p), a);
      PowTwice(v, p, a, b, q);
    }
  }

  lemma PowSwap(b: nat, m: nat, n: nat)
    ensures Pow(Pow(b, m), n) == Pow(Pow(b, n), m)
  {
    hide Pow;
    PowOfPow(b, m, n);
    PowOfPow(b, n, m);
    assert m * n == n * m;
  }

  lemma PowTwice(v: nat, p: nat, a: nat, b: nat, q: nat)
    requires v > 0 && a * p <= b * q
    ensures Pow(Pow(v, p), a) <= Pow(Pow(v, b), q)
  {
    hide Pow;
    PowOfPow(v, p, a);
    PowOfPow(v, b, q);
    assert p * a == a * p;
    PowMonotone(v, p * a, b * q);
  }

  lemma TwosBelowTens()
    ensures Pow(2, 289) <= Pow(10, 87) && Pow(10, 59) <= Pow(2, 196)
  {
    FivesAndTwos();
    hide Pow;
    PowAdd(2, 202, 87);
    PowProduct(5, 2, 87);
    MulAtLeast(Pow(5, 87), Pow(2, 202), Pow(2, 87));
    PowAdd(2, 137, 59);
    PowProduct(5, 2, 59);
    MulAtLeast(Pow(2, 137), Pow(5, 59), Pow(2, 59));
  }

  lemma FivesAndTwos()
    ensures Pow(5, 87) >= Pow(2, 202) && Pow(5, 59) <= Pow(2, 137)
  {
    assert Pow(5, 3) == 125 && Pow(5, 4) == 625 && Pow(5, 1) == 5 && Pow(2, 5) == 32 && Pow(2, 1) == 2;
    Pow2To32();
    hide Pow;
    PowKnown(5, 4, 3, 625, 125);
    PowKnown(5, 7, 7, 78125, 78125);
    PowKnown(5, 14, 14, 6103515625, 6103515625);
    PowKnown(5, 28, 1, 37252902984619140625, 5);
    PowKnown(5, 29, 29, 186264514923095703125, 186264514923095703125);
    PowKnown(5, 58, 29, 34694469519536141888238489627838134765625, 186264514923095703125);
    PowKnown(5, 58, 1, 34694469519536141888238489627838134765625, 5);
    PowKnown(2, 32, 32, 0x1_0000_0000, 0x1_0000_0000);
    PowKnown(2, 64, 32, 0x1_0000_0000_0000_0000, 0x1_0000_0000);
    PowKnown(2, 96, 5, 0x1_0000_0000_0000_0000_0000_0000, 32);
    PowKnown(2, 101, 101, 2535301200456458802993406410752, 2535301200456458802993406410752);
    PowKnown(2, 101, 32, 2535301200456458802993406410752, 0x1_0000_0000);
    PowKnown(2, 5, 1, 32, 2);
    PowSixteen();
    PowKnown(2, 133, 4, 10889035741470030830827987437816582766592, 16);
  }

  lemma PowSixteen()
    ensures Pow(2, 4) == 16
  {
  }

  /** The next power of ten is not below the next power of two. */
  lemma TenAbove(n: int)
    requires -16494 <= n <= 16383
    ensures Cross(1, Estimate(n) + 1, 1, n + 1) >= 0
  {
    hide Pow, Estimate, Cross;
    var x := Estimate(n) + 1;
    TwosBelowTens();
    if n >= 0 {
      RatioUp(n, x);
      PowersCompare(2, 289, 10, 87, n + 1, x);
      CrossUp(x, n + 1);
    } else if x >= 0 {
      CrossMixed(x, n + 1);
    } else {
      var k, m := -n, -x;
      RatioDown(k, m);
      PowersCompare(10, 59, 2, 196, m, k - 1);
      CrossDown(m, k - 1);
    }
  }

  lemma RatioUp(n: nat, x: int)
    requires n <= 16383 && 3010299956639812 * n - 1000000 <= UNIT * (x - 1)
    ensures x >= 0 && (n + 1) * 87 <= x * 289
  {
  }

  lemma RatioDown(k: int, m: int)
    requires 1 <= k <= 16494 && m > 0 && 3010299956639812 * -k - 1000000 <= UNIT * (-m - 1)
    ensures m * 196 <= (k - 1) * 59
  {
  }

  lemma CrossUp(x: nat, n: nat)
    requires Pow(2, n) <= Pow(10, x)
    ensures Cross(1, x, 1, n) >= 0
  {
    hide Pow, Cross;
    CrossWhole(1, x, 1, n);
  }

  lemma CrossDown(x: int, n: int)
    requires x >= 0 && n >= 0 && Pow(10, x) <= Pow(2, n)
    ensures Cross(1, -x, 1, -n) >= 0
  {
    ZeroPowers();
    hide Pow;
    WholeProducts(1, Pow(2, n), 1, Pow(10, x));
  }

  lemma CrossMixed(x: nat, n: int)
    requires n <= 0
    ensures Cross(1, x, 1, n) >= 0
  {
    assert Pow(2, 0) == 1 && Pow(10, 0) == 1;
    hide Pow;
    PowPositive(10, x);
    PowPositive(2, -n);
    ProductSign(Pow(10, x), Pow(2, -n));
  }

  /** So no number of that many bits reaches it. */
  lemma BelowTen(m: nat, bits: nat, e: int, x: int)
    requires m < Pow(2, bits) && Cross(1, x, 1, e + bits) >= 0
    ensures Cross(1, x, m, e) > 0
  {
    hide Pow;
    var i, j, k, l := Plus(e + bits), Minus(e + bits), Plus(e), Minus(e);
    PowPositive(10, Minus(x));
    PowPositive(2, j);
    PowPositive(2, k);
    PowPositive(2, l);
    PowAdd(2, i, l);
    PowAdd(2, bits, k);
    PowAdd(2, bits + k, j);
    assert i + l == (bits + k) + j;
    BitsCore(Pow(10, Plus(x)), Pow(10, Minus(x)), Pow(2, i), Pow(2, j), Pow(2, k), Pow(2, l), Pow(2, bits), m);
  }

  lemma BitsCore(a: int, b: int, sp: int, sm: int, ep: int, em: int, p: int, m: int)
    requires 1 * a * sm - 1 * sp * b >= 0 && sp * em == (p * ep) * sm && m < p
    requires b > 0 && ep > 0 && sm > 0 && em > 0
    ensures 1 * a * em - m * ep * b > 0
  {
    MulAtLeast(a * sm, sp * b, em);
    assert (sp * b) * em == (sp * em) * b;
    assert ((p * ep) * sm) * b == (p * ep * b) * sm;
    assert (a * sm) * em == (a * em) * sm;
    ProductOrder(p * ep * b, a * em, sm);
    ProductSign(ep, b);
    BelowBits(m, p, ep * b);
    assert m * (ep * b) == m * ep * b && p * (ep * b) == p * ep * b;
  }

  lemma BelowBits(m: int, p: int, x: int)
    requires m < p && x > 0
    ensures m * x < p * x
  {
  }

  /** The estimate is what format_dragon asks of its caller, in all modes. */
  lemma EstimateSuits(f: nat, e: int, bits: nat)
    requires HasBits(f, e, bits)
    ensures var x := Estimate(e + bits - 1);
      UpperWithin(f, e, x + 1) && Cross(1, x + 1, f, e) > 0 && -INT_MAX <= x < INT_MAX && (e >= 0 ==> x >= 0)
  {
    var x := Estimate(e + bits - 1);
    TenAbove(e + bits - 1);
    assert Pow(2, bits + 1) == 2 * Pow(2, bits);
    hide Pow, Cross, Estimate;
    BelowTen(f, bits, e, x + 1);
    BelowTen(2 * f + 1, bits + 1, e - 1, x + 1);
  }

  // ---- It is at most one too high -----------------------------------------------------------------------

  /** From a bound on one power of two to one on its square, or twice that: j digits are dropped. */
  lemma SquaredBelow(a: nat, k: nat, m: nat, b: nat, j: nat, t: nat, m2: nat)
    requires b <= 1 && Pow(10, j) == t && Pow(2, a) >= m * Pow(10, k) && (1 + b) * (m * m) >= m2 * t
    ensures Pow(2, 2 * a + b) >= m2 * Pow(10, 2 * k + j)
  {
    SquaredPowers(a, k, b, j);
    hide Pow;
    var p, q := Pow(2, a), Pow(10, k);
    MulAtLeast(p, m * q, p);
    MulAtLeast(p, m * q, m * q);
    MulAtLeast(p * p, (m * q) * (m * q), 1 + b);
    MulAtLeast((1 + b) * (m * m), m2 * t, q * q);
    Regroup(b, m, q, m2, t);
  }

  lemma SquaredAbove(a: nat, k: nat, m: nat, b: nat, j: nat, t: nat, m2: nat)
    requires b <= 1 && Pow(10, j) == t && Pow(2, a) <= m * Pow(10, k) && (1 + b) * (m * m) <= m2 * t
    ensures Pow(2, 2 * a + b) <= m2 * Pow(10, 2 * k + j)
  {
    SquaredPowers(a, k, b, j);
    hide Pow;
    var p, q := Pow(2, a), Pow(10, k);
    MulAtLeast(m * q, p, p);
    MulAtLeast(m * q, p, m * q);
    MulAtLeast((m * q) * (m * q), p * p, 1 + b);
    MulAtLeast(m2 * t, (1 + b) * (m * m), q * q);
    Regroup(b, m, q, m2, t);
  }

  lemma SquaredPowers(a: nat, k: nat, b: nat, j: nat)
    requires b <= 1
    ensures Pow(2, 2 * a + b) == (Pow(2, a) * Pow(2, a)) * (1 + b)
    ensures Pow(10, 2 * k + j) == (Pow(10, k) * Pow(10, k)) * Pow(10, j)
  {
    assert Pow(2, 0) == 1 && Pow(2, 1) == 2;
    hide Pow;
    PowAdd(2, a, a);
    PowAdd(2, a + a, b);
    PowAdd(10, k, k);
    PowAdd(10, k + k, j);
  }

  lemma Regroup(b: nat, m: nat, q: nat, m2: nat, t: nat)
    ensures ((m * q) * (m * q)) * (1 + b) == ((1 + b) * (m * m)) * (q * q)
    ensures (m2 * t) * (q * q) == m2 * ((q * q) * t)
  {
    MulSwap(m, q, m, q);
    var x, y := m * m, q * q;
    MulAssociative(m2, t, y);
  }

  lemma Tens()
    ensures Pow(10, 13) == 10000000000000 && Pow(10, 18) == 1000000000000000000 && Pow(10, 19) == 10000000000000000000
    ensures Pow(10, 20) == 100000000000000000000
  {
    assert Pow(10, 5) == 100000 && Pow(10, 3) == 1000 && Pow(10, 1) == 10;
    hide Pow;
    PowKnown(10, 5, 5, 100000, 100000);
    PowKnown(10, 10, 3, 10000000000, 1000);
    PowKnown(10, 13, 5, 10000000000000, 100000);
    PowKnown(10, 18, 1, 1000000000000000000, 10);
    PowKnown(10, 19, 1, 10000000000000000000, 10);
  }

  lemma Twos()
    ensures Pow(2, 60) == 1152921504606846976 && Pow(2, 51) == 2251799813685248 && Pow(10, 0) == 1
  {
    Pow2To32();
    assert Pow(2, 9) == 512 && Pow(2, 10) == 1024;
    hide Pow;
    PowKnown(2, 9, 10, 512, 1024);
    PowKnown(2, 19, 32, 524288, 0x1_0000_0000);
    PowKnown(2, 51, 9, 2251799813685248, 512);
  }

  /** 2^15437 is just above 10^4647. */
  lemma TwosAboveTens()
    ensures Pow(2, 15437) >= Pow(10, 4647)
  {
    Tens();
    Twos();
    hide Pow;
    SquaredBelow(60, 0, 1152921504606846976, 0, 18, 1000000000000000000, 1329227995784915872);
    SquaredBelow(120, 18, 1329227995784915872, 1, 18, 1000000000000000000, 3533694129556768654);
    SquaredBelow(241, 54, 3533694129556768654, 0, 19, 10000000000000000000, 1248699420126396888);
    SquaredBelow(482, 127, 1248699420126396888, 0, 18, 1000000000000000000, 1559250241823999841);
    SquaredBelow(964, 272, 1559250241823999841, 1, 18, 1000000000000000000, 4862522633256403966);
    SquaredBelow(1929, 562, 4862522633256403966, 1, 19, 10000000000000000000, 4728825271786158572);
    SquaredBelow(3859, 1143, 4728825271786158572, 0, 19, 10000000000000000000, 2236178845108343648);
    SquaredBelow(7718, 2305, 2236178845108343648, 1, 19, 10000000000000000000, 1000099165462017114);
    PowAdd(10, 18, 4629);
    MulAtLeast(1000099165462017114, 1000000000000000000, Pow(10, 4629));
  }

  /** 2^13301 is just below 10^4004. */
  lemma TwosJustBelowTens()
    ensures Pow(2, 13301) <= Pow(10, 4004)
  {
    Tens();
    Twos();
    hide Pow;
    SquaredAbove(51, 0, 2251799813685248, 1, 13, 10000000000000, 1014120480182583522);
    SquaredAbove(103, 13, 1014120480182583522, 1, 18, 1000000000000000000, 2056880696651507556);
    SquaredAbove(207, 44, 2056880696651507556, 1, 18, 1000000000000000000, 8461516400515182094);
    SquaredAbove(415, 106, 8461516400515182094, 1, 20, 100000000000000000000, 1431945195923748070);
    SquaredAbove(831, 232, 1431945195923748070, 0, 18, 1000000000000000000, 2050467044129101247);
    SquaredAbove(1662, 482, 2050467044129101247, 1, 18, 1000000000000000000, 8408830198119067282);
    SquaredAbove(3325, 982, 8408830198119067282, 0, 19, 10000000000000000000, 7070842530079915232);
    SquaredAbove(6650, 1983, 7070842530079915232, 1, 19, 10000000000000000000, 9999362817037387389);
    PowAdd(10, 19, 3985);
    MulAtLeast(10000000000000000000, 9999362817037387389, Pow(10, 3985));
  }

  /** The power of ten below the estimated one does not exceed the power of two. */
  lemma TenBelow(n: int)
    requires -16494 <= n <= 16383
    ensures Cross(1, Estimate(n) - 1, 1, n) <= 0
  {
    hide Pow, Estimate, Cross;
    var x := Estimate(n) - 1;
    TwosAboveTens();
    TwosJustBelowTens();
    if n >= 0 && x >= 0 {
      TightUp(n, x);
      PowersCompare(10, 4647, 2, 15437, x, n);
      CrossBelow(x, n);
    } else if n >= 0 {
      CrossFraction(-x, n);
    } else {
      var k, m := -n, -x;
      TightDown(k, m);
      PowersCompare(2, 13301, 10, 4004, k, m);
      CrossBelowFractions(m, k);
    }
  }

  lemma TightUp(n: nat, x: nat)
    requires n <= 16383 && UNIT * x < 3010299956639812 * n - 1000000
    ensures x * 15437 <= n * 4647
  {
  }

  lemma TightDown(k: int, m: int)
    requires 1 <= k <= 16494 && UNIT * -m < 3010299956639812 * -k - 1000000
    ensures m > 0 && k * 4004 <= m * 13301
  {
  }

  lemma CrossBelow(x: nat, n: nat)
    requires Pow(10, x) <= Pow(2, n)
    ensures Cross(1, x, 1, n) <= 0
  {
    hide Pow, Cross;
    CrossWhole(1, x, 1, n);
  }

  lemma CrossFraction(m: int, n: nat)
    requires m >= 0
    ensures Cross(1, -m, 1, n) <= 0
  {
    ZeroPowers();
    hide Pow;
    PowPositive(2, n);
    PowPositive(10, m);
    MulAtLeast(Pow(2, n), 1, Pow(10, m));
  }

  lemma CrossBelowFractions(m: int, k: int)
    requires m >= 0 && k >= 0 && Pow(2, k) <= Pow(10, m)
    ensures Cross(1, -m, 1, -k) <= 0
  {
    ZeroPowers();
    hide Pow;
    WholeProducts(1, Pow(2, k), 1, Pow(10, m));
  }

  /** So a number of more bits exceeds it. */
  lemma AboveTen(m: nat, bits: nat, e: int, x: int)
    requires m > Pow(2, bits) && Cross(1, x, 1, e + bits) <= 0
    ensures Cross(1, x, m, e) < 0
  {
    hide Pow;
    var i, j, k, l := Plus(e + bits), Minus(e + bits), Plus(e), Minus(e);
    PowPositive(10, Minus(x));
    PowPositive(2, j);
    PowPositive(2, k);
    PowPositive(2, l);
    PowAdd(2, i, l);
    PowAdd(2, bits, k);
    PowAdd(2, bits + k, j);
    assert i + l == (bits + k) + j;
    AboveCore(Pow(10, Plus(x)), Pow(10, Minus(x)), Pow(2, i), Pow(2, j), Pow(2, k), Pow(2, l), Pow(2, bits), m);
  }

  lemma AboveCore(a: int, b: int, sp: int, sm: int, ep: int, em: int, p: int, m: int)
    requires 1 * a * sm - 1 * sp * b <= 0 && sp * em == (p * ep) * sm && p < m
    requires b > 0 && ep > 0 && sm > 0 && em > 0
    ensures 1 * a * em - m * ep * b < 0
  {
    MulAtLeast(sp * b, a * sm, em);
    assert (sp * b) * em == (sp * em) * b;
    assert ((p * ep) * sm) * b == (p * ep * b) * sm;
    assert (a * sm) * em == (a * em) * sm;
    ProductOrder(a * em, p * ep * b, sm);
    ProductSign(ep, b);
    BelowBits(p, m, ep * b);
    assert m * (ep * b) == m * ep * b && p * (ep * b) == p * ep * b;
  }

  /** So the value of a supported float is not below the power of ten under the estimated one. */
  lemma EstimateTight(f: nat, e: int, bits: nat)
    requires HasBits(f, e, bits)
    ensures !UpperWithin(f, e, Estimate(e + bits - 1) - 1)
  {
    var x := Estimate(e + bits - 1) - 1;
    TenBelow(e + bits - 1);
    assert Pow(2, bits) == 2 * Pow(2, bits - 1);
    hide Pow, Cross, Estimate;
    AboveTen(2 * f + 1, bits, e - 1, x);
  }

  /**
   * After the fix-up of that estimate the upper boundary lies between the estimated power of ten and
   * the next one, so the digits do not start with a zero.
   */
  lemma FixupEnough(f: nat, e: int, bits: nat)
    requires HasBits(f, e, bits)
    ensures var x := FixedExp(f, e, true, Estimate(e + bits - 1));
      !UpperWithin(f, e, x) && UpperWithin(f, e, x + 1)
  {
    hide UpperWithin, Estimate;
    EstimateSuits(f, e, bits);
    EstimateTight(f, e, bits);
    hide FixedExp;
  }

  // ---- When shortest output is certain ------------------------------------------------------------------

  /** With up to 64 bits the remainder is never stored above lower. */
  lemma EstimateNarrow(e: int, bits: nat, closer: bool)
    requires 0 < bits <= 64
    ensures !StoredAbove(e, closer, Estimate(e + bits - 1))
  {
    hide Estimate;
  }

  /** With 113 bits it is so only next to a whole bigit, and then the value is no whole multiple. */
  lemma EstimateWide(f: nat, e: int, closer: bool)
    requires HasBits(f, e, 113) && (closer ==> f == Pow(2, 112))
    ensures !(StoredAbove(e, closer, Estimate(e + 112)) && WholeMultiple(f, e, Estimate(e + 112)))
  {
    if StoredAbove(e, closer, Estimate(e + 112)) {
      if !closer {
        OnlyOne(e);
        FortyFour();
        hide Pow, Estimate;
        PowMonotone(2, 143, 144);
      }
      WideNotWhole(f, e, closer, Estimate(e + 112));
    }
  }

  lemma OnlyOne(e: int)
    requires StoredAbove(e, false, Estimate(e + 112))
    ensures e == 31 && Estimate(e + 112) == 44
  {
    hide Estimate;
  }

  /** What is left of the inputs that fail: with up to 64 bits, and with 113. */
  lemma ShortestFails(f: nat, e: int, bits: nat, closer: bool)
    requires HasBits(f, e, bits) && (bits <= 64 || bits == 113) && (closer ==> f == Pow(2, bits - 1))
    ensures var x := Estimate(e + bits - 1);
      NotShortest(f, e, closer, x) <==>
        || (bits == 113 && StoredAbove(e, closer, x) && f % 2 != 0 && EndPointTaken(f, e, closer))
        || (StoredBelow(e, x) && f % 2 == 0 && EndPointMissed(f, e, closer))
  {
    hide Estimate, EndPointTaken, EndPointMissed, WholeMultiple, StoredAbove, StoredBelow;
    if bits <= 64 {
      EstimateNarrow(e, bits, closer);
    } else {
      EstimateWide(f, e, closer);
    }
  }

  // ---- Inputs for which shortest output fails -----------------------------------------------------------

  /**
   * A binary128 value, with the estimate the caller computes: 1758148756755280303798878188077056 * 10^10
   * is its excluded lower boundary and reads back as the next lower value.
   */
  lemma EndPointExample()
    ensures var f, m := 8187018133491651638405761625976563, 1758148756755280303798878188077056;
      && IsSignificand(f, 31) && f % 2 != 0 && Estimate(31 + 112) == 44 && UpperWithin(f, 31, 44 + 1)
      && StoredAbove(31, false, 44) && EndPointTaken(f, 31, false) && NotShortest(f, 31, false, 44)
      && OnLower(f, 31, false, m, 10) && ReadsBack(f - 1, 31, false, m, 10)
  {
    var f, m := 8187018133491651638405761625976563, 1758148756755280303798878188077056;
    SmallPowers();
    FivesAround113();
    Powers112();
    hide Pow, UpperWithin;
    PowKnown(2, 15, 15, 32768, 32768);
    PowKnown(10, 5, 5, 100000, 100000);
    EstimateSuits(f, 31, 113);
    forall j: int
      ensures !ReadsBack(f, 31, false, j, 10)
    {
      CrossWhole(j, 10, 2 * f - 1, 30);
      CrossWhole(j, 10, 2 * f + 1, 30);
    }
    CrossWhole(m, 10, 2 * f - 1, 30);
    CrossWhole(m, 10, 2 * f - 3, 30);
    assert OnLower(f, 31, false, m, 10) && NoneReadsBack(f, 31, false, 10);
  }

  /**
   * A value with 64 bits, as of x87 extended floats: 48 * 10^27 is its lower boundary, reads back
   * since the significand is even, and has only two digits; it is not what is printed.
   */
  lemma EndPointMissedExample()
    ensures var f := 11175870895385742188;
      && IsSignificand(f, 32) && f % 2 == 0 && Estimate(32 + 63) == 29 && UpperWithin(f, 32, 29 + 1)
      && StoredBelow(32, 29) && EndPointMissed(f, 32, false) && NotShortest(f, 32, false, 29)
      && ReadsBack(f, 32, false, 48, 27) && ShortestDecimal(f, 32, false, 48, 27)
  {
    var f := 11175870895385742188;
    MissedBits();
    EstimateSuits(f, 32, 64);
    MissedBoundaries();
    hide Pow, UpperWithin, Cross, ReadsBack, OnLower, AsNear;
    assert NearestAlone(f, 32, false, 48, 27) && AtMostLower(f, 32, false, 28);
  }

  lemma MissedBits()
    ensures HasBits(11175870895385742188, 32, 64)
  {
    Pow2To32();
    assert Pow(2, 64) == 2 * Pow(2, 63);
    hide Pow;
    PowKnown(2, 32, 32, 0x1_0000_0000, 0x1_0000_0000);
  }

  lemma MissedPowers()
    ensures Pow(2, 31) == 0x8000_0000 && Pow(10, 27) == 1000000000000000000000000000
    ensures Pow(10, 28) == 10000000000000000000000000000
  {
    SmallPowers();
    PowStep(2, 30);
    PowStep(10, 25);
    PowStep(10, 26);
    PowStep(10, 27);
    hide Pow;
    PowKnown(2, 15, 15, 32768, 32768);
    PowKnown(10, 5, 5, 100000, 100000);
    PowKnown(10, 10, 10, 10000000000, 10000000000);
    PowKnown(10, 20, 5, 100000000000000000000, 100000);
  }

  /** Of the multiples of 10^27 only the 48th reads back, on the lower boundary, and none of 10^28. */
  lemma MissedBoundaries()
    ensures var f := 11175870895385742188;
      && OnLower(f, 32, false, 48, 27)
      && (forall j: int :: ReadsBack(f, 32, false, j, 27) <==> j == 48)
      && (forall j: int :: !ReadsBack(f, 32, false, j, 28))
  {
    var f := 11175870895385742188;
    MissedPowers();
    hide Pow, ReadsBack, OnLower;
    forall j: int
      ensures ReadsBack(f, 32, false, j, 27) <==> j == 48
      ensures !ReadsBack(f, 32, false, j, 28)
    {
      EvenTest(f, 31, j, 27);
      EvenTest(f, 31, j, 28);
      MissedTest(j);
    }
    EvenTest(f, 31, 48, 27);
    CrossWhole(48, 27, 2 * f - 1, 31);
  }

  lemma MissedTest(j: int)
    requires Pow(2, 31) == 0x8000_0000 && Pow(10, 27) == 1000000000000000000000000000
    requires Pow(10, 28) == 10000000000000000000000000000
    ensures var f := 11175870895385742188;
      && (Cross(j, 27, 2 * f - 1, 31) >= 0 >= Cross(j, 27, 2 * f + 1, 31) <==> j == 48)
      && !(Cross(j, 28, 2 * f - 1, 31) >= 0 >= Cross(j, 28, 2 * f + 1, 31))
  {
    hide Pow, Cross;
    var f := 11175870895385742188;
    CrossWhole(j, 27, 2 * f - 1, 31);
    CrossWhole(j, 27, 2 * f + 1, 31);
    CrossWhole(j, 28, 2 * f - 1, 31);
    CrossWhole(j, 28, 2 * f + 1, 31);
  }

  /** Reading back, for an even significand. */
  lemma EvenTest(f: nat, e: nat, m: int, x: nat)
    requires f % 2 == 0
    ensures ReadsBack(f, e + 1, false, m, x) <==> Cross(m, x, 2 * f - 1, e) >= 0 >= Cross(m, x, 2 * f + 1, e)
    ensures OnLower(f, e + 1, false, m, x) <==> Cross(m, x, 2 * f - 1, e) == 0
  {
    assert Pow(2, Shift(false)) == 2;
    hide Pow, Cross;
    assert f * Pow(2, Shift(false)) - 1 == 2 * f - 1;
  }

  lemma SmallPowers()
    ensures Pow(2, 0) == 1 && Pow(2, 1) == 2 && Pow(2, 15) == 32768 && Pow(10, 0) == 1 && Pow(10, 5) == 100000
  {
    PowAdd(2, 8, 7);
    assert Pow(2, 8) == 256 && Pow(2, 7) == 128;
    PowAdd(10, 3, 2);
    assert Pow(10, 3) == 1000 && Pow(10, 2) == 100;
  }

  lemma CrossWhole(m: int, x: nat, n: int, e: nat)
    ensures Cross(m, x, n, e) == m * Pow(10, x) - n * Pow(2, e)
  {
    ZeroPowers();
    hide Pow;
    WholeProducts(m, Pow(10, x), n, Pow(2, e));
  }

  lemma ZeroPowers()
    ensures Pow(2, 0) == 1 && Pow(10, 0) == 1
  {
  }

  lemma WholeProducts(m: int, a: int, n: int, b: int)
    ensures m * a * 1 - n * b * 1 == m * a - n * b
  {
  }
}
