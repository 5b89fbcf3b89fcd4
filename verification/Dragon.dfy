/** The Steele and White digit generator over exact integers. */
module Dragon {
  import opened Common
  import opened Powers
  import opened Digits
  import opened Bigints
  import opened Decimal

  datatype Flags = Flags(predecessorCloser: bool, fixup: bool, fixed: bool)

  /** A growable character buffer. */
  class CharBuffer {
    var data: seq<char>

    constructor ()
      ensures data == []
    {
      data := [];
    }
  }

  // ---- The fraction the digits are drawn from ------------------------------------------------

  /** One extra bit, or two if the lower boundary is closer, keeps both boundaries integral. */
  function Shift(closer: bool): nat
  {
    if closer then 2 else 1
  }

  /** The gap between the value and its lower boundary, in units of the denominator. */
  ghost function Gap0(e: int, exp10: int): nat
  {
    if e >= 0 then Pow(2, e) else if exp10 < 0 then Pow(10, -exp10) else 1
  }

  ghost function Num0(f: nat, e: int, exp10: int, closer: bool): nat
  {
    f * Pow(2, Shift(closer)) * Gap0(e, exp10)
  }

  ghost function Den0(e: int, exp10: int, closer: bool): nat
  {
    if e < 0 && exp10 < 0 then Pow(2, Shift(closer) - e)
    else Pow(10, Plus(exp10)) * Pow(2, Shift(closer) + Minus(e))
  }

  ghost function UpperGap0(e: int, exp10: int, closer: bool): nat
  {
    if closer then 2 * Gap0(e, exp10) else Gap0(e, exp10)
  }

  function NumExp(e: int, exp10: int, closer: bool): nat
  {
    if e >= 0 then (e + Shift(closer)) / 32 else if exp10 < 0 then -exp10 / 32 else 0
  }

  function DenExp(e: int, exp10: int, closer: bool): nat
  {
    (if exp10 > 0 then exp10 / 32 else 0) + (if e < 0 then (Shift(closer) - e) / 32 else 0)
  }

  function GapExp(e: int, exp10: int): nat
  {
    if e >= 0 then e / 32 else if exp10 < 0 then -exp10 / 32 else 0
  }

  /** The four numbers the algorithm starts from; upper is stored apart only if it differs. */
  ghost predicate Prepared(numerator: Bigint, denominator: Bigint, lower: Bigint, upper: Bigint,
                           f: nat, e: int, closer: bool, exp10: int)
    requires e >= 0 ==> exp10 >= 0
    reads numerator, denominator, lower, upper
  {
    && numerator.Value() == Num0(f, e, exp10, closer) && denominator.Value() == Den0(e, exp10, closer)
    && lower.Value() == Gap0(e, exp10) && (closer ==> upper.Value() == 2 * Gap0(e, exp10))
    && Normal(numerator.bigits) && Normal(denominator.bigits)
    && Normal(lower.bigits) && (closer ==> Normal(upper.bigits))
    && numerator.exp == NumExp(e, exp10, closer) && denominator.exp == DenExp(e, exp10, closer)
    && lower.exp == GapExp(e, exp10)
  }

  /** Sets up numerator, denominator and the distances to the two boundaries. */
  method Prepare(f: nat, e: int, closer: bool, exp10: int)
    returns (numerator: Bigint, denominator: Bigint, lower: Bigint, upper: Bigint)
    requires 0 < f < POW128 && -INT_MAX <= exp10 <= INT_MAX && (e >= 0 ==> exp10 >= 0)
    ensures fresh(numerator) && fresh(denominator) && fresh(lower) && fresh(upper)
    ensures numerator != denominator && lower != numerator && lower != denominator
    ensures upper != numerator && upper != denominator && (upper == lower <==> !closer)
    ensures Prepared(numerator, denominator, lower, upper, f, e, closer, exp10)
  {
    numerator := new Bigint();
    denominator := new Bigint();
    lower := new Bigint();
    var upperStore := new Bigint();
    if e >= 0 {
      PrepareInteger(numerator, denominator, lower, upperStore, f, e, closer, exp10);
    } else if exp10 < 0 {
      PrepareSmall(numerator, denominator, lower, upperStore, f, e, closer, exp10);
    } else {
      PrepareFraction(numerator, denominator, lower, upperStore, f, e, closer, exp10);
    }
    upper := if closer then upperStore else lower;
  }

  method PrepareInteger(numerator: Bigint, denominator: Bigint, lower: Bigint, upperStore: Bigint,
                        f: nat, e: nat, closer: bool, exp10: nat)
    requires numerator != denominator && lower != numerator && lower != denominator
    requires upperStore != numerator && upperStore != denominator && upperStore != lower
    requires 0 < f < POW128 && exp10 <= INT_MAX
    modifies numerator, denominator, lower, upperStore
    ensures Prepared(numerator, denominator, lower, upperStore, f, e, closer, exp10)
  {
    var shift := Shift(closer);
    numerator.Assign(f);
    numerator.ShiftLeft(e + shift);
    lower.Assign(1);
    lower.ShiftLeft(e);
    if closer {
      upperStore.Assign(1);
      upperStore.ShiftLeft(e + 1);
    }
    denominator.AssignPow10(exp10);
    denominator.ShiftLeft(shift);
    PowAdd(2, shift, e);
    Reassociate(f, Pow(2, shift), Pow(2, e));
  }

  method PrepareSmall(numerator: Bigint, denominator: Bigint, lower: Bigint, upperStore: Bigint,
                      f: nat, e: int, closer: bool, exp10: int)
    requires numerator != denominator && lower != numerator && lower != denominator
    requires upperStore != numerator && upperStore != denominator && upperStore != lower
    requires 0 < f < POW128 && -INT_MAX <= exp10 < 0 && e < 0
    modifies numerator, denominator, lower, upperStore
    ensures Prepared(numerator, denominator, lower, upperStore, f, e, closer, exp10)
  {
    var shift := Shift(closer);
    Pow2To128();
    numerator.AssignPow10(-exp10);
    lower.AssignFrom(numerator);
    if closer {
      upperStore.AssignFrom(numerator);
      upperStore.ShiftLeft(1);
    }
    numerator.MultiplyWide(f, 128);
    numerator.ShiftLeft(shift);
    denominator.Assign(1);
    denominator.ShiftLeft(shift - e);
    Reassociate2(Pow(10, -exp10), f, Pow(2, shift));
  }

  method PrepareFraction(numerator: Bigint, denominator: Bigint, lower: Bigint, upperStore: Bigint,
                         f: nat, e: int, closer: bool, exp10: nat)
    requires numerator != denominator && lower != numerator && lower != denominator
    requires upperStore != numerator && upperStore != denominator && upperStore != lower
    requires 0 < f < POW128 && exp10 <= INT_MAX && e < 0
    modifies numerator, denominator, lower, upperStore
    ensures Prepared(numerator, denominator, lower, upperStore, f, e, closer, exp10)
  {
    var shift := Shift(closer);
    numerator.Assign(f);
    numerator.ShiftLeft(shift);
    denominator.AssignPow10(exp10);
    denominator.ShiftLeft(shift - e);
    lower.Assign(1);
    if closer {
      upperStore.Assign(2);
    }
  }

  lemma Pow2To128()
    ensures Pow(2, 128) == POW128 && Pow(2, 1) == 2
  {
    Pow2To32();
    PowAdd(2, 32, 32);
    PowAdd(2, 64, 64);
  }

  lemma Reassociate(f: int, p: int, q: int)
    ensures f * (p * q) == f * p * q
  {
  }

  lemma Reassociate2(g: int, f: int, p: int)
    ensures (g * f) * p == f * p * g
  {
  }

  // ---- One digit ------------------------------------------------------------------------------

  /** A numerator that is normalised, or zero without an overstated length. */
  ghost predicate Shaped(numerator: Bigint, denominator: Bigint)
    reads numerator, denominator
  {
    Normal(numerator.bigits)
    || (numerator.bigits == [0] && numerator.NumBits() <= denominator.NumBits())
  }

  /** No power of ten brings n0 onto d exactly. */
  ghost predicate NeverEqual(n0: nat, d: nat)
  {
    forall k: nat :: Scale10(n0, k) != d
  }

  /**
   * Nothing can go wrong in the next division: either the exponents are in order, or nothing but
   * zeros came out so far and the start value never meets the denominator.
   */
  ghost predicate Ordered(numerator: Bigint, denominator: Bigint, n0: nat, k: nat)
    reads numerator, denominator
  {
    numerator.exp <= denominator.exp
    || (numerator.Value() == Scale10(n0, k) && NeverEqual(n0, denominator.Value()))
  }

  method NextDigit(numerator: Bigint, denominator: Bigint, ghost n0: nat, ghost k: nat) returns (digit: nat)
    requires numerator != denominator && Normal(denominator.bigits)
    requires Shaped(numerator, denominator) && Ordered(numerator, denominator, n0, k)
    requires numerator.Value() < 10 * denominator.Value()
    modifies numerator
    ensures Shaped(numerator, denominator) && Ordered(numerator, denominator, n0, k)
    ensures digit <= 9
    ensures old(numerator.Value()) == digit * denominator.Value() + numerator.Value()
    ensures numerator.Value() < denominator.Value()
    ensures numerator.exp <= old(numerator.exp)
    ensures numerator.exp > denominator.exp ==> numerator.Value() == old(numerator.Value())
    ensures Min(numerator.exp, denominator.exp) == Min(old(numerator.exp), denominator.exp)
  {
    digit := numerator.DivmodAssign(denominator);
    if digit >= 10 {
      MulAtLeast(digit, 10, denominator.Value());
    }
  }

  method TimesTen(numerator: Bigint, denominator: Bigint, ghost n0: nat, ghost k: nat)
    requires numerator != denominator
    requires Shaped(numerator, denominator) && Ordered(numerator, denominator, n0, k)
    modifies numerator
    ensures Shaped(numerator, denominator) && Ordered(numerator, denominator, n0, k + 1)
    ensures numerator.Value() == 10 * old(numerator.Value()) && numerator.exp == old(numerator.exp)
  {
    numerator.Multiply32(10);
  }

  // ---- Shortest representation ----------------------------------------------------------------

  /** w lies between n - l and n + u; the end points belong to an even significand only. */
  predicate Inside(w: int, n: int, l: int, u: int, even: bool)
  {
    if even then n - l <= w <= n + u else n - l < w < n + u
  }

  function Times(m: int, d: int): int
  {
    m * d
  }

  /** No multiple of ten units lies inside: fewer digits would not do. */
  ghost predicate Coarsest(n: int, l: int, u: int, d: int, even: bool)
  {
    forall m: int :: !Inside(Times(m, 10 * d), n, l, u, even)
  }

  /** No multiple of the unit inside is nearer to n than p is. */
  ghost predicate Closest(p: int, n: int, l: int, u: int, d: int, even: bool)
  {
    forall m: int :: Inside(Times(m, d), n, l, u, even) ==> Abs(Times(p, d) - n) <= Abs(Times(m, d) - n)
  }

  /** p units are the shortest decimal inside, and the nearest of that length. */
  ghost predicate Best(p: int, n: int, l: int, u: int, d: int, even: bool)
  {
    Inside(Times(p, d), n, l, u, even) && Coarsest(n, l, u, d, even) && Closest(p, n, l, u, d, even)
  }

  function Min(a: nat, b: nat): nat
  {
    if a <= b then a else b
  }

  /**
   * The outcome of the test rest <[=] l for operands stored with exponents ne and le. It is the
   * order of the two values except where compare goes by the representation: a tie goes to the
   * smaller exponent, and a zero remainder counts as 0x1_0000_0000^ne.
   */
  predicate LowSays(low: bool, rest: int, l: int, ne: nat, le: nat, even: bool)
  {
    low <==> if rest == 0 then Radix(ne) <= l
             else if rest == l then ne > le || (ne == le && even)
             else rest < l
  }

  /** The objects the generator works on; upper may be lower itself. */
  ghost predicate Distinct(numerator: Bigint, denominator: Bigint, lower: Bigint, upper: Bigint)
  {
    && numerator != denominator && lower != numerator && lower != denominator
    && upper != numerator && upper != denominator
  }

  /** Everything the generator relies on at the head of its loop, after k digits. */
  ghost predicate Ready(numerator: Bigint, denominator: Bigint, lower: Bigint, upper: Bigint, even: bool,
                        n0: nat, k: nat)
    reads numerator, denominator, lower, upper
  {
    && Shaped(numerator, denominator) && Ordered(numerator, denominator, n0, k)
    && Normal(denominator.bigits) && Normal(lower.bigits) && Normal(upper.bigits)
    && 0 < lower.Value() <= upper.Value()
    && numerator.Value() + upper.Value() <= 10 * denominator.Value()
    && (even ==> numerator.Value() + upper.Value() < 10 * denominator.Value())
  }

  /** The test numerator <[=] lower. */
  method IsLow(numerator: Bigint, lower: Bigint, even: bool) returns (low: bool)
    requires Normal(lower.bigits) && (Normal(numerator.bigits) || numerator.bigits == [0])
    ensures LowSays(low, numerator.Value(), lower.Value(), numerator.exp, lower.exp, even)
  {
    var c := Compare(numerator, lower);
    LowTest(numerator.bigits, numerator.exp, lower.bigits, lower.exp, c, even);
    low := c - (if even then 1 else 0) < 0;
  }

  /** The test numerator + upper >[=] denominator. */
  method IsHigh(numerator: Bigint, upper: Bigint, denominator: Bigint, even: bool) returns (high: bool)
    requires Normal(denominator.bigits) && Normal(upper.bigits) && Shaped(numerator, denominator)
    ensures high <==> if even then numerator.Value() + upper.Value() >= denominator.Value()
                      else numerator.Value() + upper.Value() > denominator.Value()
  {
    var sum := AddCompare(numerator, upper, denominator);
    high := sum + (if even then 1 else 0) > 0;
  }

  /** More than half a unit is left, or exactly half after an odd digit. */
  method RoundsUp(numerator: Bigint, denominator: Bigint, digit: nat) returns (up: bool)
    requires Normal(denominator.bigits) && Shaped(numerator, denominator)
    ensures up <==> 2 * numerator.Value() > denominator.Value()
                    || (2 * numerator.Value() == denominator.Value() && digit % 2 != 0)
  {
    var result := AddCompare(numerator, numerator, denominator);
    up := result > 0 || (result == 0 && digit % 2 != 0);
  }

  /** Whether to stop after this digit, and then whether to round it up. */
  method Decide(numerator: Bigint, denominator: Bigint, lower: Bigint, upper: Bigint, even: bool, digit: nat)
    returns (low: bool, high: bool, up: bool)
    requires Normal(denominator.bigits) && Normal(lower.bigits) && Normal(upper.bigits)
    requires Shaped(numerator, denominator)
    ensures LowSays(low, numerator.Value(), lower.Value(), numerator.exp, lower.exp, even)
    ensures high <==> if even then numerator.Value() + upper.Value() >= denominator.Value()
                      else numerator.Value() + upper.Value() > denominator.Value()
    ensures low || high ==>
      (up <==> !low || (high && (2 * numerator.Value() > denominator.Value()
                                 || (2 * numerator.Value() == denominator.Value() && digit % 2 != 0))))
  {
    low := IsLow(numerator, lower, even);
    high := IsHigh(numerator, upper, denominator, even);
    up := !low;
    if low && high {
      up := RoundsUp(numerator, denominator, digit);
    }
  }

  /** Takes the next digit off numerator and decides whether to stop and whether to round up. */
  method TestDigit(numerator: Bigint, denominator: Bigint, lower: Bigint, upper: Bigint, even: bool,
                   ghost n0: nat, ghost l0: nat, ghost k: nat)
    returns (digit: nat, low: bool, high: bool, up: bool)
    requires Distinct(numerator, denominator, lower, upper)
    requires Ready(numerator, denominator, lower, upper, even, n0, k)
    requires lower.Value() == Scale10(l0, k) && 0 < l0 < n0
    modifies numerator
    ensures Shaped(numerator, denominator) && Ordered(numerator, denominator, n0, k)
    ensures digit <= 9 && numerator.exp <= old(numerator.exp)
    ensures old(numerator.Value()) == digit * denominator.Value() + numerator.Value()
    ensures numerator.Value() < denominator.Value()
    ensures Min(numerator.exp, denominator.exp) == Min(old(numerator.exp), denominator.exp)
    ensures LowSays(low, numerator.Value(), lower.Value(), Min(old(numerator.exp), denominator.exp), lower.exp, even)
    ensures high <==> if even then numerator.Value() + upper.Value() >= denominator.Value()
                      else numerator.Value() + upper.Value() > denominator.Value()
    ensures low || high ==>
      (up <==> !low || (high && (2 * numerator.Value() > denominator.Value()
                                 || (2 * numerator.Value() == denominator.Value() && digit % 2 != 0))))
  {
    digit := NextDigit(numerator, denominator, n0, k);
    Scale10Order(l0, n0, k);
    low, high, up := Decide(numerator, denominator, lower, upper, even, digit);
  }

  method PutDigit(digits: seq<char>, digit: nat) returns (r: seq<char>)
    requires digit <= 9
    ensures r == digits + [DigitChar(digit)] && DecimalValue(r) == 10 * DecimalValue(digits) + digit
    ensures AllDigits(digits) ==> AllDigits(r)
  {
    DecimalPush(digits, DigitChar(digit));
    r := digits + [DigitChar(digit)];
  }

  /** Moves on to the next decimal place. */
  method ScaleAll(numerator: Bigint, denominator: Bigint, lower: Bigint, upper: Bigint, even: bool,
                  ghost n0: nat, ghost k: nat)
    requires Distinct(numerator, denominator, lower, upper)
    requires Shaped(numerator, denominator) && Ordered(numerator, denominator, n0, k)
    requires Normal(denominator.bigits) && Normal(lower.bigits) && Normal(upper.bigits)
    requires 0 < lower.Value() <= upper.Value()
    requires numerator.Value() + upper.Value() <= denominator.Value()
    requires even ==> numerator.Value() + upper.Value() < denominator.Value()
    modifies numerator, lower, upper
    ensures Ready(numerator, denominator, lower, upper, even, n0, k + 1)
    ensures numerator.Value() == 10 * old(numerator.Value()) && lower.Value() == 10 * old(lower.Value())
    ensures upper.Value() == 10 * old(upper.Value())
    ensures numerator.exp == old(numerator.exp) && lower.exp == old(lower.exp)
  {
    TimesTen(numerator, denominator, n0, k);
    lower.Multiply32(10);
    if upper != lower {
      upper.Multiply32(10);
    }
  }

  /** The last step of the generator: the digits before it, what it divided and what it decided. */
  datatype LastStep = LastStep(q: int, before: int, digit: int, rest: int, low: bool, high: bool, up: bool)

  /**
   * What the test before this digit left open: the numerator is above lower, or a tie or a zero
   * remainder was not taken for low.
   */
  predicate Held(before: int, l: int, m: nat, le: nat, even: bool)
  {
    before > l || before == 0 || (before == l && !(m > le || (m == le && even)))
  }

  /** A zero remainder is passed over only at the first digit: the value is a multiple of the unit. */
  ghost predicate FirstZero(n0: int, l0: int, d: int, m: nat)
  {
    l0 < Radix(m) && exists j: int :: n0 == Times(j, d)
  }

  ghost predicate StopsAt(st: LastStep, n: int, l: int, u: int, d: int, even: bool, m: nat, le: nat)
  {
    && n == Times(st.q, 10 * d) + st.before && st.before == Times(st.digit, d) + st.rest
    && 0 <= st.rest < d && 0 < l <= u && 0 <= st.digit <= 9
    && st.before + u <= 10 * d && (even ==> st.before + u < 10 * d)
    && Held(st.before, l, m, le, even) && LowSays(st.low, st.rest, l, m, le, even)
    && (st.high <==> if even then st.rest + u >= d else st.rest + u > d)
    && (st.low || st.high)
    && (st.up <==> !st.low || (st.high && (2 * st.rest > d || (2 * st.rest == d && st.digit % 2 != 0))))
  }

  /** The loop invariant of the generator: k digits written, q their value. */
  ghost predicate Running(numerator: Bigint, denominator: Bigint, lower: Bigint, upper: Bigint, even: bool,
                          n0: nat, l0: nat, u0: nat, k: nat, q: int, m: nat)
    reads numerator, denominator, lower, upper
  {
    && Ready(numerator, denominator, lower, upper, even, n0, k)
    && lower.Value() == Scale10(l0, k) && upper.Value() == Scale10(u0, k)
    && Scale10(n0, k) == Times(q, 10 * denominator.Value()) + numerator.Value()
    && Min(numerator.exp, denominator.exp) == m
    && Held(numerator.Value(), lower.Value(), m, lower.exp, even)
    && (numerator.Value() == 0 ==> FirstZero(n0, l0, denominator.Value(), m))
  }

  /** The number printed, and how the loop ended. */
  function Printed(st: LastStep): int
  {
    10 * st.q + st.digit + if st.up then 1 else 0
  }

  /** The upper boundary reaches the unit of the first digit. */
  predicate ReachesUnit(n: int, u: int, d: int, even: bool)
  {
    if even then n + u >= d else n + u > d
  }

  /** A zero remainder that was passed over. */
  predicate Stuck(st: LastStep)
  {
    st.before == 0 || (st.rest == 0 && !st.low)
  }

  /** One round of the generator: the digit to show, and whether it is the last. */
  method Advance(numerator: Bigint, denominator: Bigint, lower: Bigint, upper: Bigint, even: bool,
                 ghost n0: nat, ghost l0: nat, ghost u0: nat, ghost k: nat, ghost q: int, ghost m: nat)
    returns (shown: nat, stop: bool, ghost st: LastStep)
    requires Distinct(numerator, denominator, lower, upper) && 0 < l0 < n0 && Radix(m) <= 10 * l0
    requires Running(numerator, denominator, lower, upper, even, n0, l0, u0, k, q, m)
    modifies numerator, lower, upper
    ensures shown <= 9 && lower.exp == old(lower.exp)
    ensures old(lower.Value() < numerator.Value() && ReachesUnit(numerator.Value(), upper.Value(),
                                                                 denominator.Value(), even))
      ==> shown > 0
    ensures stop ==> 10 * q + shown == Printed(st)
    ensures stop ==> StopsAt(st, Scale10(n0, k), Scale10(l0, k), Scale10(u0, k), denominator.Value(), even, m,
                             lower.exp)
    ensures stop && Stuck(st) ==> FirstZero(n0, l0, denominator.Value(), m)
    ensures !stop ==> old(upper.Value()) < upper.Value() <= 10 * denominator.Value()
    ensures !stop ==> Running(numerator, denominator, lower, upper, even, n0, l0, u0, k + 1, 10 * q + shown, m)
  {
    hide FirstZero, NeverEqual, Shaped, Radix, Pow, Val, LowSays, ReachesUnit;
    ghost var d, before := denominator.Value(), numerator.Value();
    var digit, low, high, up := TestDigit(numerator, denominator, lower, upper, even, n0, l0, k);
    st := LastStep(q, before, digit, numerator.Value(), low, high, up);
    NotZero(st, lower.Value(), upper.Value(), d, even, m, lower.exp);
    ZeroPassed(st, n0, l0, d, k, m, lower.exp, even);
    stop := low || high;
    if stop {
      NoTenthDigit(digit, numerator.Value(), d, before, upper.Value(), even);
      shown := if up then digit + 1 else digit;
    } else {
      AppendDigit(Scale10(n0, k), q, before, digit, numerator.Value(), d);
      ScaleAll(numerator, denominator, lower, upper, even, n0, k);
      shown := digit;
    }
  }

  /** Where the upper boundary reaches the unit, a zero is rounded up. */
  lemma NotZero(st: LastStep, l: int, u: int, d: int, even: bool, m: nat, le: nat)
    requires st.before == st.digit * d + st.rest && st.digit >= 0 && 0 < l && LowSays(st.low, st.rest, l, m, le, even)
    requires st.high <==> if even then st.rest + u >= d else st.rest + u > d
    requires st.low || st.high ==> !st.low ==> st.up
    ensures l < st.before && ReachesUnit(st.before, u, d, even) ==> st.digit > 0 || (st.high && st.up)
  {
    hide Radix;
  }

  /** lower has grown past a zero remainder by the second digit. */
  lemma ZeroPassed(st: LastStep, n0: int, l0: int, d: int, k: nat, m: nat, le: nat, even: bool)
    requires Scale10(n0, k) == Times(st.q, 10 * d) + st.before && st.before == Times(st.digit, d) + st.rest
    requires LowSays(st.low, st.rest, Scale10(l0, k), m, le, even)
    requires 0 < l0 && Radix(m) <= 10 * l0
    ensures st.rest == 0 && !st.low ==> FirstZero(n0, l0, d, m)
  {
    if st.rest == 0 && !st.low {
      if k > 0 {
        ScaleGrows(l0, k);
      }
      AppendDigit(n0, st.q, st.before, st.digit, st.rest, d);
      assert n0 == Times(10 * st.q + st.digit, d);
    }
  }

  lemma StartsRunning(numerator: Bigint, denominator: Bigint, lower: Bigint, upper: Bigint, even: bool, m: nat)
    requires Ready(numerator, denominator, lower, upper, even, numerator.Value(), 0)
    requires lower.Value() < numerator.Value() && m == Min(numerator.exp, denominator.exp)
    ensures Running(numerator, denominator, lower, upper, even, numerator.Value(), lower.Value(), upper.Value(), 0, 0,
                    m)
    ensures upper.Value() <= 10 * denominator.Value() && lower.Value() > 0
  {
    hide FirstZero, NeverEqual, Shaped, Radix, Pow, Val;
  }

  /** Generates digits until the decimal so far, or its successor, is within the boundaries. */
  method Generate(numerator: Bigint, denominator: Bigint, lower: Bigint, upper: Bigint, even: bool)
    returns (digits: seq<char>, ghost st: LastStep)
    requires Distinct(numerator, denominator, lower, upper)
    requires Normal(numerator.bigits)
    requires Ready(numerator, denominator, lower, upper, even, numerator.Value(), 0)
    requires lower.Value() < numerator.Value()
    requires Radix(Min(numerator.exp, denominator.exp)) <= 10 * lower.Value()
    modifies numerator, lower, upper
    ensures |digits| > 0 && AllDigits(digits) && DecimalValue(digits) == Printed(st)
    ensures old(ReachesUnit(numerator.Value(), upper.Value(), denominator.Value(), even)) ==> digits[0] != '0'
    ensures var k := |digits| - 1;
      StopsAt(st, Scale10(old(numerator.Value()), k), Scale10(old(lower.Value()), k),
              Scale10(old(upper.Value()), k), denominator.Value(), even,
              Min(old(numerator.exp), denominator.exp), old(lower.exp))
    ensures Stuck(st) ==>
      FirstZero(old(numerator.Value()), old(lower.Value()), denominator.Value(),
                Min(old(numerator.exp), denominator.exp))
  {
    hide FirstZero, StopsAt, LowSays, NeverEqual, Shaped, Radix, Pow, Val, Printed, ReachesUnit, Ready, Running;
    digits := [];
    ghost var reached := ReachesUnit(numerator.Value(), upper.Value(), denominator.Value(), even);
    ghost var n0, l0, u0 := numerator.Value(), lower.Value(), upper.Value();
    ghost var m := Min(numerator.exp, denominator.exp);
    ghost var k, q := 0, 0;
    StartsRunning(numerator, denominator, lower, upper, even, m);
    while true
      invariant k == |digits| && AllDigits(digits) && q == DecimalValue(digits)
      invariant Running(numerator, denominator, lower, upper, even, n0, l0, u0, k, q, m)
      invariant lower.exp == old(lower.exp) && upper.Value() <= 10 * denominator.Value()
      invariant k == 0 ==> numerator.Value() == n0 && lower.Value() == l0 && upper.Value() == u0
      invariant k > 0 && reached ==> digits[0] != '0'
      decreases 10 * denominator.Value() - upper.Value()
    {
      var shown, stop;
      shown, stop, st := Advance(numerator, denominator, lower, upper, even, n0, l0, u0, k, q, m);
      digits := PutDigit(digits, shown);
      if stop {
        return;
      }
      k, q := k + 1, 10 * q + shown;
    }
  }

  /** After a nine the successor is never within reach, so no character passes '9'. */
  lemma NoTenthDigit(digit: int, rest: int, d: int, before: int, u: int, even: bool)
    requires before == digit * d + rest && 0 <= digit <= 9
    requires before + u <= 10 * d && (even ==> before + u < 10 * d)
    ensures digit == 9 ==> !(if even then rest + u >= d else rest + u > d)
  {
  }

  /**
   * How the run of the loop can miss the shortest decimal: a zero remainder is passed over, a tie
   * with lower is passed over although the end point belongs to the interval, or it is taken
   * although the end point does not.
   */
  predicate Strays(st: LastStep, l: int, d: int, even: bool, m: nat, le: nat)
  {
    || Stuck(st)
    || (even && (st.before == l || (st.rest == l && m < le && d > 2 * l)))
    || (!even && st.rest == l && m > le && !st.up)
  }

  /** In any case the number printed is on or between the boundaries, and below an excluded upper one. */
  predicate Within(w: int, n: int, l: int, u: int, even: bool)
  {
    n - l <= w <= n + u && (!even ==> w < n + u)
  }

  /** The shortest representation: what is printed, and exactly when it is the best choice. */
  method Shortest(numerator: Bigint, denominator: Bigint, lower: Bigint, upper: Bigint, even: bool)
    returns (digits: seq<char>, ghost st: LastStep)
    requires Distinct(numerator, denominator, lower, upper)
    requires Normal(numerator.bigits)
    requires Ready(numerator, denominator, lower, upper, even, numerator.Value(), 0)
    requires lower.Value() < numerator.Value()
    requires Radix(Min(numerator.exp, denominator.exp)) <= 10 * lower.Value()
    modifies numerator, lower, upper
    ensures |digits| > 0 && AllDigits(digits) && DecimalValue(digits) == Printed(st)
    ensures old(ReachesUnit(numerator.Value(), upper.Value(), denominator.Value(), even)) ==> digits[0] != '0'
    ensures var k, m := |digits| - 1, Min(old(numerator.exp), denominator.exp);
      var n, l, u := Scale10(old(numerator.Value()), k), Scale10(old(lower.Value()), k), Scale10(old(upper.Value()), k);
      && StopsAt(st, n, l, u, denominator.Value(), even, m, old(lower.exp))
      && Within(Times(DecimalValue(digits), denominator.Value()), n, l, u, even)
      && (Best(DecimalValue(digits), n, l, u, denominator.Value(), even)
          <==> !Strays(st, l, denominator.Value(), even, m, old(lower.exp)))
    ensures Stuck(st) ==>
      FirstZero(old(numerator.Value()), old(lower.Value()), denominator.Value(),
                Min(old(numerator.exp), denominator.exp))
  {
    digits, st := Generate(numerator, denominator, lower, upper, even);
    ghost var k := |digits| - 1;
    Chosen(st, Scale10(old(numerator.Value()), k), Scale10(old(lower.Value()), k),
           Scale10(old(upper.Value()), k), denominator.Value(), even,
           Min(old(numerator.exp), denominator.exp), old(lower.exp));
  }

  /** What the test numerator <[=] lower really says. */
  lemma LowTest(nb: seq<Bigit>, ne: nat, lb: seq<Bigit>, le: nat, c: int, even: bool)
    requires Normal(lb) && (Normal(nb) || nb == [0])
    requires c == Order(nb, ne, lb, le)
    ensures LowSays(c - (if even then 1 else 0) < 0, Val(nb, ne), Val(lb, le), ne, le, even)
  {
    ValBound(lb, le);
    if Normal(nb) {
      CompareSound(nb, ne, lb, le);
      ValBound(nb, ne);
    } else {
      ZeroValue(ne);
      if ne + 1 <= |lb| + le {
        RadixMonotone(ne, |lb| + le - 1);
      } else {
        RadixMonotone(|lb| + le, ne);
      }
    }
  }

  lemma {:induction false} ZeroValue(exp: nat)
    ensures Val([0], exp) == 0
  {
    if exp > 0 {
      ZeroValue(exp - 1);
    }
  }

  lemma AppendDigit(n: int, q: int, before: int, digit: int, rest: int, d: int)
    requires n == Times(q, 10 * d) + before && before == Times(digit, d) + rest
    ensures n == Times(10 * q + digit, d) + rest
    ensures 10 * n == Times(10 * q + digit, 10 * d) + 10 * rest
  {
    assert (10 * q + digit) * d == q * (10 * d) + digit * d;
    assert (10 * q + digit) * (10 * d) == 10 * ((10 * q + digit) * d);
  }

  /** The candidate chosen when the generator stops. */
  lemma Chosen(st: LastStep, n: int, l: int, u: int, d: int, even: bool, m: nat, le: nat)
    requires StopsAt(st, n, l, u, d, even, m, le)
    ensures Within(Times(Printed(st), d), n, l, u, even)
    ensures Best(Printed(st), n, l, u, d, even) <==> !Strays(st, l, d, even, m, le)
  {
    var p0 := 10 * st.q + st.digit;
    AppendDigit(n, st.q, st.before, st.digit, st.rest, d);
    NextTimes(p0, d);
    hide Times;
    CoarsestHere(st.q, st.before, n, l, u, d, even);
    if Strays(st, l, d, even, m, le) {
      NotBest(st, n, l, u, d, even, m, le);
    } else {
      ClosestHere(st, n, l, u, d, even, m, le);
    }
  }

  /** A stray step leaves a shorter or a nearer decimal inside, or prints an excluded end point. */
  lemma NotBest(st: LastStep, n: int, l: int, u: int, d: int, even: bool, m: nat, le: nat)
    requires StopsAt(st, n, l, u, d, even, m, le) && Strays(st, l, d, even, m, le)
    requires n == Times(10 * st.q + st.digit, d) + st.rest
    ensures !Best(Printed(st), n, l, u, d, even)
  {
    var p0 := 10 * st.q + st.digit;
    NextTimes(p0, d);
    hide Times, Coarsest;
    if st.before == 0 || (even && st.before == l) {
      CoarsestHere(st.q, st.before, n, l, u, d, even);
    } else if st.up {
      assert Inside(Times(p0, d), n, l, u, even);
    }
  }

  lemma NextTimes(p: int, d: int)
    ensures Times(p + 1, d) == Times(p, d) + d
  {
  }

  lemma ClosestHere(st: LastStep, n: int, l: int, u: int, d: int, even: bool, m: nat, le: nat)
    requires StopsAt(st, n, l, u, d, even, m, le) && !Strays(st, l, d, even, m, le)
    requires n == Times(10 * st.q + st.digit, d) + st.rest
    ensures Closest(Printed(st), n, l, u, d, even)
  {
    var p, p0 := Printed(st), 10 * st.q + st.digit;
    NextTimes(p0, d);
    forall j: int | Inside(Times(j, d), n, l, u, even)
      ensures Abs(Times(p, d) - n) <= Abs(Times(j, d) - n)
    {
      Neighbours(j, p0, d);
    }
  }

  lemma Neighbours(m: int, p: int, d: int)
    requires d > 0
    ensures m <= p ==> m * d <= p * d
    ensures m >= p + 1 ==> m * d >= p * d + d
  {
    if m <= p {
      MulAtLeast(p, m, d);
    }
    if m >= p + 1 {
      MulAtLeast(m, p + 1, d);
      assert (p + 1) * d == p * d + d;
    }
  }

  /** The digits before the last one are inside only if they reach the lower boundary. */
  lemma CoarsestHere(q: int, before: int, n: int, l: int, u: int, d: int, even: bool)
    requires n == Times(q, 10 * d) + before && d > 0 && 0 <= before && 0 < l <= u
    requires before + u <= 10 * d && (even ==> before + u < 10 * d)
    ensures Coarsest(n, l, u, d, even) <==> if even then before > l else before >= l
  {
    if if even then before > l else before >= l {
      forall j: int
        ensures !Inside(Times(j, 10 * d), n, l, u, even)
      {
        Neighbours(j, q, 10 * d);
      }
    } else {
      assert Inside(Times(q, 10 * d), n, l, u, even);
    }
  }

  // ---- A given number of digits ---------------------------------------------------------------

  /** q units of d are s rounded to nearest, ties to even. */
  ghost predicate RoundsTo(q: int, d: int, s: int)
  {
    var twice := 2 * (Times(q, d) - s);
    -d <= twice <= d && (twice == d || twice == -d ==> q % 2 == 0)
  }

  /** Writes the leading count digits and leaves the rest of the value in numerator. */
  method LeadingDigits(numerator: Bigint, denominator: Bigint, ghost n0: nat, count: nat)
    returns (buf: seq<char>)
    requires numerator != denominator && Normal(denominator.bigits)
    requires Shaped(numerator, denominator) && Ordered(numerator, denominator, n0, 0)
    requires numerator.Value() == n0 < 10 * denominator.Value()
    modifies numerator
    ensures |buf| == count && AllDigits(buf)
    ensures Shaped(numerator, denominator) && Ordered(numerator, denominator, n0, count)
    ensures Scale10(n0, count) == Times(DecimalValue(buf), 10 * denominator.Value()) + numerator.Value()
    ensures numerator.Value() < 10 * denominator.Value()
  {
    hide Shaped, Ordered, NeverEqual, Val;
    buf := [];
    var i := 0;
    while i < count
      invariant 0 <= i <= count && |buf| == i && AllDigits(buf)
      invariant Shaped(numerator, denominator) && Ordered(numerator, denominator, n0, i)
      invariant Scale10(n0, i) == Times(DecimalValue(buf), 10 * denominator.Value()) + numerator.Value()
      invariant numerator.Value() < 10 * denominator.Value()
    {
      ghost var before, q := numerator.Value(), DecimalValue(buf);
      var digit := NextDigit(numerator, denominator, n0, i);
      AppendDigit(Scale10(n0, i), q, before, digit, numerator.Value(), denominator.Value());
      buf := PutDigit(buf, digit);
      TimesTen(numerator, denominator, n0, i);
      i := i + 1;
    }
  }

  /** Moves an overflowing last digit up through the nines before it. */
  method PropagateCarry(digits: seq<char>) returns (buf: seq<char>)
    requires |digits| > 0 && DigitOf(digits[|digits| - 1]) == 10
    requires forall j :: 0 <= j < |digits| - 1 ==> '0' <= digits[j] <= '9'
    ensures |buf| == |digits| && DecimalValue(buf) == DecimalValue(digits)
    ensures AllDigits(buf[1..]) && '0' <= buf[0]
    ensures !AllDigits(buf) ==> DigitOf(buf[0]) == 10 && forall j :: 1 <= j < |buf| ==> buf[j] == '0'
  {
    var overflow := DigitChar(10);
    buf := digits;
    var i := |digits| - 1;
    while i > 0 && buf[i] == overflow
      invariant 0 <= i < |buf| == |digits|
      invariant forall j :: 0 <= j < i ==> '0' <= buf[j] <= '9'
      invariant '0' <= buf[i] <= overflow
      invariant forall j :: i < j < |buf| ==> buf[j] == '0'
      invariant DecimalValue(buf) == DecimalValue(digits)
    {
      CarryUp(buf, i);
      buf := buf[i := '0'];
      buf := buf[i - 1 := buf[i - 1] + 1 as char];
      i := i - 1;
    }
  }

  lemma CarryUp(s: seq<char>, i: nat)
    requires 0 < i < |s| && DigitOf(s[i]) == 10 && '0' <= s[i - 1] <= '9'
    ensures DecimalValue(s[i := '0'][i - 1 := s[i - 1] + 1 as char]) == DecimalValue(s)
  {
    hide DecimalValue, Pow;
    DecimalUpdate(s, i, '0');
    DecimalUpdate(s[i := '0'], i - 1, s[i - 1] + 1 as char);
    TenMore(|s| - 1 - i);
  }

  lemma TenMore(e: nat)
    ensures Pow(10, e + 1) == 10 * Pow(10, e)
  {
  }

  /** Appends a nine rounded up: the carry ripples, and may turn all the nines into a leading one. */
  method AppendCarry(digits: seq<char>, fixed: bool) returns (buf: seq<char>, carried: bool)
    requires AllDigits(digits)
    ensures AllDigits(buf) && (carried ==> !fixed)
    ensures var count := |digits| + 1;
      && (|buf| == count || (fixed && |buf| == count + 1 && DecimalValue(buf) == Pow(10, count)))
      && (carried ==> DecimalValue(buf) == Pow(10, count - 1))
    ensures (if carried then 10 * DecimalValue(buf) else DecimalValue(buf)) == 10 * DecimalValue(digits) + 10
  {
    carried := false;
    DecimalPush(digits, DigitChar(10));
    buf := PropagateCarry(digits + [DigitChar(10)]);
    if buf[0] == DigitChar(10) {
      AllNines(buf);
      buf := buf[0 := '1'];
      if fixed {
        DecimalPush(buf, '0');
        buf := buf + ['0'];
      } else {
        carried := true;
      }
    }
  }

  /** Writes count digits rounded to nearest even; carried says that the exponent went up by one. */
  method RoundedDigits(numerator: Bigint, denominator: Bigint, count: nat, fixed: bool)
    returns (buf: seq<char>, carried: bool)
    requires numerator != denominator && Normal(denominator.bigits) && count > 0
    requires Shaped(numerator, denominator) && Ordered(numerator, denominator, numerator.Value(), 0)
    requires numerator.Value() < 10 * denominator.Value()
    modifies numerator
    ensures AllDigits(buf) && (carried ==> !fixed)
    ensures |buf| == count || (fixed && |buf| == count + 1 && DecimalValue(buf) == Pow(10, count))
    ensures carried ==> DecimalValue(buf) == Pow(10, count - 1)
    ensures RoundsTo(if carried then 10 * DecimalValue(buf) else DecimalValue(buf), denominator.Value(),
                     Scale10(old(numerator.Value()), count - 1))
  {
    ghost var n0, d := numerator.Value(), denominator.Value();
    carried := false;
    buf := LeadingDigits(numerator, denominator, n0, count - 1);
    ghost var q, before := DecimalValue(buf), numerator.Value();
    var digit := NextDigit(numerator, denominator, n0, count - 1);
    LastDigit(Scale10(n0, count - 1), q, before, digit, numerator.Value(), d);
    var up := RoundsUp(numerator, denominator, digit);
    if up {
      if digit == 9 {
        buf, carried := AppendCarry(buf, fixed);
        return;
      }
      digit := digit + 1;
    }
    buf := PutDigit(buf, digit);
  }

  /** Rounding up exactly when it should be makes the result the nearest, ties to even. */
  lemma LastDigit(s: int, q: int, before: int, digit: int, rest: int, d: int)
    requires s == Times(q, 10 * d) + before && before == Times(digit, d) + rest && 0 <= rest < d
    ensures 2 * rest > d || (2 * rest == d && digit % 2 != 0) ==> RoundsTo(10 * q + (digit + 1), d, s)
    ensures !(2 * rest > d || (2 * rest == d && digit % 2 != 0)) ==> RoundsTo(10 * q + digit, d, s)
  {
    hide Times;
    AppendDigit(s, q, before, digit, rest, d);
    NextTimes(10 * q + digit, d);
    LastParity(q, digit);
  }

  lemma LastParity(q: int, digit: int)
    ensures (10 * q + digit) % 2 == digit % 2 && (10 * q + digit + 1) % 2 == (digit + 1) % 2
  {
    DivModIs(10 * q + digit, 2, 5 * q + digit / 2, digit % 2);
    DivModIs(10 * q + digit + 1, 2, 5 * q + (digit + 1) / 2, (digit + 1) % 2);
  }

  /** After a carry through all nines only the leading character is left to fix. */
  lemma AllNines(s: seq<char>)
    requires |s| > 0 && DigitOf(s[0]) == 10 && forall j :: 1 <= j < |s| ==> s[j] == '0'
    ensures DecimalValue(s[0 := '1']) == Pow(10, |s| - 1)
    ensures DecimalValue(s) == 10 * Pow(10, |s| - 1)
  {
    DecimalOneZeros(s[0 := '1']);
    DecimalUpdate(s, 0, '1');
  }
}
