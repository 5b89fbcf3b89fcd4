/** Stripping trailing zeros by multiplying with modular inverses. */
module TrailingZeros {
  import opened Powers

  const MAX32 := 0xFFFF_FFFF
  const MAX64 := 0xFFFF_FFFF_FFFF_FFFF
  const TEN_POW_8 := 100000000

  // ---- Rotated products -----------------------------------------------------------------------------

  /** rotr by two bits of a 32-bit word. */
  function Rotate2(m: nat): nat
  {
    m / 4 + m % 4 * 0x4000_0000
  }

  /** rotr by one bit. */
  function Rotate1(m: nat): nat
  {
    m / 2 + m % 2 * 0x8000_0000
  }

  function LongRotate2(m: nat): nat
  {
    m / 4 + m % 4 * 0x4000_0000_0000_0000
  }

  function LongRotate1(m: nat): nat
  {
    m / 2 + m % 2 * 0x8000_0000_0000_0000
  }

  /** n times the inverse of 25 modulo 2^32, rotated by two bits. */
  function Hundredth(n: nat): nat
  {
    Rotate2(n * 0xC28F_5C29 % 0x1_0000_0000)
  }

  /** n times the inverse of 5, rotated by one bit. */
  function Tenth(n: nat): nat
  {
    Rotate1(n * 0xCCCC_CCCD % 0x1_0000_0000)
  }

  function LongHundredth(n: nat): nat
  {
    LongRotate2(n * 0x8F5C_28F5_C28F_5C29 % 0x1_0000_0000_0000_0000)
  }

  function LongTenth(n: nat): nat
  {
    LongRotate1(n * 0xCCCC_CCCC_CCCC_CCCD % 0x1_0000_0000_0000_0000)
  }

  // From the wrapped product back to n, and from a multiple to its wrapped product.

  /** Two words that differ by a multiple of the word's range are equal. */
  lemma SameWord(a: int, b: int, d: int, w: int)
    requires (w == 0x1_0000_0000 || w == 0x1_0000_0000_0000_0000) && 0 <= a < w && 0 <= b < w && a == d * w + b
    ensures a == b
  {
  }

  lemma From25(n: int, t: int, m: int, q: int)
    requires 0 <= n <= MAX32 && n * 0xC28F_5C29 == t * 0x1_0000_0000 + m
    requires m == 4 * q && 0 <= 100 * q <= MAX32
    ensures n == 100 * q
  {
    assert n + 19 * n * 0x1_0000_0000 == 25 * t * 0x1_0000_0000 + 100 * q;
    SameWord(n, 100 * q, 25 * t - 19 * n, 0x1_0000_0000);
  }

  lemma To25(q: nat)
    requires 100 * q <= MAX32
    ensures (100 * q) * 0xC28F_5C29 % 0x1_0000_0000 == 4 * q
  {
    DivModIs((100 * q) * 0xC28F_5C29, 0x1_0000_0000, 76 * q, 4 * q);
  }

  lemma From5(n: int, t: int, m: int, q: int)
    requires 0 <= n <= MAX32 && n * 0xCCCC_CCCD == t * 0x1_0000_0000 + m
    requires m == 2 * q && 0 <= 10 * q <= MAX32
    ensures n == 10 * q
  {
    assert n + 4 * n * 0x1_0000_0000 == 5 * t * 0x1_0000_0000 + 10 * q;
    SameWord(n, 10 * q, 5 * t - 4 * n, 0x1_0000_0000);
  }

  lemma To5(q: nat)
    requires 10 * q <= MAX32
    ensures (10 * q) * 0xCCCC_CCCD % 0x1_0000_0000 == 2 * q
  {
    DivModIs((10 * q) * 0xCCCC_CCCD, 0x1_0000_0000, 8 * q, 2 * q);
  }

  lemma LongFrom25(n: int, t: int, m: int, q: int)
    requires 0 <= n <= MAX64 && n * 0x8F5C_28F5_C28F_5C29 == t * 0x1_0000_0000_0000_0000 + m
    requires m == 4 * q && 0 <= 100 * q <= MAX64
    ensures n == 100 * q
  {
    assert n + 14 * n * 0x1_0000_0000_0000_0000 == 25 * t * 0x1_0000_0000_0000_0000 + 100 * q;
    SameWord(n, 100 * q, 25 * t - 14 * n, 0x1_0000_0000_0000_0000);
  }

  lemma LongTo25(q: nat)
    requires 100 * q <= MAX64
    ensures (100 * q) * 0x8F5C_28F5_C28F_5C29 % 0x1_0000_0000_0000_0000 == 4 * q
  {
    DivModIs((100 * q) * 0x8F5C_28F5_C28F_5C29, 0x1_0000_0000_0000_0000, 56 * q, 4 * q);
  }

  lemma LongFrom5(n: int, t: int, m: int, q: int)
    requires 0 <= n <= MAX64 && n * 0xCCCC_CCCC_CCCC_CCCD == t * 0x1_0000_0000_0000_0000 + m
    requires m == 2 * q && 0 <= 10 * q <= MAX64
    ensures n == 10 * q
  {
    assert n + 4 * n * 0x1_0000_0000_0000_0000 == 5 * t * 0x1_0000_0000_0000_0000 + 10 * q;
    SameWord(n, 10 * q, 5 * t - 4 * n, 0x1_0000_0000_0000_0000);
  }

  lemma LongTo5(q: nat)
    requires 10 * q <= MAX64
    ensures (10 * q) * 0xCCCC_CCCC_CCCC_CCCD % 0x1_0000_0000_0000_0000 == 2 * q
  {
    DivModIs((10 * q) * 0xCCCC_CCCC_CCCC_CCCD, 0x1_0000_0000_0000_0000, 8 * q, 2 * q);
  }

  // A rotated word is small only if no bit was carried over to the top.

  lemma SmallRotation2(m: nat)
    requires m <= MAX32
    ensures Rotate2(m) <= MAX32 / 100 ==> m == 4 * Rotate2(m)
    ensures m % 4 == 0 ==> m == 4 * Rotate2(m)
  {
  }

  lemma SmallRotation1(m: nat)
    requires m <= MAX32
    ensures Rotate1(m) <= MAX32 / 10 ==> m == 2 * Rotate1(m)
    ensures m % 2 == 0 ==> m == 2 * Rotate1(m)
  {
  }

  lemma SmallLongRotation2(m: nat)
    requires m <= MAX64
    ensures LongRotate2(m) <= MAX64 / 100 ==> m == 4 * LongRotate2(m)
    ensures m % 4 == 0 ==> m == 4 * LongRotate2(m)
  {
  }

  lemma SmallLongRotation1(m: nat)
    requires m <= MAX64
    ensures LongRotate1(m) <= MAX64 / 10 ==> m == 2 * LongRotate1(m)
    ensures m % 2 == 0 ==> m == 2 * LongRotate1(m)
  {
  }

  // The quotient is small exactly when the division leaves no remainder, and then it is the quotient.

  lemma HundredthExact(n: nat)
    requires n <= MAX32
    ensures Hundredth(n) <= MAX32 / 100 <==> n % 100 == 0
    ensures n % 100 == 0 ==> n == 100 * Hundredth(n)
  {
    var m := n * 0xC28F_5C29 % 0x1_0000_0000;
    SmallRotation2(m);
    if n % 100 == 0 {
      assert n == 100 * (n / 100);
      To25(n / 100);
    }
    if Hundredth(n) <= MAX32 / 100 {
      From25(n, n * 0xC28F_5C29 / 0x1_0000_0000, m, Hundredth(n));
    }
  }

  lemma TenthExact(n: nat)
    requires n <= MAX32
    ensures Tenth(n) <= MAX32 / 10 <==> n % 10 == 0
    ensures n % 10 == 0 ==> n == 10 * Tenth(n)
  {
    var m := n * 0xCCCC_CCCD % 0x1_0000_0000;
    SmallRotation1(m);
    if n % 10 == 0 {
      assert n == 10 * (n / 10);
      To5(n / 10);
    }
    if Tenth(n) <= MAX32 / 10 {
      From5(n, n * 0xCCCC_CCCD / 0x1_0000_0000, m, Tenth(n));
    }
  }

  lemma LongHundredthExact(n: nat)
    requires n <= MAX64
    ensures LongHundredth(n) <= MAX64 / 100 <==> n % 100 == 0
    ensures n % 100 == 0 ==> n == 100 * LongHundredth(n)
  {
    var m := n * 0x8F5C_28F5_C28F_5C29 % 0x1_0000_0000_0000_0000;
    SmallLongRotation2(m);
    if n % 100 == 0 {
      assert n == 100 * (n / 100);
      LongTo25(n / 100);
    }
    if LongHundredth(n) <= MAX64 / 100 {
      LongFrom25(n, n * 0x8F5C_28F5_C28F_5C29 / 0x1_0000_0000_0000_0000, m, LongHundredth(n));
    }
  }

  lemma LongTenthExact(n: nat)
    requires n <= MAX64
    ensures LongTenth(n) <= MAX64 / 10 <==> n % 10 == 0
    ensures n % 10 == 0 ==> n == 10 * LongTenth(n)
  {
    var m := n * 0xCCCC_CCCC_CCCC_CCCD % 0x1_0000_0000_0000_0000;
    SmallLongRotation1(m);
    if n % 10 == 0 {
      assert n == 10 * (n / 10);
      LongTo5(n / 10);
    }
    if LongTenth(n) <= MAX64 / 10 {
      LongFrom5(n, n * 0xCCCC_CCCC_CCCC_CCCD / 0x1_0000_0000_0000_0000, m, LongTenth(n));
    }
  }

  // ---- Stripping ------------------------------------------------------------------------------------

  /** s zeros taken from n leave r. */
  predicate Leaves(n: nat, r: nat, s: nat)
  {
    n == r * Pow(10, s)
  }

  /** And r ends in none. */
  predicate Stripped(n: nat, r: nat, s: nat)
  {
    Leaves(n, r, s) && r % 10 != 0
  }

  lemma NoneTaken(n: nat)
    ensures Leaves(n, n, 0)
  {
  }

  lemma TwoMore(n: nat, r: nat, r': nat, s: nat)
    requires Leaves(n, r, s) && r == 100 * r'
    ensures Leaves(n, r', s + 2)
  {
    assert Pow(10, s + 2) == 10 * Pow(10, s + 1) && Pow(10, s + 1) == 10 * Pow(10, s);
    Regroup(r', Pow(10, s), 100);
  }

  lemma OneMore(n: nat, r: nat, r': nat, s: nat)
    requires Leaves(n, r, s) && r == 10 * r'
    ensures Leaves(n, r', s + 1)
  {
    assert Pow(10, s + 1) == 10 * Pow(10, s);
    Regroup(r', Pow(10, s), 10);
  }

  lemma LastZero(r: nat, q: nat)
    requires r == 10 * q
    ensures r % 100 == 0 <==> q % 10 == 0
  {
    assert q == 10 * (q / 10) + q % 10;
    assert r == 100 * (q / 10) + 10 * (q % 10);
  }

  lemma Regroup(a: nat, b: nat, c: nat)
    ensures (c * a) * b == a * (c * b)
  {
  }

  /** The number of zeros is determined. */
  lemma StrippedUnique(n: nat, r: nat, s: nat, r': nat, s': nat)
    requires Stripped(n, r, s) && Stripped(n, r', s')
    ensures r == r' && s == s'
  {
    if s < s' {
      MoreZeros(r, s, r', s');
    } else if s' < s {
      MoreZeros(r', s', r, s);
    } else {
      PowPositive(10, s);
      CancelFactor(r, r', Pow(10, s));
    }
  }

  lemma CancelFactor(a: nat, b: nat, p: nat)
    requires p > 0 && a * p == b * p
    ensures a == b
  {
  }

  /** With more zeros taken the other rest would end in one. */
  lemma MoreZeros(r: nat, s: nat, r': nat, s': nat)
    requires s < s' && r * Pow(10, s) == r' * Pow(10, s')
    ensures r % 10 == 0
  {
    var d := s' - s - 1;
    PowAdd(10, d + 1, s);
    assert Pow(10, d + 1) == 10 * Pow(10, d);
    PowPositive(10, s);
    var k := r' * Pow(10, d);
    assert r' * (Pow(10, d + 1) * Pow(10, s)) == (10 * k) * Pow(10, s) by {
      Reassociate(r', Pow(10, d), Pow(10, s));
    }
    CancelFactor(r, 10 * k, Pow(10, s));
  }

  lemma Reassociate(a: nat, b: nat, c: nat)
    ensures a * ((10 * b) * c) == (10 * (a * b)) * c
  {
    assert (10 * b) * c == 10 * (b * c);
    assert a * (b * c) == (a * b) * c;
  }

  /** s |= 1. */
  function OrOne(s: nat): nat
  {
    if s % 2 == 0 then s + 1 else s
  }

  /** The 32-bit variant, which adds the zeros it takes to an even count. */
  method RemoveTrailingZeros32(n: nat, s: nat) returns (r: nat, zeros: nat)
    requires 0 < n <= MAX32 && s % 2 == 0
    ensures 0 < r <= n && s <= zeros && Stripped(n, r, zeros - s)
  {
    hide Hundredth;
    hide Tenth;
    hide Leaves;
    NoneTaken(n);
    r, zeros := n, s;
    while true
      invariant 0 < r <= n && s <= zeros && zeros % 2 == 0 && Leaves(n, r, zeros - s)
      decreases r
    {
      var q := Hundredth(r);
      HundredthExact(r);
      if q > MAX32 / 100 {
        break;
      }
      TwoMore(n, r, q, zeros - s);
      r := q;
      zeros := zeros + 2;
    }
    var q := Tenth(r);
    TenthExact(r);
    if q <= MAX32 / 10 {
      OneMore(n, r, q, zeros - s);
      LastZero(r, q);
      r := q;
      zeros := OrOne(zeros);
    }
  }

  /** The 64-bit variant on a number that 10^8 does not divide. */
  method RemoveLong(n: nat) returns (r: nat, zeros: nat)
    requires 0 < n <= MAX64
    ensures 0 < r <= n && Stripped(n, r, zeros)
  {
    hide LongHundredth;
    hide LongTenth;
    hide Leaves;
    NoneTaken(n);
    r, zeros := n, 0;
    while true
      invariant 0 < r <= n && zeros % 2 == 0 && Leaves(n, r, zeros)
      decreases r
    {
      var q := LongHundredth(r);
      LongHundredthExact(r);
      if q > MAX64 / 100 {
        break;
      }
      TwoMore(n, r, q, zeros);
      r := q;
      zeros := zeros + 2;
    }
    var q := LongTenth(r);
    LongTenthExact(r);
    if q <= MAX64 / 10 {
      OneMore(n, r, q, zeros);
      LastZero(r, q);
      r := q;
      zeros := OrOne(zeros);
    }
  }

  /** The quotient by 10^8 survives the cast to 32 bits. */
  predicate QuotientFits(n: nat)
  {
    n % TEN_POW_8 == 0 ==> n / TEN_POW_8 <= MAX32
  }

  /**
   * The 64-bit variant; ok is false where the quotient by 10^8, cast to 32 bits, fails the other
   * variant's assertion of being nonzero. It is right exactly when the quotient, if there is one,
   * fits into 32 bits.
   */
  method RemoveTrailingZeros64(n: nat) returns (ok: bool, r: nat, zeros: nat)
    requires 0 < n <= MAX64
    ensures ok <==> !(n % TEN_POW_8 == 0 && n / TEN_POW_8 % 0x1_0000_0000 == 0)
    ensures ok && Stripped(n, r, zeros) <==> QuotientFits(n)
    ensures ok && n % TEN_POW_8 == 0 ==> zeros >= 8 && Stripped(n / TEN_POW_8 % 0x1_0000_0000, r, zeros - 8)
  {
    if n % TEN_POW_8 == 0 {
      var quotient := n / TEN_POW_8;
      var n32 := quotient % 0x1_0000_0000;
      if n32 == 0 {
        return false, n, 0;
      }
      r, zeros := RemoveTrailingZeros32(n32, 8);
      EightMore(n32, r, zeros);
      if Stripped(n, r, zeros) {
        assert n == n32 * TEN_POW_8;
      }
      return true, r, zeros;
    }
    ok := true;
    r, zeros := RemoveLong(n);
  }

  /** A number whose quotient is 2^32 + 1: one zero-free digit and eight zeros come out instead. */
  lemma CastExample(r: nat, zeros: nat)
    ensures var n := TEN_POW_8 * 0x1_0000_0001;
      && n <= MAX64 && n % TEN_POW_8 == 0 && !QuotientFits(n)
      && (zeros >= 8 && Stripped(n / TEN_POW_8 % 0x1_0000_0000, r, zeros - 8) ==>
            r == 1 && zeros == 8 && !Stripped(n, r, zeros))
  {
    assert Pow(10, 0) == 1;
    if zeros >= 8 && Stripped(1, r, zeros - 8) {
      StrippedUnique(1, r, zeros - 8, 1, 0);
      EightZeros();
    }
  }

  lemma EightMore(n32: nat, r: nat, zeros: nat)
    requires zeros >= 8 && n32 == r * Pow(10, zeros - 8)
    ensures n32 * TEN_POW_8 == r * Pow(10, zeros)
  {
    PowAdd(10, zeros - 8, 8);
    EightZeros();
    var p := Pow(10, zeros - 8);
    assert (r * p) * TEN_POW_8 == r * (p * TEN_POW_8);
  }

  lemma EightZeros()
    ensures Pow(10, 8) == TEN_POW_8
  {
    assert Pow(10, 2) == 100;
    assert Pow(10, 4) == 100 * Pow(10, 2);
    assert Pow(10, 6) == 100 * Pow(10, 4);
  }
}
