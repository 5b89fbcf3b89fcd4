/** Little-endian base-2^32 numerals: the number a bigit sequence with an exponent stands for. */
module Digits {
  import opened Powers

  /** A big digit: a 32-bit unsigned integer. */
  type Bigit = x: int | 0 <= x < 0x1_0000_0000

  /** The weight of the bigit at position e. */
  function Radix(e: nat): nat
  {
    if e == 0 then 1 else 0x1_0000_0000 * Radix(e - 1)
  }

  /** The number written by s, least significant bigit first. */
  function Number(s: seq<Bigit>): nat
  {
    if s == [] then 0 else s[0] + 0x1_0000_0000 * Number(s[1..])
  }

  /** The number written by s scaled by 0x1_0000_0000^exp. */
  function Val(s: seq<Bigit>, exp: nat): nat
  {
    if exp == 0 then Number(s) else 0x1_0000_0000 * Val(s, exp - 1)
  }

  /** The leading bigit is not zero, so the length says how large the number is. */
  predicate Normal(s: seq<Bigit>)
  {
    |s| > 0 && s[|s| - 1] != 0
  }

  /** The shape remove_leading_zeros leaves: no leading zero, except a single one for zero itself. */
  predicate Trimmed(s: seq<Bigit>)
  {
    Normal(s) || s == [0]
  }

  function Zeros(n: nat): (r: seq<Bigit>)
    ensures |r| == n
  {
    seq(n, i => 0)
  }

  function Sign(x: int): int
  {
    if x > 0 then 1 else if x < 0 then -1 else 0
  }

  lemma {:induction false} RadixPositive(e: nat)
    ensures Radix(e) > 0
  {
    if e > 0 {
      RadixPositive(e - 1);
    }
  }

  lemma {:induction false} RadixAdd(m: nat, n: nat)
    ensures Radix(m + n) == Radix(m) * Radix(n)
  {
    if m > 0 {
      RadixAdd(m - 1, n);
      BelowProduct(Radix(n), 0x1_0000_0000, Radix(m - 1));
    }
  }

  lemma {:induction false} RadixMonotone(m: nat, n: nat)
    requires m <= n
    ensures Radix(m) <= Radix(n)
    decreases n
  {
    RadixPositive(n);
    if m < n {
      RadixMonotone(m, n - 1);
    }
  }

  /** Comparing weights compares positions. */
  lemma RadixOrder(m: nat, n: nat)
    ensures Radix(m) < Radix(n) ==> m < n
  {
    if n <= m {
      RadixMonotone(n, m);
    }
  }

  lemma {:induction false} RadixIsPow2(e: nat)
    ensures Radix(e) == Pow(2, 32 * e)
  {
    if e > 0 {
      RadixIsPow2(e - 1);
      Pow2To32();
      PowAdd(2, 32, 32 * (e - 1));
    }
  }

  lemma {:induction false} ValIsProduct(s: seq<Bigit>, exp: nat)
    ensures Val(s, exp) == Number(s) * Radix(exp)
  {
    if exp > 0 {
      ValIsProduct(s, exp - 1);
      BelowProduct(Number(s), 0x1_0000_0000, Radix(exp - 1));
    }
  }

  lemma BelowProduct(x: int, p: int, q: int)
    ensures x * (p * q) == (x * p) * q == p * (x * q)
  {
  }

  lemma NumberFirst(d: Bigit, s: seq<Bigit>)
    ensures Number([d] + s) == d + 0x1_0000_0000 * Number(s)
  {
    assert ([d] + s)[1..] == s;
  }

  lemma {:induction false} NumberConcat(a: seq<Bigit>, b: seq<Bigit>)
    ensures Number(a + b) == Number(a) + Radix(|a|) * Number(b)
  {
    if a == [] {
      assert a + b == b;
    } else {
      NumberConcat(a[1..], b);
      NumberFirst(a[0], a[1..]);
      NumberFirst(a[0], a[1..] + b);
      assert a == [a[0]] + a[1..] && a + b == [a[0]] + (a[1..] + b);
      assert Radix(|a|) == 0x1_0000_0000 * Radix(|a| - 1);
      hide Number, Radix;
      ConcatCore(a[0], Number(a[1..]), Radix(|a| - 1), Number(b));
    }
  }

  lemma ConcatCore(d: int, low: int, p: int, high: int)
    ensures d + 0x1_0000_0000 * (low + p * high) == (d + 0x1_0000_0000 * low) + (0x1_0000_0000 * p) * high
  {
    assert (0x1_0000_0000 * p) * high == 0x1_0000_0000 * (p * high);
  }

  lemma {:induction false} NumberPush(s: seq<Bigit>, d: Bigit)
    ensures Number(s + [d]) == Number(s) + d * Radix(|s|)
  {
    if s == [] {
      assert s + [d] == [d];
    } else {
      assert (s + [d])[1..] == s[1..] + [d];
      NumberPush(s[1..], d);
      BelowProduct(d, 0x1_0000_0000, Radix(|s| - 1));
    }
  }

  lemma NumberPrefix(s: seq<Bigit>, i: nat)
    requires i < |s|
    ensures Number(s[..i + 1]) == Number(s[..i]) + s[i] * Radix(i)
  {
    assert s[..i + 1] == s[..i] + [s[i]];
    NumberPush(s[..i], s[i]);
  }

  lemma NumberUpdate(s: seq<Bigit>, i: nat, d: Bigit)
    requires i < |s|
    ensures Number(s[i := d][..i + 1]) == Number(s[..i]) + d * Radix(i)
  {
    assert s[i := d][..i] == s[..i];
    NumberPrefix(s[i := d], i);
  }

  lemma {:induction false} NumberBound(s: seq<Bigit>)
    ensures Number(s) < Radix(|s|)
  {
    if s != [] {
      NumberBound(s[1..]);
    }
  }

  lemma {:induction false} NumberZeros(n: nat)
    ensures Number(Zeros(n)) == 0
  {
    if n > 0 {
      NumberZeros(n - 1);
      assert Zeros(n)[1..] == Zeros(n - 1);
    }
  }

  lemma {:induction false} NumberZeroMeansZeros(s: seq<Bigit>)
    requires Number(s) == 0
    ensures s == Zeros(|s|)
  {
    if s != [] {
      NumberZeroMeansZeros(s[1..]);
      assert s == [s[0]] + s[1..];
    }
  }

  /** A normalised numeral is at least the power its leading bigit stands for. */
  lemma {:induction false} NormalLower(s: seq<Bigit>)
    requires Normal(s)
    ensures Number(s) >= Radix(|s| - 1) > 0
  {
    RadixPositive(|s| - 1);
    if |s| > 1 {
      NormalLower(s[1..]);
    }
  }

  /** Conversely a number that large leaves no room for a leading zero. */
  lemma NormalByNumber(s: seq<Bigit>)
    requires |s| > 0
    ensures Number(s) >= Radix(|s| - 1) ==> Normal(s)
  {
    var n := |s| - 1;
    if s[n] == 0 {
      assert s == s[..n] + [0];
      NumberPush(s[..n], 0);
      NumberBound(s[..n]);
    }
  }

  lemma {:induction false} ValBound(s: seq<Bigit>, exp: nat)
    ensures Val(s, exp) < Radix(|s| + exp)
    ensures Normal(s) ==> Val(s, exp) >= Radix(|s| + exp - 1) > 0
  {
    if exp == 0 {
      NumberBound(s);
      if Normal(s) {
        NormalLower(s);
      }
    } else {
      ValBound(s, exp - 1);
    }
  }

  /** Of two operands of different lengths a normalised longer one is the larger. */
  lemma LongerIsLarger(a: seq<Bigit>, ea: nat, b: seq<Bigit>, eb: nat)
    requires Normal(a) && |a| + ea > |b| + eb
    ensures Val(a, ea) > Val(b, eb)
  {
    ValBound(a, ea);
    ValBound(b, eb);
    RadixMonotone(|b| + eb, |a| + ea - 1);
  }

  /** The bigit at absolute position i, zero outside the stored ones. */
  function BigitAt(s: seq<Bigit>, exp: nat, i: int): Bigit
  {
    if exp <= i < exp + |s| then s[i - exp] else 0
  }

  /** The part of the number at positions i and above, in units of 0x1_0000_0000^i. */
  function High(s: seq<Bigit>, exp: nat, i: nat): nat
  {
    if i >= exp + |s| then 0
    else if i >= exp then Number(s[i - exp..])
    else Val(s, exp - i)
  }

  lemma HighStep(s: seq<Bigit>, exp: nat, i: nat)
    ensures High(s, exp, i) == 0x1_0000_0000 * High(s, exp, i + 1) + BigitAt(s, exp, i)
  {
    if exp <= i < exp + |s| {
      var k := i - exp;
      assert s[k..][0] == s[k] && s[k..][1..] == s[k + 1..];
      assert Number(s[k..]) == s[k] + 0x1_0000_0000 * Number(s[k + 1..]);
      if i + 1 == exp + |s| {
        assert s[k + 1..] == [];
      }
    } else if i < exp {
      assert Val(s, exp - i) == 0x1_0000_0000 * Val(s, exp - i - 1);
      if i + 1 == exp {
        assert s[0..] == s;
      }
    }
  }

  lemma {:induction false} ValConcat(low: seq<Bigit>, high: seq<Bigit>, exp: nat)
    ensures Val(low + high, exp) == Val(high, exp + |low|) + Val(low, exp)
    decreases exp, |low|
  {
    if exp > 0 {
      ValConcat(low, high, exp - 1);
    } else if low == [] {
      assert low + high == high;
    } else {
      assert (low + high)[1..] == low[1..] + high;
      ValConcat(low[1..], high, 0);
    }
  }

  lemma {:induction false} ValZeros(n: nat, exp: nat)
    ensures Val(Zeros(n), exp) == 0
  {
    if exp == 0 {
      NumberZeros(n);
    } else {
      ValZeros(n, exp - 1);
    }
  }

  lemma {:induction false} ValZeroMeansZeros(s: seq<Bigit>, exp: nat)
    requires Val(s, exp) == 0
    ensures s == Zeros(|s|)
  {
    if exp == 0 {
      NumberZeroMeansZeros(s);
    } else {
      ValZeroMeansZeros(s, exp - 1);
    }
  }

  lemma {:induction false} ValScale(a: seq<Bigit>, b: seq<Bigit>, v: int, exp: nat)
    requires Number(a) == Number(b) * v
    ensures Val(a, exp) == Val(b, exp) * v
  {
    if exp > 0 {
      ValScale(a, b, v, exp - 1);
      BelowProduct(0x1_0000_0000, Val(b, exp - 1), v);
    }
  }

  /** High(i) is the number divided by 0x1_0000_0000^i, rounded down; exact at or below the exponent. */
  lemma {:induction false} HighBounds(s: seq<Bigit>, exp: nat, i: nat)
    ensures High(s, exp, i) * Radix(i) <= Val(s, exp) < (High(s, exp, i) + 1) * Radix(i)
    ensures i <= exp ==> High(s, exp, i) * Radix(i) == Val(s, exp)
  {
    if i == 0 {
      HighAtZero(s, exp);
    } else {
      HighBounds(s, exp, i - 1);
      HighStep(s, exp, i - 1);
      StepDown(High(s, exp, i), BigitAt(s, exp, i - 1), Radix(i - 1));
    }
  }

  lemma HighAtZero(s: seq<Bigit>, exp: nat)
    ensures High(s, exp, 0) == Val(s, exp)
  {
    if exp + |s| == 0 {
    } else if exp == 0 {
      assert s[0..] == s;
    }
  }

  lemma StepDown(h: int, d: Bigit, p: nat)
    ensures h * (0x1_0000_0000 * p) <= (0x1_0000_0000 * h + d) * p
    ensures d == 0 ==> (0x1_0000_0000 * h + d) * p == h * (0x1_0000_0000 * p)
    ensures (0x1_0000_0000 * h + d + 1) * p <= (h + 1) * (0x1_0000_0000 * p)
  {
    MulAtLeast(0x1_0000_0000, d as int + 1, p);
    assert (0x1_0000_0000 * h + d) * p == h * (0x1_0000_0000 * p) + d * p;
    assert (h + 1) * (0x1_0000_0000 * p) == h * (0x1_0000_0000 * p) + 0x1_0000_0000 * p;
    assert (d + 1) * p == d * p + p;
  }
}
