/** Integer powers and the few facts about them that the numeric models need. */
module Powers {

  function Pow(b: nat, e: nat): nat
  {
    if e == 0 then 1 else b * Pow(b, e - 1)
  }

  lemma {:induction false} PowPositive(b: nat, e: nat)
    requires b > 0
    ensures Pow(b, e) > 0
  {
    if e > 0 {
      PowPositive(b, e - 1);
    }
  }

  lemma {:induction false} PowAdd(b: nat, m: nat, n: nat)
    ensures Pow(b, m + n) == Pow(b, m) * Pow(b, n)
  {
    if m > 0 {
      PowAdd(b, m - 1, n);
      assert Pow(b, m + n) == b * Pow(b, (m - 1) + n) && Pow(b, m) == b * Pow(b, m - 1);
      hide Pow;
      MulAssociative(b, Pow(b, m - 1), Pow(b, n));
    }
  }

  lemma MulAssociative(x: nat, y: nat, z: nat)
    ensures x * (y * z) == (x * y) * z
  {
  }

  /** Known powers multiplied, for powers of large numbers written out. */
  lemma PowKnown(b: nat, m: nat, n: nat, x: nat, y: nat)
    requires Pow(b, m) == x && Pow(b, n) == y
    ensures Pow(b, m + n) == x * y
  {
    PowAdd(b, m, n);
  }

  lemma PowMonotone(b: nat, m: nat, n: nat)
    requires b > 0 && m <= n
    ensures Pow(b, m) <= Pow(b, n)
  {
    PowAdd(b, m, n - m);
    PowPositive(b, m);
    PowPositive(b, n - m);
    MulGrows(Pow(b, m), Pow(b, n - m));
  }

  lemma MulGrows(x: nat, k: nat)
    requires k > 0
    ensures x <= x * k
  {
  }

  lemma {:induction false} PowProduct(a: nat, b: nat, e: nat)
    ensures Pow(a * b, e) == Pow(a, e) * Pow(b, e)
  {
    if e > 0 {
      PowProduct(a, b, e - 1);
      MulSwap(a, b, Pow(a, e - 1), Pow(b, e - 1));
    }
  }

  lemma MulSwap(a: int, b: int, x: int, y: int)
    ensures (a * b) * (x * y) == (a * x) * (b * y)
  {
    assert (a * b) * (x * y) == a * (b * (x * y));
    assert b * (x * y) == x * (b * y);
    assert a * (x * (b * y)) == (a * x) * (b * y);
  }

  lemma {:induction false} PowOfPow(b: nat, m: nat, n: nat)
    ensures Pow(Pow(b, m), n) == Pow(b, m * n)
  {
    if n > 0 {
      PowOfPow(b, m, n - 1);
      PowAdd(b, m, m * (n - 1));
      assert m + m * (n - 1) == m * n;
    }
  }

  lemma MulAtLeast(x: int, y: int, p: int)
    requires x >= y && p >= 0
    ensures x * p >= y * p
  {
  }

  /** Comparing powers compares exponents. */
  lemma PowOrder(b: nat, m: nat, n: nat)
    requires b > 1 && Pow(b, m) < Pow(b, n)
    ensures m < n
  {
    if n <= m {
      PowMonotone(b, n, m);
    }
  }

  lemma Pow2To32()
    ensures Pow(2, 32) == 0x1_0000_0000
  {
    PowAdd(2, 16, 16);
    PowAdd(2, 8, 8);
    assert Pow(2, 8) == 256 by {
      PowAdd(2, 4, 4);
      assert Pow(2, 4) == 16;
    }
  }

  /** Quotient and remainder are determined. */
  lemma DivModIs(a: int, w: nat, q: int, r: nat)
    requires r < w && a == q * w + r
    ensures a % w == r && a / w == q
  {
    var d := a / w - q;
    assert d * w == r - a % w;
    assert d >= 1 ==> d * w >= w;
    assert d <= -1 ==> d * w <= -(w as int);
  }
}
