/** The arbitrary-precision unsigned integer behind exact floating-point printing. */
module Bigints {
  import opened Powers
  import opened Digits

  const BIGIT_BITS := 32
  const POW64 := 0x1_0000_0000_0000_0000
  const POW128 := 0x1_0000_0000_0000_0000_0000_0000_0000_0000

  class Bigint {
    var bigits: seq<Bigit>
    var exp: nat

    constructor ()
      ensures bigits == [] && exp == 0
    {
      bigits, exp := [], 0;
    }

    /** The number this object stands for. */
    ghost function Value(): nat
      reads this
    {
      Val(bigits, exp)
    }

    function NumBits(): nat
      reads this
    {
      |bigits| + exp
    }

    function GetBigit(i: int): Bigit
      reads this
    {
      if i >= exp && i < NumBits() then bigits[i - exp] else 0
    }

    /** Assigns a positive machine integer. */
    method Assign(n: nat)
      requires 0 < n < POW128
      modifies this
      ensures Value() == n && exp == 0 && Normal(bigits)
    {
      var rest := n;
      AssignStep([], rest);
      assert [] + [rest % 0x1_0000_0000] == [rest % 0x1_0000_0000];
      bigits, exp := [rest % 0x1_0000_0000], 0;
      rest := rest / 0x1_0000_0000;
      while rest != 0
        invariant exp == 0 && |bigits| > 0 && rest >= 0
        invariant Number(bigits) + rest * Radix(|bigits|) == n
        invariant rest == 0 ==> Normal(bigits)
        decreases rest
      {
        AssignStep(bigits, rest);
        bigits := bigits + [rest % 0x1_0000_0000];
        rest := rest / 0x1_0000_0000;
      }
    }

    /** Copies another number. */
    method AssignFrom(other: Bigint)
      modifies this
      ensures bigits == other.bigits && exp == other.exp
    {
      bigits, exp := other.bigits, other.exp;
    }

    /** Multiplies by 2^shift; whole bigits only move the exponent. */
    method ShiftLeft(shift: nat)
      modifies this
      ensures Value() == old(Value()) * Pow(2, shift)
      ensures exp == old(exp) + shift / 32
      ensures old(Normal(bigits)) ==> Normal(bigits)
    {
      ghost var was := bigits;
      assert Pow(2, 0) == 1;
      hide Pow, Number, Val, Multiplied;
      var s := shift % BIGIT_BITS;
      exp := exp + shift / BIGIT_BITS;
      if s == 0 {
        ShiftValue(bigits, was, old(exp), shift);
        return;
      }
      var m, k := Pow(2, s), Pow(2, BIGIT_BITS - s);
      ShiftFactors(s);
      MultiplyStart(bigits, m);
      var carry := 0;
      var i, n := 0, |bigits|;
      while i < n
        invariant 0 <= i <= n == |bigits|
        invariant 0 <= carry < m && exp == old(exp) + shift / 32
        invariant forall k :: i <= k < n ==> bigits[k] == was[k]
        invariant Multiplied(bigits, was, i, m, carry)
      {
        var d, c := ShiftRound(bigits[i], m, k, carry);
        MultiplyStep(bigits, was, i, m, carry, d, c);
        bigits := bigits[i := d];
        carry := c;
        i := i + 1;
      }
      FinishMultiply(bigits, was, m, carry);
      if carry != 0 {
        bigits := bigits + [carry];
      }
      ShiftValue(bigits, was, old(exp), shift);
    }

    /** One round of the shift: the bits that stay, with those carried in, and the bits carried out. */
    static method ShiftRound(b: Bigit, m: nat, k: nat, carry: nat) returns (d: Bigit, c: nat)
      requires m * k == 0x1_0000_0000 && k > 0 && carry < m
      ensures c < m && d + 0x1_0000_0000 * c == b * m + carry
    {
      c := b / k;
      d := ((b * m) % 0x1_0000_0000 + carry) % 0x1_0000_0000;
      ShiftStep(b, m, k, carry);
    }

    /** Multiplies by a 32-bit value. */
    method Multiply32(value: nat)
      requires value < 0x1_0000_0000
      modifies this
      ensures Value() == old(Value()) * value
      ensures exp == old(exp)
      ensures value > 0 && old(Normal(bigits)) ==> Normal(bigits)
      ensures old(bigits) == [0] ==> bigits == [0]
    {
      ghost var was := bigits;
      hide Number, Val, Multiplied;
      MultiplyStart(bigits, value);
      var carry := 0;
      var i, n := 0, |bigits|;
      while i < n
        invariant 0 <= i <= n == |bigits|
        invariant 0 <= carry < 0x1_0000_0000 && exp == old(exp)
        invariant forall k :: i <= k < n ==> bigits[k] == was[k]
        invariant Multiplied(bigits, was, i, value, carry)
        invariant was == [0] ==> bigits == [0] && carry == 0
      {
        MulAtMost(bigits[i], value);
        var result := bigits[i] * value + carry;
        assert result < POW64;
        var d, c := result % 0x1_0000_0000, result / 0x1_0000_0000;
        MultiplyStep(bigits, was, i, value, carry, d, c);
        bigits := bigits[i := d];
        carry := c;
        i := i + 1;
      }
      FinishMultiply(bigits, was, value, carry);
      if carry != 0 {
        bigits := bigits + [carry];
      }
      ValScale(bigits, was, value, exp);
    }

    /** Subtracts other and an incoming borrow from one bigit, wrapping in 64 bits. */
    method SubtractBigits(index: nat, other: Bigit, borrow: nat) returns (borrowOut: nat)
      requires index < |bigits| && borrow <= 1
      modifies this
      ensures borrowOut <= 1 && exp == old(exp) && |bigits| == old(|bigits|)
      ensures bigits == old(bigits)[index := bigits[index]]
      ensures bigits[index] - 0x1_0000_0000 * borrowOut == old(bigits[index]) - other - borrow
    {
      var result := (bigits[index] - other - borrow) % POW64;
      bigits := bigits[index := result % 0x1_0000_0000];
      borrowOut := result / 0x8000_0000_0000_0000;
    }

    /** Drops leading zero bigits but keeps at least one bigit. */
    method RemoveLeadingZeros()
      requires |bigits| > 0
      modifies this
      ensures exp == old(exp) && Number(bigits) == old(Number(bigits))
      ensures Trimmed(bigits)
    {
      var n := |bigits| - 1;
      assert bigits[..n + 1] == bigits;
      while n > 0 && bigits[n] == 0
        invariant 0 <= n < |bigits| && bigits == old(bigits) && exp == old(exp)
        invariant Number(bigits[..n + 1]) == Number(bigits)
      {
        NumberPrefix(bigits, n);
        n := n - 1;
      }
      bigits := bigits[..n + 1];
    }

    /** Subtracts the bigits of o, an aligned copy of other's, and returns the borrow out of the top. */
    method SubtractAll(other: Bigint, ghost o: seq<Bigit>) returns (borrow: nat)
      requires this != other && exp <= other.exp && other.NumBits() <= NumBits()
      requires o == Zeros(other.exp - exp) + other.bigits
      modifies this
      ensures exp == old(exp) && |bigits| == old(|bigits|) && borrow <= 1
      ensures forall k :: |o| <= k < |bigits| ==> bigits[k] == old(bigits[k])
      ensures Number(bigits[..|o|]) + Number(o) == Number(old(bigits)[..|o|]) + borrow * Radix(|o|)
    {
      hide Number, Radix;
      ghost var was, e := bigits, exp;
      borrow := 0;
      var i, j, n := other.exp - exp, 0, |other.bigits|;
      NumberZeros(i);
      assert o[..i] == Zeros(i);
      while j != n
        invariant 0 <= j <= n && i == other.exp - e + j && 0 <= borrow <= 1
        invariant exp == e && |bigits| == |was| && forall k :: i <= k < |was| ==> bigits[k] == was[k]
        invariant Number(bigits[..i]) + Number(o[..i]) == Number(was[..i]) + borrow * Radix(i)
      {
        ghost var cur := bigits;
        var b := SubtractBigits(i, other.bigits[j], borrow);
        SubtractStep(cur, was, o, i, borrow, bigits[i], b);
        borrow := b;
        i, j := i + 1, j + 1;
      }
      assert o[..i] == o;
    }

    /** Subtracts an aligned number that is not larger; no borrow is lost. */
    method SubtractAligned(other: Bigint)
      requires this != other && exp <= other.exp
      requires other.NumBits() <= NumBits() <= other.NumBits() + 1 && |other.bigits| > 0
      requires Value() >= other.Value()
      modifies this
      ensures Value() == old(Value()) - other.Value()
      ensures exp == old(exp) && Trimmed(bigits)
    {
      ghost var was, o := bigits, Zeros(other.exp - exp) + other.bigits;
      EqualMeansPadded(o, exp, other.bigits, other.exp);
      ValOrder(o, was, exp);
      var i := other.NumBits() - exp;
      var borrow := SubtractAll(other, o);
      if borrow != 0 {
        if i == |was| {
          RoomForBorrow(bigits, was, o, i);
        }
        ghost var cur := bigits;
        borrow := SubtractBigits(i, 0, borrow);
        FinalBorrow(cur, was, o, i, bigits[i], borrow);
      } else {
        SameTop(bigits, was, i);
      }
      assert borrow == 0;
      RemoveLeadingZeros();
      ValDifference(bigits, o, was, exp);
    }

    /** Moves the bigits up by diff places, from the top down, and fills the gap with zeros. */
    method MoveUp(diff: nat)
      requires diff > 0
      modifies this
      ensures exp == old(exp) && bigits == Zeros(diff) + old(bigits)
    {
      ghost var was := bigits;
      var n := |bigits|;
      bigits := bigits + Zeros(diff);
      var i, j := n - 1, n - 1 + diff;
      while i >= 0
        invariant -1 <= i < n && j == i + diff && exp == old(exp)
        invariant |bigits| == n + diff
        invariant forall k :: 0 <= k <= i ==> bigits[k] == was[k]
        invariant forall k :: i < k < n ==> bigits[k + diff] == was[k]
      {
        bigits := bigits[j := bigits[i]];
        i, j := i - 1, j - 1;
      }
      assert bigits[diff..] == was;
      bigits := Zeros(diff) + bigits[diff..];
    }

    /** Writes out trailing zero bigits until the exponent is not above other's. */
    method Align(other: Bigint)
      modifies this
      ensures exp == if old(exp) > other.exp then other.exp else old(exp)
      ensures bigits == Zeros(old(exp) - exp) + old(bigits)
      ensures Value() == old(Value()) && NumBits() == old(NumBits())
      ensures old(Normal(bigits)) ==> Normal(bigits)
    {
      var diff := exp - other.exp;
      if diff <= 0 {
        assert bigits == Zeros(0) + bigits;
        return;
      }
      PaddedValue(bigits, exp, diff);
      MoveUp(diff);
      exp := exp - diff;
    }

    /**
     * Divides by divisor, leaving the remainder here. The one case it gets wrong is a dividend
     * equal to the divisor but stored with the larger exponent: compare calls it the smaller.
     */
    method DivmodAssign(divisor: Bigint) returns (quotient: nat)
      requires this != divisor && Normal(divisor.bigits)
      requires Normal(bigits) || NumBits() <= divisor.NumBits()
      requires Value() < 0x1_0000_0000 * divisor.Value()
      modifies this
      ensures old(Value()) == quotient * divisor.Value() + Value()
      ensures Value() < divisor.Value() <==> !(old(Value()) == divisor.Value() && old(exp) > divisor.exp)
      ensures old(Value()) == divisor.Value() && old(exp) > divisor.exp ==> quotient == 0
      ensures quotient == 0 ==> bigits == old(bigits) && exp == old(exp)
      ensures quotient > 0 ==> Trimmed(bigits) && exp == if old(exp) <= divisor.exp then old(exp) else divisor.exp
      ensures Normal(bigits) || NumBits() <= divisor.NumBits()
    {
      hide Zeros, Val, Order;
      ghost var d := divisor.Value();
      DividendCompared(bigits, exp, divisor.bigits, divisor.exp);
      var c := Compare(this, divisor);
      if c < 0 {
        return 0;
      }
      ghost var start := Value();
      LengthBounds(bigits, exp, divisor.bigits, divisor.exp);
      Align(divisor);
      quotient := 0;
      while true
        invariant exp == if old(exp) <= divisor.exp then old(exp) else divisor.exp
        invariant divisor.NumBits() <= NumBits() <= divisor.NumBits() + 1
        invariant d <= Value()
        invariant start == quotient * d + Value()
        decreases Value()
      {
        QuotientStep(quotient, d, Value());
        SubtractAligned(divisor);
        quotient := quotient + 1;
        RestCompared(bigits, exp, divisor.bigits, divisor.exp);
        c := Compare(this, divisor);
        if c < 0 {
          break;
        }
      }
    }

    /**
     * Multiplies by a 64- or 128-bit value through two half-width products. The carry is at most
     * value itself, so it never leaves its word.
     */
    method MultiplyWide(value: nat, width: nat)
      requires width == 64 || width == 128
      requires value < Pow(2, width)
      modifies this
      ensures Value() == old(Value()) * value
      ensures exp == old(exp)
      ensures value > 0 && old(Normal(bigits)) ==> Normal(bigits)
    {
      ghost var was := bigits;
      hide Pow, Number, Val, Multiplied;
      MultiplyStart(bigits, value);
      var half := Pow(2, width / 2);
      var scale := Pow(2, width / 2 - BIGIT_BITS);
      HalfWidths(width);
      var lower, upper := value % half, value / half;
      DivModLaw(value, half);
      var carry := 0;
      var i, n := 0, |bigits|;
      while i < n
        invariant 0 <= i <= n == |bigits|
        invariant 0 <= carry <= value && exp == old(exp)
        invariant forall k :: i <= k < n ==> bigits[k] == was[k]
        invariant Multiplied(bigits, was, i, value, carry)
      {
        var d, next := WideRound(value, width, half, scale, lower, upper, bigits[i], carry);
        MultiplyStep(bigits, was, i, value, carry, d, next);
        bigits := bigits[i := d];
        carry := next;
        i := i + 1;
      }
      ghost var cur := bigits;
      PushCarry(carry);
      FinishWide(cur, was, value, carry, bigits);
      ValScale(bigits, was, value, exp);
    }

    /** One round of the wide multiplication: a bigit of the product and the next carry; both sums fit their word. */
    static method WideRound(value: nat, width: nat, half: nat, scale: nat, lower: nat, upper: nat, b: Bigit, carry: nat)
      returns (d: Bigit, next: nat)
      requires half == scale * 0x1_0000_0000 && scale > 0 && carry <= value < Pow(2, width) == half * half
      requires value == upper * half + lower && lower < half
      ensures d + 0x1_0000_0000 * next == b * value + carry && next <= value
    {
      hide Pow;
      var low, high := lower * b, upper * b * scale;
      WideProducts(value, half, scale, lower, upper, b);
      d, next := AddCarry(low, high, carry, b * value, value, Pow(2, width));
    }

    /** The carry added to both products; neither sum reaches the word's range. */
    static method AddCarry(low: nat, high: nat, carry: nat, ghost product: nat, ghost value: nat, ghost range: nat)
      returns (d: Bigit, next: nat)
      requires 0x1_0000_0000 * high + low == product <= 0xFFFF_FFFF * value && carry <= value < range
      requires low + 0xFFFF_FFFF < range
      ensures d + 0x1_0000_0000 * next == product + carry && next <= value
    {
      var result := low + carry % 0x1_0000_0000;
      next := high + result / 0x1_0000_0000 + carry / 0x1_0000_0000;
      WideCarry(high, low, product, value, carry);
      assert result < range && next < range;
      d := result % 0x1_0000_0000;
    }

    /** Appends a carry of any size, bigit by bigit. */
    method PushCarry(value: nat)
      modifies this
      ensures exp == old(exp) && Number(bigits) == old(Number(bigits)) + value * Radix(old(|bigits|))
      ensures if value == 0 then bigits == old(bigits) else Normal(bigits)
    {
      ghost var n, total := |bigits|, Number(bigits) + value * Radix(|bigits|);
      var carry := value;
      while carry != 0
        invariant exp == old(exp) && carry >= 0
        invariant Number(bigits) + carry * Radix(|bigits|) == total
        invariant if value == 0 then bigits == old(bigits) else carry == 0 ==> Normal(bigits)
        decreases carry
      {
        AssignStep(bigits, carry);
        bigits := bigits + [carry % 0x1_0000_0000];
        carry := carry / 0x1_0000_0000;
      }
    }

    /** Squares, column by column. */
    method Square()
      requires Normal(bigits) && |bigits| < 0x4000_0000
      modifies this
      ensures Value() == old(Value()) * old(Value())
      ensures Normal(bigits) && exp == 2 * old(exp)
    {
      var n, count := bigits, |bigits|;
      var size := 2 * count;
      bigits := Zeros(size);
      var carry := 0;
      var k := 0;
      while k < count
        invariant 0 <= k <= count && |bigits| == size && exp == old(exp)
        invariant 0 <= carry < 0x8000_0000_0000_0000
        invariant Number(bigits[..k]) + carry * Radix(k) == Columns(n, n, k)
      {
        var sum := LowColumn(n, k, carry);
        ColumnStep(bigits, n, k, carry, sum);
        bigits := bigits[k := sum % 0x1_0000_0000];
        carry := sum / 0x1_0000_0000;
        k := k + 1;
      }
      while k < size
        invariant count <= k <= size && |bigits| == size && exp == old(exp)
        invariant 0 <= carry < 0x8000_0000_0000_0000
        invariant Number(bigits[..k]) + carry * Radix(k) == Columns(n, n, k)
      {
        var sum := HighColumn(n, k, carry);
        ColumnStep(bigits, n, k, carry, sum);
        bigits := bigits[k := sum % 0x1_0000_0000];
        carry := sum / 0x1_0000_0000;
        k := k + 1;
      }
      assert bigits[..size] == bigits;
      SquareDone(bigits, n, carry);
      RemoveLeadingZeros();
      SquareNormal(bigits, n);
      SquareValue(bigits, n, exp);
      exp := exp * 2;
    }

    /** Assigns 10^e: 5^e, then one shift. */
    method AssignPow10(e: nat)
      requires e < 0x8000_0000
      modifies this
      ensures Value() == Pow(10, e) && Normal(bigits) && exp == e / 32
    {
      if e == 0 {
        Assign(1);
        return;
      }
      AssignPow5(e);
      PowProduct(5, 2, e);
      ShiftLeft(e);
    }

    /** One bit of the exponent: square, and multiply by five if the bit is set. */
    method SquareAndMultiply(bit: nat, ghost q: nat)
      requires bit < 2 && q < 0x8000_0000
      requires Normal(bigits) && exp == 0 && Value() == Pow(5, q)
      modifies this
      ensures Normal(bigits) && exp == 0 && Value() == Pow(5, 2 * q + bit)
    {
      SmallEnough(bigits, q);
      PowAdd(5, q, q);
      Square();
      if bit != 0 {
        Multiply32(5);
      }
    }

    /** Assigns 5^e by repeated squaring, following the bits of e from the top. */
    method AssignPow5(e: nat)
      requires 0 < e < 0x8000_0000
      modifies this
      ensures Value() == Pow(5, e) && Normal(bigits) && exp == 0
    {
      var bitmask := HighestBit(e);
      ghost var seen, q := bitmask, 1;
      TopBit(e);
      Assign(5);
      assert Pow(5, 1) == 5;
      bitmask := bitmask / 2;
      while bitmask != 0
        invariant PowerOfTwo(seen) && bitmask == seen / 2 && q == BitsFrom(e, seen)
        invariant exp == 0 && Normal(bigits) && Value() == Pow(5, q)
        decreases bitmask
      {
        var bit := BitsFrom(e, bitmask) % 2;
        BitsBelow(e, seen);
        SquareAndMultiply(bit, q);
        q := 2 * q + bit;
        seen := bitmask;
        bitmask := bitmask / 2;
      }
    }
  }

  /** A column of the lower half of a square; the 128-bit accumulator does not overflow. */
  method LowColumn(n: seq<Bigit>, k: nat, carry: nat) returns (sum: nat)
    requires k < |n| < 0x4000_0000 && carry < 0x8000_0000_0000_0000
    ensures sum == carry + CrossTerms(n, n, k, k + 1)
    ensures sum / 0x1_0000_0000 < 0x8000_0000_0000_0000 && sum < POW128
  {
    sum := carry;
    var i, j := 0, k as int;
    while j >= 0
      invariant i + j == k && 0 <= i <= k + 1
      invariant sum == carry + CrossTerms(n, n, k, i)
      invariant 0 <= sum <= carry + i * 0x1_0000_0000_0000_0000
    {
      MulAtMost(n[i], n[j]);
      sum := sum + n[i] as int * n[j] as int;
      i, j := i + 1, j - 1;
    }
  }

  /** A column of the upper half: only the bigit pairs that exist are multiplied. */
  method HighColumn(n: seq<Bigit>, k: nat, carry: nat) returns (sum: nat)
    requires |n| <= k < 2 * |n| && |n| < 0x4000_0000 && carry < 0x8000_0000_0000_0000
    ensures sum == carry + CrossTerms(n, n, k, k + 1)
    ensures sum / 0x1_0000_0000 < 0x8000_0000_0000_0000 && sum < POW128
  {
    sum := carry;
    var j := |n| - 1;
    var i := k - j;
    CrossBelow(n, k, i);
    while i < |n|
      invariant i + j == k && k - |n| + 1 <= i <= |n|
      invariant sum == carry + CrossTerms(n, n, k, i)
      invariant 0 <= sum <= carry + i * 0x1_0000_0000_0000_0000
    {
      MulAtMost(n[i], n[j]);
      sum := sum + n[i] as int * n[j] as int;
      i, j := i + 1, j - 1;
    }
    CrossAbove(n, k, k + 1);
  }

  lemma MulAtMost(x: Bigit, v: nat)
    requires v < 0x1_0000_0000
    ensures 0 <= x * v <= 0xFFFF_FFFF * 0xFFFF_FFFF
  {
    MulPositive(x, v);
    MulAtLeast(0xFFFF_FFFF, x, v);
  }

  /** The lowest i bigits of an in-place multiplication by v are done, with this carry. */
  ghost predicate Multiplied(cur: seq<Bigit>, was: seq<Bigit>, i: nat, v: nat, carry: nat)
    requires i <= |cur| == |was|
  {
    Number(cur[..i]) + carry * Radix(i) == Number(was[..i]) * v
  }

  lemma MultiplyStart(s: seq<Bigit>, v: nat)
    ensures Multiplied(s, s, 0, v, 0)
  {
    assert Number(s[..0]) == 0;
  }

  /** One step: bigit i becomes d and c carries on. */
  lemma MultiplyStep(cur: seq<Bigit>, was: seq<Bigit>, i: nat, v: nat, carry: nat, d: Bigit, c: nat)
    requires i < |cur| == |was| && Multiplied(cur, was, i, v, carry)
    requires d + 0x1_0000_0000 * c == was[i] * v + carry
    ensures Multiplied(cur[i := d], was, i + 1, v, c)
  {
    NumberUpdate(cur, i, d);
    NumberPrefix(was, i);
    CarryStep(Number(cur[..i]), Number(was[..i]), d, c, was[i], v, carry, Radix(i));
  }

  /** After the last step only the carry is left to append. */
  lemma FinishMultiply(cur: seq<Bigit>, was: seq<Bigit>, v: nat, carry: Bigit)
    requires |cur| == |was| && Multiplied(cur, was, |was|, v, carry)
    ensures Number(if carry != 0 then cur + [carry] else cur) == Number(was) * v
    ensures v > 0 && Normal(was) ==> Normal(if carry != 0 then cur + [carry] else cur)
  {
    assert was[..|was|] == was && cur[..|was|] == cur;
    NumberPush(cur, carry);
    if carry == 0 && v > 0 && Normal(was) {
      StaysNormal(cur, was, v);
    }
  }

  lemma FinishWide(cur: seq<Bigit>, was: seq<Bigit>, v: nat, carry: nat, after: seq<Bigit>)
    requires |cur| == |was| && Multiplied(cur, was, |was|, v, carry)
    requires Number(after) == Number(cur) + carry * Radix(|cur|)
    requires if carry == 0 then after == cur else Normal(after)
    ensures Number(after) == Number(was) * v && (v > 0 && Normal(was) ==> Normal(after))
  {
    assert was[..|was|] == was && cur[..|was|] == cur;
    if carry == 0 && v > 0 && Normal(was) {
      StaysNormal(cur, was, v);
    }
  }

  lemma StaysNormal(cur: seq<Bigit>, was: seq<Bigit>, v: nat)
    requires |cur| == |was| && Normal(was) && v > 0
    requires Number(cur) == Number(was) * v
    ensures Normal(cur)
  {
    NormalLower(was);
    MulGrows(Number(was), v);
    NormalByNumber(cur);
  }

  lemma AssignStep(s: seq<Bigit>, rest: nat)
    ensures Number(s + [rest % 0x1_0000_0000]) + (rest / 0x1_0000_0000) * Radix(|s| + 1)
         == Number(s) + rest * Radix(|s|)
  {
    var q, r := rest / 0x1_0000_0000, rest % 0x1_0000_0000;
    NumberPush(s, r);
    SplitRest(rest, q, r, Radix(|s|));
  }

  lemma SplitRest(x: int, q: int, r: int, p: int)
    requires x == q * 0x1_0000_0000 + r
    ensures r * p + q * (0x1_0000_0000 * p) == x * p
  {
  }

  lemma CarryStep(low: int, was: int, d: int, c: int, x: int, v: int, carry: int, p: int)
    requires low + carry * p == was * v
    requires d + 0x1_0000_0000 * c == x * v + carry
    ensures (low + d * p) + c * (0x1_0000_0000 * p) == (was + x * p) * v
  {
    assert d * p + c * (0x1_0000_0000 * p) == (d + 0x1_0000_0000 * c) * p;
    assert (x * v + carry) * p == (x * p) * v + carry * p;
    assert (was + x * p) * v == was * v + (x * p) * v;
  }

  lemma ShiftStep(b: Bigit, m: nat, k: nat, carry: nat)
    requires m * k == 0x1_0000_0000 && k > 0 && carry < m
    ensures 0 <= b / k < m
    ensures ((b * m) % 0x1_0000_0000 + carry) % 0x1_0000_0000 + 0x1_0000_0000 * (b / k) == b * m + carry
  {
    var c, r := b / k, b % k;
    assert b == c * k + r;
    assert b * m == c * 0x1_0000_0000 + r * m by {
      assert (c * k + r) * m == c * (m * k) + r * m;
    }
    assert r * m + carry < 0x1_0000_0000 by {
      MulAtLeast(k - 1, r, m);
      assert (k - 1) * m == 0x1_0000_0000 - m;
    }
    assert c < m by {
      if c >= m {
        MulAtLeast(c, m, k);
      }
    }
    MulPositive(r, m);
    ModUnique(b * m, c, r * m);
  }

  lemma MulPositive(x: nat, y: nat)
    ensures x * y >= 0
  {
  }

  lemma ModUnique(x: int, q: int, r: int)
    requires x == q * 0x1_0000_0000 + r && 0 <= r < 0x1_0000_0000
    ensures x % 0x1_0000_0000 == r && x / 0x1_0000_0000 == q
  {
  }

  lemma ShiftFactors(s: nat)
    requires 0 < s < 32
    ensures Pow(2, s) * Pow(2, 32 - s) == 0x1_0000_0000
    ensures Pow(2, s) > 0 && Pow(2, 32 - s) > 0
  {
    PowAdd(2, s, 32 - s);
    Pow2To32();
    PowPositive(2, s);
    PowPositive(2, 32 - s);
  }

  /** Raising the exponent by shift / 32 leaves a factor of 2^(shift % 32) to multiply in. */
  lemma ShiftValue(cur: seq<Bigit>, was: seq<Bigit>, exp: nat, shift: nat)
    requires Number(cur) == Number(was) * Pow(2, shift % 32)
    ensures Val(cur, exp + shift / 32) == Val(was, exp) * Pow(2, shift)
  {
    var q, r := shift / 32, shift % 32;
    ValIsProduct(cur, exp + q);
    ValIsProduct(was, exp);
    RadixAdd(exp, q);
    RadixIsPow2(q);
    PowAdd(2, 32 * q, r);
    assert 32 * q + r == shift;
    Regroup(Number(was), Radix(exp), Radix(q), Pow(2, r));
  }

  lemma Regroup(x: int, a: int, b: int, c: int)
    ensures (x * c) * (a * b) == (x * a) * (b * c)
  {
    MulSwap(x, c, a, b);
    MulSwap(x, a, c, b);
    assert c * b == b * c;
  }

  /**
   * What compare answers: first by stored length, then by value, and between equal values
   * the operand with more stored bigits counts as the larger one.
   */
  ghost function Order(a: seq<Bigit>, ea: nat, b: seq<Bigit>, eb: nat): int
  {
    if |a| + ea != |b| + eb then Sign(|a| + ea - |b| - eb)
    else if Val(a, ea) != Val(b, eb) then Sign(Val(a, ea) - Val(b, eb))
    else Sign(eb - ea)
  }

  method Compare(b1: Bigint, b2: Bigint) returns (r: int)
    ensures r == Order(b1.bigits, b1.exp, b2.bigits, b2.exp)
  {
    var n1, n2 := b1.NumBits(), b2.NumBits();
    if n1 != n2 {
      return if n1 > n2 then 1 else -1;
    }
    hide Order;
    var i, j := |b1.bigits| - 1, |b2.bigits| - 1;
    var end := if i - j < 0 then 0 else i - j;
    while i >= end
      invariant end - 1 <= i < |b1.bigits|
      invariant i - j == |b1.bigits| - |b2.bigits|
      invariant forall k :: i < k < |b1.bigits| ==> b1.bigits[k] == b2.bigits[k - i + j]
    {
      var d1, d2 := b1.bigits[i], b2.bigits[j];
      if d1 > d2 {
        TopOrder(b1.bigits, b1.exp, i, b2.bigits, b2.exp, j);
        return 1;
      }
      if d1 < d2 {
        TopOrder(b2.bigits, b2.exp, j, b1.bigits, b1.exp, i);
        return -1;
      }
      i, j := i - 1, j - 1;
    }
    if i >= j {
      SuffixOrder(b1.bigits, b1.exp, b2.bigits, b2.exp);
    } else {
      SuffixOrder(b2.bigits, b2.exp, b1.bigits, b1.exp);
    }
    return if i > j then 1 else if i < j then -1 else 0;
  }

  /** The first differing bigit from the top decides. */
  lemma TopDiffers(a: seq<Bigit>, ea: nat, i: nat, b: seq<Bigit>, eb: nat, j: nat)
    requires i < |a| && j < |b| && i + ea == j + eb
    requires |a| - i == |b| - j && forall k :: i < k < |a| ==> a[k] == b[k - i + j]
    requires a[i] > b[j]
    ensures Val(a, ea) > Val(b, eb)
  {
    hide High, Val, Radix;
    var p := i + ea;
    HighBounds(a, ea, p);
    HighBounds(b, eb, p);
    HighStep(a, ea, p);
    HighStep(b, eb, p);
    SameHigh(a, ea, i + 1, b, eb, j + 1);
    RadixPositive(p);
    MulAtLeast(High(a, ea, p), High(b, eb, p) + 1, Radix(p));
  }

  lemma SameHigh(a: seq<Bigit>, ea: nat, i: nat, b: seq<Bigit>, eb: nat, j: nat)
    requires i <= |a| && j <= |b| && i + ea == j + eb
    requires |a| - i == |b| - j && forall k :: i <= k < |a| ==> a[k] == b[k - i + j]
    ensures High(a, ea, i + ea) == High(b, eb, j + eb)
  {
    assert a[i..] == b[j..];
  }

  lemma TopOrder(a: seq<Bigit>, ea: nat, i: nat, b: seq<Bigit>, eb: nat, j: nat)
    requires i < |a| && j < |b| && i + ea == j + eb
    requires |a| - i == |b| - j && forall k :: i < k < |a| ==> a[k] == b[k - i + j]
    requires a[i] > b[j]
    ensures Order(a, ea, b, eb) == 1 && Order(b, eb, a, ea) == -1
  {
    hide Val;
    TopDiffers(a, ea, i, b, eb, j);
  }

  /** If b is a from k on, the one with more stored bigits counts as the larger. */
  lemma SuffixOrder(a: seq<Bigit>, ea: nat, b: seq<Bigit>, eb: nat)
    requires |a| + ea == |b| + eb && ea <= eb && forall k :: eb - ea <= k < |a| ==> a[k] == b[k - (eb - ea)]
    ensures Order(a, ea, b, eb) == Sign(eb - ea) && Order(b, eb, a, ea) == Sign(ea - eb)
  {
    hide Val;
    assert a[eb - ea..] == b;
    SuffixEqual(a, ea, b, eb);
    if ea == eb {
      assert a == b;
    }
  }

  /** If b is a with its low bigits cut off, a is the larger by exactly those. */
  lemma SuffixEqual(a: seq<Bigit>, ea: nat, b: seq<Bigit>, eb: nat)
    requires |a| >= |b| && |a| + ea == |b| + eb
    requires a[|a| - |b|..] == b
    ensures Val(a, ea) == Val(b, eb) + Val(a[..|a| - |b|], ea)
  {
    hide Val;
    var low := a[..|a| - |b|];
    assert a == low + b;
    ValConcat(low, b, ea);
  }

  /** b written out with k more zero bigits at the bottom. */
  predicate Padded(a: seq<Bigit>, ea: nat, b: seq<Bigit>, eb: nat)
  {
    ea < eb && a == Zeros(eb - ea) + b
  }

  /**
   * Exactly when compare misjudges two normalised operands: one of them is the other
   * written out with zero bigits at the bottom.
   */
  lemma CompareExact(a: seq<Bigit>, ea: nat, b: seq<Bigit>, eb: nat)
    requires Normal(a) && Normal(b)
    ensures Order(a, ea, b, eb) == Sign(Val(a, ea) - Val(b, eb))
       <==> !Padded(a, ea, b, eb) && !Padded(b, eb, a, ea)
  {
    if |a| + ea > |b| + eb {
      LongerIsLarger(a, ea, b, eb);
    } else if |a| + ea < |b| + eb {
      LongerIsLarger(b, eb, a, ea);
    } else if ea <= eb {
      EqualMeansPadded(a, ea, b, eb);
    } else {
      EqualMeansPadded(b, eb, a, ea);
    }
  }

  lemma EqualMeansPadded(a: seq<Bigit>, ea: nat, b: seq<Bigit>, eb: nat)
    requires |a| + ea == |b| + eb && ea <= eb
    ensures Val(a, ea) == Val(b, eb) <==> a == Zeros(eb - ea) + b
  {
    hide Val;
    if a == Zeros(eb - ea) + b {
      ValZeros(eb - ea, ea);
      ValConcat(Zeros(eb - ea), b, ea);
    } else if Val(a, ea) == Val(b, eb) {
      EqualPadded(a, ea, b, eb);
    }
  }

  lemma EqualPadded(a: seq<Bigit>, ea: nat, b: seq<Bigit>, eb: nat)
    requires |a| + ea == |b| + eb && ea <= eb && Val(a, ea) == Val(b, eb)
    ensures a == Zeros(eb - ea) + b
  {
    hide Val;
    var low, high := a[..eb - ea], a[eb - ea..];
    SameSuffix(a, ea, b, eb, |b|);
    assert a == low + high && high == b[|b| - |b|..] == b;
    SuffixEqual(a, ea, b, eb);
    ValZeroMeansZeros(low, ea);
  }

  lemma SameElements(a: seq<Bigit>, b: seq<Bigit>, i: nat, j: nat)
    requires i <= |a| && j <= |b| && a[i..] == b[j..]
    ensures forall k :: i <= k < |a| ==> a[k] == b[k - i + j]
  {
    forall k | i <= k < |a|
      ensures a[k] == b[k - i + j]
    {
      assert a[k] == a[i..][k - i];
    }
  }

  /** Equal values aligned at the top share their n top bigits. */
  lemma {:induction false} SameSuffix(a: seq<Bigit>, ea: nat, b: seq<Bigit>, eb: nat, n: nat)
    requires |a| + ea == |b| + eb && n <= |b| <= |a|
    requires Val(a, ea) == Val(b, eb)
    ensures a[|a| - n..] == b[|b| - n..]
  {
    if n > 0 {
      SameSuffix(a, ea, b, eb, n - 1);
      var i, j := |a| - n, |b| - n;
      SameElements(a, b, i + 1, j + 1);
      if a[i] > b[j] {
        TopDiffers(a, ea, i, b, eb, j);
      } else if a[i] < b[j] {
        TopDiffers(b, eb, j, a, ea, i);
      }
      assert a[i..] == [a[i]] + a[i + 1..];
      assert b[j..] == [b[j]] + b[j + 1..];
    }
  }

  /** compare never reports the wrong strict order of normalised operands. */
  lemma CompareSound(a: seq<Bigit>, ea: nat, b: seq<Bigit>, eb: nat)
    requires Normal(a) || |a| + ea <= |b| + eb
    requires Normal(b) || |b| + eb <= |a| + ea
    ensures Order(a, ea, b, eb) > 0 ==> Val(a, ea) >= Val(b, eb)
    ensures Order(a, ea, b, eb) < 0 ==> Val(a, ea) <= Val(b, eb)
    ensures Order(a, ea, b, eb)
         == if Val(a, ea) != Val(b, eb) then Sign(Val(a, ea) - Val(b, eb)) else Sign(eb - ea)
  {
    if |a| + ea > |b| + eb {
      LongerIsLarger(a, ea, b, eb);
    } else if |a| + ea < |b| + eb {
      LongerIsLarger(b, eb, a, ea);
    }
  }

  /** Enough to be sure that the length of a does not overstate it next to b. */
  ghost predicate Fits(a: Bigint, b: Bigint)
    reads a, b
  {
    Normal(a.bigits) || a.NumBits() <= b.NumBits()
  }

  /** Compares lhs1 + lhs2 with rhs from the top, stopping as soon as the answer is known. */
  method AddCompare(lhs1: Bigint, lhs2: Bigint, rhs: Bigint) returns (r: int)
    requires Normal(rhs.bigits) && Fits(lhs1, rhs) && Fits(lhs2, rhs)
    ensures r == Sign(lhs1.Value() + lhs2.Value() - rhs.Value())
  {
    ghost var a, ea, b, eb, c, ec := lhs1.bigits, lhs1.exp, lhs2.bigits, lhs2.exp, rhs.bigits, rhs.exp;
    var maxLhs := if lhs1.NumBits() > lhs2.NumBits() then lhs1.NumBits() else lhs2.NumBits();
    var numRhs := rhs.NumBits();
    if maxLhs + 1 < numRhs {
      ShortSum(a, ea, b, eb, c, ec, maxLhs);
      return -1;
    }
    if maxLhs > numRhs {
      if lhs1.NumBits() > numRhs {
        LongerIsLarger(a, ea, c, ec);
      } else {
        LongerIsLarger(b, eb, c, ec);
      }
      return 1;
    }
    r := CompareFromTop(lhs1, lhs2, rhs);
  }

  /** The loop of add_compare, from the top bigit of rhs down to the lowest exponent. */
  method CompareFromTop(lhs1: Bigint, lhs2: Bigint, rhs: Bigint) returns (r: int)
    requires lhs1.NumBits() <= rhs.NumBits() && lhs2.NumBits() <= rhs.NumBits()
    ensures r == Sign(Val(lhs1.bigits, lhs1.exp) + Val(lhs2.bigits, lhs2.exp) - Val(rhs.bigits, rhs.exp))
  {
    ghost var a, ea, b, eb, c, ec := lhs1.bigits, lhs1.exp, lhs2.bigits, lhs2.exp, rhs.bigits, rhs.exp;
    var numRhs := rhs.NumBits();
    var minExp := if lhs1.exp < lhs2.exp then lhs1.exp else lhs2.exp;
    minExp := if rhs.exp < minExp then rhs.exp else minExp;
    var borrow := 0;
    ghost var gap := 0;
    var i := numRhs as int - 1;
    while i >= minExp
      invariant minExp - 1 <= i
      invariant gap == Gap(a, ea, b, eb, c, ec, i + 1, numRhs)
      invariant 0 <= gap <= 1 && borrow == 0x1_0000_0000 * gap
    {
      var sum := lhs1.GetBigit(i) + lhs2.GetBigit(i);
      var digit := rhs.GetBigit(i);
      gap := 0x1_0000_0000 * gap + digit - sum;
      assert gap == Gap(a, ea, b, eb, c, ec, i, numRhs);
      if sum > digit + borrow {
        SumAbove(a, ea, b, eb, c, ec, i, numRhs);
        return 1;
      }
      borrow := digit + borrow - sum;
      if borrow > 1 {
        SumBelow(a, ea, b, eb, c, ec, i, numRhs);
        return -1;
      }
      borrow := borrow * 0x1_0000_0000;
      i := i - 1;
    }
    SumDecided(a, ea, b, eb, c, ec, minExp, numRhs);
    return if borrow != 0 then -1 else 0;
  }

  /** What c exceeds a + b by in the positions from i up to top, in units of 0x1_0000_0000^i. */
  ghost function Gap(a: seq<Bigit>, ea: nat, b: seq<Bigit>, eb: nat, c: seq<Bigit>, ec: nat, i: nat, top: nat): int
    decreases top - i
  {
    if i >= top then 0
    else
      0x1_0000_0000 * Gap(a, ea, b, eb, c, ec, i + 1, top) + BigitAt(c, ec, i) - BigitAt(a, ea, i) - BigitAt(b, eb, i)
  }

  lemma {:induction false} GapIsHigh(
    a: seq<Bigit>, ea: nat, b: seq<Bigit>, eb: nat, c: seq<Bigit>, ec: nat, i: nat, top: nat)
    requires |a| + ea <= top && |b| + eb <= top && |c| + ec <= top
    ensures Gap(a, ea, b, eb, c, ec, i, top) == High(c, ec, i) - High(a, ea, i) - High(b, eb, i)
    decreases top - i
  {
    if i < top {
      GapIsHigh(a, ea, b, eb, c, ec, i + 1, top);
      HighStep(a, ea, i);
      HighStep(b, eb, i);
      HighStep(c, ec, i);
    }
  }

  lemma ShortSum(a: seq<Bigit>, ea: nat, b: seq<Bigit>, eb: nat, c: seq<Bigit>, ec: nat, n: nat)
    requires |a| + ea <= n && |b| + eb <= n && n + 1 < |c| + ec && Normal(c)
    ensures Val(a, ea) + Val(b, eb) < Val(c, ec)
  {
    hide Val;
    ValBound(a, ea);
    ValBound(b, eb);
    ValBound(c, ec);
    RadixMonotone(|a| + ea, n);
    RadixMonotone(|b| + eb, n);
    RadixMonotone(n + 1, |c| + ec - 1);
    RadixPositive(n);
    assert Radix(n + 1) == 0x1_0000_0000 * Radix(n);
  }

  lemma SumAbove(a: seq<Bigit>, ea: nat, b: seq<Bigit>, eb: nat, c: seq<Bigit>, ec: nat, i: nat, top: nat)
    requires |a| + ea <= top && |b| + eb <= top && |c| + ec <= top
    requires Gap(a, ea, b, eb, c, ec, i, top) < 0
    ensures Val(a, ea) + Val(b, eb) > Val(c, ec)
  {
    GapIsHigh(a, ea, b, eb, c, ec, i, top);
    HighBounds(a, ea, i);
    HighBounds(b, eb, i);
    HighBounds(c, ec, i);
    RadixPositive(i);
    SumProduct(High(a, ea, i), High(b, eb, i), Radix(i));
    MulAtLeast(High(a, ea, i) + High(b, eb, i), High(c, ec, i) + 1, Radix(i));
  }

  lemma SumBelow(a: seq<Bigit>, ea: nat, b: seq<Bigit>, eb: nat, c: seq<Bigit>, ec: nat, i: nat, top: nat)
    requires |a| + ea <= top && |b| + eb <= top && |c| + ec <= top
    requires Gap(a, ea, b, eb, c, ec, i, top) > 1
    ensures Val(a, ea) + Val(b, eb) < Val(c, ec)
  {
    GapIsHigh(a, ea, b, eb, c, ec, i, top);
    HighBounds(a, ea, i);
    HighBounds(b, eb, i);
    HighBounds(c, ec, i);
    RadixPositive(i);
    SumProduct(High(a, ea, i) + 1, High(b, eb, i) + 1, Radix(i));
    MulAtLeast(High(c, ec, i), High(a, ea, i) + 1 + High(b, eb, i) + 1, Radix(i));
  }

  lemma SumDecided(a: seq<Bigit>, ea: nat, b: seq<Bigit>, eb: nat, c: seq<Bigit>, ec: nat, i: nat, top: nat)
    requires |a| + ea <= top && |b| + eb <= top && |c| + ec <= top
    requires i <= ea && i <= eb && i <= ec
    requires 0 <= Gap(a, ea, b, eb, c, ec, i, top) <= 1
    ensures Sign(Val(a, ea) + Val(b, eb) - Val(c, ec)) == -Gap(a, ea, b, eb, c, ec, i, top)
  {
    hide High, Val, Gap, Radix;
    GapIsHigh(a, ea, b, eb, c, ec, i, top);
    HighBounds(a, ea, i);
    HighBounds(b, eb, i);
    HighBounds(c, ec, i);
    RadixPositive(i);
    SumCore(High(a, ea, i), High(b, eb, i), High(c, ec, i), Radix(i));
  }

  lemma SumCore(x: int, y: int, z: int, p: nat)
    requires p > 0 && 0 <= z - x - y <= 1
    ensures Sign(x * p + y * p - z * p) == -(z - x - y)
  {
    assert x * p + y * p - z * p == -((z - x - y) * p);
  }

  lemma SumProduct(x: int, y: int, p: int)
    ensures (x + y) * p == x * p + y * p
  {
  }

  lemma PaddedValue(s: seq<Bigit>, exp: nat, n: nat)
    requires n <= exp
    ensures Val(Zeros(n) + s, exp - n) == Val(s, exp)
  {
    EqualMeansPadded(Zeros(n) + s, exp - n, s, exp);
  }

  lemma QuotientStep(q: int, d: int, v: int)
    ensures (q + 1) * d + (v - d) == q * d + v
  {
  }

  lemma SubtractStep(cur: seq<Bigit>, was: seq<Bigit>, o: seq<Bigit>, i: nat, borrow: nat, d: Bigit, out: nat)
    requires i < |cur| == |was| && i < |o|
    requires Number(cur[..i]) + Number(o[..i]) == Number(was[..i]) + borrow * Radix(i)
    requires d - 0x1_0000_0000 * out == was[i] - o[i] - borrow
    ensures Number(cur[i := d][..i + 1]) + Number(o[..i + 1]) == Number(was[..i + 1]) + out * Radix(i + 1)
  {
    NumberUpdate(cur, i, d);
    NumberPrefix(was, i);
    NumberPrefix(o, i);
    BorrowStep(d, out, was[i], o[i], borrow, Radix(i));
  }

  lemma BorrowStep(d: int, out: int, x: int, y: int, borrow: int, p: int)
    requires d - 0x1_0000_0000 * out == x - y - borrow
    ensures d * p + y * p == x * p - borrow * p + out * (0x1_0000_0000 * p)
  {
    assert (d + y + borrow) * p == d * p + y * p + borrow * p;
    assert (x + 0x1_0000_0000 * out) * p == x * p + out * (0x1_0000_0000 * p);
  }

  /** A borrow out of the top bigit would mean the difference was negative. */
  lemma NoBorrowOut(x: seq<Bigit>, w: seq<Bigit>, o: seq<Bigit>)
    requires Number(w) >= Number(o)
    ensures Number(x) + Number(o) < Number(w) + Radix(|x|)
  {
    NumberBound(x);
  }

  /** So a borrow out of the divisor's top bigit has one more bigit to land in. */
  lemma RoomForBorrow(cur: seq<Bigit>, was: seq<Bigit>, o: seq<Bigit>, n: nat)
    requires |cur| == |was| == |o| == n && Number(was) >= Number(o)
    ensures Number(cur[..n]) + Number(o) != Number(was[..n]) + Radix(n)
  {
    assert cur[..n] == cur;
    assert was[..n] == was;
    NoBorrowOut(cur, was, o);
  }

  lemma FinalBorrow(cur: seq<Bigit>, was: seq<Bigit>, o: seq<Bigit>, n: nat, d: Bigit, out: nat)
    requires |o| == n && |cur| == |was| == n + 1 && Number(was) >= Number(o) && out <= 1
    requires Number(cur[..n]) + Number(o) == Number(was[..n]) + Radix(n)
    requires d as int - 0x1_0000_0000 * out == was[n] as int - 1
    ensures out == 0
    ensures Number(cur[n := d]) + Number(o) == Number(was)
  {
    LastUpdate(cur, n, d);
    LastUpdate(was, n, was[n]);
    assert was[n := was[n]] == was;
    assert Radix(n + 1) == 0x1_0000_0000 * Radix(n);
    hide Number, Radix;
    FinalCore(Number(cur[..n]), Number(was[..n]), Number(o), Radix(n), d, out, was[n]);
    NoBorrowOut(cur[n := d], was, o);
  }

  lemma LastUpdate(s: seq<Bigit>, n: nat, d: Bigit)
    requires |s| == n + 1
    ensures Number(s[n := d]) == Number(s[..n]) + d * Radix(n)
  {
    NumberUpdate(s, n, d);
    assert s[n := d][..n + 1] == s[n := d];
  }

  lemma FinalCore(low: int, wasLow: int, o: int, p: int, d: int, out: int, w: int)
    requires low + o == wasLow + p && d - 0x1_0000_0000 * out == w - 1 && 0 <= out <= 1
    ensures (low + d * p) + o == (wasLow + w * p) + if out == 0 then 0 else 0x1_0000_0000 * p
  {
    BorrowStep(d, out, w, 0, 1, p);
  }

  lemma SameTop(cur: seq<Bigit>, was: seq<Bigit>, i: nat)
    requires i <= |cur| == |was| && forall k :: i <= k < |was| ==> cur[k] == was[k]
    ensures Number(cur) - Number(cur[..i]) == Number(was) - Number(was[..i])
  {
    assert cur == cur[..i] + cur[i..];
    assert was == was[..i] + was[i..];
    assert cur[i..] == was[i..];
    NumberConcat(cur[..i], cur[i..]);
    NumberConcat(was[..i], was[i..]);
  }

  lemma {:induction false} ValOrder(a: seq<Bigit>, b: seq<Bigit>, exp: nat)
    requires Val(a, exp) <= Val(b, exp)
    ensures Number(a) <= Number(b)
  {
    if exp > 0 {
      ValOrder(a, b, exp - 1);
    }
  }

  lemma {:induction false} ValDifference(a: seq<Bigit>, b: seq<Bigit>, c: seq<Bigit>, exp: nat)
    requires Number(a) + Number(b) == Number(c)
    ensures Val(a, exp) + Val(b, exp) == Val(c, exp)
  {
    if exp > 0 {
      ValDifference(a, b, c, exp - 1);
    }
  }

  /** A dividend from divisor up to below 0x1_0000_0000 * divisor has at most one bigit more. */
  lemma LengthBounds(a: seq<Bigit>, ea: nat, b: seq<Bigit>, eb: nat)
    requires Normal(b) && Val(b, eb) <= Val(a, ea) < 0x1_0000_0000 * Val(b, eb)
    ensures |b| + eb <= |a| + ea
    ensures Normal(a) ==> |a| + ea <= |b| + eb + 1
  {
    ValBound(a, ea);
    ValBound(b, eb);
    RadixOrder(|b| + eb - 1, |a| + ea);
    if Normal(a) {
      RadixOrder(|a| + ea - 1, |b| + eb + 1);
    }
  }

  /** What comparing the dividend with the divisor tells. */
  lemma DividendCompared(a: seq<Bigit>, ea: nat, b: seq<Bigit>, eb: nat)
    requires Normal(b) && (Normal(a) || |a| + ea <= |b| + eb)
    ensures Order(a, ea, b, eb) < 0 <==> Val(a, ea) < Val(b, eb) || (Val(a, ea) == Val(b, eb) && ea > eb)
  {
    CompareSound(a, ea, b, eb);
  }

  /** What comparing a remainder with the divisor tells, and how long it can be. */
  lemma RestCompared(a: seq<Bigit>, ea: nat, b: seq<Bigit>, eb: nat)
    requires Normal(b) && Trimmed(a) && ea <= eb && Val(a, ea) < 0x1_0000_0000 * Val(b, eb)
    ensures Order(a, ea, b, eb) < 0 <==> Val(a, ea) < Val(b, eb)
    ensures Val(a, ea) >= Val(b, eb) ==> |b| + eb <= |a| + ea <= |b| + eb + 1
    ensures Normal(a) || |a| + ea <= |b| + eb
  {
    CompareSound(a, ea, b, eb);
    if Val(a, ea) >= Val(b, eb) {
      LengthBounds(a, ea, b, eb);
    }
  }

  lemma HalfWidths(width: nat)
    requires width == 64 || width == 128
    ensures Pow(2, width / 2) == Pow(2, width / 2 - 32) * 0x1_0000_0000
    ensures Pow(2, width) == Pow(2, width / 2) * Pow(2, width / 2)
    ensures Pow(2, width / 2 - 32) > 0
  {
    Pow2To32();
    PowAdd(2, width / 2 - 32, 32);
    PowAdd(2, width / 2, width / 2);
    PowPositive(2, width / 2 - 32);
  }

  /** The two half products add up to value * b, and the lower one leaves room for a bigit of carry. */
  lemma WideProducts(value: nat, half: nat, scale: nat, lower: nat, upper: nat, b: Bigit)
    requires half == scale * 0x1_0000_0000 && scale > 0
    requires value == upper * half + lower && lower < half
    ensures 0 <= lower * b && lower * b + 0xFFFF_FFFF < half * half && 0 <= upper * b * scale
    ensures 0x1_0000_0000 * (upper * b * scale) + lower * b == b * value <= 0xFFFF_FFFF * value
  {
    MulPositive(lower, b);
    MulPositive(upper, b);
    MulPositive(upper * b, scale);
    WideSum(value, half, lower, upper, b);
    WideScale(upper * b, scale, half);
    WideResult(half, lower, b, 0xFFFF_FFFF);
    MulAtLeast(0xFFFF_FFFF, b, value);
  }

  lemma WideScale(x: int, scale: int, half: int)
    requires half == scale * 0x1_0000_0000
    ensures 0x1_0000_0000 * (x * scale) == x * half
  {
  }

  lemma WideCarry(t: nat, low: nat, product: int, value: nat, carry: nat)
    requires 0x1_0000_0000 * t + low == product <= 0xFFFF_FFFF * value && carry <= value
    ensures
      var result := low + carry % 0x1_0000_0000;
      var next := t + result / 0x1_0000_0000 + carry / 0x1_0000_0000;
      result % 0x1_0000_0000 + 0x1_0000_0000 * next == product + carry && next <= value
  {
  }

  lemma WideSum(value: nat, half: nat, lower: nat, upper: nat, b: Bigit)
    requires value == upper * half + lower
    ensures upper * b * half + lower * b == b * value
  {
    assert (upper * half + lower) * b == upper * b * half + lower * b;
  }

  lemma WideResult(half: nat, lower: nat, b: Bigit, c: Bigit)
    requires 0x1_0000_0000 <= half && lower < half
    ensures lower * b + c < half * half
  {
    MulAtLeast(0xFFFF_FFFF, b, lower);
    MulAtLeast(half, 0x1_0000_0000, half);
  }

  /** The sum of the products a[i] * b[k - i] for i below m. */
  ghost function CrossTerms(a: seq<Bigit>, b: seq<Bigit>, k: nat, m: nat): nat
  {
    if m == 0 then 0
    else
      MulPositive(BigitAt(a, 0, m - 1), BigitAt(b, 0, k - m + 1));
      CrossTerms(a, b, k, m - 1) + BigitAt(a, 0, m - 1) * BigitAt(b, 0, k - m + 1)
  }

  /** The schoolbook product truncated to its first n columns. */
  ghost function Columns(a: seq<Bigit>, b: seq<Bigit>, n: nat): nat
  {
    if n == 0 then 0
    else
      MulPositive(CrossTerms(a, b, n - 1, n), Radix(n - 1));
      Columns(a, b, n - 1) + CrossTerms(a, b, n - 1, n) * Radix(n - 1)
  }

  lemma {:induction false} CrossPush(a: seq<Bigit>, d: Bigit, b: seq<Bigit>, k: nat, m: nat)
    ensures CrossTerms(a + [d], b, k, m)
         == CrossTerms(a, b, k, m) + if |a| < m then d * BigitAt(b, 0, k - |a|) else 0
  {
    if m > 0 {
      CrossPush(a, d, b, k, m - 1);
    }
  }

  /** One more bigit of a adds its multiple of b, shifted into place, to the columns. */
  lemma {:induction false} ColumnsPush(a: seq<Bigit>, d: Bigit, b: seq<Bigit>, n: nat)
    ensures n <= |a| ==> Columns(a + [d], b, n) == Columns(a, b, n)
    ensures |a| <= n <= |a| + |b| ==>
      Columns(a + [d], b, n) == Columns(a, b, n) + d * Number(b[..n - |a|]) * Radix(|a|)
    ensures n > |a| + |b| ==>
      Columns(a + [d], b, n) == Columns(a, b, n) + d * Number(b) * Radix(|a|)
  {
    if n > 0 {
      ColumnsPush(a, d, b, n - 1);
      CrossPush(a, d, b, n - 1, n);
      hide CrossTerms;
      var j := n - 1 - |a|;
      if 0 <= j < |b| {
        NumberPrefix(b, j);
        RadixAdd(j, |a|);
        hide Number, Radix;
        ColumnTerm(CrossTerms(a, b, n - 1, n), d, b[j], Number(b[..j]), Radix(j), Radix(|a|));
      } else if j == |b| {
        assert b[..|b|] == b;
      }
    }
  }

  lemma ColumnTerm(c: int, d: int, x: int, low: int, p: int, q: int)
    ensures (c + d * x) * (p * q) == c * (p * q) + d * (low + x * p) * q - d * low * q
  {
    assert (c + d * x) * (p * q) == c * (p * q) + (d * x) * (p * q);
    assert (d * x) * (p * q) == (d * (x * p)) * q;
    assert d * (low + x * p) == d * low + d * (x * p);
    assert (d * low + d * (x * p)) * q == d * low * q + (d * (x * p)) * q;
  }

  /** With enough columns nothing is truncated: they add up to the product. */
  lemma {:induction false} ColumnsAreProduct(a: seq<Bigit>, b: seq<Bigit>, n: nat)
    requires n >= |a| + |b|
    ensures Columns(a, b, n) == Number(a) * Number(b)
  {
    if a == [] {
      ColumnsEmpty(b, n);
    } else {
      var m := |a| - 1;
      assert a == a[..m] + [a[m]];
      ColumnsAreProduct(a[..m], b, n);
      ColumnsPush(a[..m], a[m], b, n);
      NumberPush(a[..m], a[m]);
      LastColumn(Number(a[..m]), a[m], Number(b), Radix(m));
    }
  }

  lemma LastColumn(x: int, d: int, y: int, p: int)
    ensures x * y + d * y * p == (x + d * p) * y
  {
    assert d * y * p == (d * p) * y;
  }

  lemma {:induction false} ColumnsEmpty(b: seq<Bigit>, n: nat)
    ensures Columns([], b, n) == 0
  {
    if n > 0 {
      ColumnsEmpty(b, n - 1);
      CrossEmpty(b, n - 1, n);
    }
  }

  lemma {:induction false} CrossEmpty(b: seq<Bigit>, k: nat, m: nat)
    ensures CrossTerms([], b, k, m) == 0
  {
    if m > 0 {
      CrossEmpty(b, k, m - 1);
    }
  }

  /** The terms the second loop starts after are zero: their partner bigit does not exist. */
  lemma {:induction false} CrossBelow(s: seq<Bigit>, k: nat, m: nat)
    requires m + |s| <= k + 1
    ensures CrossTerms(s, s, k, m) == 0
  {
    if m > 0 {
      CrossBelow(s, k, m - 1);
    }
  }

  /** So are the terms past the end. */
  lemma {:induction false} CrossAbove(s: seq<Bigit>, k: nat, m: nat)
    requires m >= |s|
    ensures CrossTerms(s, s, k, m) == CrossTerms(s, s, k, |s|)
  {
    if m > |s| {
      CrossAbove(s, k, m - 1);
    }
  }

  lemma ColumnStep(cur: seq<Bigit>, s: seq<Bigit>, k: nat, carry: nat, sum: nat)
    requires k < |cur|
    requires Number(cur[..k]) + carry * Radix(k) == Columns(s, s, k)
    requires sum == carry + CrossTerms(s, s, k, k + 1)
    ensures Number(cur[k := sum % 0x1_0000_0000][..k + 1]) + (sum / 0x1_0000_0000) * Radix(k + 1)
         == Columns(s, s, k + 1)
  {
    NumberUpdate(cur, k, sum % 0x1_0000_0000);
    SplitRest(sum, sum / 0x1_0000_0000, sum % 0x1_0000_0000, Radix(k));
    SumProduct(carry, CrossTerms(s, s, k, k + 1), Radix(k));
  }

  lemma SquareDone(cur: seq<Bigit>, s: seq<Bigit>, carry: nat)
    requires |cur| == 2 * |s|
    requires Number(cur) + carry * Radix(|cur|) == Columns(s, s, |cur|)
    ensures Number(cur) == Number(s) * Number(s)
  {
    ColumnsAreProduct(s, s, |cur|);
    NumberBound(s);
    RadixAdd(|s|, |s|);
    SquareBelow(Number(s), Radix(|s|));
    if carry > 0 {
      MulAtLeast(carry, 1, Radix(|cur|));
    }
  }

  lemma SquareBelow(x: nat, p: nat)
    requires x < p
    ensures 0 <= x * x < p * p
  {
    MulAtLeast(p, x, x);
    MulStrict(x, p, p);
  }

  lemma MulStrict(x: int, y: int, p: int)
    requires x < y && p > 0
    ensures x * p < y * p
  {
  }

  lemma SquareNormal(cur: seq<Bigit>, s: seq<Bigit>)
    requires Normal(s) && Trimmed(cur) && Number(cur) == Number(s) * Number(s)
    ensures Normal(cur)
  {
    NormalLower(s);
    MulGrows(Number(s), Number(s));
  }

  lemma SquareValue(cur: seq<Bigit>, s: seq<Bigit>, exp: nat)
    requires Number(cur) == Number(s) * Number(s)
    ensures Val(cur, exp * 2) == Val(s, exp) * Val(s, exp)
  {
    ValIsProduct(cur, exp * 2);
    ValIsProduct(s, exp);
    RadixAdd(exp, exp);
    MulSwap(Number(s), Number(s), Radix(exp), Radix(exp));
  }

  /** The largest power of two not above n. */
  function HighestBit(n: nat): (r: nat)
    requires n > 0
    ensures r <= n < 2 * r && PowerOfTwo(r)
  {
    if n == 1 then 1 else 2 * HighestBit(n / 2)
  }

  predicate PowerOfTwo(n: nat)
  {
    n == 1 || (n > 0 && n % 2 == 0 && PowerOfTwo(n / 2))
  }

  /** The binary number left of e when the bits below the power of two m are dropped. */
  function BitsFrom(e: nat, m: nat): nat
  {
    if m <= 1 then e else BitsFrom(e, m / 2) / 2
  }

  lemma {:induction false} BitsBelow(e: nat, m: nat)
    ensures BitsFrom(e, m) <= e
  {
    if m > 1 {
      BitsBelow(e, m / 2);
    }
  }

  lemma {:induction false} BitsShift(e: nat, m: nat)
    requires m > 0
    ensures BitsFrom(e, 2 * m) == BitsFrom(e / 2, m)
  {
    if m > 1 {
      BitsShift(e, m / 2);
      assert 2 * m / 2 == m;
      BitsHalf(e, m);
    }
  }

  /** Halving is the same before and after dropping bits. */
  lemma {:induction false} BitsHalf(e: nat, m: nat)
    ensures BitsFrom(e / 2, m) == BitsFrom(e, m) / 2
  {
    if m > 1 {
      BitsHalf(e, m / 2);
    }
  }

  lemma {:induction false} TopBit(e: nat)
    requires e > 0
    ensures BitsFrom(e, HighestBit(e)) == 1
  {
    if e > 1 {
      TopBit(e / 2);
      BitsShift(e, HighestBit(e / 2));
    }
  }

  /** For powers of two this is division, so its parity is the bit that the mask selects. */
  lemma {:induction false} BitsFromIsDiv(e: nat, m: nat)
    requires PowerOfTwo(m)
    ensures BitsFrom(e, m) == e / m
  {
    if m > 1 {
      BitsFromIsDiv(e, m / 2);
      DivTwice(e, m / 2);
      assert 2 * (m / 2) == m;
    }
  }

  lemma DivTwice(e: nat, h: nat)
    requires h > 0
    ensures e / h / 2 == e / (2 * h)
  {
    var q, rest := e / h, e % h;
    DivModLaw(e, h);
    HalvedRest(e, h, q, q / 2, q % 2, rest);
    DivUnique(e, 2 * h, q / 2, (q % 2) * h + rest);
  }

  lemma HalvedRest(e: nat, h: nat, q: nat, k: nat, r: nat, rest: nat)
    requires h > 0 && e == q * h + rest && q == 2 * k + r && r < 2 && rest < h
    ensures e == k * (2 * h) + (r * h + rest)
    ensures 0 <= r * h + rest < 2 * h
  {
    assert (2 * k + r) * h == k * (2 * h) + r * h;
  }

  lemma DivModLaw(x: nat, m: nat)
    requires m > 0
    ensures x == (x / m) * m + x % m && 0 <= x % m < m && x / m >= 0
  {
  }

  lemma DivUnique(x: nat, m: nat, q: nat, r: nat)
    requires x == q * m + r && r < m
    ensures x / m == q
  {
    var p := x / m;
    if p > q {
      MulAtLeast(p, q + 1, m);
    } else if p < q {
      MulAtLeast(q, p + 1, m);
    }
  }

  /** Powers of five up to the int range stay far below the size where an accumulator could wrap. */
  lemma SmallEnough(s: seq<Bigit>, k: nat)
    requires Normal(s) && Number(s) == Pow(5, k) && k < 0x8000_0000
    ensures |s| < 0x4000_0000
  {
    NormalLower(s);
    RadixIsPow2(|s| - 1);
    FiveBelowEight(k);
    PowOfPow(2, 3, k);
    assert Pow(2, 3) == 8;
    PowMonotone(2, 3 * k, 3 * k + 1);
    PowPositive(2, 3 * k);
    PowOrder(2, 32 * (|s| - 1), 3 * k + 1);
  }

  lemma {:induction false} FiveBelowEight(k: nat)
    ensures Pow(5, k) <= Pow(8, k)
  {
    if k > 0 {
      FiveBelowEight(k - 1);
    }
  }
}
