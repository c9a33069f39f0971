/** The constant-product (Uniswap V2) swap formula of `UniswapV2Simulator`. */
module Simulator {

  function Abs(x: int): nat { if x < 0 then -x else x }

  /** Division of JavaScript `BigInt`s: the quotient is truncated toward zero
      (Dafny's own `/` is Euclidean). */
  function TruncDiv(a: int, b: int): (q: int)
    requires b != 0
    ensures Abs(q) == Abs(a) / Abs(b)
    ensures q != 0 ==> (q < 0 <==> (a < 0) != (b < 0))
    ensures a >= 0 && b > 0 ==> q == a / b
    ensures a == 0 ==> q == 0
  {
    var q := Abs(a) / Abs(b);
    if (a < 0) == (b < 0) then q else -q
  }

  /** On a negative dividend truncation and Euclidean division part ways:
      -7 / 2 is -3 for `BigInt` but -4 in Dafny. */
  lemma TruncDivNegative()
    ensures TruncDiv(-7, 2) == -3 && -7 / 2 == -4
    ensures TruncDiv(7, -2) == -3 && TruncDiv(-7, -2) == 3
  {
  }

  /** The "parts per 1000 after the fee" multiplier: the fee (300 for 0.3%)
      is first floor-divided by 100. */
  function FeeMultiplier(fee: nat): int
  {
    1000 - fee / 100
  }

  /** `getAmountOut(amountIn, reserveIn, reserveOut, fee)`. A zero
      denominator yields 0 instead of an error. For a fee below 100100 and
      a non-negative input the output lies between 0 and `reserveOut`. */
  function GetAmountOut(amountIn: int, reserveIn: nat, reserveOut: nat, fee: nat): (r: int)
    ensures amountIn >= 0 && fee / 100 <= 1000 ==> 0 <= r <= reserveOut
  {
    var amountInWithFee := amountIn * FeeMultiplier(fee);
    var numerator := amountInWithFee * reserveOut;
    var denominator := reserveIn * 1000 + amountInWithFee;
    if denominator == 0 then 0
    else if amountIn >= 0 && fee / 100 <= 1000 then
      MulNat(amountIn, FeeMultiplier(fee));
      MulNat(amountInWithFee, reserveOut);
      QuotientAtMost(amountInWithFee, reserveIn * 1000, reserveOut);
      DivNat(numerator, denominator);
      TruncDiv(numerator, denominator)
    else TruncDiv(numerator, denominator)
  }

  /** For a non-negative input the truncated quotient is the floored one. */
  lemma QuotientForm(amountIn: nat, reserveIn: nat, reserveOut: nat, fee: nat)
    requires fee / 100 <= 1000
    ensures var w := amountIn * FeeMultiplier(fee);
      && w >= 0
      && GetAmountOut(amountIn, reserveIn, reserveOut, fee) ==
         if reserveIn * 1000 + w == 0 then 0 else (w * reserveOut) / (reserveIn * 1000 + w)
    ensures GetAmountOut(amountIn, reserveIn, reserveOut, fee) >= 0
  {
    var m: nat := FeeMultiplier(fee);
    var w := amountIn * m;
    MulNat(amountIn, m);
    var num := w * reserveOut;
    MulNat(w, reserveOut);
    var den := reserveIn * 1000 + w;
    if den != 0 {
      assert TruncDiv(num, den) == num / den;
      DivNat(num, den);
    }
  }

  lemma DivNat(n: nat, d: nat)
    requires d > 0
    ensures n / d >= 0
  {
  }

  lemma MulNat(a: nat, b: nat)
    ensures a * b >= 0
  {
  }

  /** w * r / (c + w) never exceeds r. */
  lemma QuotientAtMost(w: nat, c: nat, r: nat)
    requires c + w > 0
    ensures (w * r) / (c + w) <= r
  {
    assert w * r <= (c + w) * r by { MulLeRight(w, c + w, r); }
    DivBelow(w * r, c + w, r);
  }

  lemma MulLeRight(a: int, b: int, k: nat)
    requires a <= b
    ensures a * k <= b * k
  {
  }

  /** a <= d * k implies a / d <= k. */
  lemma DivBelow(a: nat, d: nat, k: nat)
    requires d > 0 && a <= d * k
    ensures a / d <= k
  {
  }

  /** a < d * k implies a / d < k. */
  lemma DivStrictlyBelow(a: nat, d: nat, k: nat)
    requires d > 0 && a < d * k
    ensures a / d < k
  {
  }

  /** q * d <= c implies q <= c / d. */
  lemma DivBelowInverse(q: nat, c: nat, d: nat)
    requires d > 0 && q * d <= c
    ensures q <= c / d
  {
    var k := c / d;
    assert c == k * d + c % d;
    assert (k + 1) * d == k * d + d;
    assert q * d < (k + 1) * d;
    MulCancelStrict(q, k + 1, d);
  }

  /** x * b < y * b implies x < y. */
  lemma MulCancelStrict(x: nat, y: nat, b: nat)
    requires x * b < y * b
    ensures x < y
  {
  }

  /** Floor division is monotone across fractions: a/b <= c/d as rationals
      implies it for the floored quotients. */
  lemma DivMonotoneCross(a: nat, b: nat, c: nat, d: nat)
    requires b > 0 && d > 0 && a * d <= c * b
    ensures a / b <= c / d
  {
    var q := a / b;
    FloorTimesDivisor(a, b);
    MulLeRight(q * b, a, d);
    Rearrange(q, b, d);
    MulCancel(q * d, c, b);
    DivBelowInverse(q, c, d);
  }

  lemma FloorTimesDivisor(a: nat, b: nat)
    requires b > 0
    ensures (a / b) * b <= a
  {
  }

  lemma Rearrange(x: int, y: int, z: int)
    ensures (x * y) * z == (x * z) * y
  {
  }

  /** x * b <= y * b with b > 0 implies x <= y. */
  lemma MulCancel(x: nat, y: nat, b: nat)
    requires b > 0 && x * b <= y * b
    ensures x <= y
  {
  }

  /** The cross-multiplied comparison behind monotonicity:
      w1 * r * (c + w2) <= w2 * r * (c + w1) when w1 <= w2. */
  lemma CrossMultiplied(w1: nat, w2: nat, c: nat, r: nat)
    requires w1 <= w2
    ensures (w1 * r) * (c + w2) <= (w2 * r) * (c + w1)
  {
    MulLeRight(w1, w2, r);
    MulLeRight(w1 * r, w2 * r, c);
    Distribute(w1 * r, c, w2);
    Distribute(w2 * r, c, w1);
    SwapProduct(w1, w2, r);
  }

  lemma SwapProduct(x: int, y: int, z: int)
    ensures (x * z) * y == (y * z) * x
  {
  }

  lemma Distribute(x: int, y: int, z: int)
    ensures x * (y + z) == x * y + x * z
  {
  }

  // ---------------------------------------------------------------------
  // Properties of the formula

  /** A zero denominator is a "no liquidity" signal and yields 0. */
  lemma ZeroDenominatorGivesZero(amountIn: int, reserveIn: nat, reserveOut: nat, fee: nat)
    requires reserveIn * 1000 + amountIn * FeeMultiplier(fee) == 0
    ensures GetAmountOut(amountIn, reserveIn, reserveOut, fee) == 0
  {
  }

  /** Only `fee / 100` matters: fees 300 and 399 give the same output, and
      fee 300 means the multiplier 997. */
  lemma FeeIsFlooredToHundreds(amountIn: int, reserveIn: nat, reserveOut: nat, fee1: nat, fee2: nat)
    requires fee1 / 100 == fee2 / 100
    ensures GetAmountOut(amountIn, reserveIn, reserveOut, fee1) == GetAmountOut(amountIn, reserveIn, reserveOut, fee2)
    ensures FeeMultiplier(300) == 997 && FeeMultiplier(399) == 997
  {
  }

  /** Selling nothing buys nothing, whatever the reserves. */
  lemma ZeroInputGivesZero(reserveIn: nat, reserveOut: nat, fee: nat)
    ensures GetAmountOut(0, reserveIn, reserveOut, fee) == 0
  {
  }

  /** With a non-empty input reserve the output is the floor of
      amountInWithFee * reserveOut / (reserveIn * 1000 + amountInWithFee). */
  lemma FloorForm(amountIn: nat, reserveIn: nat, reserveOut: nat, fee: nat)
    requires fee / 100 <= 1000 && reserveIn > 0
    ensures var w := amountIn * FeeMultiplier(fee);
      GetAmountOut(amountIn, reserveIn, reserveOut, fee) == (w * reserveOut) / (reserveIn * 1000 + w)
    ensures GetAmountOut(amountIn, reserveIn, reserveOut, fee) >= 0
  {
    QuotientForm(amountIn, reserveIn, reserveOut, fee);
  }

  /** A swap can never drain a pool: with both reserves positive the output
      is strictly below `reserveOut`. */
  lemma OutputBelowReserve(amountIn: nat, reserveIn: nat, reserveOut: nat, fee: nat)
    requires fee / 100 <= 1000 && reserveIn > 0 && reserveOut > 0
    ensures GetAmountOut(amountIn, reserveIn, reserveOut, fee) < reserveOut
  {
    var w := amountIn * FeeMultiplier(fee);
    var c := reserveIn * 1000;
    assert w * reserveOut < (c + w) * reserveOut by {
      assert c * reserveOut > 0;
      assert (c + w) * reserveOut == c * reserveOut + w * reserveOut;
    }
    DivStrictlyBelow(w * reserveOut, c + w, reserveOut);
  }

  /** With fixed reserves and fee, selling more never buys less. */
  lemma OutputMonotone(a1: nat, a2: nat, reserveIn: nat, reserveOut: nat, fee: nat)
    requires fee / 100 <= 1000 && a1 <= a2
    ensures GetAmountOut(a1, reserveIn, reserveOut, fee) <= GetAmountOut(a2, reserveIn, reserveOut, fee)
  {
    var m: nat := FeeMultiplier(fee);
    MulNat(a1, m);
    MulNat(a2, m);
    var w1: nat, w2: nat := a1 * m, a2 * m;
    MulLeRight(a1, a2, m);
    MulNat(w1, reserveOut);
    MulNat(w2, reserveOut);
    var c := reserveIn * 1000;
    if c + w1 > 0 {
      CrossMultiplied(w1, w2, c, reserveOut);
      DivMonotoneCross(w1 * reserveOut, c + w1, w2 * reserveOut, c + w2);
      assert GetAmountOut(a1, reserveIn, reserveOut, fee) == (w1 * reserveOut) / (c + w1);
      assert GetAmountOut(a2, reserveIn, reserveOut, fee) == (w2 * reserveOut) / (c + w2);
    }
  }
}
