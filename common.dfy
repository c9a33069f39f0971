/** Shared vocabulary of the arbitrage-bot model: optional values, chain
    addresses, pool reserves and powers of ten. */
module Common {

  /** The conventional optional value; `None` also stands for a JavaScript
      exception that aborts the operation being modelled. */
  datatype Option<+T> = None | Some(value: T)

  /** Addresses (pools, tokens, routers, wallets) are kept as the strings
      the program handles. */
  type Address = string

  /** The pair `[reserve0, reserve1]` of a constant-product pool. */
  datatype Reserve = Reserve(reserve0: nat, reserve1: nat)

  /** `reserves[address]`: the off-chain mirror of on-chain pool reserves. */
  type ReserveMap = map<Address, Reserve>

  /** `10 ** d`, computed exactly. */
  function Pow10(d: nat): (r: nat)
    ensures r >= 1
    ensures d > 0 ==> r >= 10
  {
    if d == 0 then 1 else 10 * Pow10(d - 1)
  }

  /** `Math.ceil((stop - start) / step)` as the number of iterations of a
      `for (i = 0; i < loopCnt; i++)` loop (none when it is not positive).
      It is the least count of steps from `start` that reaches `stop`. */
  function LoopCount(start: int, stop: int, step: int): (n: nat)
    requires step > 0
    ensures start + n * step >= stop
    ensures n > 0 ==> start + (n - 1) * step < stop
  {
    if stop <= start then 0
    else
      var d := stop - start;
      var n := (d + step - 1) / step;
      assert d + step - 1 == n * step + (d + step - 1) % step;
      assert (n - 1) * step == n * step - step;
      n
  }

  /** Multiplying a non-negative factor preserves order. */
  lemma MulMono(a: int, b: int, k: nat)
    requires a <= b
    ensures a * k <= b * k
  {
  }

  function Min(a: int, b: int): int { if a <= b then a else b }
}
