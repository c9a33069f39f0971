/** Arbitrage paths (src/paths.js): the `range` helper, the `ArbPath`
    record with its V2 quote and amount optimiser, conversion to router
    parameters, and the enumeration of closed three-hop cycles. */
module Paths {
  import opened Common
  import opened Pools
  import Simulator
  import Bundler

  // ---------------------------------------------------------------------
  // range

  /** The values `start, start + step, ...` strictly below `stop`. */
  function Steps(start: int, stop: int, step: int): (r: seq<int>)
    requires step > 0
    ensures |r| == LoopCount(start, stop, step)
    ensures forall i :: 0 <= i < |r| ==> r[i] == start + i * step && r[i] < stop
  {
    var n := LoopCount(start, stop, step);
    var r := seq(n, i requires 0 <= i < n => start + i * step);
    assert forall i :: 0 <= i < n ==> r[i] < stop by {
      forall i | 0 <= i < n
        ensures r[i] < stop
      {
        MulMono(i, n - 1, step);
      }
    }
    r
  }

  /** No value of the range reaches `stop`, and every value is at least
      `start`. */
  lemma StepsBounds(start: int, stop: int, step: int, x: int)
    requires step > 0 && x in Steps(start, stop, step)
    ensures start <= x < stop
  {
    var r := Steps(start, stop, step);
    var i :| 0 <= i < |r| && r[i] == x;
    MulMono(0, i, step);
  }

  /** `range(start, stop, step)`: pushes `start + i * step` for each of the
      `Math.ceil((stop - start) / step)` iterations. */
  method Range(start: int, stop: int, step: int) returns (rangeArray: seq<int>)
    requires step > 0
    ensures rangeArray == Steps(start, stop, step)
  {
    var loopCnt := LoopCount(start, stop, step);
    rangeArray := [];
    for i := 0 to loopCnt
      invariant |rangeArray| == i
      invariant forall k :: 0 <= k < i ==> rangeArray[k] == start + k * step
    {
      var num := start + i * step;
      rangeArray := rangeArray + [num];
    }
  }

  // ---------------------------------------------------------------------
  // ArbPath

  /** One hop: a pool and the direction it is traded in. */
  datatype Hop = Hop(pool: Pool, zeroForOne: bool) {
    function TokenIn(): Address { if zeroForOne then pool.token0 else pool.token1 }
    function TokenOut(): Address { if zeroForOne then pool.token1 else pool.token0 }
    function ReserveIn(r: Reserve): nat { if zeroForOne then r.reserve0 else r.reserve1 }
    function ReserveOut(r: Reserve): nat { if zeroForOne then r.reserve1 else r.reserve0 }
  }

  /** A hop sells one of its pool's tokens for the other. */
  lemma HopTokens(h: Hop)
    ensures {h.TokenIn(), h.TokenOut()} == {h.pool.token0, h.pool.token1}
    ensures h.pool.token0 != h.pool.token1 ==> h.TokenIn() != h.TokenOut()
    ensures forall r: Reserve :: h.ReserveIn(r) == (if h.zeroForOne then r.reserve0 else r.reserve1)
    ensures forall r: Reserve :: h.ReserveOut(r) == (if h.zeroForOne then r.reserve1 else r.reserve0)
  {
  }

  /** `new ArbPath(pool1, pool2, pool3, zeroForOne1, zeroForOne2,
      zeroForOne3)`; a two-hop path has no third pool. */
  datatype ArbPath = ArbPath(pool1: Pool, pool2: Pool, pool3: Option<Pool>,
                             zeroForOne1: bool, zeroForOne2: bool, zeroForOne3: bool)
  {
    /** `nhop()`: 2 when `pool3` is undefined, 3 otherwise. */
    function NHop(): (n: nat)
      ensures n == 2 <==> pool3.None?
      ensures n == 3 <==> pool3.Some?
    {
      if pool3.None? then 2 else 3
    }

    /** `this["pool" + (i + 1)]` with `this["zeroForOne" + (i + 1)]` for
        `i < nhop()`. */
    function Hops(): (hs: seq<Hop>)
      ensures |hs| == NHop()
      ensures hs[0] == Hop(pool1, zeroForOne1) && hs[1] == Hop(pool2, zeroForOne2)
      ensures pool3.Some? ==> hs[2] == Hop(pool3.value, zeroForOne3)
    {
      [Hop(pool1, zeroForOne1), Hop(pool2, zeroForOne2)]
        + (if pool3.Some? then [Hop(pool3.value, zeroForOne3)] else [])
    }

    /** The decimals of the token fed into the first hop. */
    function InputDecimals(): nat
    {
      if zeroForOne1 then pool1.decimals0 else pool1.decimals1
    }

    /** `amountIn * 10 ** tokenInDecimals`: whole tokens in smallest units. */
    function Scaled(amountIn: int): int
    {
      amountIn * Pow10(InputDecimals())
    }

    /** `hasPool(pool)`: some pool's address equals `pool` ignoring case.
        It reads `pool3.address`, so it needs a three-hop path. */
    function HasPool(pool: Address): (b: bool)
      requires pool3.Some?
      ensures b <==> exists i :: 0 <= i < 3 && SameAddress(Hops()[i].pool.address, pool)
    {
      var isPool1 := SameAddress(pool1.address, pool);
      var isPool2 := SameAddress(pool2.address, pool);
      var isPool3 := SameAddress(pool3.value.address, pool);
      assert Hops()[0].pool == pool1 && Hops()[1].pool == pool2 && Hops()[2].pool == pool3.value;
      isPool1 || isPool2 || isPool3
    }
  }

  /** `String.prototype.toLowerCase` on ASCII letters. */
  function LowerChar(c: char): char
  {
    if 'A' <= c <= 'Z' then (c as int + 32) as char else c
  }

  function Lower(s: string): (r: string)
    ensures |r| == |s|
    ensures forall i :: 0 <= i < |r| ==> !('A' <= r[i] <= 'Z')
  {
    seq(|s|, i requires 0 <= i < |s| => LowerChar(s[i]))
  }

  /** Case-insensitive address comparison. */
  predicate SameAddress(a: Address, b: Address)
  {
    Lower(a) == Lower(b)
  }

  /** Lower-casing is idempotent and keeps non-letters. */
  lemma LowerIdempotent(s: string)
    ensures Lower(Lower(s)) == Lower(s)
    ensures (forall i :: 0 <= i < |s| ==> !('A' <= s[i] <= 'Z')) ==> Lower(s) == s
  {
  }

  /** A path has each of its pools, however the address is cased, and
      only addresses that agree with one of them ignoring case. */
  lemma HasPoolIgnoresCase(path: ArbPath, a: Address)
    requires path.pool3.Some?
    ensures path.HasPool(path.pool1.address) && path.HasPool(path.pool2.address) && path.HasPool(path.pool3.value.address)
    ensures path.HasPool(a) == path.HasPool(Lower(a))
    ensures (Lower(a) != Lower(path.pool1.address) && Lower(a) != Lower(path.pool2.address)
             && Lower(a) != Lower(path.pool3.value.address)) ==> !path.HasPool(a)
  {
    LowerIdempotent(a);
    assert SameAddress(path.Hops()[0].pool.address, path.pool1.address);
    assert SameAddress(path.Hops()[1].pool.address, path.pool2.address);
    assert SameAddress(path.Hops()[2].pool.address, path.pool3.value.address);
  }

  /** `shouldBlacklist(blacklistTokens)`: the loop returns during its first
      iteration, so only pool1's tokens are looked up in the blacklist's
      keys. */
  function ShouldBlacklist(path: ArbPath, blacklistTokens: set<Address>): (b: bool)
    ensures b <==> path.Hops()[0].pool.token0 in blacklistTokens || path.Hops()[0].pool.token1 in blacklistTokens
  {
    var pool := path.pool1;
    pool.token0 in blacklistTokens || pool.token1 in blacklistTokens
  }

  /** The verdict depends on pool1 alone: blacklisted tokens in the second
      or third pool do not flag a path. */
  lemma ShouldBlacklistReadsPool1Only(p: ArbPath, q: ArbPath, blacklistTokens: set<Address>)
    requires p.pool1 == q.pool1
    ensures ShouldBlacklist(p, blacklistTokens) == ShouldBlacklist(q, blacklistTokens)
    ensures ShouldBlacklist(p, {p.pool2.token0, p.pool2.token1} - {p.pool1.token0, p.pool1.token1}) == false
  {
  }

  // ---------------------------------------------------------------------
  // simulateV2Path

  /** One hop of the quote: `getAmountOut` on the hop's reserves by
      direction, or an exception (`None`) when the pool has no reserves. */
  function SwapHop(h: Hop, amount: int, reserves: ReserveMap): (r: Option<int>)
    ensures r.None? <==> h.pool.address !in reserves
    ensures r.Some? && amount >= 0 && h.pool.fee / 100 <= 1000 ==>
      0 <= r.value <= h.ReserveOut(reserves[h.pool.address])
  {
    if h.pool.address in reserves then
      var r := reserves[h.pool.address];
      Some(Simulator.GetAmountOut(amount, h.ReserveIn(r), h.ReserveOut(r), h.pool.fee))
    else None
  }

  /** `getAmountOut` folded over the hops in order, starting from `amount`.
      It fails exactly when some hop's pool is missing from `reserves`. */
  function Quote(hops: seq<Hop>, amount: int, reserves: ReserveMap): (r: Option<int>)
    ensures r.None? <==> exists i :: 0 <= i < |hops| && hops[i].pool.address !in reserves
    decreases |hops|
  {
    if |hops| == 0 then Some(amount)
    else
      var prefix := hops[..|hops| - 1];
      assert forall i :: 0 <= i < |prefix| ==> prefix[i] == hops[i];
      match Quote(prefix, amount, reserves)
      case None => None
      case Some(a) => SwapHop(hops[|hops| - 1], a, reserves)
  }

  predicate AllPresent(hops: seq<Hop>, reserves: ReserveMap)
  {
    forall i :: 0 <= i < |hops| ==> hops[i].pool.address in reserves
  }

  /** Fees for which `getAmountOut` keeps a non-negative input in range. */
  predicate FeesBounded(hops: seq<Hop>)
  {
    forall i :: 0 <= i < |hops| ==> hops[i].pool.fee / 100 <= 1000
  }

  /** With every pool present, a larger input never quotes a smaller
      output, and outputs are non-negative. */
  lemma {:induction false} QuoteMonotone(hops: seq<Hop>, a1: nat, a2: nat, reserves: ReserveMap)
    requires a1 <= a2 && AllPresent(hops, reserves) && FeesBounded(hops)
    ensures Quote(hops, a1, reserves).Some? && Quote(hops, a2, reserves).Some?
    ensures 0 <= Quote(hops, a1, reserves).value <= Quote(hops, a2, reserves).value
    decreases |hops|
  {
    if |hops| > 0 {
      var n := |hops| - 1;
      var prefix := hops[..n];
      assert forall i :: 0 <= i < |prefix| ==> prefix[i] == hops[i];
      QuoteMonotone(prefix, a1, a2, reserves);
      var b1 := Quote(prefix, a1, reserves).value;
      var b2 := Quote(prefix, a2, reserves).value;
      var h := hops[n];
      var r := reserves[h.pool.address];
      assert h.pool.fee / 100 <= 1000;
      Simulator.OutputMonotone(b1, b2, h.ReserveIn(r), h.ReserveOut(r), h.pool.fee);
    }
  }

  /** Quoting nothing yields nothing, on every path whose pools are known. */
  lemma {:induction false} QuoteOfZero(hops: seq<Hop>, reserves: ReserveMap)
    requires AllPresent(hops, reserves)
    ensures Quote(hops, 0, reserves) == Some(0)
    decreases |hops|
  {
    if |hops| > 0 {
      var n := |hops| - 1;
      var prefix := hops[..n];
      assert forall i :: 0 <= i < |prefix| ==> prefix[i] == hops[i];
      QuoteOfZero(prefix, reserves);
      var h := hops[n];
      var r := reserves[h.pool.address];
      Simulator.ZeroInputGivesZero(h.ReserveIn(r), h.ReserveOut(r), h.pool.fee);
    }
  }

  /** The last hop cannot pay out its whole output reserve. */
  lemma QuoteBelowLastReserve(hops: seq<Hop>, amount: nat, reserves: ReserveMap)
    requires |hops| > 0 && AllPresent(hops, reserves) && FeesBounded(hops)
    requires var h := hops[|hops| - 1]; var r := reserves[h.pool.address];
      h.ReserveIn(r) > 0 && h.ReserveOut(r) > 0
    ensures Quote(hops, amount, reserves).Some?
    ensures var h := hops[|hops| - 1];
      Quote(hops, amount, reserves).value < h.ReserveOut(reserves[h.pool.address])
  {
    var n := |hops| - 1;
    var prefix := hops[..n];
    assert forall i :: 0 <= i < |prefix| ==> prefix[i] == hops[i];
    QuoteMonotone(prefix, amount, amount, reserves);
    var b := Quote(prefix, amount, reserves).value;
    var h := hops[n];
    var r := reserves[h.pool.address];
    assert h.pool.fee / 100 <= 1000;
    Simulator.OutputBelowReserve(b, h.ReserveIn(r), h.ReserveOut(r), h.pool.fee);
  }

  /** `simulateV2Path(amountIn, reserves)`: scales `amountIn` by the input
      token's decimals and quotes it through the hops; a pool without
      reserves makes the lookup on line 67 throw. */
  method SimulateV2Path(path: ArbPath, amountIn: int, reserves: ReserveMap) returns (result: Option<int>)
    ensures result == Quote(path.Hops(), path.Scaled(amountIn), reserves)
    ensures result.None? <==> exists i :: 0 <= i < path.NHop() && path.Hops()[i].pool.address !in reserves
  {
    var hops := path.Hops();
    var start := path.Scaled(amountIn);
    var amountOut := start;
    var nhop := path.NHop();
    for i := 0 to nhop
      invariant Quote(hops[..i], start, reserves) == Some(amountOut)
    {
      var hop := hops[i];
      assert hops[..i + 1][..i] == hops[..i];
      if hop.pool.address !in reserves {
        return None;
      }
      var reserve := reserves[hop.pool.address];
      var reserveIn := hop.ReserveIn(reserve);
      var reserveOut := hop.ReserveOut(reserve);
      amountOut := Simulator.GetAmountOut(amountOut, reserveIn, reserveOut, hop.pool.fee);
    }
    assert hops[..nhop] == hops;
    result := Some(amountOut);
  }

  // ---------------------------------------------------------------------
  // optimizeAmountIn

  /** The profit of trading `x` whole tokens, in the input token's smallest
      unit: quote minus the scaled input; `None` when the quote throws. */
  function Profit(path: ArbPath, x: int, reserves: ReserveMap): Option<int>
  {
    var scaled := path.Scaled(x);
    match Quote(path.Hops(), scaled, reserves)
    case None => None
    case Some(out) => Some(out - scaled)
  }

  /** The profits of every step of the range, in order. */
  function ProfitsOf(path: ArbPath, xs: seq<int>, reserves: ReserveMap): (ps: seq<Option<int>>)
    ensures |ps| == |xs|
  {
    seq(|xs|, i requires 0 <= i < |xs| => Profit(path, xs[i], reserves))
  }

  /** A quote of `out` at step `i` is a profit of `out` minus the scaled
      input. */
  lemma ProfitAt(path: ArbPath, xs: seq<int>, reserves: ReserveMap, i: nat, out: Option<int>)
    requires i < |xs| && out == Quote(path.Hops(), path.Scaled(xs[i]), reserves)
    ensures out.None? ==> ProfitsOf(path, xs, reserves)[i].None?
    ensures out.Some? ==> ProfitsOf(path, xs, reserves)[i] == Some(out.value - path.Scaled(xs[i]))
  {
  }

  function ValueOr0(p: Option<int>): int
  {
    match p
    case None => 0
    case Some(v) => v
  }

  /** The best profit held before step `i`: 0 at the start, then the
      previous step's profit. */
  function Before(ps: seq<Option<int>>, i: nat): int
    requires i <= |ps|
  {
    if i == 0 then 0 else ValueOr0(ps[i - 1])
  }

  /** Each of the first `m` steps is quoted and does at least as well as
      the best before it. */
  predicate Climbs(ps: seq<Option<int>>, m: nat)
  {
    && m <= |ps|
    && forall i :: 0 <= i < m ==> ps[i].Some? && ps[i].value >= Before(ps, i)
  }

  /** Step `m` ends the search: the range is exhausted, the quote throws,
      or the profit drops strictly below the best so far. */
  predicate StopsAt(ps: seq<Option<int>>, m: nat)
    requires m <= |ps|
  {
    m == |ps| || ps[m].None? || ps[m].value < Before(ps, m)
  }

  /** The first step from `from` on at which the search stops. */
  function FirstDrop(ps: seq<Option<int>>, from: nat): (m: nat)
    requires Climbs(ps, from)
    ensures from <= m <= |ps| && Climbs(ps, m) && StopsAt(ps, m)
    decreases |ps| - from
  {
    if StopsAt(ps, from) then from
    else FirstDrop(ps, from + 1)
  }

  /** The stop is unique: a climbing prefix that stops at `m` is the one
      `FirstDrop` finds. */
  lemma {:induction false} FirstDropAt(ps: seq<Option<int>>, from: nat, m: nat)
    requires from <= m && Climbs(ps, m) && StopsAt(ps, m)
    ensures Climbs(ps, from)
    ensures FirstDrop(ps, from) == m
    decreases m - from
  {
    if from < m {
      assert !StopsAt(ps, from) by {
        assert ps[from].Some? && ps[from].value >= Before(ps, from);
      }
      FirstDropAt(ps, from + 1, m);
    }
  }

  lemma ClimbStep(ps: seq<Option<int>>, i: nat)
    requires i < |ps| && Climbs(ps, i) && ps[i].Some? && ps[i].value >= Before(ps, i)
    ensures Climbs(ps, i + 1)
  {
  }

  /** On a non-decreasing, non-negative profit sequence the search runs to
      the end of the range and returns the last input with its profit. */
  lemma NonDecreasingRunsToEnd(ps: seq<Option<int>>, xs: seq<int>)
    requires |ps| == |xs|
    requires forall i :: 0 <= i < |ps| ==> ps[i].Some?
    requires |ps| > 0 ==> ps[0].value >= 0
    requires forall i :: 0 < i < |ps| ==> ps[i - 1].value <= ps[i].value
    ensures Climbs(ps, 0)
    ensures FirstDrop(ps, 0) == |ps|
    ensures Outcome(ps, xs) == if |xs| == 0 then Some((0, 0)) else Some((xs[|xs| - 1], ps[|ps| - 1].value))
  {
    assert Climbs(ps, |ps|);
    FirstDropAt(ps, 0, |ps|);
  }

  /** On a single-peaked profit sequence (rising to index `peak`, then
      falling strictly) the search stops right after the peak and returns
      the peak's input and profit. */
  lemma PeakIsFound(ps: seq<Option<int>>, xs: seq<int>, peak: nat)
    requires |ps| == |xs|
    requires peak < |ps| && forall i :: 0 <= i < |ps| ==> ps[i].Some?
    requires ps[0].value >= 0
    requires forall i :: 0 < i <= peak ==> ps[i - 1].value <= ps[i].value
    requires peak + 1 < |ps| ==> ps[peak + 1].value < ps[peak].value
    ensures Climbs(ps, 0)
    ensures FirstDrop(ps, 0) == peak + 1
    ensures Outcome(ps, xs) == Some((xs[peak], ps[peak].value))
  {
    assert Climbs(ps, peak + 1);
    FirstDropAt(ps, 0, peak + 1);
  }

  /** The profits of the accepted steps never fall below zero. */
  lemma {:induction false} ClimbNonNegative(ps: seq<Option<int>>, m: nat)
    requires Climbs(ps, m)
    ensures Before(ps, m) >= 0
    decreases m
  {
    if m > 0 {
      assert Climbs(ps, m - 1);
      ClimbNonNegative(ps, m - 1);
    }
  }

  /** What the search returns on profits `ps` of inputs `xs`: an exception
      if the quote at the stopping step throws; otherwise the input and
      profit of the last accepted step, or (0, 0) if none was accepted. */
  function Outcome(ps: seq<Option<int>>, xs: seq<int>): Option<(int, int)>
    requires |ps| == |xs|
  {
    assert Climbs(ps, 0);
    var m := FirstDrop(ps, 0);
    if m < |xs| && ps[m].None? then None
    else if m == 0 then Some((0, 0))
    else Some((xs[m - 1], ps[m - 1].value))
  }

  /** The best input is 0 or one of the inputs tried, and the best profit
      is never negative. */
  lemma OutcomeBounds(ps: seq<Option<int>>, xs: seq<int>)
    requires |ps| == |xs|
    ensures Outcome(ps, xs).Some? ==>
      Outcome(ps, xs).value.1 >= 0 && (Outcome(ps, xs).value.0 == 0 || Outcome(ps, xs).value.0 in xs)
  {
    assert Climbs(ps, 0);
    var m := FirstDrop(ps, 0);
    ClimbNonNegative(ps, m);
    if m > 0 {
      assert xs[m - 1] in xs;
    }
  }

  /** With no inputs to try the search returns (0, 0). */
  lemma OutcomeOfEmpty(ps: seq<Option<int>>, xs: seq<int>)
    requires |ps| == |xs| == 0
    ensures Outcome(ps, xs) == Some((0, 0))
  {
    assert Climbs(ps, 0);
  }

  /** The `for (let amountIn of ...)` loop of `optimizeAmountIn` over the
      candidate inputs `xs`: keeps the latest step whose profit is at least
      the best so far and breaks at the first that is strictly worse; a
      missing pool throws (`None`). */
  method SearchSteps(path: ArbPath, xs: seq<int>, reserves: ReserveMap) returns (r: Option<(int, int)>)
    ensures r == Outcome(ProfitsOf(path, xs, reserves), xs)
  {
    var optimizedIn := 0;
    var profit := 0;
    ghost var ps := ProfitsOf(path, xs, reserves);
    var i := 0;
    while i < |xs|
      invariant i <= |xs|
      invariant Climbs(ps, i)
      invariant profit == Before(ps, i)
      invariant optimizedIn == if i == 0 then 0 else xs[i - 1]
    {
      var amountIn := xs[i];
      var amountOut := SimulateV2Path(path, amountIn, reserves);
      ProfitAt(path, xs, reserves, i, amountOut);
      if amountOut.None? {
        FirstDropAt(ps, 0, i);
        assert Outcome(ps, xs) == None;
        return None;
      }
      var thisProfit := amountOut.value - path.Scaled(amountIn);
      if thisProfit >= profit {
        ClimbStep(ps, i);
        optimizedIn := amountIn;
        profit := thisProfit;
      } else {
        assert StopsAt(ps, i);
        break;
      }
      i := i + 1;
    }
    FirstDropAt(ps, 0, i);
    r := Some((optimizedIn, profit));
  }

  /** `optimizeAmountIn(maxAmountIn, stepSize, reserves)`: searches
      `range(0, maxAmountIn, stepSize)` for the input with the best profit,
      which is returned in the input token's smallest unit. The best input
      is 0 or a value of the range, the best profit is never negative, and
      an empty range gives (0, 0). */
  method OptimizeAmountIn(path: ArbPath, maxAmountIn: int, stepSize: int, reserves: ReserveMap)
    returns (r: Option<(int, int)>)
    requires stepSize > 0
    ensures r == Outcome(ProfitsOf(path, Steps(0, maxAmountIn, stepSize), reserves), Steps(0, maxAmountIn, stepSize))
    ensures r.Some? ==> r.value.1 >= 0 && (r.value.0 == 0 || r.value.0 in Steps(0, maxAmountIn, stepSize))
    ensures maxAmountIn <= 0 ==> r == Some((0, 0))
  {
    var xs := Range(0, maxAmountIn, stepSize);
    r := SearchSteps(path, xs, reserves);
    OutcomeBounds(ProfitsOf(path, xs, reserves), xs);
    if maxAmountIn <= 0 {
      OutcomeOfEmpty(ProfitsOf(path, xs, reserves), xs);
    }
  }

  // ---------------------------------------------------------------------
  // toPathParams

  /** `toPathParams(routers)`: one router parameter per hop, with the
      hop's router and its input and output tokens by direction. */
  method ToPathParams(path: ArbPath, routers: seq<Address>) returns (pathParams: seq<Bundler.Path>)
    requires |routers| >= path.NHop()
    ensures |pathParams| == path.NHop()
    ensures forall i :: 0 <= i < |pathParams| ==>
      var pool := path.Hops()[i].pool;
      var zeroForOne := path.Hops()[i].zeroForOne;
      && pathParams[i].router == routers[i]
      && pathParams[i].tokenIn == (if zeroForOne then pool.token0 else pool.token1)
      && pathParams[i].tokenOut == (if zeroForOne then pool.token1 else pool.token0)
  {
    var hops := path.Hops();
    pathParams := [];
    for i := 0 to path.NHop()
      invariant |pathParams| == i
      invariant forall k :: 0 <= k < i ==>
        pathParams[k] == Bundler.Path(routers[k], hops[k].TokenIn(), hops[k].TokenOut())
    {
      var hop := hops[i];
      var tokenIn := hop.TokenIn();
      var tokenOut := hop.TokenOut();
      pathParams := pathParams + [Bundler.Path(routers[i], tokenIn, tokenOut)];
    }
  }

  // ---------------------------------------------------------------------
  // generateTriangularPaths

  /** A closed three-hop cycle from `base` back to `base` through three
      different pools, each hop selling what the previous one bought. */
  predicate IsCycle(p: ArbPath, base: Address)
  {
    && p.pool3.Some?
    && p.Hops()[0].TokenIn() == base
    && p.Hops()[0].TokenOut() == p.Hops()[1].TokenIn()
    && p.Hops()[1].TokenOut() == p.Hops()[2].TokenIn()
    && p.Hops()[2].TokenOut() == base
    && p.pool1.address != p.pool2.address
    && p.pool2.address != p.pool3.value.address
    && p.pool1.address != p.pool3.value.address
  }

  /** A cycle's router parameters chain: each hop starts with the token
      the previous one ends with, from `base` back to `base`. */
  lemma CycleChains(p: ArbPath, base: Address)
    requires IsCycle(p, base)
    ensures p.NHop() == 3
    ensures p.Hops()[0].TokenIn() == base && p.Hops()[2].TokenOut() == base
    ensures forall i :: 0 <= i < 2 ==> p.Hops()[i].TokenOut() == p.Hops()[i + 1].TokenIn()
  {
  }

  predicate CanTrade(p: Pool, token: Address)
  {
    p.token0 == token || p.token1 == token
  }

  /** The hop that sells `token` into pool `p`: zeroForOne exactly when
      `token` is token0. */
  function Entry(p: Pool, token: Address): Hop
  {
    Hop(p, p.token0 == token)
  }

  /** The checks `tokenIn1 != tokenIn`, `tokenOut1 != tokenIn2` and
      `tokenOut2 != tokenIn3` never fire: once a pool can trade a token,
      the direction chosen sells exactly that token. */
  lemma DirectionCheckNeverFires(p: Pool, token: Address)
    requires CanTrade(p, token)
    ensures Entry(p, token).TokenIn() == token
    ensures Entry(p, token).TokenOut() == (if p.token0 == token then p.token1 else p.token0)
  {
  }

  /** `[...new Set([a, b, c])].length`. */
  function UniqueCount(a: Address, b: Address, c: Address): (n: nat)
    ensures n == 3 <==> a != b && b != c && a != c
    ensures n <= 3
  {
    |{a, b, c}|
  }

  /** What the innermost loop body pushes for pools `p1`, `p2`, `p3`. */
  function Candidate(p1: Pool, p2: Pool, p3: Pool, base: Address): (r: Option<ArbPath>)
    ensures r.Some? ==> r.value.pool1 == p1 && r.value.pool2 == p2 && r.value.pool3 == Some(p3)
  {
    if !CanTrade(p1, base) then None
    else
      var h1 := Entry(p1, base);
      if !CanTrade(p2, h1.TokenOut()) then None
      else
        var h2 := Entry(p2, h1.TokenOut());
        if !CanTrade(p3, h2.TokenOut()) then None
        else
          var h3 := Entry(p3, h2.TokenOut());
          if h3.TokenOut() != base then None
          else if UniqueCount(p1.address, p2.address, p3.address) < 3 then None
          else Some(ArbPath(p1, p2, Some(p3), h1.zeroForOne, h2.zeroForOne, h3.zeroForOne))
  }

  /** A candidate, when there is one, is a closed cycle. */
  lemma CandidateSound(p1: Pool, p2: Pool, p3: Pool, base: Address)
    requires Candidate(p1, p2, p3, base).Some?
    ensures IsCycle(Candidate(p1, p2, p3, base).value, base)
  {
    var h1 := Entry(p1, base);
    var h2 := Entry(p2, h1.TokenOut());
    var h3 := Entry(p3, h2.TokenOut());
    var c := Candidate(p1, p2, p3, base).value;
    assert c.Hops()[0] == h1 && c.Hops()[1] == h2 && c.Hops()[2] == h3;
  }

  // Sequences of optional values and of rows, folded from the front.

  /** The values of the `Some` entries of `s`, in order. */
  function Present<T>(s: seq<Option<T>>): seq<T>
  {
    if |s| == 0 then []
    else Present(s[..|s| - 1]) + (if s[|s| - 1].Some? then [s[|s| - 1].value] else [])
  }

  /** The rows of `ss` joined in order. */
  function Flatten<T>(ss: seq<seq<T>>): seq<T>
  {
    if |ss| == 0 then [] else Flatten(ss[..|ss| - 1]) + ss[|ss| - 1]
  }

  lemma PresentSnoc<T>(s: seq<Option<T>>, k: nat)
    requires k < |s|
    ensures Present(s[..k + 1]) == Present(s[..k]) + (if s[k].Some? then [s[k].value] else [])
  {
    assert s[..k + 1][..k] == s[..k];
  }

  lemma FlattenSnoc<T>(ss: seq<seq<T>>, j: nat)
    requires j < |ss|
    ensures Flatten(ss[..j + 1]) == Flatten(ss[..j]) + ss[j]
  {
    assert ss[..j + 1][..j] == ss[..j];
  }

  lemma {:induction false} PresentOfNone<T>(s: seq<Option<T>>)
    requires forall k :: 0 <= k < |s| ==> s[k].None?
    ensures Present(s) == []
  {
    if |s| > 0 {
      PresentOfNone(s[..|s| - 1]);
    }
  }

  lemma {:induction false} FlattenOfEmpty<T>(ss: seq<seq<T>>)
    requires forall j :: 0 <= j < |ss| ==> ss[j] == []
    ensures Flatten(ss) == []
  {
    if |ss| > 0 {
      FlattenOfEmpty(ss[..|ss| - 1]);
    }
  }

  /** Every `Some` entry survives. */
  lemma {:induction false} InPresent<T>(s: seq<Option<T>>, k: nat)
    requires k < |s| && s[k].Some?
    ensures s[k].value in Present(s)
  {
    var n := |s| - 1;
    if k < n {
      InPresent(s[..n], k);
    }
  }

  /** Nothing else appears. */
  lemma {:induction false} PresentMember<T>(s: seq<Option<T>>, x: T)
    requires x in Present(s)
    ensures exists k :: 0 <= k < |s| && s[k] == Some(x)
  {
    var n := |s| - 1;
    if x in Present(s[..n]) {
      PresentMember(s[..n], x);
      var k :| 0 <= k < n && s[..n][k] == Some(x);
      assert s[k] == Some(x);
    } else {
      assert s[n] == Some(x);
    }
  }

  lemma {:induction false} InFlatten<T>(ss: seq<seq<T>>, j: nat, x: T)
    requires j < |ss| && x in ss[j]
    ensures x in Flatten(ss)
  {
    var n := |ss| - 1;
    if j < n {
      InFlatten(ss[..n], j, x);
    }
  }

  lemma {:induction false} FlattenMember<T>(ss: seq<seq<T>>, x: T)
    requires x in Flatten(ss)
    ensures exists j :: 0 <= j < |ss| && x in ss[j]
  {
    var n := |ss| - 1;
    if x in Flatten(ss[..n]) {
      FlattenMember(ss[..n], x);
      var j :| 0 <= j < n && x in ss[..n][j];
      assert ss[j] == ss[..n][j];
    } else {
      assert x in ss[n];
    }
  }

  /** The innermost loop's outcomes for pools `p1`, `p2`: one per third
      pool `pools[k]`. */
  function Cells(pools: seq<Pool>, base: Address, p1: Pool, p2: Pool): (cs: seq<Option<ArbPath>>)
    ensures |cs| == |pools|
  {
    seq(|pools|, k requires 0 <= k < |pools| => Candidate(p1, p2, pools[k], base))
  }

  /** The middle loop's rows for first pool `p1`: one per second pool
      `pools[j]`. */
  function Rows3(pools: seq<Pool>, base: Address, p1: Pool): (rs: seq<seq<ArbPath>>)
    ensures |rs| == |pools|
  {
    seq(|pools|, j requires 0 <= j < |pools| => Present(Cells(pools, base, p1, pools[j])))
  }

  /** The outer loop's rows: one per first pool `pools[i]`. */
  function Rows2(pools: seq<Pool>, base: Address): (rs: seq<seq<ArbPath>>)
    ensures |rs| == |pools|
  {
    seq(|pools|, i requires 0 <= i < |pools| => Flatten(Rows3(pools, base, pools[i])))
  }

  lemma CellAt(pools: seq<Pool>, base: Address, p1: Pool, p2: Pool, k: nat)
    requires k < |pools|
    ensures Cells(pools, base, p1, p2)[k] == Candidate(p1, p2, pools[k], base)
  {
  }

  lemma Rows3At(pools: seq<Pool>, base: Address, p1: Pool, j: nat)
    requires j < |pools|
    ensures Rows3(pools, base, p1)[j] == Present(Cells(pools, base, p1, pools[j]))
  {
  }

  lemma Rows2At(pools: seq<Pool>, base: Address, i: nat)
    requires i < |pools|
    ensures Rows2(pools, base)[i] == Flatten(Rows3(pools, base, pools[i]))
  {
  }

  /** All candidates over `pools`, in (i, j, k) order. */
  function Triangular(pools: seq<Pool>, base: Address): seq<ArbPath>
  {
    Flatten(Rows2(pools, base))
  }

  /** Soundness: every generated path is a closed three-hop cycle from
      `base` through three distinct pools of `pools`. */
  lemma TriangularSound(pools: seq<Pool>, base: Address, a: ArbPath)
    requires a in Triangular(pools, base)
    ensures IsCycle(a, base)
    ensures a.pool1 in pools && a.pool2 in pools && a.pool3.Some? && a.pool3.value in pools
  {
    var r2 := Rows2(pools, base);
    FlattenMember(r2, a);
    var i :| 0 <= i < |r2| && a in r2[i];
    var r3 := Rows3(pools, base, pools[i]);
    FlattenMember(r3, a);
    var j :| 0 <= j < |r3| && a in r3[j];
    var cs := Cells(pools, base, pools[i], pools[j]);
    PresentMember(cs, a);
    var k :| 0 <= k < |cs| && cs[k] == Some(a);
    CandidateSound(pools[i], pools[j], pools[k], base);
  }

  /** With no direction into `p1` from `base`, or none from there into
      `p2`, the innermost loop produces nothing. */
  lemma NoCells(pools: seq<Pool>, base: Address, p1: Pool, p2: Pool)
    requires !CanTrade(p1, base) || !CanTrade(p2, Entry(p1, base).TokenOut())
    ensures Present(Cells(pools, base, p1, p2)) == []
  {
    PresentOfNone(Cells(pools, base, p1, p2));
  }

  lemma NoRows(pools: seq<Pool>, base: Address, p1: Pool)
    requires !CanTrade(p1, base)
    ensures Flatten(Rows3(pools, base, p1)) == []
  {
    var rs := Rows3(pools, base, p1);
    forall j | 0 <= j < |rs|
      ensures rs[j] == []
    {
      NoCells(pools, base, p1, pools[j]);
    }
    FlattenOfEmpty(rs);
  }

  /** The innermost loop of `generateTriangularPaths`, for first hop
      `pool1` and second hop `pool2` already chosen so that `tokenOut2` is
      what the second hop yields: pushes each third pool that closes the
      cycle back to `tokenIn` through three distinct pools. */
  method CloseCycles(pools: seq<Pool>, tokenIn: Address, pool1: Pool, pool2: Pool,
                     zeroForOne1: bool, zeroForOne2: bool, tokenOut2: Address)
    returns (found: seq<ArbPath>)
    requires CanTrade(pool1, tokenIn) && zeroForOne1 == Entry(pool1, tokenIn).zeroForOne
    requires CanTrade(pool2, Entry(pool1, tokenIn).TokenOut())
    requires zeroForOne2 == Entry(pool2, Entry(pool1, tokenIn).TokenOut()).zeroForOne
    requires tokenOut2 == Entry(pool2, Entry(pool1, tokenIn).TokenOut()).TokenOut()
    ensures found == Present(Cells(pools, tokenIn, pool1, pool2))
  {
    ghost var cells := Cells(pools, tokenIn, pool1, pool2);
    var n := |pools|;
    found := [];
    for k := 0 to n
      invariant found == Present(cells[..k])
    {
      var pool3 := pools[k];
      PresentSnoc(cells, k);
      CellAt(pools, tokenIn, pool1, pool2, k);
      var canTrade3 := pool3.token0 == tokenOut2 || pool3.token1 == tokenOut2;
      if canTrade3 {
        var zeroForOne3 := pool3.token0 == tokenOut2;
        var tokenOut3 := if zeroForOne3 then pool3.token1 else pool3.token0;
        if tokenOut3 == tokenIn {
          var uniquePoolCnt := UniqueCount(pool1.address, pool2.address, pool3.address);
          if uniquePoolCnt >= 3 {
            var arbPath := ArbPath(pool1, pool2, Some(pool3), zeroForOne1, zeroForOne2, zeroForOne3);
            found := found + [arbPath];
          }
        }
      }
    }
    assert cells[..n] == cells;
  }

  /** The middle loop of `generateTriangularPaths` for a first pool that
      trades `tokenIn`: every second pool that takes the first hop's
      output, each followed by the innermost loop. */
  method CyclesFrom(pools: seq<Pool>, tokenIn: Address, pool1: Pool) returns (found: seq<ArbPath>)
    requires CanTrade(pool1, tokenIn)
    ensures found == Flatten(Rows3(pools, tokenIn, pool1))
  {
    ghost var rows3 := Rows3(pools, tokenIn, pool1);
    var n := |pools|;
    var zeroForOne1 := pool1.token0 == tokenIn;
    var tokenOut1 := if zeroForOne1 then pool1.token1 else pool1.token0;
    found := [];
    for j := 0 to n
      invariant found == Flatten(rows3[..j])
    {
      var pool2 := pools[j];
      var canTrade2 := pool2.token0 == tokenOut1 || pool2.token1 == tokenOut1;
      FlattenSnoc(rows3, j);
      Rows3At(pools, tokenIn, pool1, j);
      if canTrade2 {
        var zeroForOne2 := pool2.token0 == tokenOut1;
        var tokenOut2 := if zeroForOne2 then pool2.token1 else pool2.token0;
        var more := CloseCycles(pools, tokenIn, pool1, pool2, zeroForOne1, zeroForOne2, tokenOut2);
        found := found + more;
      } else {
        NoCells(pools, tokenIn, pool1, pool2);
      }
    }
    assert rows3[..n] == rows3;
  }

  /** `generateTriangularPaths(pools, tokenIn)` over `Object.values(pools)`:
      three nested loops that push every closed cycle through three
      distinct pools starting and ending at `tokenIn`, in (i, j, k) order. */
  method GenerateTriangularPaths(pools: seq<Pool>, tokenIn: Address) returns (paths: seq<ArbPath>)
    ensures paths == Triangular(pools, tokenIn)
  {
    paths := [];
    var n := |pools|;
    ghost var rows2 := Rows2(pools, tokenIn);
    for i := 0 to n
      invariant paths == Flatten(rows2[..i])
    {
      var pool1 := pools[i];
      var canTrade1 := pool1.token0 == tokenIn || pool1.token1 == tokenIn;
      FlattenSnoc(rows2, i);
      Rows2At(pools, tokenIn, i);
      if canTrade1 {
        var found := CyclesFrom(pools, tokenIn, pool1);
        paths := paths + found;
      } else {
        NoRows(pools, tokenIn, pool1);
      }
    }
    assert rows2[..n] == rows2;
  }

  /** Any choice of directions that makes `p1, p2, p3` a closed cycle is
      found: the candidate exists and trades the same tokens hop by hop. */
  lemma CandidateComplete(p1: Pool, p2: Pool, p3: Pool, base: Address, z1: bool, z2: bool, z3: bool)
    requires IsCycle(ArbPath(p1, p2, Some(p3), z1, z2, z3), base)
    ensures Candidate(p1, p2, p3, base).Some?
    ensures var c := Candidate(p1, p2, p3, base).value;
      forall i :: 0 <= i < 3 ==>
        c.Hops()[i].TokenIn() == ArbPath(p1, p2, Some(p3), z1, z2, z3).Hops()[i].TokenIn()
        && c.Hops()[i].TokenOut() == ArbPath(p1, p2, Some(p3), z1, z2, z3).Hops()[i].TokenOut()
  {
    var q := ArbPath(p1, p2, Some(p3), z1, z2, z3);
    assert q.Hops()[0] == Hop(p1, z1) && q.Hops()[1] == Hop(p2, z2) && q.Hops()[2] == Hop(p3, z3);
    var h1 := Entry(p1, base);
    assert h1.TokenOut() == Hop(p1, z1).TokenOut();
    var h2 := Entry(p2, h1.TokenOut());
    assert h2.TokenOut() == Hop(p2, z2).TokenOut();
    var h3 := Entry(p3, h2.TokenOut());
    assert h3.TokenOut() == Hop(p3, z3).TokenOut();
  }

  /** Completeness: whenever three of the pools (by index) can be traded
      as a closed cycle from `base`, a path over exactly those pools, with
      the same tokens hop by hop, is generated. */
  lemma TriangularComplete(pools: seq<Pool>, base: Address, i: nat, j: nat, k: nat, z1: bool, z2: bool, z3: bool)
    requires i < |pools| && j < |pools| && k < |pools|
    requires IsCycle(ArbPath(pools[i], pools[j], Some(pools[k]), z1, z2, z3), base)
    ensures Candidate(pools[i], pools[j], pools[k], base).Some?
    ensures Candidate(pools[i], pools[j], pools[k], base).value in Triangular(pools, base)
  {
    CandidateComplete(pools[i], pools[j], pools[k], base, z1, z2, z3);
    var cs := Cells(pools, base, pools[i], pools[j]);
    InPresent(cs, k);
    var r3 := Rows3(pools, base, pools[i]);
    InFlatten(r3, j, cs[k].value);
    InFlatten(Rows2(pools, base), i, cs[k].value);
  }
}
