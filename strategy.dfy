/** The bot's strategy loop (src/strategy.js): the pool filter run once at
    start-up, and the per-block scan that folds the touched reserves into
    the live reserve map and records the paths quoting above par. */
module Strategy {
  import opened Common
  import opened Pools
  import opened Paths

  /** Every path of the strategy closes a three-hop cycle, as the
      triangular enumeration produces them. */
  predicate ThreeHop(paths: seq<ArbPath>)
  {
    forall i :: 0 <= i < |paths| ==> paths[i].pool3.Some?
  }

  /** The three pools of a three-hop path. */
  function PathPools(p: ArbPath): (ps: seq<Pool>)
    requires p.pool3.Some?
    ensures |ps| == 3
    ensures forall k :: 0 <= k < 3 ==> ps[k] == p.Hops()[k].pool
  {
    [p.pool1, p.pool2, p.pool3.value]
  }

  // ---------------------------------------------------------------------
  // Start-up pool filter

  /** The loop that rebuilds `pools` from the paths that pass the
      blacklist check, a later path's pool overwriting one at the same
      address. */
  function KeptPools(paths: seq<ArbPath>, blacklistTokens: set<Address>): map<Address, Pool>
    requires ThreeHop(paths)
  {
    if |paths| == 0 then map[]
    else
      var m := KeptPools(paths[..|paths| - 1], blacklistTokens);
      var path := paths[|paths| - 1];
      if ShouldBlacklist(path, blacklistTokens) then m
      else m[path.pool1.address := path.pool1][path.pool2.address := path.pool2]
            [path.pool3.value.address := path.pool3.value]
  }

  /** `pool` is one of the three pools of a path that is not blacklisted. */
  predicate FromKeptPath(paths: seq<ArbPath>, blacklistTokens: set<Address>, pool: Pool)
    requires ThreeHop(paths)
  {
    exists i, k :: 0 <= i < |paths| && 0 <= k < 3
      && !ShouldBlacklist(paths[i], blacklistTokens) && PathPools(paths[i])[k] == pool
  }

  /** Some pool of a kept path sits at address `a`. */
  predicate KeptAddress(paths: seq<ArbPath>, blacklistTokens: set<Address>, a: Address)
    requires ThreeHop(paths)
  {
    exists i, k :: 0 <= i < |paths| && 0 <= k < 3
      && !ShouldBlacklist(paths[i], blacklistTokens) && PathPools(paths[i])[k].address == a
  }

  /** The filtered map is keyed by exactly the addresses of the kept paths'
      pools, and holds under each address a pool of a kept path with that
      address. */
  lemma {:induction false} KeptPoolsSpec(paths: seq<ArbPath>, blacklistTokens: set<Address>)
    requires ThreeHop(paths)
    ensures forall a :: a in KeptPools(paths, blacklistTokens) <==> KeptAddress(paths, blacklistTokens, a)
    ensures forall a :: a in KeptPools(paths, blacklistTokens) ==>
      KeptPools(paths, blacklistTokens)[a].address == a
      && FromKeptPath(paths, blacklistTokens, KeptPools(paths, blacklistTokens)[a])
  {
    if |paths| > 0 {
      var prev := paths[..|paths| - 1];
      KeptPoolsSpec(prev, blacklistTokens);
      KeptEntriesStep(paths, blacklistTokens);
      KeptKeysStep(paths, blacklistTokens);
    }
  }

  /** Every entry after the last path is a pool of a kept path under its
      own address, given that this held before it. */
  lemma KeptEntriesStep(paths: seq<ArbPath>, blacklistTokens: set<Address>)
    requires ThreeHop(paths) && |paths| > 0
    requires var prev := paths[..|paths| - 1]; var m0 := KeptPools(prev, blacklistTokens);
      forall a :: a in m0 ==>
        KeptAddress(prev, blacklistTokens, a) && m0[a].address == a && FromKeptPath(prev, blacklistTokens, m0[a])
    ensures var m := KeptPools(paths, blacklistTokens);
      forall a :: a in m ==>
        KeptAddress(paths, blacklistTokens, a) && m[a].address == a && FromKeptPath(paths, blacklistTokens, m[a])
  {
    var n := |paths| - 1;
    var m0 := KeptPools(paths[..n], blacklistTokens);
    var m := KeptPools(paths, blacklistTokens);
    var path := paths[n];
    var flagged := ShouldBlacklist(path, blacklistTokens);
    forall a | a in m
      ensures KeptAddress(paths, blacklistTokens, a)
      ensures m[a].address == a && FromKeptPath(paths, blacklistTokens, m[a])
    {
      var k := if flagged then -1 else
        if a == path.pool3.value.address then 2
        else if a == path.pool2.address then 1
        else if a == path.pool1.address then 0
        else -1;
      if k >= 0 {
        assert m[a] == PathPools(path)[k];
      } else {
        assert a in m0 && m[a] == m0[a];
        KeptFromPrefix(paths, blacklistTokens, a, m0[a]);
      }
    }
  }

  /** Every address of a kept path's pool is a key after the last path,
      given that this held before it. */
  lemma KeptKeysStep(paths: seq<ArbPath>, blacklistTokens: set<Address>)
    requires ThreeHop(paths) && |paths| > 0
    requires var prev := paths[..|paths| - 1];
      forall a :: KeptAddress(prev, blacklistTokens, a) ==> a in KeptPools(prev, blacklistTokens)
    ensures forall a :: KeptAddress(paths, blacklistTokens, a) ==> a in KeptPools(paths, blacklistTokens)
  {
    var n := |paths| - 1;
    var prev := paths[..n];
    forall a | KeptAddress(paths, blacklistTokens, a)
      ensures a in KeptPools(paths, blacklistTokens)
    {
      var i, k :| 0 <= i < |paths| && 0 <= k < 3
        && !ShouldBlacklist(paths[i], blacklistTokens) && PathPools(paths[i])[k].address == a;
      if i < n {
        assert prev[i] == paths[i];
        assert KeptAddress(prev, blacklistTokens, a);
      }
    }
  }

  /** What holds of the paths but the last holds of all of them. */
  lemma KeptFromPrefix(paths: seq<ArbPath>, blacklistTokens: set<Address>, a: Address, pool: Pool)
    requires ThreeHop(paths) && |paths| > 0
    requires KeptAddress(paths[..|paths| - 1], blacklistTokens, a)
    requires FromKeptPath(paths[..|paths| - 1], blacklistTokens, pool)
    ensures KeptAddress(paths, blacklistTokens, a) && FromKeptPath(paths, blacklistTokens, pool)
  {
    var prev := paths[..|paths| - 1];
    var i, k :| 0 <= i < |prev| && 0 <= k < 3
      && !ShouldBlacklist(prev[i], blacklistTokens) && PathPools(prev[i])[k].address == a;
    assert paths[i] == prev[i];
    var j, l :| 0 <= j < |prev| && 0 <= l < 3
      && !ShouldBlacklist(prev[j], blacklistTokens) && PathPools(prev[j])[l] == pool;
    assert paths[j] == prev[j];
  }

  /** The start-up loop over the generated paths. */
  method FilterPools(paths: seq<ArbPath>, blacklistTokens: set<Address>) returns (pools: map<Address, Pool>)
    requires ThreeHop(paths)
    ensures pools == KeptPools(paths, blacklistTokens)
    ensures forall a :: a in pools <==> KeptAddress(paths, blacklistTokens, a)
    ensures forall a :: a in pools ==> pools[a].address == a && FromKeptPath(paths, blacklistTokens, pools[a])
  {
    pools := map[];
    for i := 0 to |paths|
      invariant pools == KeptPools(paths[..i], blacklistTokens)
    {
      assert paths[..i + 1][..i] == paths[..i];
      var path := paths[i];
      if !ShouldBlacklist(path, blacklistTokens) {
        pools := pools[path.pool1.address := path.pool1];
        pools := pools[path.pool2.address := path.pool2];
        pools := pools[path.pool3.value.address := path.pool3.value];
      }
    }
    assert paths[..|paths|] == paths;
    KeptPoolsSpec(paths, blacklistTokens);
  }

  // ---------------------------------------------------------------------
  // The per-block scan

  /** The merge loop on the reserve map: a touched pool's reserves replace
      the stored ones only when the pool is already a key. */
  function MergeKnown(reserves: ReserveMap, order: seq<Address>, touched: ReserveMap): (m: ReserveMap)
    requires forall j :: 0 <= j < |order| ==> order[j] in touched
    ensures m.Keys == reserves.Keys
  {
    if |order| == 0 then reserves
    else
      var m := MergeKnown(reserves, order[..|order| - 1], touched);
      var address := order[|order| - 1];
      if address in m then m[address := touched[address]] else m
  }

  /** The merge keeps the key set, takes the touched reserves for every
      known touched pool and leaves every other entry alone. */
  lemma {:induction false} MergeKnownSpec(reserves: ReserveMap, order: seq<Address>, touched: ReserveMap)
    requires forall j :: 0 <= j < |order| ==> order[j] in touched
    ensures MergeKnown(reserves, order, touched).Keys == reserves.Keys
    ensures forall a :: a in reserves ==>
      MergeKnown(reserves, order, touched)[a] == if a in order then touched[a] else reserves[a]
  {
    if |order| > 0 {
      var prev := order[..|order| - 1];
      MergeKnownSpec(reserves, prev, touched);
      forall a | a in reserves
        ensures MergeKnown(reserves, order, touched)[a] == if a in order then touched[a] else reserves[a]
      {
        if a in prev {
          var j :| 0 <= j < |prev| && prev[j] == a;
          assert order[j] == a;
        }
        if a in order && a != order[|order| - 1] {
          var j :| 0 <= j < |order| && order[j] == a;
          assert prev[j] == a;
        }
      }
    }
  }

  /** `touchedPools`: the touched addresses that are known pools, in the
      order the merge loop visits them. */
  function KnownTouched(order: seq<Address>, reserves: ReserveMap): (ts: seq<Address>)
    ensures |ts| <= |order|
    ensures forall j :: 0 <= j < |ts| ==> ts[j] in reserves
  {
    if |order| == 0 then []
    else
      var prev := KnownTouched(order[..|order| - 1], reserves);
      var address := order[|order| - 1];
      if address in reserves then prev + [address] else prev
  }

  /** No address occurs twice. */
  predicate Distinct(s: seq<Address>)
  {
    forall j, k :: 0 <= j < k < |s| ==> s[j] != s[k]
  }

  /** The list holds exactly the touched addresses already in the map, and
      holds each once when the touched addresses are distinct. */
  lemma {:induction false} KnownTouchedSpec(order: seq<Address>, reserves: ReserveMap)
    ensures forall a :: a in KnownTouched(order, reserves) <==> a in order && a in reserves
    ensures Distinct(order) ==> Distinct(KnownTouched(order, reserves))
  {
    if |order| > 0 {
      var prev := order[..|order| - 1];
      var last := order[|order| - 1];
      KnownTouchedSpec(prev, reserves);
      assert order == prev + [last];
      forall a ensures a in order <==> a in prev || a == last {
        if a in order && a != last {
          var j :| 0 <= j < |order| && order[j] == a;
          assert prev[j] == a;
        }
      }
      if Distinct(order) {
        assert Distinct(prev) by {
          forall j, k | 0 <= j < k < |prev| ensures prev[j] != prev[k] {
            assert prev[j] == order[j] && prev[k] == order[k];
          }
        }
        forall j | 0 <= j < |prev| ensures prev[j] != last {
          assert prev[j] == order[j];
        }
        if last in reserves {
          DistinctSnoc(KnownTouched(prev, reserves), last);
        }
      }
    }
  }

  lemma DistinctSnoc(s: seq<Address>, x: Address)
    requires Distinct(s) && x !in s
    ensures Distinct(s + [x])
  {
    var t := s + [x];
    forall j, k | 0 <= j < k < |t| ensures t[j] != t[k] {
      if k < |s| {
        assert t[j] == s[j] && t[k] == s[k];
      } else {
        assert t[j] == s[j] && t[k] == x;
      }
    }
  }

  /** `touchedPools.reduce(…)`: how many touched pools the path has. */
  function TouchCount(path: ArbPath, touchedPools: seq<Address>): nat
    requires path.pool3.Some?
  {
    if |touchedPools| == 0 then 0
    else TouchCount(path, touchedPools[..|touchedPools| - 1])
         + (if path.HasPool(touchedPools[|touchedPools| - 1]) then 1 else 0)
  }

  /** The count is positive exactly when some touched pool is on the path. */
  lemma {:induction false} TouchCountPositive(path: ArbPath, touchedPools: seq<Address>)
    requires path.pool3.Some?
    ensures TouchCount(path, touchedPools) > 0 <==>
      exists j :: 0 <= j < |touchedPools| && path.HasPool(touchedPools[j])
  {
    if |touchedPools| > 0 {
      var n := |touchedPools| - 1;
      var prev := touchedPools[..n];
      TouchCountPositive(path, prev);
      if path.HasPool(touchedPools[n]) {
        assert TouchCount(path, touchedPools) > 0;
      } else {
        assert TouchCount(path, touchedPools) == TouchCount(path, prev);
        assert forall j :: 0 <= j < n ==> prev[j] == touchedPools[j];
      }
    }
  }

  /** The quote of one whole input token along the path. */
  function UnitQuote(path: ArbPath, reserves: ReserveMap): Option<int>
  {
    Quote(path.Hops(), path.Scaled(1), reserves)
  }

  /** Per path: whether the touched-pool count is positive. */
  function TouchedFlags(paths: seq<ArbPath>, touchedPools: seq<Address>): (fs: seq<bool>)
    requires ThreeHop(paths)
    ensures |fs| == |paths|
  {
    seq(|paths|, i requires 0 <= i < |paths| => TouchCount(paths[i], touchedPools) > 0)
  }

  /** Per path: its one-token quote, `None` when it throws. */
  function UnitQuotes(paths: seq<ArbPath>, reserves: ReserveMap): (qs: seq<Option<int>>)
    ensures |qs| == |paths|
  {
    seq(|paths|, i requires 0 <= i < |paths| => UnitQuote(paths[i], reserves))
  }

  /** A path is flagged exactly when one of the touched pools is on it. */
  lemma TouchedFlagsMeaning(paths: seq<ArbPath>, touchedPools: seq<Address>, i: nat)
    requires ThreeHop(paths) && i < |paths|
    ensures TouchedFlags(paths, touchedPools)[i] <==>
      exists j :: 0 <= j < |touchedPools| && paths[i].HasPool(touchedPools[j])
  {
    TouchCountPositive(paths[i], touchedPools);
  }

  /** The spread loop over the first `k` paths, given which of them are
      touched and their quotes: a touched path whose quote beats `par` is
      recorded under its index; a touched path whose quote throws aborts
      the handler. */
  function SpreadsOf(touched: seq<bool>, quotes: seq<Option<int>>, par: int, k: nat): (r: Option<map<nat, int>>)
    requires k <= |touched| == |quotes|
    ensures r.Some? ==> forall i :: i in r.value ==> i < k && quotes[i].Some? && r.value[i] == quotes[i].value > par
  {
    if k == 0 then Some(map[])
    else
      match SpreadsOf(touched, quotes, par, k - 1)
      case None => None
      case Some(m) =>
        if touched[k - 1] then
          match quotes[k - 1]
          case None => None
          case Some(q) => Some(if q > par then m[k - 1 := q] else m)
        else Some(m)
  }

  /** Some touched path among the first `k` has a quote that throws. */
  predicate Throws(touched: seq<bool>, quotes: seq<Option<int>>, k: nat)
    requires k <= |touched| == |quotes|
  {
    exists i :: 0 <= i < k && touched[i] && quotes[i].None?
  }

  /** `m` records, among the first `k` paths, exactly the touched ones whose
      quote beats `par`, each under its index with its quote. */
  predicate RecordsSpreads(touched: seq<bool>, quotes: seq<Option<int>>, par: int, k: nat, m: map<nat, int>)
    requires k <= |touched| == |quotes|
  {
    && (forall i :: i in m ==> i < k && quotes[i] == Some(m[i]))
    && (forall i :: 0 <= i < k ==> (i in m <==> touched[i] && quotes[i].Some? && quotes[i].value > par))
  }

  /** The scan aborts exactly when a touched path's quote throws; otherwise
      the spreads are keyed by exactly the touched paths quoting above par,
      and each holds its quote. */
  lemma {:induction false} SpreadsSpec(touched: seq<bool>, quotes: seq<Option<int>>, par: int, k: nat)
    requires k <= |touched| == |quotes|
    ensures SpreadsOf(touched, quotes, par, k).None? <==> Throws(touched, quotes, k)
    ensures SpreadsOf(touched, quotes, par, k).Some? ==>
      RecordsSpreads(touched, quotes, par, k, SpreadsOf(touched, quotes, par, k).value)
  {
    if k > 0 {
      SpreadsSpec(touched, quotes, par, k - 1);
      if Throws(touched, quotes, k) {
        var i :| 0 <= i < k && touched[i] && quotes[i].None?;
        if i < k - 1 {
          assert Throws(touched, quotes, k - 1);
        }
      } else {
        assert !Throws(touched, quotes, k - 1);
      }
    }
  }

  /** Once a quote has thrown, the rest of the paths do not matter. */
  lemma {:induction false} NoneSticks(touched: seq<bool>, quotes: seq<Option<int>>, par: int, k: nat)
    requires k <= |touched| == |quotes|
    requires SpreadsOf(touched, quotes, par, k).None?
    ensures SpreadsOf(touched, quotes, par, |touched|).None?
    decreases |touched| - k
  {
    if k < |touched| {
      NoneSticks(touched, quotes, par, k + 1);
    }
  }

  /** The live state of the bot between blocks: the reserve map it keeps
      current, and the fixed list of paths it watches. */
  class Scanner {
    var reserves: ReserveMap
    const paths: seq<ArbPath>
    const usdcDecimals: nat

    constructor (paths: seq<ArbPath>, reserves: ReserveMap, usdcDecimals: nat)
      ensures this.paths == paths && this.reserves == reserves && this.usdcDecimals == usdcDecimals
    {
      this.paths := paths;
      this.reserves := reserves;
      this.usdcDecimals := usdcDecimals;
    }

    /** The `"block"` event handler once the block's touched reserves are
        known: `order` is the order in which `for … in` visits the keys of
        `touchedReserves`. It returns the touched known pools and either the
        spreads or `None` when a quote throws; the merged reserves persist
        in both cases. */
    method OnBlock(order: seq<Address>, touchedReserves: ReserveMap)
      returns (touchedPools: seq<Address>, spreads: Option<map<nat, int>>)
      requires ThreeHop(paths)
      requires forall j :: 0 <= j < |order| ==> order[j] in touchedReserves
      modifies this
      ensures reserves == MergeKnown(old(reserves), order, touchedReserves)
      ensures reserves.Keys == old(reserves).Keys
      ensures forall a :: a in reserves ==>
        reserves[a] == if a in order then touchedReserves[a] else old(reserves)[a]
      ensures touchedPools == KnownTouched(order, old(reserves))
      ensures spreads == SpreadsOf(TouchedFlags(paths, touchedPools), UnitQuotes(paths, reserves),
                                   Pow10(usdcDecimals), |paths|)
    {
      ghost var before := reserves;
      touchedPools := [];
      for j := 0 to |order|
        invariant reserves == MergeKnown(before, order[..j], touchedReserves)
        invariant reserves.Keys == before.Keys
        invariant touchedPools == KnownTouched(order[..j], before)
      {
        assert order[..j + 1][..j] == order[..j];
        MergeKnownSpec(before, order[..j], touchedReserves);
        var address := order[j];
        var reserve := touchedReserves[address];
        if address in reserves {
          reserves := reserves[address := reserve];
          touchedPools := touchedPools + [address];
        }
      }
      assert order[..|order|] == order;
      MergeKnownSpec(before, order, touchedReserves);
      spreads := ScanSpreads(paths, touchedPools, reserves, usdcDecimals);
    }
  }

  /** One more path: an untouched one leaves the spreads as they are, a
      touched one aborts the scan or records its quote if it beats `par`. */
  lemma SpreadsStep(touched: seq<bool>, quotes: seq<Option<int>>, par: int, k: nat, m: map<nat, int>)
    requires k < |touched| == |quotes| && SpreadsOf(touched, quotes, par, k) == Some(m)
    ensures !touched[k] ==> SpreadsOf(touched, quotes, par, k + 1) == Some(m)
    ensures touched[k] && quotes[k].None? ==> SpreadsOf(touched, quotes, par, k + 1).None?
    ensures touched[k] && quotes[k].Some? && quotes[k].value > par ==>
      SpreadsOf(touched, quotes, par, k + 1) == Some(m[k := quotes[k].value])
    ensures touched[k] && quotes[k].Some? && quotes[k].value <= par ==>
      SpreadsOf(touched, quotes, par, k + 1) == Some(m)
  {
  }

  /** The spread loop of the handler over the merged reserves. */
  method ScanSpreads(paths: seq<ArbPath>, touchedPools: seq<Address>, reserves: ReserveMap, usdcDecimals: nat)
    returns (spreads: Option<map<nat, int>>)
    requires ThreeHop(paths)
    ensures spreads == SpreadsOf(TouchedFlags(paths, touchedPools), UnitQuotes(paths, reserves),
                                 Pow10(usdcDecimals), |paths|)
  {
    ghost var touched := TouchedFlags(paths, touchedPools);
    ghost var quotes := UnitQuotes(paths, reserves);
    var par := Pow10(usdcDecimals);
    var found: map<nat, int> := map[];
    for idx := 0 to |paths|
      invariant SpreadsOf(touched, quotes, par, idx) == Some(found)
    {
      var path := paths[idx];
      var touchedPath := TouchCount(path, touchedPools);
      assert touched[idx] == (touchedPath > 0);
      SpreadsStep(touched, quotes, par, idx, found);
      if touchedPath > 0 {
        var priceQuote := SimulateV2Path(path, 1, reserves);
        assert quotes[idx] == priceQuote;
        if priceQuote.None? {
          spreads := None;
          NoneSticks(touched, quotes, par, idx + 1);
          return;
        }
        if priceQuote.value > par {
          found := found[idx := priceQuote.value];
        }
      }
    }
    spreads := Some(found);
  }

}
