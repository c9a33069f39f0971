/** Reading pool reserves through a multicall contract: one `aggregate3`
    call per batch of at most 200 pools, keeping only the calls that
    succeeded, and merging the batches' answers. */
module Multi {
  import opened Common
  import Simulator

  /** The most pools one multicall batch may carry. */
  const MaxBatch: nat := 200

  /** One entry of the `aggregate3` answer: whether the pool's `getReserves`
      call succeeded and, when it did, the reserves it decoded to. */
  datatype CallResult = CallResult(success: bool, reserves: Reserve)

  // ---------------------------------------------------------------------
  // One multicall

  /** The result loop of `getUniswapV2Reserves`: the answer for
      `poolAddresses[i]` is stored when `result[i].success`. */
  function KeepSucceeded(poolAddresses: seq<Address>, results: seq<CallResult>): (m: ReserveMap)
    requires |poolAddresses| == |results|
    ensures forall a :: a in m ==> a in poolAddresses
  {
    if |results| == 0 then map[]
    else
      var n := |results| - 1;
      var m := KeepSucceeded(poolAddresses[..n], results[..n]);
      if results[n].success then m[poolAddresses[n] := results[n].reserves] else m
  }

  /** Position `i` is the last successful call for address `a`. */
  predicate LastSuccess(poolAddresses: seq<Address>, results: seq<CallResult>, a: Address, i: int)
    requires |poolAddresses| == |results|
  {
    && 0 <= i < |results|
    && poolAddresses[i] == a && results[i].success
    && (forall j :: i < j < |results| && poolAddresses[j] == a ==> !results[j].success)
  }

  /** Some call for address `a` succeeded. */
  predicate Succeeded(poolAddresses: seq<Address>, results: seq<CallResult>, a: Address)
    requires |poolAddresses| == |results|
  {
    exists i :: 0 <= i < |results| && poolAddresses[i] == a && results[i].success
  }

  /** A pool has an entry exactly when one of its calls succeeded. */
  lemma {:induction false} KeepSucceededKeys(poolAddresses: seq<Address>, results: seq<CallResult>)
    requires |poolAddresses| == |results|
    ensures forall a :: a in KeepSucceeded(poolAddresses, results) <==> Succeeded(poolAddresses, results, a)
  {
    if |results| > 0 {
      var n := |results| - 1;
      var pa, rs := poolAddresses[..n], results[..n];
      KeepSucceededKeys(pa, rs);
      var m0 := KeepSucceeded(pa, rs);
      var m := KeepSucceeded(poolAddresses, results);
      assert m == if results[n].success then m0[poolAddresses[n] := results[n].reserves] else m0;
      forall a | a in m
        ensures Succeeded(poolAddresses, results, a)
      {
        if results[n].success && a == poolAddresses[n] {
          assert poolAddresses[n] == a && results[n].success;
        } else {
          assert a in m0;
          assert Succeeded(pa, rs, a);
          var i :| 0 <= i < |rs| && pa[i] == a && rs[i].success;
          assert poolAddresses[i] == a && results[i].success;
        }
      }
      forall a | Succeeded(poolAddresses, results, a)
        ensures a in m
      {
        var i :| 0 <= i < |results| && poolAddresses[i] == a && results[i].success;
        if i < n {
          assert pa[i] == a && rs[i].success;
          assert Succeeded(pa, rs, a);
        }
      }
    }
  }

  /** The entry `r` for `a` is the answer of `a`'s last successful call. */
  predicate FromLastSuccess(poolAddresses: seq<Address>, results: seq<CallResult>, a: Address, r: Reserve)
    requires |poolAddresses| == |results|
  {
    exists i :: 0 <= i < |results| && LastSuccess(poolAddresses, results, a, i) && r == results[i].reserves
  }

  /** The last success among all but the final call stays the last one
      when the final call is for another pool or failed. */
  lemma LastSuccessKept(poolAddresses: seq<Address>, results: seq<CallResult>, a: Address, i: int)
    requires |poolAddresses| == |results| > 0
    requires var n := |results| - 1; LastSuccess(poolAddresses[..n], results[..n], a, i)
    requires !(results[|results| - 1].success && poolAddresses[|results| - 1] == a)
    ensures LastSuccess(poolAddresses, results, a, i)
  {
    var n := |results| - 1;
    assert poolAddresses[..n][i] == poolAddresses[i] && results[..n][i] == results[i];
    forall j | i < j < |results| && poolAddresses[j] == a
      ensures !results[j].success
    {
      if j < n {
        assert poolAddresses[..n][j] == poolAddresses[j] && results[..n][j] == results[j];
      }
    }
  }

  /** The entry of a pool is the answer of its last successful call. */
  lemma {:induction false} KeepSucceededLast(poolAddresses: seq<Address>, results: seq<CallResult>)
    requires |poolAddresses| == |results|
    ensures forall a :: a in KeepSucceeded(poolAddresses, results) ==>
      FromLastSuccess(poolAddresses, results, a, KeepSucceeded(poolAddresses, results)[a])
  {
    if |results| > 0 {
      var n := |results| - 1;
      var pa, rs := poolAddresses[..n], results[..n];
      KeepSucceededLast(pa, rs);
      var m0 := KeepSucceeded(pa, rs);
      var m := KeepSucceeded(poolAddresses, results);
      assert m == if results[n].success then m0[poolAddresses[n] := results[n].reserves] else m0;
      forall a | a in m
        ensures FromLastSuccess(poolAddresses, results, a, m[a])
      {
        if results[n].success && a == poolAddresses[n] {
          assert LastSuccess(poolAddresses, results, a, n);
        } else {
          assert a in m0 && m[a] == m0[a];
          assert FromLastSuccess(pa, rs, a, m0[a]);
          var i :| 0 <= i < |rs| && LastSuccess(pa, rs, a, i) && m0[a] == rs[i].reserves;
          LastSuccessKept(poolAddresses, results, a, i);
        }
      }
    }
  }

  /** `getUniswapV2Reserves` once `aggregate3` has answered one `CallResult`
      per queried pool. */
  method GetUniswapV2Reserves(poolAddresses: seq<Address>, results: seq<CallResult>)
    returns (reserves: ReserveMap)
    requires |poolAddresses| == |results|
    ensures reserves == KeepSucceeded(poolAddresses, results)
    ensures forall a :: a in reserves <==> Succeeded(poolAddresses, results, a)
    ensures forall a :: a in reserves ==> FromLastSuccess(poolAddresses, results, a, reserves[a])
  {
    reserves := map[];
    for i := 0 to |results|
      invariant reserves == KeepSucceeded(poolAddresses[..i], results[..i])
    {
      assert poolAddresses[..i + 1][..i] == poolAddresses[..i];
      assert results[..i + 1][..i] == results[..i];
      var response := results[i];
      if response.success {
        reserves := reserves[poolAddresses[i] := response.reserves];
      }
    }
    assert poolAddresses[..|results|] == poolAddresses;
    assert results[..|results|] == results;
    KeepSucceededKeys(poolAddresses, results);
    KeepSucceededLast(poolAddresses, results);
  }

  /** Answers to consecutive address lists merge into the answer to their
      concatenation, the later list winning on a repeated address. */
  lemma {:induction false} KeepSucceededAppend(a1: seq<Address>, r1: seq<CallResult>,
                                               a2: seq<Address>, r2: seq<CallResult>)
    requires |a1| == |r1| && |a2| == |r2|
    ensures KeepSucceeded(a1 + a2, r1 + r2) == KeepSucceeded(a1, r1) + KeepSucceeded(a2, r2)
  {
    if |r2| == 0 {
      assert a1 + a2 == a1 && r1 + r2 == r1;
    } else {
      var n := |r2| - 1;
      KeepSucceededAppend(a1, r1, a2[..n], r2[..n]);
      assert (a1 + a2)[..|a1| + n] == a1 + a2[..n];
      assert (r1 + r2)[..|r1| + n] == r1 + r2[..n];
      assert (a1 + a2)[|a1| + n] == a2[n];
      assert (r1 + r2)[|r1| + n] == r2[n];
      var m1, m2 := KeepSucceeded(a1, r1), KeepSucceeded(a2[..n], r2[..n]);
      if r2[n].success {
        assert (m1 + m2)[a2[n] := r2[n].reserves] == m1 + m2[a2[n] := r2[n].reserves];
      }
    }
  }

  // ---------------------------------------------------------------------
  // Batching

  /** `Math.ceil(poolsCnt / 200)`. */
  function BatchCount(poolsCnt: nat): nat
  {
    LoopCount(0, poolsCnt, MaxBatch)
  }

  /** `Math.ceil(poolsCnt / batch)`. */
  function PoolsPerBatch(poolsCnt: nat): nat
    requires poolsCnt > 0
  {
    LoopCount(0, poolsCnt, BatchCount(poolsCnt))
  }

  /** For a non-empty pool list the batches hold between one and 200 pools
      each, and `batch` slices of `poolsPerBatch` reach the end of the list
      while `batch - 1` of them do not (so no batch is empty). */
  lemma BatchPlan(poolsCnt: nat)
    requires poolsCnt > 0
    ensures var batch, per := BatchCount(poolsCnt), PoolsPerBatch(poolsCnt);
      && batch >= 1 && 1 <= per <= MaxBatch
      && (batch - 1) * per < poolsCnt <= batch * per
  {
    var batch := BatchCount(poolsCnt);
    var per := PoolsPerBatch(poolsCnt);
    assert batch >= 1 && per >= 1;
    assert (per - 1) * batch < MaxBatch * batch;
    Simulator.MulCancelStrict(per - 1, MaxBatch, batch);
    MulMono(per, MaxBatch, batch - 1);
    assert (batch - 1) * per == per * (batch - 1);
  }

  /** Slice `i` of the batch loop: `[i * poolsPerBatch, min(start + poolsPerBatch, poolsCnt))`. */
  function SliceStart(poolsCnt: nat, i: nat): nat
    requires poolsCnt > 0
  {
    i * PoolsPerBatch(poolsCnt)
  }

  function SliceEnd(poolsCnt: nat, i: nat): nat
    requires poolsCnt > 0
  {
    Min(SliceStart(poolsCnt, i) + PoolsPerBatch(poolsCnt), poolsCnt)
  }

  /** The slices are non-empty, at most 200 long, start at 0, follow on
      from each other, and the last one ends at the end of the list. */
  lemma {:induction false} SlicesCover(poolsCnt: nat, i: nat)
    requires poolsCnt > 0 && i < BatchCount(poolsCnt)
    ensures SliceStart(poolsCnt, 0) == 0
    ensures SliceStart(poolsCnt, i) < SliceEnd(poolsCnt, i) <= poolsCnt
    ensures SliceEnd(poolsCnt, i) - SliceStart(poolsCnt, i) <= MaxBatch
    ensures i + 1 < BatchCount(poolsCnt) ==> SliceEnd(poolsCnt, i) == SliceStart(poolsCnt, i + 1)
    ensures i + 1 == BatchCount(poolsCnt) ==> SliceEnd(poolsCnt, i) == poolsCnt
  {
    var batch, per := BatchCount(poolsCnt), PoolsPerBatch(poolsCnt);
    BatchPlan(poolsCnt);
    MulMono(i, batch - 1, per);
    assert SliceStart(poolsCnt, i) + per == (i + 1) * per;
    if i + 1 < batch {
      MulMono(i + 1, batch - 1, per);
    } else {
      assert (i + 1) * per == batch * per;
    }
  }

  /** `Object.assign(...results)`: each batch map is copied over the first
      in turn, so a later batch wins on a repeated address. */
  function Assign(parts: seq<ReserveMap>): (m: ReserveMap)
    ensures forall i, a :: 0 <= i < |parts| && a in parts[i] ==> a in m
    ensures |parts| > 0 ==> forall a :: a in parts[|parts| - 1] ==> m[a] == parts[|parts| - 1][a]
  {
    if |parts| == 0 then map[]
    else Assign(parts[..|parts| - 1]) + parts[|parts| - 1]
  }

  /** `batchGetUniswapV2Reserves` once every pool's call has answered:
      `results[k]` is the answer for `poolAddresses[k]` in whichever batch
      carries it. With no pools there is nothing to merge and
      `Object.assign()` throws, modelled as `None`. */
  method BatchGetUniswapV2Reserves(poolAddresses: seq<Address>, results: seq<CallResult>)
    returns (reserves: Option<ReserveMap>)
    requires |poolAddresses| == |results|
    ensures reserves.None? <==> |poolAddresses| == 0
    ensures reserves.Some? ==> reserves.value == KeepSucceeded(poolAddresses, results)
  {
    var poolsCnt := |poolAddresses|;
    if poolsCnt == 0 {
      return None;
    }
    var batch := BatchCount(poolsCnt);
    var poolsPerBatch := PoolsPerBatch(poolsCnt);
    var promises: seq<ReserveMap> := [];
    for i := 0 to batch
      invariant |promises| == i
      invariant var done := Min(i * poolsPerBatch, poolsCnt);
        Assign(promises) == KeepSucceeded(poolAddresses[..done], results[..done])
    {
      SlicesCover(poolsCnt, i);
      var startIdx := i * poolsPerBatch;
      var endIdx := Min(startIdx + poolsPerBatch, poolsCnt);
      var part := GetUniswapV2Reserves(poolAddresses[startIdx..endIdx], results[startIdx..endIdx]);
      assert Min(startIdx, poolsCnt) == startIdx;
      PrefixAssign(poolAddresses, results, promises, startIdx, endIdx, part);
      promises := promises + [part];
      assert (i + 1) * poolsPerBatch == startIdx + poolsPerBatch;
      assert Min((i + 1) * poolsPerBatch, poolsCnt) == endIdx;
    }
    BatchPlan(poolsCnt);
    assert poolAddresses[..poolsCnt] == poolAddresses && results[..poolsCnt] == results;
    var merged := AssignAll(promises);
    return Some(merged);
  }

  /** `Object.assign(...results)` as the copy it performs: each batch map
      is copied over the merged one in turn. */
  method AssignAll(parts: seq<ReserveMap>) returns (merged: ReserveMap)
    ensures merged == Assign(parts)
  {
    merged := map[];
    for k := 0 to |parts|
      invariant merged == Assign(parts[..k])
    {
      assert parts[..k + 1][..k] == parts[..k];
      merged := merged + parts[k];
    }
    assert parts[..|parts|] == parts;
  }

  /** Adding the next batch's map extends the merged prefix by that slice. */
  lemma PrefixAssign(poolAddresses: seq<Address>, results: seq<CallResult>, promises: seq<ReserveMap>,
                     startIdx: nat, endIdx: nat, part: ReserveMap)
    requires |poolAddresses| == |results| && startIdx <= endIdx <= |results|
    requires Assign(promises) == KeepSucceeded(poolAddresses[..startIdx], results[..startIdx])
    requires part == KeepSucceeded(poolAddresses[startIdx..endIdx], results[startIdx..endIdx])
    ensures Assign(promises + [part]) == KeepSucceeded(poolAddresses[..endIdx], results[..endIdx])
  {
    assert (promises + [part])[..|promises|] == promises;
    assert poolAddresses[..endIdx] == poolAddresses[..startIdx] + poolAddresses[startIdx..endIdx];
    assert results[..endIdx] == results[..startIdx] + results[startIdx..endIdx];
    KeepSucceededAppend(poolAddresses[..startIdx], results[..startIdx],
                        poolAddresses[startIdx..endIdx], results[startIdx..endIdx]);
  }
}
