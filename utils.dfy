/** Block-level helpers: the base-fee prediction for the next block and the
    fold of one block's `Sync` events into the latest reserves per pool. */
module Utils {
  import opened Common
  import Simulator

  // ---------------------------------------------------------------------
  // Next block base fee

  /** Half the gas limit, floored, and never zero. */
  function TargetGasUsed(gasLimit: nat): (t: nat)
    ensures t >= 1
    ensures gasLimit >= 2 ==> 2 * t <= gasLimit <= 2 * t + 1
    ensures gasLimit < 2 ==> t == 1
  {
    if gasLimit / 2 == 0 then 1 else gasLimit / 2
  }

  /** `calculateNextBlockBaseFee`: the base fee moves towards the target by
      at most one eighth, using two successive floor divisions; the random
      term `rand` (`Math.floor(Math.random() * 10)`) is added last. */
  function NextBlockBaseFee(baseFee: nat, gasUsed: nat, gasLimit: nat, rand: nat): (r: int)
    requires rand <= 9
    ensures gasUsed > TargetGasUsed(gasLimit) ==> r >= baseFee + rand
    ensures gasUsed <= TargetGasUsed(gasLimit) ==> r <= baseFee + rand
  {
    var target := TargetGasUsed(gasLimit);
    var newBaseFee :=
      if gasUsed > target then baseFee + FeeDelta(baseFee, gasUsed - target, target)
      else baseFee - FeeDelta(baseFee, target - gasUsed, target);
    newBaseFee + rand
  }

  /** `baseFee * gap / target / 8`, the size of the move. */
  function FeeDelta(baseFee: nat, gap: nat, target: nat): nat
    requires target > 0
  {
    baseFee * gap / target / 8
  }

  /** The move is `baseFee * gap / (8 * target)` rounded down; a gap no
      larger than the target moves by at most an eighth, and a gap equal to
      it by exactly an eighth. */
  lemma FeeDeltaFacts(baseFee: nat, gap: nat, target: nat)
    requires target > 0
    ensures FeeDelta(baseFee, gap, target) == baseFee * gap / (8 * target)
    ensures gap <= target ==> FeeDelta(baseFee, gap, target) <= baseFee / 8
    ensures gap == target ==> FeeDelta(baseFee, gap, target) == baseFee / 8
  {
    FeeDeltaExact(baseFee, gap, target);
    if gap <= target {
      FeeDeltaBound(baseFee, gap, target);
    }
    if gap == target {
      FeeDeltaFull(baseFee, target);
    }
  }

  lemma FeeDeltaExact(baseFee: nat, gap: nat, target: nat)
    requires target > 0
    ensures FeeDelta(baseFee, gap, target) == baseFee * gap / (8 * target)
  {
    DivDiv(baseFee * gap, target, 8);
    assert target * 8 == 8 * target;
  }

  lemma FeeDeltaBound(baseFee: nat, gap: nat, target: nat)
    requires target > 0 && gap <= target
    ensures FeeDelta(baseFee, gap, target) <= baseFee / 8
  {
    var x := baseFee * gap;
    Simulator.MulLeRight(gap, target, baseFee);
    assert x <= target * baseFee;
    Simulator.DivBelow(x, target, baseFee);
    DivMono(x / target, baseFee, 8);
  }

  lemma FeeDeltaFull(baseFee: nat, target: nat)
    requires target > 0
    ensures FeeDelta(baseFee, target, target) == baseFee / 8
  {
    var x := baseFee * target;
    assert x == target * baseFee;
    Simulator.DivBelow(x, target, baseFee);
    Simulator.DivBelowInverse(baseFee, x, target);
  }

  lemma FeeDeltaMonotone(baseFee: nat, gap1: nat, gap2: nat, target: nat)
    requires target > 0 && gap1 <= gap2
    ensures FeeDelta(baseFee, gap1, target) <= FeeDelta(baseFee, gap2, target)
  {
    Simulator.MulLeRight(gap1, gap2, baseFee);
    DivMono(baseFee * gap1, baseFee * gap2, target);
    DivMono(baseFee * gap1 / target, baseFee * gap2 / target, 8);
  }

  /** Two successive floor divisions are one division by the product. */
  lemma DivDiv(x: nat, a: nat, b: nat)
    requires a > 0 && b > 0
    ensures x / a / b == x / (a * b)
  {
    var q2 := x / a / b;
    DivDivLower(x, a, b);
    DivDivUpper(x, a, b);
    Simulator.DivBelowInverse(q2, x, a * b);
    assert x < (a * b) * (q2 + 1);
    Simulator.DivStrictlyBelow(x, a * b, q2 + 1);
  }

  lemma DivDivLower(x: nat, a: nat, b: nat)
    requires a > 0 && b > 0
    ensures (x / a / b) * (a * b) <= x
  {
    var q := x / a;
    var q2 := q / b;
    assert q2 * b <= q;
    Simulator.MulLeRight(q2 * b, q, a);
    assert q * a <= x;
    Assoc(q2, a, b);
  }

  lemma DivDivUpper(x: nat, a: nat, b: nat)
    requires a > 0 && b > 0
    ensures x < (x / a / b + 1) * (a * b)
  {
    var q := x / a;
    var q2 := q / b;
    assert x < (q + 1) * a;
    assert q + 1 <= (q2 + 1) * b;
    Simulator.MulLeRight(q + 1, (q2 + 1) * b, a);
    Assoc(q2 + 1, a, b);
  }

  lemma Assoc(x: int, a: int, b: int)
    ensures x * (a * b) == (x * b) * a
  {
  }

  /** Floor division is monotone in the dividend. */
  lemma DivMono(a: nat, b: nat, d: nat)
    requires d > 0 && a <= b
    ensures a / d <= b / d
  {
    assert (a / d) * d <= a;
    Simulator.DivBelowInverse(a / d, b, d);
  }

  /** Above the target the fee rises, by `baseFee * excess / (8 * target)`
      rounded down; a block using twice the target raises it by an eighth. */
  lemma BaseFeeRises(baseFee: nat, gasUsed: nat, gasLimit: nat, rand: nat)
    requires rand <= 9 && gasUsed > TargetGasUsed(gasLimit)
    ensures var t := TargetGasUsed(gasLimit);
      && NextBlockBaseFee(baseFee, gasUsed, gasLimit, rand) - rand
           == baseFee + baseFee * (gasUsed - t) / (8 * t)
      && NextBlockBaseFee(baseFee, gasUsed, gasLimit, rand) - rand >= baseFee
    ensures gasUsed == 2 * TargetGasUsed(gasLimit) ==>
      NextBlockBaseFee(baseFee, gasUsed, gasLimit, rand) - rand == baseFee + baseFee / 8
  {
    var t := TargetGasUsed(gasLimit);
    FeeDeltaFacts(baseFee, gasUsed - t, t);
  }

  /** At or below the target the fee falls by at most an eighth (so it is
      never negative) and stays put exactly at the target. */
  lemma BaseFeeFalls(baseFee: nat, gasUsed: nat, gasLimit: nat, rand: nat)
    requires rand <= 9 && gasUsed <= TargetGasUsed(gasLimit)
    ensures var t := TargetGasUsed(gasLimit);
      && NextBlockBaseFee(baseFee, gasUsed, gasLimit, rand) - rand
           == baseFee - baseFee * (t - gasUsed) / (8 * t)
      && baseFee - baseFee / 8 <= NextBlockBaseFee(baseFee, gasUsed, gasLimit, rand) - rand <= baseFee
    ensures gasUsed == TargetGasUsed(gasLimit) ==>
      NextBlockBaseFee(baseFee, gasUsed, gasLimit, rand) == baseFee + rand
  {
    var t := TargetGasUsed(gasLimit);
    FeeDeltaFacts(baseFee, t - gasUsed, t);
  }

  /** More gas used in this block never predicts a lower base fee. */
  lemma BaseFeeMonotone(baseFee: nat, used1: nat, used2: nat, gasLimit: nat, rand: nat)
    requires rand <= 9 && used1 <= used2
    ensures NextBlockBaseFee(baseFee, used1, gasLimit, rand)
         <= NextBlockBaseFee(baseFee, used2, gasLimit, rand)
  {
    var t := TargetGasUsed(gasLimit);
    if used1 > t {
      FeeDeltaMonotone(baseFee, used1 - t, used2 - t, t);
    } else if used2 <= t {
      FeeDeltaMonotone(baseFee, t - used2, t - used1, t);
    }
  }

  // ---------------------------------------------------------------------
  // Touched pool reserves

  /** A decoded `Sync(uint112,uint112)` log: the emitting pool, the index of
      its transaction in the block, and the reserves it reports. */
  datatype SyncLog = SyncLog(address: Address, transactionIndex: nat, reserve: Reserve)

  /** The loop state of `getTouchedPoolReserves`: the keys of `reserves` in
      insertion order (the order a `for … in` loop later visits them), the
      `txIdx` bookkeeping and the `reserves` dictionary. */
  datatype Touched = Touched(order: seq<Address>, txIdx: map<Address, nat>, reserves: ReserveMap)

  /** One loop iteration: a log replaces the stored reserves of its pool
      unless an earlier log of that pool had a higher transaction index
      (`txIdx[address] || 0` reads a missing entry as 0). */
  function Absorb(t: Touched, log: SyncLog): (r: Touched)
    ensures t.txIdx.Keys == t.reserves.Keys ==>
      r.txIdx.Keys == r.reserves.Keys == t.reserves.Keys + {log.address}
  {
    var prevTxIdx := if log.address in t.txIdx then t.txIdx[log.address] else 0;
    if log.transactionIndex >= prevTxIdx then
      Touched(if log.address in t.reserves then t.order else t.order + [log.address],
              t.txIdx[log.address := log.transactionIndex],
              t.reserves[log.address := log.reserve])
    else t
  }

  /** The loop over the block's logs, from fresh empty dictionaries. */
  function SyncFold(logs: seq<SyncLog>): (t: Touched)
    ensures |t.order| <= |logs|
  {
    if |logs| == 0 then Touched([], map[], map[])
    else
      Absorb(SyncFold(logs[..|logs| - 1]), logs[|logs| - 1])
  }

  /** The pools that emitted a log. */
  function LogAddresses(logs: seq<SyncLog>): set<Address>
  {
    set i | 0 <= i < |logs| :: logs[i].address
  }

  /** Position `w` holds the log whose reserves the block ends with for pool
      `a`: it has the highest transaction index among `a`'s logs, and no
      later log of `a` has an index as high. */
  predicate IsWinner(logs: seq<SyncLog>, a: Address, w: int)
  {
    && 0 <= w < |logs|
    && logs[w].address == a
    && (forall i :: 0 <= i < |logs| && logs[i].address == a ==>
          logs[i].transactionIndex <= logs[w].transactionIndex)
    && (forall i :: w < i < |logs| && logs[i].address == a ==>
          logs[i].transactionIndex < logs[w].transactionIndex)
  }

  /** What the fold keeps, stated without the fold. */
  predicate Summarises(logs: seq<SyncLog>, t: Touched)
  {
    && t.reserves.Keys == LogAddresses(logs)
    && t.txIdx.Keys == t.reserves.Keys
    && HoldsWinners(logs, t)
    && ListsKeysOnce(t)
  }

  /** Each stored pool carries the index and reserves of its winning log. */
  predicate HoldsWinners(logs: seq<SyncLog>, t: Touched)
  {
    forall a :: a in t.reserves ==>
      exists w :: 0 <= w < |logs| && IsWinner(logs, a, w)
        && a in t.txIdx && t.txIdx[a] == logs[w].transactionIndex && t.reserves[a] == logs[w].reserve
  }

  /** `order` lists every key of `reserves` exactly once. */
  predicate ListsKeysOnce(t: Touched)
  {
    && (forall j, k :: 0 <= j < k < |t.order| ==> t.order[j] != t.order[k])
    && (forall j :: 0 <= j < |t.order| ==> t.order[j] in t.reserves)
    && (forall a :: a in t.reserves ==> a in t.order)
  }

  lemma LogAddressesSnoc(logs: seq<SyncLog>, log: SyncLog)
    ensures LogAddresses(logs + [log]) == LogAddresses(logs) + {log.address}
  {
    var all := logs + [log];
    forall a | a in LogAddresses(all) ensures a in LogAddresses(logs) + {log.address} {
      var i :| 0 <= i < |all| && all[i].address == a;
      if i < |logs| { assert logs[i].address == a; }
    }
    assert all[|logs|].address == log.address;
    forall a | a in LogAddresses(logs) ensures a in LogAddresses(all) {
      var i :| 0 <= i < |logs| && logs[i].address == a;
      assert all[i].address == a;
    }
  }

  /** A winner for another pool stays the winner after one more log. */
  lemma WinnerKept(logs: seq<SyncLog>, log: SyncLog, a: Address, w: int)
    requires IsWinner(logs, a, w)
    requires log.address != a || log.transactionIndex < logs[w].transactionIndex
    ensures IsWinner(logs + [log], a, w)
  {
    var all := logs + [log];
    assert all[w] == logs[w];
    forall i | 0 <= i < |all| && all[i].address == a
      ensures all[i].transactionIndex <= all[w].transactionIndex
    {
      if i < |logs| { assert all[i] == logs[i]; }
    }
    forall i | w < i < |all| && all[i].address == a
      ensures all[i].transactionIndex < all[w].transactionIndex
    {
      if i < |logs| { assert all[i] == logs[i]; }
    }
  }

  /** The new log wins when no earlier log of its pool beats its index. */
  lemma WinnerNew(logs: seq<SyncLog>, log: SyncLog)
    requires forall i :: 0 <= i < |logs| && logs[i].address == log.address ==>
      logs[i].transactionIndex <= log.transactionIndex
    ensures IsWinner(logs + [log], log.address, |logs|)
  {
    var all := logs + [log];
    forall i | 0 <= i < |all| && all[i].address == log.address
      ensures all[i].transactionIndex <= all[|logs|].transactionIndex
    {
      if i < |logs| { assert all[i] == logs[i]; }
    }
  }

  /** One iteration keeps the insertion-ordered key list in step. */
  lemma OrderStep(t: Touched, log: SyncLog)
    requires ListsKeysOnce(t)
    ensures ListsKeysOnce(Absorb(t, log))
  {
  }

  lemma NotLogged(logs: seq<SyncLog>, a: Address)
    requires a !in LogAddresses(logs)
    ensures forall i :: 0 <= i < |logs| ==> logs[i].address != a
  {
  }

  /** One iteration finds, for each stored pool, the winning log. */
  lemma WinnerStep(prev: seq<SyncLog>, log: SyncLog, t: Touched, a: Address)
    requires Summarises(prev, t)
    requires a in Absorb(t, log).reserves
    ensures var n := Absorb(t, log);
      var logs := prev + [log];
      exists w :: (0 <= w < |logs| && IsWinner(logs, a, w)
        && a in n.txIdx && n.txIdx[a] == logs[w].transactionIndex && n.reserves[a] == logs[w].reserve)
  {
    var n := Absorb(t, log);
    var logs := prev + [log];
    var prevTxIdx := if log.address in t.txIdx then t.txIdx[log.address] else 0;
    if a == log.address && log.transactionIndex >= prevTxIdx {
      NewLogWins(prev, log, t);
      assert logs[|prev|] == log;
      assert n.txIdx[a] == log.transactionIndex && n.reserves[a] == log.reserve;
      assert IsWinner(logs, a, |prev|) && a in n.txIdx
        && n.txIdx[a] == logs[|prev|].transactionIndex && n.reserves[a] == logs[|prev|].reserve;
    } else {
      assert n.txIdx == t.txIdx || (a != log.address && n.txIdx[a] == t.txIdx[a]);
      assert n.reserves[a] == t.reserves[a];
      var w :| 0 <= w < |prev| && IsWinner(prev, a, w)
        && t.txIdx[a] == prev[w].transactionIndex && t.reserves[a] == prev[w].reserve;
      WinnerKept(prev, log, a, w);
      assert logs[w] == prev[w];
      assert IsWinner(logs, a, w) && a in n.txIdx
        && n.txIdx[a] == logs[w].transactionIndex && n.reserves[a] == logs[w].reserve;
    }
  }

  /** A log at least as late as its pool's stored index wins. */
  lemma NewLogWins(prev: seq<SyncLog>, log: SyncLog, t: Touched)
    requires Summarises(prev, t)
    requires log.address in t.txIdx ==> log.transactionIndex >= t.txIdx[log.address]
    ensures IsWinner(prev + [log], log.address, |prev|)
  {
    var a := log.address;
    if a in t.reserves {
      var w :| 0 <= w < |prev| && IsWinner(prev, a, w)
        && t.txIdx[a] == prev[w].transactionIndex && t.reserves[a] == prev[w].reserve;
    } else {
      NotLogged(prev, a);
    }
    WinnerNew(prev, log);
  }

  lemma WinnersStep(prev: seq<SyncLog>, log: SyncLog, t: Touched)
    requires Summarises(prev, t)
    ensures HoldsWinners(prev + [log], Absorb(t, log))
  {
    forall a | a in Absorb(t, log).reserves
      ensures exists w :: (0 <= w < |prev + [log]| && IsWinner(prev + [log], a, w)
        && a in Absorb(t, log).txIdx
        && Absorb(t, log).txIdx[a] == (prev + [log])[w].transactionIndex
        && Absorb(t, log).reserves[a] == (prev + [log])[w].reserve)
    {
      WinnerStep(prev, log, t, a);
    }
  }

  lemma KeysStep(prev: seq<SyncLog>, log: SyncLog, t: Touched)
    requires Summarises(prev, t)
    ensures Absorb(t, log).reserves.Keys == LogAddresses(prev + [log])
    ensures Absorb(t, log).txIdx.Keys == Absorb(t, log).reserves.Keys
  {
    LogAddressesSnoc(prev, log);
  }

  /** The fold holds, for every pool that emitted a log, the reserves and
      index of its winning log, and lists each such pool once. */
  lemma {:induction false} SyncFoldSummarises(logs: seq<SyncLog>)
    ensures Summarises(logs, SyncFold(logs))
  {
    if |logs| > 0 {
      var prev := logs[..|logs| - 1];
      var log := logs[|logs| - 1];
      assert logs == prev + [log];
      SyncFoldSummarises(prev);
      var t := SyncFold(prev);
      assert SyncFold(logs) == Absorb(t, log);
      KeysStep(prev, log, t);
      OrderStep(t, log);
      WinnersStep(prev, log, t);
    }
  }

  lemma SyncFoldStep(logs: seq<SyncLog>, k: nat)
    requires k < |logs|
    ensures SyncFold(logs[..k + 1]) == Absorb(SyncFold(logs[..k]), logs[k])
  {
    assert logs[..k + 1][..k] == logs[..k];
  }

  /** `getTouchedPoolReserves` over the block's logs: returns the touched
      pools in insertion order together with their reserves. */
  method GetTouchedPoolReserves(logs: seq<SyncLog>) returns (order: seq<Address>, reserves: ReserveMap)
    ensures order == SyncFold(logs).order && reserves == SyncFold(logs).reserves
    ensures reserves.Keys == LogAddresses(logs)
    ensures forall a :: a in reserves ==>
      exists w :: 0 <= w < |logs| && IsWinner(logs, a, w) && reserves[a] == logs[w].reserve
    ensures forall j, k :: 0 <= j < k < |order| ==> order[j] != order[k]
    ensures forall a :: a in reserves <==> a in order
  {
    var txIdx: map<Address, nat> := map[];
    reserves := map[];
    order := [];
    for k := 0 to |logs|
      invariant SyncFold(logs[..k]) == Touched(order, txIdx, reserves)
    {
      var log := logs[k];
      SyncFoldStep(logs, k);
      ghost var before := Touched(order, txIdx, reserves);
      var address := log.address;
      var idx := log.transactionIndex;
      var prevTxIdx := if address in txIdx then txIdx[address] else 0;
      if idx >= prevTxIdx {
        if address !in reserves {
          order := order + [address];
        }
        reserves := reserves[address := log.reserve];
        txIdx := txIdx[address := idx];
      }
      assert Touched(order, txIdx, reserves) == Absorb(before, log);
    }
    assert logs[..|logs|] == logs;
    SyncFoldSummarises(logs);
  }

  /** Two logs of one pool at transaction indices 3 and 7 leave the index-7
      reserves, whichever order they arrive in. */
  lemma LaterTransactionWins(a: Address, r3: Reserve, r7: Reserve)
    ensures SyncFold([SyncLog(a, 3, r3), SyncLog(a, 7, r7)]).reserves == map[a := r7]
    ensures SyncFold([SyncLog(a, 7, r7), SyncLog(a, 3, r3)]).reserves == map[a := r7]
  {
    var up := [SyncLog(a, 3, r3), SyncLog(a, 7, r7)];
    var down := [SyncLog(a, 7, r7), SyncLog(a, 3, r3)];
    assert up[..1] == [SyncLog(a, 3, r3)] && up[..1][..0] == [];
    assert down[..1] == [SyncLog(a, 7, r7)] && down[..1][..0] == [];
    assert SyncFold(up[..1]) == Touched([a], map[a := 3], map[a := r3]);
    assert SyncFold(down[..1]) == Touched([a], map[a := 7], map[a := r7]);
  }
}
