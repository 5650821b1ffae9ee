/**
 The burst loop of the crypto throughput test for one burst size. The device is free to
 accept any part of a burst and to return any of the operations it holds: what it
 does in each round is given by functions of the round number. The loop need not
 end, so a run is followed for any number of rounds.
 */
module Throughput {
  import opened Bits
  import opened Bursts

  /** The next burst is no larger than the last one and has room for what was kept. */
  ghost predicate Counters(testBurst: nat, totalOps: nat, opsEnqd: nat, opsUnused: nat, opsEnqdTotal: nat) {
    && opsEnqd + opsUnused <= testBurst
    && opsEnqdTotal + opsUnused <= totalOps
    && (Min(testBurst, totalOps - opsEnqdTotal) <= opsEnqd + opsUnused || opsEnqd == opsUnused == 0)
  }

  lemma CountersAfterSend(testBurst: nat, totalOps: nat, opsEnqd: nat, opsUnused: nat, opsEnqdTotal: nat, k: nat)
    requires Counters(testBurst, totalOps, opsEnqd, opsUnused, opsEnqdTotal)
    requires k <= Min(testBurst, totalOps - opsEnqdTotal)
    ensures Counters(testBurst, totalOps, k, Min(testBurst, totalOps - opsEnqdTotal) - k, opsEnqdTotal + k)
  {
  }

  lemma SubExact(a: nat, b: nat)
    requires b <= a < 0x1_0000
    ensures Sub16(a, b) == a - b
  {
  }

  lemma AddSize(m: multiset<OpId>, s: seq<OpId>)
    ensures |m + multiset(s)| == |m| + |s|
  {
  }

  lemma TakeSize(m: multiset<OpId>, s: seq<OpId>)
    requires multiset(s) <= m
    ensures |m - multiset(s)| == |m| - |s|
    ensures s == [] ==> m - multiset(s) == m
  {
  }

  class BurstLoop {
    const testBurst: Word16
    const totalOps: Word32
    const mbufsIn: seq<Mbuf>  // pool_sz buffers, only read
    const ops: array<OpId>
    const allOps: multiset<OpId>  // the operations the pool was created with

    var opsEnqd: nat
    var opsEnqdTotal: nat
    var opsDeqdTotal: nat
    var opsUnused: Word16
    var mIdx: nat

    var pool: seq<OpId>
    var device: multiset<OpId>
    var source: map<OpId, Mbuf>

    ghost var sent: seq<OpId>

    /** The operations a round left unsent, at the tail of its burst. */
    ghost function Kept(): seq<OpId>
      requires opsEnqd + opsUnused <= ops.Length
      reads this, ops
    {
      ops[opsEnqd..opsEnqd + opsUnused]
    }

    ghost function View(): State
      requires opsEnqd + opsUnused <= ops.Length
      reads this, ops
    {
      State(pool, Kept(), device, source, mIdx, sent)
    }

    /** The size of the next burst. */
    function NextBurst(): nat
      requires opsEnqdTotal <= totalOps
      reads this
    {
      Min(testBurst, totalOps - opsEnqdTotal)
    }

    ghost predicate Sizes()
      reads this
    {
      && testBurst <= ops.Length && |allOps| == |mbufsIn|
      && Counters(testBurst, totalOps, opsEnqd, opsUnused, opsEnqdTotal)
      && |sent| == opsEnqdTotal == opsDeqdTotal + |device|
      && (mIdx == 0 || mIdx + testBurst <= |mbufsIn|)
    }

    ghost predicate Valid()
      reads this, ops
    {
      Sizes() && Consistent(View(), allOps)
    }

    constructor (testBurst: Word16, totalOps: Word32, maxBurst: Word32, pool: seq<OpId>, mbufsIn: seq<Mbuf>)
      requires testBurst <= maxBurst && |pool| == |mbufsIn| && Unique(pool)
      ensures Valid() && View() == State(pool, [], multiset{}, map[], 0, []) && opsUnused == 0
      ensures allOps == multiset(pool) && opsEnqdTotal == 0 && fresh(ops) && Orderly(View(), mbufsIn, totalOps)
      ensures this.testBurst == testBurst && this.totalOps == totalOps && this.mbufsIn == mbufsIn
    {
      UniqueIsSingles(pool);
      this.testBurst, this.totalOps := testBurst, totalOps;
      this.mbufsIn := mbufsIn;
      ops := new OpId[maxBurst];
      allOps := multiset(pool);
      opsEnqd, opsEnqdTotal, opsDeqdTotal, opsUnused, mIdx := 0, 0, 0, 0, 0;
      this.pool, device, source := pool, multiset{}, map[];
      sent := [];
    }

    /** Takes n operations from the pool into the front of the array, or none at all. The kept
        operations further up stay as they are. */
    method BulkAlloc(n: Word16) returns (got: nat)
      requires n <= ops.Length && opsEnqd + opsUnused <= ops.Length
      requires opsUnused > 0 ==> n <= opsEnqd
      modifies this`pool, ops
      ensures got == if n <= |old(pool)| then n else 0
      ensures Kept() == old(Kept())
      ensures n <= |old(pool)| ==> pool == old(pool)[n..] && ops[..n] == old(pool)[..n]
    {
      if n > |pool| {
        return 0;
      }
      for i := 0 to n
        invariant forall k :: 0 <= k < i ==> ops[k] == pool[k]
        invariant forall k :: i <= k < ops.Length ==> ops[k] == old(ops[k])
        modifies ops
      {
        ops[i] := pool[i];
      }
      pool := pool[n..];
      got := n;
    }

    /** Attaches the next mbufs to the first n operations. */
    method PopulateOps(n: Word16)
      requires n <= ops.Length && mIdx + n <= |mbufsIn| && Unique(ops[..n]) && opsEnqd + opsUnused <= ops.Length
      modifies this`source
      ensures GivesFrom(old(source), source, ops[..n], mbufsIn, mIdx) && Kept() == old(Kept())
    {
      hide Unique, GivesFrom;
      ghost var burst := ops[..n];
      GivesNone(source, mbufsIn, mIdx);
      for i := 0 to n
        invariant GivesFrom(old(source), source, burst[..i], mbufsIn, mIdx)
      {
        GivesOneMore(old(source), source, burst, mbufsIn, mIdx, i);
        source := source[ops[i] := mbufsIn[mIdx + i]];
      }
      assert burst[..n] == burst;
    }

    /** memmove of n elements from index from to index to; the ranges may overlap. */
    method MoveDown(to: nat, from: nat, n: nat)
      requires to <= from && from + n <= ops.Length
      modifies ops
      ensures ops[..to] == old(ops[..to])
      ensures ops[to..to + n] == old(ops[from..from + n])
    {
      for i := 0 to n
        invariant ops[..to] == old(ops[..to])
        invariant forall k :: to <= k < to + i ==> ops[k] == old(ops[k + (from - to)])
        invariant forall k :: to + i <= k < ops.Length ==> ops[k] == old(ops[k])
      {
        ops[to + i] := ops[from + i];
      }
    }

    /** The 16-bit subtraction does not wrap, and the fresh operations end before the kept
        ones begin. */
    method SizeBurst() returns (burst: Word16, needed: Word16)
      requires Sizes() && opsEnqdTotal < totalOps
      ensures burst == NextBurst() && needed == burst - opsUnused && burst <= testBurst <= ops.Length
      ensures opsUnused > 0 ==> needed <= opsEnqd
    {
      burst := if opsEnqdTotal + testBurst <= totalOps then testBurst
               else (totalOps - opsEnqdTotal) % 0x1_0000;
      needed := Sub16(burst, opsUnused);
    }

    /** Moves the kept operations down behind the fresh ones. */
    method Compact(needed: Word16)
      requires opsEnqd + opsUnused <= ops.Length && needed + opsUnused <= ops.Length
      requires opsUnused > 0 ==> needed <= opsEnqd
      modifies ops
      ensures ops[..needed + opsUnused] == old(ops[..needed]) + old(Kept())
    {
      if opsEnqd > needed {
        MoveDown(needed, opsEnqd, opsUnused);
      }
      assert ops[..needed + opsUnused] == ops[..needed] + ops[needed..needed + opsUnused];
    }

    /** Allocation and compaction. No kept operation is overwritten before it is moved, and
        the burst is the fresh operations followed by the kept ones. Each fresh operation has
        the mbuf at its place; those kept or in the device hold theirs. The mbufs attached
        lie in the pool even when the pool is smaller than a burst, because then the
        allocation fails first. */
    method PrepareBurst() returns (ok: bool, burst: Word16, needed: Word16)
      requires Valid() && opsEnqdTotal < totalOps
      modifies this`pool, this`source, ops
      ensures burst == old(NextBurst()) && needed == burst - opsUnused && burst <= ops.Length
      ensures ok <==> needed <= |old(pool)|
      ensures ok ==> Prepared(old(View()), burst, pool, ops[..burst], source, mbufsIn)
    {
      hide *;
      BeforeBurst();
      ghost var s := View();
      burst, needed := SizeBurst();
      var got := BulkAlloc(needed);
      if needed != got {
        return false, burst, needed;
      }
      FreshAreNew(s, allOps, needed);
      InsidePool(mIdx, needed, |s.pool|, testBurst, |mbufsIn|);
      PopulateOps(needed);
      Compact(needed);
      MakesPrepared(s, burst, pool, ops[..burst], source, mbufsIn);
      ok := true;
    }

    /** The device takes a front part of the burst; the rest is kept. */
    method SendBurst(burst: Word16, accept: nat)
      requires Sizes() && opsEnqdTotal < totalOps && burst == NextBurst() && opsUnused <= burst
      modifies this`opsEnqd, this`opsUnused, this`opsEnqdTotal, this`device, this`sent
      ensures Sizes() && opsEnqd == Min(accept, burst) && opsUnused == burst - opsEnqd
      ensures View() == var all := old(ops[..burst]);
                        State(pool, all[opsEnqd..], old(device) + multiset(all[..opsEnqd]), source, mIdx,
                              old(sent) + all[..opsEnqd])
    {
      hide Counters, Min, Sub16;
      ghost var all, k := ops[..burst], Min(accept, burst);
      CountersAfterSend(testBurst, totalOps, opsEnqd, opsUnused, opsEnqdTotal, k);
      SubExact(burst, k);
      AddSize(device, all[..k]);
      var front := ops[..Min(accept, burst)];
      assert front == all[..k];
      opsEnqd := Min(accept, burst);
      device := device + multiset(front);
      sent := sent + front;
      opsUnused := Sub16(burst, opsEnqd);
      opsEnqdTotal := opsEnqdTotal + opsEnqd;
      assert Kept() == all[k..];
    }

    /** One round up to the dequeue. It sends a front part of the fresh operations followed
        by the kept ones, in that order, and keeps the rest. Afterwards no two operations in use
        share an mbuf exactly when none did before and the mbufs handed out were free. */
    method EnqueueRound(accept: nat) returns (ok: bool, needed: Word16)
      requires Valid() && opsEnqdTotal < totalOps
      modifies this, ops
      ensures ok <==> old(NextBurst()) - old(opsUnused) <= |old(pool)|
      ensures ok ==> Valid() && needed == old(NextBurst()) - old(opsUnused) && mIdx == old(mIdx)
      ensures ok ==> Enqueued(old(View()), View(), old(NextBurst()), accept, mbufsIn)
      ensures ok ==> (Unshared(source, View().InUse()) <==>
                      old(Unshared(source, View().InUse()))
                      && WindowFree(old(source), mbufsIn, old(mIdx), needed, old(View().InUse())))
    {
      hide Consistent, Prepared, Enqueued, Unshared, WindowFree, State.InUse, Min, Kept, Counters;
      BeforeBurst();
      ghost var s := View();
      var burst;
      ok, burst, needed := PrepareBurst();
      if ok {
        SendsPrepared(s, burst, pool, ops[..burst], source, mbufsIn, accept);
        SendBurst(burst, accept);
        EnqueuedConsistent(s, View(), burst, accept, mbufsIn, allOps);
        RoundShares(s, View(), burst, accept, mbufsIn, allOps);
      }
    }

    /** Returns what the device has finished to the pool. */
    method Collect(ready: multiset<OpId> -> seq<OpId>)
      requires Valid()
      modifies this`pool, this`device, this`opsDeqdTotal
      ensures Valid() && Collected(old(View()), View(), Returned(ready, old(device), testBurst))
    {
      hide Consistent, Returned, Counters, Min;
      BeforeBurst();
      ghost var s := View();
      var opsProcessed := Returned(ready, device, testBurst);
      TakeSize(device, opsProcessed);
      if |opsProcessed| > 0 {
        pool := pool + opsProcessed;
        device := device - multiset(opsProcessed);
        opsDeqdTotal := opsDeqdTotal + |opsProcessed|;
      }
      CollectedConsistent(s, View(), opsProcessed, allOps);
    }

    method AdvanceMbufs(needed: Word16)
      requires Valid()
      modifies this`mIdx
      ensures Valid() && View() == old(View()).(mIdx := NextIdx(old(mIdx) + needed, testBurst, |mbufsIn|))
    {
      hide Singles, Attached, Counters;
      mIdx := mIdx + needed;
      mIdx := if mIdx + testBurst > |mbufsIn| then 0 else mIdx;
    }

    /** One round of the loop, for whatever the device does. It stops only on an exhausted pool. */
    method Round(accept: nat, ready: multiset<OpId> -> seq<OpId>) returns (ok: bool)
      requires Valid() && opsEnqdTotal < totalOps
      modifies this, ops
      ensures ok <==> old(NextBurst()) - old(opsUnused) <= |old(pool)|
      ensures ok ==> Valid() && Rounded(old(View()), View(), old(NextBurst()), accept, ready, testBurst, mbufsIn)
    {
      hide Consistent, Enqueued, Collected, Returned, NextIdx, Unshared, WindowFree, Min, Kept;
      BeforeBurst();
      var needed;
      ok, needed := EnqueueRound(accept);
      if !ok {
        return;
      }
      ghost var u := View();
      Collect(ready);
      ghost var v := View();
      AdvanceMbufs(needed);
      ghost var next := old(View()).mIdx + old(NextBurst()) - |old(View()).kept|;
      assert View() == v.(mIdx := NextIdx(next, testBurst, |mbufsIn|));
    }

    /** The enqueue loop, followed for a number of rounds. When it ends, exactly the
        required number of operations was sent and none is left over; a device that
        always takes something makes it end. Each round follows from the one before by what the
        device accepts and returns in it; the loop fails exactly when a round needs more
        operations than are free, which a device that returns all it holds never brings about.
        Unless the sizes allow it, no device makes two operations in use share an mbuf. */
    method EnqueueLoop(accept: nat -> nat, ready: nat -> multiset<OpId> -> seq<OpId>, rounds: nat)
      returns (status: Status, ghost states: seq<State>)
      requires Valid()
      modifies this, ops
      ensures Chained(states, accept, ready, testBurst, totalOps, mbufsIn) && states[0] == old(View())
      ensures status != PoolExhausted ==> Valid() && states[|states| - 1] == View()
      ensures status == PoolExhausted <==>
              |states| <= rounds && Exhausted(states[|states| - 1], testBurst, totalOps)
      ensures status == StillRunning <==> |states| == rounds + 1 && |states[|states| - 1].sent| < totalOps
      ensures 1 <= testBurst <= |mbufsIn| && totalOps <= rounds && (forall r :: accept(r) > 0) && ReturnsAll(ready)
              && old(device) == multiset{} ==>
                status == Finished
      ensures status == Finished <==> status != PoolExhausted && opsEnqdTotal == totalOps
      ensures status == Finished ==> opsUnused == 0 && |sent| == totalOps && multiset(pool) + device == allOps
      ensures testBurst > 0 && totalOps <= rounds && (forall r :: accept(r) > 0) ==> status != StillRunning
      ensures status != PoolExhausted && !CanShare(totalOps, testBurst, |mbufsIn|) && Unique(mbufsIn)
              && old(Orderly(View(), mbufsIn, totalOps)) ==>
                Orderly(View(), mbufsIn, totalOps)
    {
      hide *;
      BeforeBurst();
      ghost var s := View();
      status, states := EnqueueRounds(accept, ready, rounds);
      ghost var last := states[|states| - 1];
      StartsServed(s, allOps);
      if testBurst <= |allOps| && ReturnsAll(ready) && s.device == multiset{} {
        NeverExhausted(states, accept, ready, testBurst, totalOps, mbufsIn, allOps);
      }
      if testBurst > 0 && forall r :: accept(r) > 0 {
        ChainProgress(states, accept, ready, testBurst, totalOps, mbufsIn);
      }
      if Orderly(s, mbufsIn, totalOps) && Unique(mbufsIn) && !CanShare(totalOps, testBurst, |mbufsIn|) {
        ChainOrderly(states, accept, ready, testBurst, totalOps, mbufsIn, allOps);
      }
      if status != PoolExhausted {
        BeforeBurst();
        if opsUnused == 0 {
          NothingKept(last, allOps);
        }
      }
    }

    /** The loop itself. */
    method EnqueueRounds(accept: nat -> nat, ready: nat -> multiset<OpId> -> seq<OpId>, rounds: nat)
      returns (status: Status, ghost states: seq<State>)
      requires Valid()
      modifies this, ops
      ensures Chained(states, accept, ready, testBurst, totalOps, mbufsIn) && states[0] == old(View())
      ensures status != PoolExhausted ==> Valid() && states[|states| - 1] == View()
      ensures status == PoolExhausted <==>
              |states| <= rounds && Exhausted(states[|states| - 1], testBurst, totalOps)
      ensures status == StillRunning <==> |states| == rounds + 1 && |states[|states| - 1].sent| < totalOps
      ensures |states| > 0 && (status == Finished ==> opsEnqdTotal == totalOps)
    {
      hide Consistent, Follows, Rounded, Kept, Counters, Min, Chained;
      var r := 0;
      BeforeBurst();
      states := [View()];
      ChainedFirst(View(), accept, ready, testBurst, totalOps, mbufsIn);
      while r < rounds && opsEnqdTotal < totalOps
        invariant Valid() && r <= rounds && opsEnqd + opsUnused <= ops.Length && opsEnqdTotal <= totalOps
        invariant |states| == r + 1 && states[0] == old(View()) && states[r] == View()
        invariant Chained(states, accept, ready, testBurst, totalOps, mbufsIn)
      {
        BeforeBurst();
        var ok := Round(accept(r), ready(r));
        if !ok {
          status := PoolExhausted;
          return;
        }
        BeforeBurst();
        MakesFollow(states[r], View(), accept(r), ready(r), testBurst, totalOps, mbufsIn);
        ChainedMore(states, View(), accept, ready, testBurst, totalOps, mbufsIn);
        states := states + [View()];
        r := r + 1;
      }
      status := if opsEnqdTotal < totalOps then StillRunning else Finished;
    }

    /** Emptying the device after the last burst. Once it ends, every operation is back
        in the pool; a device that returns something whenever it holds something makes it end. */
    method DrainLoop(ready: nat -> multiset<OpId> -> seq<OpId>, rounds: nat)
      returns (drained: bool, ghost states: seq<State>)
      requires Valid() && opsEnqdTotal == totalOps && opsUnused == 0
      modifies this
      ensures Valid() && opsEnqdTotal == totalOps && opsUnused == 0
      ensures Draining(states, ready, testBurst) && states[0] == old(View()) && states[|states| - 1] == View()
      ensures |states| <= rounds + 1 && (drained || |states| == rounds + 1)
      ensures drained <==> opsDeqdTotal == totalOps
      ensures drained ==> device == multiset{} && multiset(pool) == allOps
      ensures totalOps <= rounds && ReturnsSome(ready, testBurst) ==> drained
    {
      hide *;
      BeforeBurst();
      drained, states := DrainRounds(ready, rounds);
      BeforeBurst();
      if ReturnsSome(ready, testBurst) {
        DrainProgress(states, ready, testBurst);
      }
      if drained {
        NothingKept(View(), allOps);
      }
    }

    /** The loop itself. */
    method DrainRounds(ready: nat -> multiset<OpId> -> seq<OpId>, rounds: nat)
      returns (drained: bool, ghost states: seq<State>)
      requires Valid() && opsEnqdTotal == totalOps && opsUnused == 0
      modifies this
      ensures Valid() && opsEnqdTotal == totalOps && opsUnused == 0
      ensures Draining(states, ready, testBurst) && states[0] == old(View()) && states[|states| - 1] == View()
      ensures 1 <= |states| <= rounds + 1 && (drained || |states| == rounds + 1)
      ensures drained <==> opsDeqdTotal == totalOps
    {
      hide Consistent, Counters, Kept, Draining, Returned;
      var r := 0;
      BeforeBurst();
      states := [View()];
      DrainingFirst(View(), ready, testBurst);
      while r < rounds && opsDeqdTotal < totalOps
        invariant Valid() && opsEnqdTotal == totalOps && opsUnused == 0 && r <= rounds
        invariant opsEnqd + opsUnused <= ops.Length
        invariant |states| == r + 1 && states[0] == old(View()) && states[r] == View()
        invariant Draining(states, ready, testBurst)
      {
        Collect(ready(r));
        BeforeBurst();
        DrainingMore(states, View(), ready, testBurst);
        states := states + [View()];
        r := r + 1;
      }
      BeforeBurst();
      drained := opsDeqdTotal >= totalOps;
    }

    lemma BeforeBurst()
      requires Valid()
      ensures opsEnqd + opsUnused <= ops.Length && |Kept()| == opsUnused
      ensures View() == State(pool, Kept(), device, source, mIdx, sent)
      ensures Sizes() && Consistent(View(), allOps) && opsEnqdTotal + opsUnused <= totalOps
      ensures |pool| <= |mbufsIn| == |allOps| && (mIdx == 0 || mIdx + testBurst <= |mbufsIn|)
      ensures |sent| == opsEnqdTotal == opsDeqdTotal + |device| && View().Allotted() == |sent| + opsUnused
    {
      ConsistentMeans(View(), allOps);
      hide Consistent;
    }
  }

  datatype Status = Finished | PoolExhausted | StillRunning

  /** The mbufs of a burst lie in the pool. */
  lemma InsidePool(m: nat, needed: nat, free: nat, testBurst: nat, poolSize: nat)
    requires needed <= free <= poolSize && needed <= testBurst && (m == 0 || m + testBurst <= poolSize)
    ensures m + needed <= poolSize
  {
  }
}
