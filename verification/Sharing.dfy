/**
 How a device makes two operations share an mbuf, for every choice of sizes that allows it at
 all. One operation with the first mbuf is left in the device while others come and go,
 until the mbuf index starts again.
 */
module Sharing {
  import opened Bits
  import opened Bursts
  import opened Throughput

  /** One fresh operation is sent; the kept ones stay. If told to, the device returns it at once. */
  lemma {:induction false} OneSent(s: State, t: State, x: OpId, back: bool, ready: multiset<OpId> -> seq<OpId>,
                                   testBurst: nat, mbufs: seq<Mbuf>)
    requires s.pool != [] && x == s.pool[0] && testBurst > 0
    requires forall d :: ready(d) == if back then [x] else []
    requires Rounded(s, t, |s.kept| + 1, 1, ready, testBurst, mbufs)
    ensures t.pool == (if back then s.pool[1..] + [x] else s.pool[1..]) && t.kept == s.kept
    ensures t.device == if back then s.device else s.device + multiset{x}
    ensures |t.sent| == |s.sent| + 1 && t.mIdx == NextIdx(s.mIdx + 1, testBurst, |mbufs|)
    ensures GivesFrom(s.source, t.source, [x], mbufs, s.mIdx)
  {
    hide Rounded, GivesFrom, NextIdx;
    var burst := [x] + s.kept;
    RoundedMeans(s, t, |s.kept| + 1, 1, ready, testBurst, mbufs, [x], burst);
    assert burst[..1] == [x] && burst[1..] == s.kept;
    var busy := s.device + multiset([x]);
    assert multiset([x]) == multiset{x} && multiset{x} <= busy;
    assert busy - multiset{x} == s.device;
  }

  /** A whole burst is sent and one of its operations, not the first, is returned. */
  lemma {:induction false} AllSent(s: State, t: State, n: nat, y: OpId, ready: multiset<OpId> -> seq<OpId>,
                                   testBurst: nat, mbufs: seq<Mbuf>, burst: seq<OpId>)
    requires |s.kept| < n <= |s.kept| + |s.pool| && burst == s.pool[..n - |s.kept|] + s.kept && testBurst > 0
    requires y in burst && y != burst[0] && forall d :: ready(d) == [y]
    requires Rounded(s, t, n, n, ready, testBurst, mbufs)
    ensures t.pool == s.pool[n - |s.kept|..] + [y] && t.kept == [] && burst[0] in t.device
    ensures |t.sent| == |s.sent| + n && t.mIdx == NextIdx(s.mIdx + n - |s.kept|, testBurst, |mbufs|)
    ensures GivesFrom(s.source, t.source, s.pool[..n - |s.kept|], mbufs, s.mIdx)
  {
    hide Rounded, GivesFrom, NextIdx;
    RoundedMeans(s, t, n, n, ready, testBurst, mbufs, s.pool[..n - |s.kept|], burst);
    assert burst[..n] == burst && burst[n..] == [];
    var busy := s.device + multiset(burst);
    assert burst[0] in burst && y in busy && multiset([y]) == multiset{y} <= busy;
    assert (busy - multiset{y})[burst[0]] == busy[burst[0]];
  }

  /** The first burst: one operation is sent, and returned at once if the device is told to. */
  lemma {:induction false} FirstSent(s: State, t: State, n: nat, x: OpId, back: bool,
                                     ready: multiset<OpId> -> seq<OpId>, testBurst: nat, mbufs: seq<Mbuf>)
    requires s.kept == [] && s.device == multiset{} && 1 <= n <= |s.pool| && x == s.pool[0] && testBurst > 0
    requires forall d :: ready(d) == if back then [x] else []
    requires Rounded(s, t, n, 1, ready, testBurst, mbufs)
    ensures t.pool == (if back then s.pool[n..] + [x] else s.pool[n..]) && |t.kept| == n - 1
    ensures t.device == if back then multiset{} else multiset{x}
    ensures |t.sent| == |s.sent| + 1 && t.mIdx == NextIdx(s.mIdx + n, testBurst, |mbufs|)
    ensures GivesFrom(s.source, t.source, s.pool[..n], mbufs, s.mIdx)
  {
    hide Rounded, GivesFrom, NextIdx;
    var burst := s.pool[..n];
    assert burst + s.kept == burst;
    RoundedMeans(s, t, n, 1, ready, testBurst, mbufs, burst, burst);
    assert burst[..1] == [x];
    var busy := s.device + multiset([x]);
    assert busy == multiset{x} && multiset([x]) == multiset{x};
    assert busy - multiset{x} == multiset{};
  }

  /** An operation in the device holds the first mbuf, and one operation is about to be given it. */
  ghost predicate AtRisk(s: State, x: OpId, n: nat, mbufs: seq<Mbuf>) {
    && mbufs != [] && x in s.device && x in s.source && s.source[x] == mbufs[0]
    && s.mIdx == 0 && s.pool != [] && n == |s.kept| + 1
  }

  /** The round that shares the mbuf. */
  method GiveAway(loop: BurstLoop, ghost x: OpId) returns (ghost y: OpId)
    requires loop.Valid() && loop.opsEnqdTotal < loop.totalOps && loop.testBurst > 0
    requires AtRisk(loop.View(), x, loop.NextBurst(), loop.mbufsIn)
    modifies loop, loop.ops
    ensures loop.Valid() && x != y && x in loop.device && y in loop.device
    ensures x in loop.source && y in loop.source && loop.source[x] == loop.source[y]
  {
    hide Consistent, Rounded, GivesFrom, BurstLoop.Sizes, BurstLoop.Kept, BurstLoop.NextBurst, NextIdx;
    loop.BeforeBurst();
    ghost var s := loop.View();
    y := s.pool[0];
    FreshAreNew(s, loop.allOps, 1);
    assert y in s.pool[..1];
    var none: multiset<OpId> -> seq<OpId> := d => [];
    var ok := loop.Round(1, none);
    loop.BeforeBurst();
    OneSent(s, loop.View(), y, false, none, loop.testBurst, loop.mbufsIn);
    GivesAt(s.source, loop.source, [y], loop.mbufsIn, 0, 0);
    GivesOthers(s.source, loop.source, [y], loop.mbufsIn, 0, x);
  }

  // ---------- pools larger than a burst ----------

  /** One operation in the device holds the first mbuf, all but one of a burst is kept, and the mbuf
      index follows the mbufs handed out. */
  ghost predicate Circling(s: State, x: OpId, testBurst: nat, mbufs: seq<Mbuf>) {
    && mbufs != [] && x in s.device && x in s.source && s.source[x] == mbufs[0]
    && s.pool != [] && |s.kept| == testBurst - 1 && s.mIdx == NextIdx(s.Allotted(), testBurst, |mbufs|)
  }

  lemma {:induction false} CirclesOn(s: State, t: State, x: OpId, y: OpId, ready: multiset<OpId> -> seq<OpId>,
                                     testBurst: nat, mbufs: seq<Mbuf>, all: multiset<OpId>)
    requires Consistent(s, all) && Circling(s, x, testBurst, mbufs) && s.Allotted() + testBurst <= |mbufs|
    requires testBurst > 0 && y == s.pool[0] && forall d :: ready(d) == [y]
    requires Rounded(s, t, testBurst, 1, ready, testBurst, mbufs)
    ensures Circling(t, x, testBurst, mbufs) && |t.sent| == |s.sent| + 1
  {
    hide Consistent, Rounded, GivesFrom;
    FreshAreNew(s, all, 1);
    assert y in s.pool[..1];
    OneSent(s, t, y, true, ready, testBurst, mbufs);
    GivesOthers(s.source, t.source, [y], mbufs, s.mIdx, x);
  }

  /** Operations come and go until the mbuf index starts again. */
  method Circle(loop: BurstLoop, ghost x: OpId)
    requires loop.Valid() && loop.opsEnqdTotal < loop.totalOps && loop.testBurst > 0
    requires CanShare(loop.totalOps, loop.testBurst, |loop.mbufsIn|)
    requires Circling(loop.View(), x, loop.testBurst, loop.mbufsIn) && loop.View().Allotted() == loop.testBurst
    modifies loop, loop.ops
    ensures loop.Valid() && loop.opsEnqdTotal < loop.totalOps && AtRisk(loop.View(), x, loop.NextBurst(), loop.mbufsIn)
  {
    hide Consistent, Rounded, Counters, Circling, BurstLoop.Kept;
    loop.BeforeBurst();
    CirclingMeans(loop.View(), x, loop.testBurst, loop.mbufsIn);
    while loop.opsEnqdTotal + loop.testBurst - 1 + loop.testBurst <= |loop.mbufsIn|
      invariant loop.Valid() && loop.opsEnqdTotal + loop.testBurst - 1 < loop.totalOps
      invariant loop.opsEnqd + loop.opsUnused <= loop.ops.Length
      invariant Circling(loop.View(), x, loop.testBurst, loop.mbufsIn)
      decreases |loop.mbufsIn| - loop.opsEnqdTotal
    {
      loop.BeforeBurst();
      ghost var s := loop.View();
      CirclingMeans(s, x, loop.testBurst, loop.mbufsIn);
      var y := loop.pool[0];
      var ready: multiset<OpId> -> seq<OpId> := d => [y];
      var ok := loop.Round(1, ready);
      loop.BeforeBurst();
      CirclesOn(s, loop.View(), x, y, ready, loop.testBurst, loop.mbufsIn, loop.allOps);
    }
    loop.BeforeBurst();
    CirclingMeans(loop.View(), x, loop.testBurst, loop.mbufsIn);
  }

  lemma CirclingMeans(s: State, x: OpId, testBurst: nat, mbufs: seq<Mbuf>)
    requires Circling(s, x, testBurst, mbufs)
    ensures s.pool != [] && |s.kept| == testBurst - 1 && s.Allotted() == |s.sent| + testBurst - 1
    ensures s.Allotted() + testBurst > |mbufs| ==> AtRisk(s, x, testBurst, mbufs)
  {
  }

  method FirstOfMany(loop: BurstLoop) returns (ghost x: OpId)
    requires loop.Valid() && loop.View().kept == [] && loop.View().device == multiset{} && loop.View().mIdx == 0
    requires loop.opsEnqdTotal == 0 && CanShare(loop.totalOps, loop.testBurst, |loop.mbufsIn|)
    requires loop.testBurst < |loop.pool| == |loop.mbufsIn|
    modifies loop, loop.ops
    ensures loop.Valid() && loop.opsEnqdTotal < loop.totalOps
    ensures Circling(loop.View(), x, loop.testBurst, loop.mbufsIn) && loop.View().Allotted() == loop.testBurst
  {
    hide Consistent, Rounded, Counters, BurstLoop.Kept, GivesFrom;
    loop.BeforeBurst();
    ghost var s := loop.View();
    x := s.pool[0];
    var none: multiset<OpId> -> seq<OpId> := d => [];
    var ok := loop.Round(1, none);
    loop.BeforeBurst();
    FirstSent(s, loop.View(), loop.testBurst, x, false, none, loop.testBurst, loop.mbufsIn);
    GivesAt(s.source, loop.source, s.pool[..loop.testBurst], loop.mbufsIn, 0, 0);
  }

  // ---------- pools of just one burst ----------

  /** The device is empty and all but one of a burst is kept. */
  ghost predicate Cycling(s: State, testBurst: nat) {
    |s.pool| == 1 && |s.kept| == testBurst - 1 && s.device == multiset{} && s.mIdx == 0
  }

  lemma {:induction false} CyclesOn(s: State, t: State, y: OpId, ready: multiset<OpId> -> seq<OpId>, testBurst: nat,
                                    mbufs: seq<Mbuf>)
    requires Cycling(s, testBurst) && |mbufs| == testBurst > 0 && y == s.pool[0] && forall d :: ready(d) == [y]
    requires Rounded(s, t, testBurst, 1, ready, testBurst, mbufs)
    ensures Cycling(t, testBurst) && |t.sent| == |s.sent| + 1
  {
    hide Rounded, GivesFrom;
    OneSent(s, t, y, true, ready, testBurst, mbufs);
  }

  /** The same operation comes and goes until two more are to be sent than a burst. */
  method Cycle(loop: BurstLoop)
    requires loop.Valid() && loop.testBurst >= 2 && loop.testBurst == |loop.mbufsIn|
    requires loop.opsEnqdTotal + loop.testBurst < loop.totalOps && Cycling(loop.View(), loop.testBurst)
    modifies loop, loop.ops
    ensures loop.Valid() && loop.opsEnqdTotal + loop.testBurst == loop.totalOps - 1
    ensures Cycling(loop.View(), loop.testBurst)
  {
    hide Consistent, Rounded, Counters, Cycling, BurstLoop.Kept;
    loop.BeforeBurst();
    while loop.opsEnqdTotal + loop.testBurst < loop.totalOps - 1
      invariant loop.Valid() && loop.opsEnqdTotal + loop.testBurst < loop.totalOps
      invariant loop.opsEnqd + loop.opsUnused <= loop.ops.Length && Cycling(loop.View(), loop.testBurst)
      decreases loop.totalOps - loop.opsEnqdTotal
    {
      loop.BeforeBurst();
      ghost var s := loop.View();
      CyclingMeans(s, loop.testBurst);
      var y := loop.pool[0];
      var ready: multiset<OpId> -> seq<OpId> := d => [y];
      var ok := loop.Round(1, ready);
      loop.BeforeBurst();
      CyclesOn(s, loop.View(), y, ready, loop.testBurst, loop.mbufsIn);
    }
  }

  lemma CyclingMeans(s: State, testBurst: nat)
    requires Cycling(s, testBurst)
    ensures |s.pool| == 1 && |s.kept| == testBurst - 1
  {
  }

  method FirstOfBurst(loop: BurstLoop)
    requires loop.Valid() && loop.View().kept == [] && loop.View().device == multiset{} && loop.View().mIdx == 0
    requires loop.opsEnqdTotal == 0 && loop.testBurst == |loop.pool| == |loop.mbufsIn| >= 2
    requires loop.testBurst + 1 < loop.totalOps
    modifies loop, loop.ops
    ensures loop.Valid() && loop.opsEnqdTotal == 1 && Cycling(loop.View(), loop.testBurst)
  {
    hide Consistent, Rounded, Counters, BurstLoop.Kept, GivesFrom;
    loop.BeforeBurst();
    ghost var s := loop.View();
    var x := loop.pool[0];
    var ready: multiset<OpId> -> seq<OpId> := d => [x];
    var ok := loop.Round(1, ready);
    loop.BeforeBurst();
    FirstSent(s, loop.View(), loop.testBurst, x, true, ready, loop.testBurst, loop.mbufsIn);
  }

  /** All operations are sent and one that does not hold the first mbuf is returned. */
  method SendAll(loop: BurstLoop) returns (ghost x: OpId)
    requires loop.Valid() && loop.View().device == multiset{} && loop.View().mIdx == 0
    requires loop.testBurst == |loop.mbufsIn| == |loop.View().pool| + |loop.View().kept| >= 2 && loop.pool != []
    requires loop.opsEnqdTotal + loop.testBurst == loop.totalOps - 1
    modifies loop, loop.ops
    ensures loop.Valid() && loop.opsEnqdTotal < loop.totalOps && AtRisk(loop.View(), x, loop.NextBurst(), loop.mbufsIn)
  {
    hide Consistent, Rounded, Counters, GivesFrom;
    loop.BeforeBurst();
    ghost var s := loop.View();
    ghost var burst := s.pool + s.kept;
    assert s.pool[..|s.pool|] == s.pool;
    BurstIsUnique(s, loop.allOps);
    x := burst[0];
    ghost var y := burst[1];
    var second := if |loop.pool| > 1 then loop.pool[1] else loop.ops[loop.opsEnqd];
    assert y == second;
    var ready: multiset<OpId> -> seq<OpId> := d => [second];
    var ok := loop.Round(loop.testBurst, ready);
    loop.BeforeBurst();
    AllSent(s, loop.View(), loop.testBurst, y, ready, loop.testBurst, loop.mbufsIn, burst);
    GivesAt(s.source, loop.source, s.pool, loop.mbufsIn, 0, 0);
  }

  lemma BurstIsUnique(s: State, all: multiset<OpId>)
    requires Consistent(s, all)
    ensures Unique(s.pool + s.kept)
  {
    SinglesAreUnique(s.pool + s.kept, all);
  }

  /** Some device makes two operations share an mbuf whenever the sizes allow it. */
  method SharingHappens(testBurst: Word16, totalOps: Word32, maxBurst: Word32, pool: seq<OpId>, mbufsIn: seq<Mbuf>)
    returns (loop: BurstLoop, ghost x: OpId, ghost y: OpId)
    requires testBurst <= maxBurst && |pool| == |mbufsIn| && Unique(pool) && CanShare(totalOps, testBurst, |pool|)
    ensures fresh(loop) && loop.Valid() && loop.mbufsIn == mbufsIn
    ensures loop.testBurst == testBurst && loop.totalOps == totalOps
    ensures x != y && x in loop.device && y in loop.device
    ensures x in loop.source && y in loop.source && loop.source[x] == loop.source[y]
  {
    hide Consistent, Counters, BurstLoop.Kept, Orderly, Unique, AtRisk, Circling;
    loop := new BurstLoop(testBurst, totalOps, maxBurst, pool, mbufsIn);
    if testBurst < |pool| {
      x := FirstOfMany(loop);
      Circle(loop, x);
    } else {
      if testBurst + 1 < totalOps {
        FirstOfBurst(loop);
        Cycle(loop);
        loop.BeforeBurst();
      }
      x := SendAll(loop);
    }
    y := GiveAway(loop, x);
  }
}
