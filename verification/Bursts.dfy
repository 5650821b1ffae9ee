/**
 The rounds of the crypto throughput test, on values: which operations are free, kept or in
 the device, which mbuf each of them holds, and when two of them hold the same.
 */
module Bursts {
  import opened Bits

  type OpId = nat
  type Mbuf = nat

  function Min(a: nat, b: nat): (r: nat)
    ensures r <= a && r <= b && (r == a || r == b)
  {
    if a <= b then a else b
  }

  /** 16-bit unsigned subtraction. */
  function Sub16(a: nat, b: nat): Word16 {
    (a - b) % 0x1_0000
  }

  ghost predicate Unique(s: seq<nat>) {
    forall i, j :: 0 <= i < j < |s| ==> s[i] != s[j]
  }

  /** What the loop works on: the free operations, those a round left unsent, those in the device,
      the mbuf of each operation, the next mbuf, and the operations sent so far. */
  datatype State = State(pool: seq<OpId>, kept: seq<OpId>, device: multiset<OpId>, source: map<OpId, Mbuf>, mIdx: nat,
                         sent: seq<OpId>)
  {
    ghost function InUse(): multiset<OpId> {
      multiset(kept) + device
    }

    /** How many operations have been given an mbuf so far. */
    function Allotted(): nat {
      |sent| + |kept|
    }
  }

  /** Every operation is free, kept or in the device, in one place only, and has an mbuf unless
      it is free. */
  ghost predicate Consistent(s: State, all: multiset<OpId>) {
    && Singles(all)
    && multiset(s.pool) + s.InUse() == all
    && Attached(s.source, s.InUse())
  }

  ghost predicate Singles(all: multiset<OpId>) {
    forall op :: all[op] <= 1
  }

  ghost predicate Attached(source: map<OpId, Mbuf>, ops: multiset<OpId>) {
    forall op :: op in ops ==> op in source
  }

  // ---------- handing out mbufs ----------

  /** Each of the operations has got the mbuf at its own place, and no other has changed its own. */
  ghost predicate Gives(source: map<OpId, Mbuf>, after: map<OpId, Mbuf>, ops: seq<OpId>, bufs: seq<Mbuf>) {
    && |ops| == |bufs|
    && (forall i :: 0 <= i < |ops| ==> ops[i] in after && after[ops[i]] == bufs[i])
    && (forall op :: op !in ops ==> (op in after <==> op in source))
    && (forall op :: op !in ops && op in source && op in after ==> after[op] == source[op])
  }

  /** The operations have got the mbufs from place m on. */
  ghost predicate GivesFrom(source: map<OpId, Mbuf>, after: map<OpId, Mbuf>, ops: seq<OpId>, mbufs: seq<Mbuf>, m: nat) {
    m + |ops| <= |mbufs| && Gives(source, after, ops, mbufs[m..m + |ops|])
  }

  lemma GivesNone(source: map<OpId, Mbuf>, mbufs: seq<Mbuf>, m: nat)
    requires m <= |mbufs|
    ensures GivesFrom(source, source, [], mbufs, m)
  {
  }

  lemma GivesOneMore(source: map<OpId, Mbuf>, before: map<OpId, Mbuf>, ops: seq<OpId>, mbufs: seq<Mbuf>, m: nat, i: nat)
    requires i < |ops| && m + i < |mbufs| && Unique(ops) && GivesFrom(source, before, ops[..i], mbufs, m)
    ensures GivesFrom(source, before[ops[i] := mbufs[m + i]], ops[..i + 1], mbufs, m)
  {
    assert ops[..i + 1] == ops[..i] + [ops[i]];
    assert mbufs[m..m + i + 1] == mbufs[m..m + i] + [mbufs[m + i]];
  }

  lemma GivesAt(source: map<OpId, Mbuf>, after: map<OpId, Mbuf>, ops: seq<OpId>, mbufs: seq<Mbuf>, m: nat, i: nat)
    requires GivesFrom(source, after, ops, mbufs, m) && i < |ops|
    ensures m + i < |mbufs| && ops[i] in after && after[ops[i]] == mbufs[m + i]
  {
  }

  lemma GivesOthers(source: map<OpId, Mbuf>, after: map<OpId, Mbuf>, ops: seq<OpId>, mbufs: seq<Mbuf>, m: nat, op: OpId)
    requires GivesFrom(source, after, ops, mbufs, m) && op !in ops && op in source
    ensures op in after && after[op] == source[op]
  {
  }

  // ---------- the steps, on values ----------

  /** The first operations of the pool have been taken and given mbufs; the burst is these
      followed by the kept ones. */
  ghost predicate Prepared(s: State, n: nat, pool: seq<OpId>, burst: seq<OpId>, source: map<OpId, Mbuf>,
                           mbufs: seq<Mbuf>)
  {
    && |s.kept| <= n <= |s.kept| + |s.pool|
    && var needed := n - |s.kept|;
    && pool == s.pool[needed..] && burst == s.pool[..needed] + s.kept
    && GivesFrom(s.source, source, s.pool[..needed], mbufs, s.mIdx)
  }

  /** A front part of a burst of n has been sent and the rest is kept. */
  ghost predicate Enqueued(s: State, t: State, n: nat, accept: nat, mbufs: seq<Mbuf>) {
    && |s.kept| <= n <= |s.kept| + |s.pool|
    && var needed := n - |s.kept|;
    && var burst, k := s.pool[..needed] + s.kept, Min(accept, n);
    && t.pool == s.pool[needed..] && t.kept == burst[k..]
    && t.device == s.device + multiset(burst[..k]) && t.sent == s.sent + burst[..k]
    && t.mIdx == s.mIdx && GivesFrom(s.source, t.source, s.pool[..needed], mbufs, s.mIdx)
  }

  /** What the device returns: whatever it chooses of the operations it holds, at most so many. */
  function Returned(ready: multiset<OpId> -> seq<OpId>, device: multiset<OpId>, most: nat): (done: seq<OpId>)
    ensures multiset(done) <= device && |done| <= most
  {
    if |ready(device)| <= most && multiset(ready(device)) <= device then ready(device) else []
  }

  ghost predicate Collected(s: State, t: State, done: seq<OpId>) {
    && multiset(done) <= s.device
    && t == s.(pool := s.pool + done, device := s.device - multiset(done))
  }

  function NextIdx(next: nat, testBurst: nat, poolSize: nat): nat {
    if next + testBurst > poolSize then 0 else next
  }

  /** One whole round with a burst of n. */
  ghost predicate Rounded(s: State, t: State, n: nat, accept: nat, ready: multiset<OpId> -> seq<OpId>, testBurst: nat,
                          mbufs: seq<Mbuf>)
  {
    exists sent: State, back: State ::
      && Enqueued(s, sent, n, accept, mbufs)
      && Collected(sent, back, Returned(ready, sent.device, testBurst))
      && t == back.(mIdx := NextIdx(s.mIdx + n - |s.kept|, testBurst, |mbufs|))
  }

  lemma MakesPrepared(s: State, n: nat, pool: seq<OpId>, burst: seq<OpId>, source: map<OpId, Mbuf>, mbufs: seq<Mbuf>)
    requires |s.kept| <= n <= |s.kept| + |s.pool|
    requires pool == s.pool[n - |s.kept|..] && burst == s.pool[..n - |s.kept|] + s.kept
    requires GivesFrom(s.source, source, s.pool[..n - |s.kept|], mbufs, s.mIdx)
    ensures Prepared(s, n, pool, burst, source, mbufs)
  {
  }

  /** Sending a front part of a prepared burst. */
  lemma {:induction false} SendsPrepared(s: State, n: nat, pool: seq<OpId>, burst: seq<OpId>, source: map<OpId, Mbuf>,
                                         mbufs: seq<Mbuf>, accept: nat)
    requires Prepared(s, n, pool, burst, source, mbufs)
    ensures |burst| == n
    ensures var k := Min(accept, n);
            var t := State(pool, burst[k..], s.device + multiset(burst[..k]), source, s.mIdx, s.sent + burst[..k]);
            Enqueued(s, t, n, accept, mbufs)
  {
    hide GivesFrom, Min;
  }

  lemma EnqueuedMeans(s: State, t: State, n: nat, accept: nat, mbufs: seq<Mbuf>)
    requires Enqueued(s, t, n, accept, mbufs)
    ensures |s.kept| <= n <= |s.kept| + |s.pool| && t.Allotted() == |s.sent| + n
    ensures s.mIdx + (n - |s.kept|) <= |mbufs| && GivesFrom(s.source, t.source, s.pool[..n - |s.kept|], mbufs, s.mIdx)
  {
    hide Gives;
  }

  /** Of the kept operation 7 and the free ones 1, 2 and 3, a burst of three is 1, 2, 7; a device
      that takes two leaves 7 kept and 3 free. */
  lemma BurstExample(t: State, mbufs: seq<Mbuf>)
    requires |mbufs| > 6 && Enqueued(State([1, 2, 3], [7], multiset{}, map[7 := mbufs[4]], 5, []), t, 3, 2, mbufs)
    ensures t.pool == [3] && t.kept == [7] && t.device == multiset{1, 2} && t.sent == [1, 2]
    ensures t.source == map[7 := mbufs[4], 1 := mbufs[5], 2 := mbufs[6]]
  {
    var s := State([1, 2, 3], [7], multiset{}, map[7 := mbufs[4]], 5, []);
    assert s.pool[..2] == [1, 2] && s.pool[..2] + s.kept == [1, 2, 7];
    assert [1, 2, 7][..2] == [1, 2] && [1, 2, 7][2..] == [7];
    hide Gives;
    GivesTwo(s.source, t.source, 1, 2, mbufs, 5);
  }

  lemma GivesTwo(source: map<OpId, Mbuf>, after: map<OpId, Mbuf>, x: OpId, y: OpId, mbufs: seq<Mbuf>, m: nat)
    requires x != y && GivesFrom(source, after, [x, y], mbufs, m)
    ensures m + 1 < |mbufs| && after == source[x := mbufs[m]][y := mbufs[m + 1]]
  {
    assert [x, y][0] in after && [x, y][1] in after;
  }

  lemma CollectedMeans(s: State, t: State, done: seq<OpId>)
    requires Collected(s, t, done)
    ensures t.source == s.source && t.Allotted() == s.Allotted() && t.InUse() <= s.InUse()
  {
  }

  lemma ConsistentMeans(s: State, all: multiset<OpId>)
    requires Consistent(s, all)
    ensures Attached(s.source, s.InUse()) && |s.pool| + |s.kept| <= |all|
  {
    hide Singles, Attached;
    assert |multiset(s.pool) + s.InUse()| == |s.pool| + |s.kept| + |s.device|;
  }

  /** What a round makes of the state. */
  lemma {:induction false} RoundedMeans(s: State, t: State, n: nat, accept: nat, ready: multiset<OpId> -> seq<OpId>,
                                        testBurst: nat, mbufs: seq<Mbuf>, taken: seq<OpId>, burst: seq<OpId>)
    requires Rounded(s, t, n, accept, ready, testBurst, mbufs)
    requires |s.kept| <= n <= |s.kept| + |s.pool| && taken == s.pool[..n - |s.kept|] && burst == taken + s.kept
    ensures |burst| == n
    ensures var busy := s.device + multiset(burst[..Min(accept, n)]);
            var done := Returned(ready, busy, testBurst);
            t.pool == s.pool[n - |s.kept|..] + done && t.device == busy - multiset(done)
    ensures t.kept == burst[Min(accept, n)..] && |t.sent| == |s.sent| + Min(accept, n)
    ensures t.mIdx == NextIdx(s.mIdx + n - |s.kept|, testBurst, |mbufs|)
    ensures GivesFrom(s.source, t.source, taken, mbufs, s.mIdx)
  {
    var u, v :| Enqueued(s, u, n, accept, mbufs) && Collected(u, v, Returned(ready, u.device, testBurst))
                && t == v.(mIdx := NextIdx(s.mIdx + n - |s.kept|, testBurst, |mbufs|));
    hide GivesFrom, Returned, NextIdx, Min, Rounded;
  }

  lemma RoundedSent(s: State, t: State, n: nat, accept: nat, ready: multiset<OpId> -> seq<OpId>, testBurst: nat,
                    mbufs: seq<Mbuf>)
    requires Rounded(s, t, n, accept, ready, testBurst, mbufs)
    ensures |t.sent| == |s.sent| + Min(accept, n)
  {
    hide GivesFrom, Returned, NextIdx, Min;
  }

  lemma NothingKept(s: State, all: multiset<OpId>)
    requires Consistent(s, all) && s.kept == []
    ensures multiset(s.pool) + s.device == all
    ensures |s.device| == 0 ==> multiset(s.pool) == all
  {
    assert s.InUse() == s.device;
  }

  /** Fresh operations are neither kept nor in the device. */
  lemma FreshAreNew(s: State, all: multiset<OpId>, needed: nat)
    requires Consistent(s, all) && needed <= |s.pool|
    ensures Unique(s.pool[..needed])
    ensures forall op :: op in s.pool[..needed] ==> op !in s.InUse()
  {
    MultisetSplit(s.pool, needed);
    SinglesAreUnique(s.pool[..needed], all);
    forall op | op in s.pool[..needed] ensures op !in s.InUse() {
      assert all[op] == multiset(s.pool)[op] + s.InUse()[op];
    }
  }

  /** Sending moves operations from the pool and the kept ones to the device and back to kept. */
  lemma {:induction false} SentInUse(s: State, t: State, n: nat, accept: nat, mbufs: seq<Mbuf>)
    requires Enqueued(s, t, n, accept, mbufs)
    ensures t.InUse() == multiset(s.pool[..n - |s.kept|]) + s.InUse()
  {
    hide GivesFrom, Min;
    var needed, k := n - |s.kept|, Min(accept, n);
    var burst := s.pool[..needed] + s.kept;
    MultisetSplit(burst, k);
    assert multiset(burst) == multiset(s.pool[..needed]) + multiset(s.kept);
    Regroup(multiset(s.pool[..needed]), multiset(s.kept), s.device, multiset(burst[..k]), multiset(burst[k..]));
  }

  lemma Regroup(taken: multiset<OpId>, kept: multiset<OpId>, device: multiset<OpId>, b1: multiset<OpId>,
                b2: multiset<OpId>)
    requires b1 + b2 == taken + kept
    ensures b2 + (device + b1) == taken + (kept + device)
  {
    forall op ensures (b2 + (device + b1))[op] == (taken + (kept + device))[op] {
      assert (b1 + b2)[op] == (taken + kept)[op];
    }
  }

  lemma {:induction false} EnqueuedConsistent(s: State, t: State, n: nat, accept: nat, mbufs: seq<Mbuf>,
                                              all: multiset<OpId>)
    requires Consistent(s, all) && Enqueued(s, t, n, accept, mbufs)
    ensures Consistent(t, all)
  {
    var needed := n - |s.kept|;
    SentInUse(s, t, n, accept, mbufs);
    MultisetSplit(s.pool, needed);
    hide Singles, State.InUse, GivesFrom, Attached;
    AllAttached(s.source, t.source, s.pool[..needed], mbufs, s.mIdx, s.InUse());
    assert multiset(s.pool[needed..]) + (multiset(s.pool[..needed]) + s.InUse()) == multiset(s.pool) + s.InUse();
  }

  lemma AllAttached(source: map<OpId, Mbuf>, after: map<OpId, Mbuf>, ops: seq<OpId>, mbufs: seq<Mbuf>, m: nat,
                    busy: multiset<OpId>)
    requires GivesFrom(source, after, ops, mbufs, m) && Attached(source, busy)
    ensures Attached(after, multiset(ops) + busy)
  {
  }

  lemma CollectedConsistent(s: State, t: State, done: seq<OpId>, all: multiset<OpId>)
    requires Consistent(s, all) && Collected(s, t, done)
    ensures Consistent(t, all)
  {
    assert multiset(s.pool + done) == multiset(s.pool) + multiset(done);
    assert multiset(s.pool + done) + t.InUse() == multiset(s.pool) + s.InUse();
  }

  lemma {:induction false} UniqueIsSingles(s: seq<OpId>)
    requires Unique(s)
    ensures Singles(multiset(s))
  {
    if s != [] {
      var last := |s| - 1;
      UniqueIsSingles(s[..last]);
      assert s == s[..last] + [s[last]];
      assert s[last] !in s[..last];
    }
  }

  /** An operation that is in the pool once is in one place only. */
  lemma SinglesAreUnique(s: seq<OpId>, all: multiset<OpId>)
    requires Singles(all) && multiset(s) <= all
    ensures Unique(s)
  {
    forall i, j | 0 <= i < j < |s| ensures s[i] != s[j] {
      MultisetSplit(s, j);
      assert s[i] in s[..j] && s[j] == s[j..][0];
      assert multiset(s)[s[j]] <= all[s[j]];
    }
  }

  lemma MultisetSplit(s: seq<OpId>, k: nat)
    requires k <= |s|
    ensures multiset(s) == multiset(s[..k]) + multiset(s[k..])
  {
    assert s == s[..k] + s[k..];
  }

  // ---------- sharing of mbufs ----------

  /** No two of these operations hold the same mbuf. */
  ghost predicate Unshared(source: map<OpId, Mbuf>, ops: multiset<OpId>) {
    forall a, b :: a in ops && b in ops && a != b ==> a in source && b in source && source[a] != source[b]
  }

  /** Each of these operations holds one of the first m mbufs. */
  ghost predicate HeldIn(source: map<OpId, Mbuf>, mbufs: seq<Mbuf>, m: nat, ops: multiset<OpId>) {
    m <= |mbufs| && forall op :: op in ops ==> op in source && source[op] in mbufs[..m]
  }

  /** The n mbufs from place m on repeat none, and none of these operations holds one of them. */
  ghost predicate WindowFree(source: map<OpId, Mbuf>, mbufs: seq<Mbuf>, m: nat, n: nat, ops: multiset<OpId>) {
    && m + n <= |mbufs| && Unique(mbufs[m..m + n])
    && forall op :: op in ops ==> op in source && source[op] !in mbufs[m..m + n]
  }

  /** Handing out mbufs keeps them apart exactly when they repeat none and none is in use. */
  lemma {:induction false} SharingExactly(source: map<OpId, Mbuf>, after: map<OpId, Mbuf>, ops: seq<OpId>,
                                          mbufs: seq<Mbuf>, m: nat, busy: multiset<OpId>)
    requires GivesFrom(source, after, ops, mbufs, m) && Attached(source, busy)
    requires Unique(ops) && forall op :: op in ops ==> op !in busy
    ensures Unshared(after, multiset(ops) + busy) <==>
            Unshared(source, busy) && WindowFree(source, mbufs, m, |ops|, busy)
  {
    hide *;
    if Unshared(after, multiset(ops) + busy) {
      ApartBefore(source, after, ops, mbufs, m, busy);
    }
    if Unshared(source, busy) && WindowFree(source, mbufs, m, |ops|, busy) {
      ApartAfter(source, after, ops, mbufs, m, busy);
    }
  }

  lemma ApartBefore(source: map<OpId, Mbuf>, after: map<OpId, Mbuf>, ops: seq<OpId>, mbufs: seq<Mbuf>, m: nat,
                    busy: multiset<OpId>)
    requires GivesFrom(source, after, ops, mbufs, m) && Attached(source, busy)
    requires Unique(ops) && forall op :: op in ops ==> op !in busy
    requires Unshared(after, multiset(ops) + busy)
    ensures Unshared(source, busy) && WindowFree(source, mbufs, m, |ops|, busy)
  {
    var bufs := mbufs[m..m + |ops|];
    forall i, j | 0 <= i < j < |bufs| ensures bufs[i] != bufs[j] {
      assert ops[i] in multiset(ops) + busy && ops[j] in multiset(ops) + busy;
    }
    forall a | a in busy ensures source[a] !in bufs && after[a] == source[a] {
      forall i | 0 <= i < |bufs| ensures bufs[i] != source[a] {
        assert ops[i] in multiset(ops) + busy && a in multiset(ops) + busy;
      }
    }
    forall a, b | a in busy && b in busy && a != b ensures source[a] != source[b] {
      assert a in multiset(ops) + busy && b in multiset(ops) + busy;
    }
  }

  lemma ApartAfter(source: map<OpId, Mbuf>, after: map<OpId, Mbuf>, ops: seq<OpId>, mbufs: seq<Mbuf>, m: nat,
                   busy: multiset<OpId>)
    requires GivesFrom(source, after, ops, mbufs, m) && Attached(source, busy)
    requires forall op :: op in ops ==> op !in busy
    requires Unshared(source, busy) && WindowFree(source, mbufs, m, |ops|, busy)
    ensures Unshared(after, multiset(ops) + busy)
  {
    var bufs := mbufs[m..m + |ops|];
    forall a, b | a in multiset(ops) + busy && b in multiset(ops) + busy && a != b
      ensures a in after && b in after && after[a] != after[b]
    {
      if a in ops {
        var i :| 0 <= i < |ops| && ops[i] == a;
        assert after[a] == bufs[i];
        if b in ops {
          var j :| 0 <= j < |ops| && ops[j] == b;
        } else {
          assert b in busy;
        }
      } else {
        assert a in busy;
        if b in ops {
          var j :| 0 <= j < |ops| && ops[j] == b;
        } else {
          assert b in busy;
        }
      }
    }
  }

  /** The same of a whole round: whether the operations in use share an mbuf after sending. */
  lemma {:induction false} RoundShares(s: State, t: State, n: nat, accept: nat, mbufs: seq<Mbuf>, all: multiset<OpId>)
    requires Consistent(s, all) && Enqueued(s, t, n, accept, mbufs)
    ensures Unshared(t.source, t.InUse()) <==>
            Unshared(s.source, s.InUse()) && WindowFree(s.source, mbufs, s.mIdx, n - |s.kept|, s.InUse())
  {
    hide *;
    EnqueuedMeans(s, t, n, accept, mbufs);
    ConsistentMeans(s, all);
    var taken := s.pool[..n - |s.kept|];
    FreshAreNew(s, all, |taken|);
    SentInUse(s, t, n, accept, mbufs);
    SharingExactly(s.source, t.source, taken, mbufs, s.mIdx, s.InUse());
  }

  // ---------- when sharing is impossible ----------

  /** The sizes for which some device makes two operations share an mbuf. */
  predicate CanShare(totalOps: nat, testBurst: nat, poolSize: nat) {
    1 <= testBurst <= poolSize && poolSize >= 2 && totalOps > testBurst && totalOps + testBurst > poolSize + 1
  }

  /** No mbuf is shared. While mbufs are still to be handed out, and there are several, they have
      been handed out from the first on. */
  ghost predicate Orderly(s: State, mbufs: seq<Mbuf>, totalOps: nat) {
    && Unshared(s.source, s.InUse())
    && (|mbufs| >= 2 && s.Allotted() < totalOps ==>
          s.mIdx == s.Allotted() && HeldIn(s.source, mbufs, s.mIdx, s.InUse()))
  }

  lemma {:induction false} StaysOrderly(s: State, t: State, n: nat, accept: nat, ready: multiset<OpId> -> seq<OpId>,
                                        testBurst: nat, totalOps: nat, mbufs: seq<Mbuf>, all: multiset<OpId>)
    requires Consistent(s, all) && |all| == |mbufs| && Unique(mbufs)
    requires |s.sent| < totalOps && s.Allotted() <= totalOps && n == Min(testBurst, totalOps - |s.sent|)
    requires Rounded(s, t, n, accept, ready, testBurst, mbufs)
    requires Orderly(s, mbufs, totalOps) && !CanShare(totalOps, testBurst, |mbufs|)
    ensures Orderly(t, mbufs, totalOps)
  {
    var u, v :| Enqueued(s, u, n, accept, mbufs) && Collected(u, v, Returned(ready, u.device, testBurst))
                && t == v.(mIdx := NextIdx(s.mIdx + n - |s.kept|, testBurst, |mbufs|));
    hide *;
    SentUnshared(s, u, n, accept, testBurst, totalOps, mbufs, all);
    SentHeld(s, u, n, accept, totalOps, mbufs, all);
    StaysOrderlyBack(s, u, v, n, Returned(ready, u.device, testBurst), accept, testBurst, totalOps, mbufs, all);
  }

  lemma {:induction false} StaysOrderlyBack(s: State, u: State, v: State, n: nat, done: seq<OpId>, accept: nat,
                                            testBurst: nat, totalOps: nat, mbufs: seq<Mbuf>, all: multiset<OpId>)
    requires Consistent(s, all) && |all| == |mbufs| && Orderly(s, mbufs, totalOps) && |s.sent| < totalOps
    requires n == Min(testBurst, totalOps - |s.sent|) && !CanShare(totalOps, testBurst, |mbufs|)
    requires Enqueued(s, u, n, accept, mbufs) && Collected(u, v, done) && Unshared(u.source, u.InUse())
    requires |mbufs| >= 2 && s.Allotted() < totalOps ==> HeldIn(u.source, mbufs, |s.sent| + n, u.InUse())
    ensures Orderly(v.(mIdx := NextIdx(s.mIdx + n - |s.kept|, testBurst, |mbufs|)), mbufs, totalOps)
  {
    hide *;
    EnqueuedMeans(s, u, n, accept, mbufs);
    ConsistentMeans(s, all);
    CollectedMeans(u, v, done);
    StaysUnshared(u.source, u.InUse(), v.InUse());
    if |mbufs| >= 2 && v.Allotted() < totalOps {
      OrderlyMeans(s, mbufs, totalOps);
      IndexFollows(|s.sent|, |s.kept|, n, testBurst, totalOps, |mbufs|);
      StaysHeld(u.source, mbufs, |s.sent| + n, u.InUse(), v.InUse());
    }
    MadeOrderly(v, NextIdx(s.mIdx + n - |s.kept|, testBurst, |mbufs|), mbufs, totalOps);
  }

  lemma OrderlyMeans(s: State, mbufs: seq<Mbuf>, totalOps: nat)
    requires Orderly(s, mbufs, totalOps)
    ensures Unshared(s.source, s.InUse()) && s.Allotted() == |s.sent| + |s.kept|
    ensures |mbufs| >= 2 && s.Allotted() < totalOps ==>
              s.mIdx == s.Allotted() && HeldIn(s.source, mbufs, s.mIdx, s.InUse())
  {
  }

  lemma MadeOrderly(s: State, m: nat, mbufs: seq<Mbuf>, totalOps: nat)
    requires Unshared(s.source, s.InUse())
    requires |mbufs| >= 2 && s.Allotted() < totalOps ==> m == s.Allotted() && HeldIn(s.source, mbufs, m, s.InUse())
    ensures Orderly(s.(mIdx := m), mbufs, totalOps)
  {
  }

  /** The index does not start again while mbufs are still to be handed out. */
  lemma IndexFollows(sent: nat, kept: nat, n: nat, testBurst: nat, totalOps: nat, poolSize: nat)
    requires kept <= n <= poolSize && sent + n < totalOps && n == Min(testBurst, totalOps - sent)
    requires sent + n <= poolSize && poolSize >= 2 && !CanShare(totalOps, testBurst, poolSize)
    ensures NextIdx(sent + n, testBurst, poolSize) == sent + n
  {
  }

  lemma StaysHeld(source: map<OpId, Mbuf>, mbufs: seq<Mbuf>, m: nat, ops: multiset<OpId>, fewer: multiset<OpId>)
    requires HeldIn(source, mbufs, m, ops) && fewer <= ops
    ensures HeldIn(source, mbufs, m, fewer)
  {
    assert forall op :: op in fewer ==> op in ops;
  }

  lemma StaysUnshared(source: map<OpId, Mbuf>, ops: multiset<OpId>, fewer: multiset<OpId>)
    requires Unshared(source, ops) && fewer <= ops
    ensures Unshared(source, fewer)
  {
    assert forall op :: op in fewer ==> op in ops;
  }

  lemma {:induction false} SentUnshared(s: State, t: State, n: nat, accept: nat, testBurst: nat, totalOps: nat,
                                        mbufs: seq<Mbuf>, all: multiset<OpId>)
    requires Consistent(s, all) && |all| == |mbufs| && Unique(mbufs) && Orderly(s, mbufs, totalOps)
    requires |s.sent| < totalOps && s.Allotted() <= totalOps && n == Min(testBurst, totalOps - |s.sent|)
    requires Enqueued(s, t, n, accept, mbufs)
    ensures Unshared(t.source, t.InUse())
  {
    hide *;
    EnqueuedMeans(s, t, n, accept, mbufs);
    ConsistentMeans(s, all);
    OrderlyMeans(s, mbufs, totalOps);
    if |mbufs| < 2 {
      EnqueuedConsistent(s, t, n, accept, mbufs, all);
      AloneUnshared(t, all);
    } else {
      RoundShares(s, t, n, accept, mbufs, all);
      if s.Allotted() == totalOps {
        EmptyWindowIsFree(s.source, mbufs, s.mIdx, s.InUse());
      } else {
        NextWindowIsFree(s.source, mbufs, s.mIdx, n - |s.kept|, s.InUse());
      }
    }
  }

  lemma AloneUnshared(s: State, all: multiset<OpId>)
    requires Consistent(s, all) && |all| < 2
    ensures Unshared(s.source, s.InUse())
  {
    forall a, b | a in s.InUse() && b in s.InUse() ensures a == b {
      assert |all - multiset{a}| == 0 && all == all - multiset{a} + multiset{a};
      assert b in all;
    }
  }

  lemma EmptyWindowIsFree(source: map<OpId, Mbuf>, mbufs: seq<Mbuf>, m: nat, busy: multiset<OpId>)
    requires m <= |mbufs| && Attached(source, busy)
    ensures WindowFree(source, mbufs, m, 0, busy)
  {
  }

  /** Mbufs not handed out yet are held by nobody. */
  lemma NextWindowIsFree(source: map<OpId, Mbuf>, mbufs: seq<Mbuf>, m: nat, n: nat, busy: multiset<OpId>)
    requires m + n <= |mbufs| && Unique(mbufs) && HeldIn(source, mbufs, m, busy)
    ensures WindowFree(source, mbufs, m, n, busy)
  {
    var used, next := mbufs[..m], mbufs[m..m + n];
    forall i, j | 0 <= i < |used| && 0 <= j < |next| ensures used[i] != next[j] {
      assert mbufs[i] != mbufs[m + j];
    }
  }

  lemma {:induction false} SentHeld(s: State, t: State, n: nat, accept: nat, totalOps: nat, mbufs: seq<Mbuf>,
                                    all: multiset<OpId>)
    requires Consistent(s, all) && Enqueued(s, t, n, accept, mbufs) && Orderly(s, mbufs, totalOps)
    ensures |mbufs| >= 2 && s.Allotted() < totalOps ==> HeldIn(t.source, mbufs, |s.sent| + n, t.InUse())
  {
    hide *;
    EnqueuedMeans(s, t, n, accept, mbufs);
    OrderlyMeans(s, mbufs, totalOps);
    var taken := s.pool[..n - |s.kept|];
    FreshAreNew(s, all, |taken|);
    SentInUse(s, t, n, accept, mbufs);
    if |mbufs| >= 2 && s.Allotted() < totalOps {
      AllHeld(s.source, t.source, mbufs, s.mIdx, taken, s.InUse());
    }
  }

  lemma AllHeld(source: map<OpId, Mbuf>, after: map<OpId, Mbuf>, mbufs: seq<Mbuf>, m: nat, ops: seq<OpId>,
                busy: multiset<OpId>)
    requires GivesFrom(source, after, ops, mbufs, m) && HeldIn(source, mbufs, m, busy)
    requires forall op :: op in ops ==> op !in busy
    ensures HeldIn(after, mbufs, m + |ops|, multiset(ops) + busy)
  {
    forall op | op in ops ensures op in after && after[op] in mbufs[..m + |ops|] {
      var i :| 0 <= i < |ops| && ops[i] == op;
      assert after[op] == mbufs[..m + |ops|][m + i];
    }
    forall op | op in busy ensures op in after && after[op] in mbufs[..m + |ops|] {
      var j :| 0 <= j < m && mbufs[..m][j] == source[op];
      assert mbufs[..m + |ops|][j] == source[op];
    }
  }

  // ---------- whole runs ----------

  /** The states of a run, one for each round begun: each follows from the one before by what the
      device accepts and returns in that round. */
  ghost predicate Chained(states: seq<State>, accept: nat -> nat, ready: nat -> multiset<OpId> -> seq<OpId>,
                          testBurst: nat, totalOps: nat, mbufs: seq<Mbuf>)
  {
    && states != []
    && forall r :: 0 <= r < |states| - 1 ==>
         Follows(states[r], states[r + 1], accept(r), ready(r), testBurst, totalOps, mbufs)
  }

  /** A round with the burst that is due. */
  ghost predicate Follows(s: State, t: State, accept: nat, ready: multiset<OpId> -> seq<OpId>, testBurst: nat,
                          totalOps: nat, mbufs: seq<Mbuf>)
  {
    |s.sent| < totalOps && Rounded(s, t, Min(testBurst, totalOps - |s.sent|), accept, ready, testBurst, mbufs)
  }

  lemma ChainedFirst(s: State, accept: nat -> nat, ready: nat -> multiset<OpId> -> seq<OpId>, testBurst: nat,
                     totalOps: nat, mbufs: seq<Mbuf>)
    ensures Chained([s], accept, ready, testBurst, totalOps, mbufs)
  {
  }

  lemma ChainedMore(states: seq<State>, t: State, accept: nat -> nat, ready: nat -> multiset<OpId> -> seq<OpId>,
                    testBurst: nat, totalOps: nat, mbufs: seq<Mbuf>)
    requires Chained(states, accept, ready, testBurst, totalOps, mbufs)
    requires var r := |states| - 1; Follows(states[r], t, accept(r), ready(r), testBurst, totalOps, mbufs)
    ensures Chained(states + [t], accept, ready, testBurst, totalOps, mbufs)
  {
    hide Follows;
  }

  lemma ChainedStates(states: seq<State>, accept: nat -> nat, ready: nat -> multiset<OpId> -> seq<OpId>,
                      testBurst: nat, totalOps: nat, mbufs: seq<Mbuf>)
    requires Chained(states, accept, ready, testBurst, totalOps, mbufs)
    ensures |states| > 0
  {
    hide Follows;
  }

  /** The rounds of a run but the last, and the last. */
  lemma ChainedLast(states: seq<State>, accept: nat -> nat, ready: nat -> multiset<OpId> -> seq<OpId>,
                    testBurst: nat, totalOps: nat, mbufs: seq<Mbuf>)
    requires Chained(states, accept, ready, testBurst, totalOps, mbufs) && |states| > 1
    ensures Chained(states[..|states| - 1], accept, ready, testBurst, totalOps, mbufs)
    ensures var r := |states| - 2; Follows(states[r], states[r + 1], accept(r), ready(r), testBurst, totalOps, mbufs)
  {
    hide Follows;
  }

  lemma MakesFollow(s: State, t: State, accept: nat, ready: multiset<OpId> -> seq<OpId>, testBurst: nat,
                    totalOps: nat, mbufs: seq<Mbuf>)
    requires |s.sent| < totalOps
    requires Rounded(s, t, Min(testBurst, totalOps - |s.sent|), accept, ready, testBurst, mbufs)
    ensures Follows(s, t, accept, ready, testBurst, totalOps, mbufs)
  {
    hide Rounded;
  }

  lemma FollowsMeans(s: State, t: State, accept: nat, ready: multiset<OpId> -> seq<OpId>, testBurst: nat,
                     totalOps: nat, mbufs: seq<Mbuf>)
    requires Follows(s, t, accept, ready, testBurst, totalOps, mbufs)
    ensures |s.sent| < totalOps && Rounded(s, t, Min(testBurst, totalOps - |s.sent|), accept, ready, testBurst, mbufs)
    ensures |t.sent| == |s.sent| + Min(accept, Min(testBurst, totalOps - |s.sent|)) && t.Allotted() <= totalOps
  {
    var n := Min(testBurst, totalOps - |s.sent|);
    hide Rounded;
    RoundedSent(s, t, n, accept, ready, testBurst, mbufs);
    RoundedAllotted(s, t, n, accept, ready, testBurst, mbufs);
  }

  lemma RoundedAllotted(s: State, t: State, n: nat, accept: nat, ready: multiset<OpId> -> seq<OpId>, testBurst: nat,
                        mbufs: seq<Mbuf>)
    requires Rounded(s, t, n, accept, ready, testBurst, mbufs)
    ensures t.Allotted() == |s.sent| + n
  {
    var u, v :| Enqueued(s, u, n, accept, mbufs) && Collected(u, v, Returned(ready, u.device, testBurst))
                && t == v.(mIdx := NextIdx(s.mIdx + n - |s.kept|, testBurst, |mbufs|));
    EnqueuedMeans(s, u, n, accept, mbufs);
    hide Enqueued, Returned, NextIdx;
  }

  /** Every state of a run is consistent, and no more mbufs are handed out than operations sent. */
  lemma {:induction false} ChainConsistent(states: seq<State>, accept: nat -> nat,
                                           ready: nat -> multiset<OpId> -> seq<OpId>, testBurst: nat, totalOps: nat,
                                           mbufs: seq<Mbuf>, all: multiset<OpId>)
    requires Chained(states, accept, ready, testBurst, totalOps, mbufs)
    requires Consistent(states[0], all) && states[0].Allotted() <= totalOps
    ensures Consistent(states[|states| - 1], all) && states[|states| - 1].Allotted() <= totalOps
  {
    hide *;
    ChainedStates(states, accept, ready, testBurst, totalOps, mbufs);
    if |states| > 1 {
      var r := |states| - 2;
      ChainedLast(states, accept, ready, testBurst, totalOps, mbufs);
      ChainConsistent(states[..r + 1], accept, ready, testBurst, totalOps, mbufs, all);
      FollowsMeans(states[r], states[r + 1], accept(r), ready(r), testBurst, totalOps, mbufs);
      RoundedConsistent(states[r], states[r + 1], Min(testBurst, totalOps - |states[r].sent|), accept(r), ready(r),
                        testBurst, mbufs, all);
    }
  }

  /** Where the sizes do not allow sharing, no run of any device comes to it. */
  lemma {:induction false} ChainOrderly(states: seq<State>, accept: nat -> nat,
                                        ready: nat -> multiset<OpId> -> seq<OpId>, testBurst: nat, totalOps: nat,
                                        mbufs: seq<Mbuf>, all: multiset<OpId>)
    requires Chained(states, accept, ready, testBurst, totalOps, mbufs)
    requires Consistent(states[0], all) && states[0].Allotted() <= totalOps && Orderly(states[0], mbufs, totalOps)
    requires |all| == |mbufs| && Unique(mbufs) && !CanShare(totalOps, testBurst, |mbufs|)
    ensures Orderly(states[|states| - 1], mbufs, totalOps)
  {
    hide *;
    ChainedStates(states, accept, ready, testBurst, totalOps, mbufs);
    if |states| > 1 {
      var r := |states| - 2;
      ChainedLast(states, accept, ready, testBurst, totalOps, mbufs);
      ChainOrderly(states[..r + 1], accept, ready, testBurst, totalOps, mbufs, all);
      ChainConsistent(states[..r + 1], accept, ready, testBurst, totalOps, mbufs, all);
      FollowsMeans(states[r], states[r + 1], accept(r), ready(r), testBurst, totalOps, mbufs);
      StaysOrderly(states[r], states[r + 1], Min(testBurst, totalOps - |states[r].sent|), accept(r), ready(r),
                   testBurst, totalOps, mbufs, all);
    }
  }

  /** A device that accepts something in every round gets at least one operation a round. */
  lemma {:induction false} ChainProgress(states: seq<State>, accept: nat -> nat,
                                         ready: nat -> multiset<OpId> -> seq<OpId>, testBurst: nat, totalOps: nat,
                                         mbufs: seq<Mbuf>)
    requires Chained(states, accept, ready, testBurst, totalOps, mbufs)
    requires testBurst > 0 && forall r :: accept(r) > 0
    ensures |states| - 1 <= |states[|states| - 1].sent|
  {
    hide *;
    ChainedStates(states, accept, ready, testBurst, totalOps, mbufs);
    if |states| > 1 {
      var r := |states| - 2;
      ChainedLast(states, accept, ready, testBurst, totalOps, mbufs);
      ChainProgress(states[..r + 1], accept, ready, testBurst, totalOps, mbufs);
      FollowsMeans(states[r], states[r + 1], accept(r), ready(r), testBurst, totalOps, mbufs);
    }
  }

  /** More operations are needed than the pool has. */
  ghost predicate Exhausted(s: State, testBurst: nat, totalOps: nat) {
    |s.sent| < totalOps && Min(testBurst, totalOps - |s.sent|) - |s.kept| > |s.pool|
  }

  /** The device returns all it holds. */
  ghost predicate ReturnsAll(ready: nat -> multiset<OpId> -> seq<OpId>) {
    forall r, d :: multiset(ready(r)(d)) == d
  }

  lemma {:induction false} RoundedConsistent(s: State, t: State, n: nat, accept: nat,
                                             ready: multiset<OpId> -> seq<OpId>, testBurst: nat, mbufs: seq<Mbuf>,
                                             all: multiset<OpId>)
    requires Consistent(s, all) && Rounded(s, t, n, accept, ready, testBurst, mbufs)
    ensures Consistent(t, all)
  {
    var u, v :| Enqueued(s, u, n, accept, mbufs) && Collected(u, v, Returned(ready, u.device, testBurst))
                && t == v.(mIdx := NextIdx(s.mIdx + n - |s.kept|, testBurst, |mbufs|));
    EnqueuedConsistent(s, u, n, accept, mbufs, all);
    CollectedConsistent(u, v, Returned(ready, u.device, testBurst), all);
    hide Enqueued, Collected, Returned, Singles, Attached, NextIdx;
  }

  /** The device is empty and everything else is in the pool or kept. */
  ghost predicate Served(s: State, all: multiset<OpId>) {
    Consistent(s, all) && s.device == multiset{} && |s.pool| + |s.kept| == |all|
  }

  lemma StartsServed(s: State, all: multiset<OpId>)
    requires Consistent(s, all)
    ensures s.device == multiset{} ==> Served(s, all)
  {
    hide Consistent;
    if s.device == multiset{} {
      EmptyDevice(s, all);
    }
  }

  lemma {:induction false} StaysServed(s: State, t: State, n: nat, accept: nat, ready: multiset<OpId> -> seq<OpId>,
                                       testBurst: nat, mbufs: seq<Mbuf>, all: multiset<OpId>)
    requires Served(s, all) && Rounded(s, t, n, accept, ready, testBurst, mbufs) && n <= testBurst
    requires forall d :: multiset(ready(d)) == d
    ensures Served(t, all)
  {
    hide *;
    ServedMeans(s, all);
    RoundedConsistent(s, t, n, accept, ready, testBurst, mbufs, all);
    RoundedRange(s, t, n, accept, ready, testBurst, mbufs);
    var taken := s.pool[..n - |s.kept|];
    var burst := taken + s.kept;
    RoundedMeans(s, t, n, accept, ready, testBurst, mbufs, taken, burst);
    AllReturned(ready, burst[..Min(accept, n)], testBurst);
    StartsServed(t, all);
  }

  lemma ServedMeans(s: State, all: multiset<OpId>)
    requires Served(s, all)
    ensures Consistent(s, all) && s.device == multiset{} && |s.pool| + |s.kept| == |all|
  {
    hide Consistent;
  }

  lemma AllReturned(ready: multiset<OpId> -> seq<OpId>, burst: seq<OpId>, most: nat)
    requires |burst| <= most && forall d :: multiset(ready(d)) == d
    ensures var busy := multiset{} + multiset(burst); busy - multiset(Returned(ready, busy, most)) == multiset{}
  {
    var busy := multiset{} + multiset(burst);
    assert |busy| == |burst| && |multiset(ready(busy))| == |ready(busy)|;
  }

  lemma RoundedRange(s: State, t: State, n: nat, accept: nat, ready: multiset<OpId> -> seq<OpId>, testBurst: nat,
                     mbufs: seq<Mbuf>)
    requires Rounded(s, t, n, accept, ready, testBurst, mbufs)
    ensures |s.kept| <= n <= |s.kept| + |s.pool|
  {
    hide GivesFrom, Returned, NextIdx, Min;
  }

  lemma EmptyDevice(s: State, all: multiset<OpId>)
    requires Consistent(s, all) && s.device == multiset{}
    ensures |s.pool| + |s.kept| == |all|
  {
    assert |multiset(s.pool) + s.InUse()| == |s.pool| + |s.kept| + |s.device|;
  }

  /** A device that returns all it holds never exhausts a pool of a burst or more. */
  lemma {:induction false} NeverExhausted(states: seq<State>, accept: nat -> nat,
                                          ready: nat -> multiset<OpId> -> seq<OpId>, testBurst: nat, totalOps: nat,
                                          mbufs: seq<Mbuf>, all: multiset<OpId>)
    requires Chained(states, accept, ready, testBurst, totalOps, mbufs) && Served(states[0], all)
    requires ReturnsAll(ready) && testBurst <= |all|
    ensures Served(states[|states| - 1], all) && !Exhausted(states[|states| - 1], testBurst, totalOps)
  {
    hide *;
    ChainedStates(states, accept, ready, testBurst, totalOps, mbufs);
    var r := |states| - 2;
    if |states| > 1 {
      ChainedLast(states, accept, ready, testBurst, totalOps, mbufs);
      NeverExhausted(states[..r + 1], accept, ready, testBurst, totalOps, mbufs, all);
      FollowsMeans(states[r], states[r + 1], accept(r), ready(r), testBurst, totalOps, mbufs);
      ReturnsAllMeans(ready, r);
      StaysServed(states[r], states[r + 1], Min(testBurst, totalOps - |states[r].sent|), accept(r), ready(r), testBurst,
                  mbufs, all);
    }
    NotExhausted(states[r + 1], testBurst, totalOps, all);
  }

  lemma ReturnsAllMeans(ready: nat -> multiset<OpId> -> seq<OpId>, r: nat)
    requires ReturnsAll(ready)
    ensures forall d :: multiset(ready(r)(d)) == d
  {
  }

  lemma NotExhausted(s: State, testBurst: nat, totalOps: nat, all: multiset<OpId>)
    requires Served(s, all) && testBurst <= |all|
    ensures !Exhausted(s, testBurst, totalOps)
  {
    hide Consistent;
  }

  /** The states while the device is emptied. */
  ghost predicate Draining(states: seq<State>, ready: nat -> multiset<OpId> -> seq<OpId>, testBurst: nat) {
    && states != []
    && forall r :: 0 <= r < |states| - 1 ==>
         Collected(states[r], states[r + 1], Returned(ready(r), states[r].device, testBurst))
  }

  lemma DrainingFirst(s: State, ready: nat -> multiset<OpId> -> seq<OpId>, testBurst: nat)
    ensures Draining([s], ready, testBurst)
  {
  }

  lemma DrainingMore(states: seq<State>, t: State, ready: nat -> multiset<OpId> -> seq<OpId>, testBurst: nat)
    requires Draining(states, ready, testBurst)
    requires var r := |states| - 1; Collected(states[r], t, Returned(ready(r), states[r].device, testBurst))
    ensures Draining(states + [t], ready, testBurst)
  {
    hide Collected, Returned;
  }

  /** Whenever the device holds operations, it returns some of them, no more than fit in a burst. */
  ghost predicate ReturnsSome(ready: nat -> multiset<OpId> -> seq<OpId>, testBurst: nat) {
    forall r, d :: |d| > 0 ==> 0 < |ready(r)(d)| <= testBurst && multiset(ready(r)(d)) <= d
  }

  /** While it holds operations, such a device is left with fewer in every round. */
  lemma {:induction false} DrainProgress(states: seq<State>, ready: nat -> multiset<OpId> -> seq<OpId>, testBurst: nat)
    requires Draining(states, ready, testBurst) && ReturnsSome(ready, testBurst)
    ensures var last := |states[|states| - 1].device|; last == 0 || last + (|states| - 1) <= |states[0].device|
  {
    hide *;
    DrainingStates(states, ready, testBurst);
    if |states| > 1 {
      var r := |states| - 2;
      DrainingLast(states, ready, testBurst);
      DrainProgress(states[..r + 1], ready, testBurst);
      DrainSize(states[r], states[r + 1], ready, r, testBurst);
    }
  }

  lemma DrainingStates(states: seq<State>, ready: nat -> multiset<OpId> -> seq<OpId>, testBurst: nat)
    requires Draining(states, ready, testBurst)
    ensures |states| > 0
  {
    hide Collected, Returned;
  }

  lemma DrainingLast(states: seq<State>, ready: nat -> multiset<OpId> -> seq<OpId>, testBurst: nat)
    requires Draining(states, ready, testBurst) && |states| > 1
    ensures Draining(states[..|states| - 1], ready, testBurst)
    ensures var r := |states| - 2; Collected(states[r], states[r + 1], Returned(ready(r), states[r].device, testBurst))
  {
    hide Collected, Returned;
  }

  lemma DrainSize(s: State, t: State, ready: nat -> multiset<OpId> -> seq<OpId>, r: nat, testBurst: nat)
    requires Collected(s, t, Returned(ready(r), s.device, testBurst)) && ReturnsSome(ready, testBurst)
    ensures |t.device| < |s.device| || |s.device| == |t.device| == 0
  {
    var done := Returned(ready(r), s.device, testBurst);
    assert s.device == t.device + multiset(done);
    assert |s.device| > 0 ==> done == ready(r)(s.device);
  }
}
