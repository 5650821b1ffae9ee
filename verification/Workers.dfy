/**
 How `start_router` shares the interfaces out among the worker threads, and which queues the
 workers then use.
 */
module Workers {
  import opened Bits
  import opened Decisions

  class ThreadConfig {
    var intConfs: seq<IntConf>
    const workerCount: Word16
    const qId: Word16

    /** Counts and queue ids are cut to 16 bits. */
    constructor (workerCount: Word32, qId: Word32)
      ensures intConfs == [] && this.workerCount == workerCount % 0x1_0000 && this.qId == qId % 0x1_0000
    {
      intConfs := [];
      this.workerCount := workerCount % 0x1_0000;
      this.qId := qId % 0x1_0000;
    }
  }

  /** The indexes below len that are t modulo n, in increasing order. */
  function ShareOf(len: nat, t: nat, n: nat): (s: seq<nat>)
    requires n > 0
    ensures forall k :: 0 <= k < |s| ==> s[k] < len && s[k] % n == t
    ensures forall i :: 0 <= i < len && i % n == t ==> i in s
    ensures forall a, b :: 0 <= a < b < |s| ==> s[a] < s[b]
  {
    if len == 0 then []
    else if (len - 1) % n == t then ShareOf(len - 1, t, n) + [len - 1]
    else ShareOf(len - 1, t, n)
  }

  function Pick(confs: seq<IntConf>, indexes: seq<nat>): (p: seq<IntConf>)
    requires forall k :: 0 <= k < |indexes| ==> indexes[k] < |confs|
    ensures |p| == |indexes|
    ensures forall k :: 0 <= k < |p| ==> p[k] == confs[indexes[k]]
  {
    if indexes == [] then [] else Pick(confs, indexes[..|indexes| - 1]) + [confs[indexes[|indexes| - 1]]]
  }

  ghost predicate Assigned(thrConfs: seq<ThreadConfig>, confs: seq<IntConf>, len: nat)
    requires len <= |confs| && thrConfs != []
    reads thrConfs
  {
    forall t :: 0 <= t < |thrConfs| ==> thrConfs[t].intConfs == Pick(confs, ShareOf(len, t, |thrConfs|))
  }

  /** Each interface is configured once, with as many queues as there are workers, cut to 16 bits. */
  ghost predicate Configured(configured: seq<(Byte, Word16)>, confs: seq<IntConf>, n: nat, len: nat)
    requires len <= |confs|
  {
    |configured| == len && forall i :: 0 <= i < len ==> configured[i] == (confs[i].intId, n % 0x1_0000)
  }

  /** The three loops of start_router: create, share out, launch. The result lists the workers in
      the order they are started; no worker at all means too few lcores. */
  method StartRouter(lcoreCount: Word32, availableLcores: Word32, confs: seq<IntConf>)
    returns (thrConfs: seq<ThreadConfig>, configured: seq<(Byte, Word16)>, started: seq<nat>)
    ensures var n := if lcoreCount == 0 then availableLcores else lcoreCount;
            && |thrConfs| == |started| == n
            && (n > 0 ==> Assigned(thrConfs, confs, |confs|))
            && (n > 0 ==> Configured(configured, confs, n, |confs|))
            && (forall t :: 0 <= t < n ==> thrConfs[t].qId == t % 0x1_0000 && thrConfs[t].workerCount == n % 0x1_0000)
            && (forall t :: 0 <= t < n ==> t in started)
            && (forall a, b :: 0 <= a < b < n ==> started[a] != started[b])
  {
    var n := if lcoreCount == 0 then availableLcores else lcoreCount;
    thrConfs, configured, started := [], [], [];
    if n <= 0 {
      return;
    }
    thrConfs := CreateConfigs(n);
    configured := ShareOut(thrConfs, confs);
    started := LaunchOrder(n);
  }

  method CreateConfigs(n: Word32) returns (thrConfs: seq<ThreadConfig>)
    ensures |thrConfs| == n && fresh(thrConfs)
    ensures forall s, t :: 0 <= s < t < n ==> thrConfs[s] != thrConfs[t]
    ensures forall t :: 0 <= t < n ==>
              thrConfs[t].intConfs == [] && thrConfs[t].qId == t % 0x1_0000 && thrConfs[t].workerCount == n % 0x1_0000
  {
    thrConfs := [];
    for i := 0 to n
      invariant |thrConfs| == i && fresh(thrConfs)
      invariant forall s, t :: 0 <= s < t < i ==> thrConfs[s] != thrConfs[t]
      invariant forall t :: 0 <= t < i ==>
                  && thrConfs[t].intConfs == [] && thrConfs[t].qId == t % 0x1_0000
                  && thrConfs[t].workerCount == n % 0x1_0000
    {
      var thrConf := new ThreadConfig(n, |thrConfs|);
      thrConfs := thrConfs + [thrConf];
    }
  }

  lemma ShareGrows(confs: seq<IntConf>, i: nat, t: nat, n: nat)
    requires i < |confs| && n > 0
    ensures Pick(confs, ShareOf(i + 1, t, n)) == Pick(confs, ShareOf(i, t, n)) + if i % n == t then [confs[i]] else []
  {
  }

  /** Round robin: interface i goes to worker i modulo the number of workers. */
  method ShareOut(thrConfs: seq<ThreadConfig>, confs: seq<IntConf>) returns (configured: seq<(Byte, Word16)>)
    requires thrConfs != [] && forall s, t :: 0 <= s < t < |thrConfs| ==> thrConfs[s] != thrConfs[t]
    requires forall t :: 0 <= t < |thrConfs| ==> thrConfs[t].intConfs == []
    modifies thrConfs
    ensures Assigned(thrConfs, confs, |confs|)
    ensures Configured(configured, confs, |thrConfs|, |confs|)
  {
    configured := [];
    for i := 0 to |confs|
      invariant Assigned(thrConfs, confs, i)
      invariant Configured(configured, confs, |thrConfs|, i)
    {
      configured := configured + [(confs[i].intId, |thrConfs| % 0x1_0000)];
      AssignNext(thrConfs, confs, i);
    }
  }

  method AssignNext(thrConfs: seq<ThreadConfig>, confs: seq<IntConf>, i: nat)
    requires thrConfs != [] && forall s, t :: 0 <= s < t < |thrConfs| ==> thrConfs[s] != thrConfs[t]
    requires i < |confs| && Assigned(thrConfs, confs, i)
    modifies thrConfs
    ensures Assigned(thrConfs, confs, i + 1)
  {
    hide ShareOf, Pick;
    ghost var n := |thrConfs|;
    var thrIdx := i % |thrConfs|;
    var thrConf := thrConfs[thrIdx];
    thrConf.intConfs := thrConf.intConfs + [confs[i]];
    forall t | 0 <= t < n ensures thrConfs[t].intConfs == Pick(confs, ShareOf(i + 1, t, n)) {
      ShareGrows(confs, i, t, n);
      assert t != thrIdx ==> thrConfs[t] != thrConf;
    }
  }

  /** The slaves in order, then the master with the first configuration. */
  method LaunchOrder(n: Word32) returns (started: seq<nat>)
    requires n > 0
    ensures |started| == n && started[n - 1] == 0 && forall k :: 0 <= k < n - 1 ==> started[k] == k + 1
    ensures forall t :: 0 <= t < n ==> t in started
    ensures forall a, b :: 0 <= a < b < n ==> started[a] != started[b]
  {
    started := [];
    for i := 1 to n
      invariant |started| == i - 1 && forall k :: 0 <= k < |started| ==> started[k] == k + 1
    {
      started := started + [i];
    }
    started := started + [0];
    forall t | 0 <= t < n ensures t in started {
      assert started[if t == 0 then n - 1 else t - 1] == t;
    }
  }

  /** Loads differ by at most one. */
  lemma {:induction false} ShareSize(len: nat, t: nat, n: nat)
    requires t < n
    ensures |ShareOf(len, t, n)| == len / n + (if t < len % n then 1 else 0)
  {
    if len > 0 {
      ShareSize(len - 1, t, n);
      NextQuotient(len - 1, n);
    } else {
      QuotientUnique(0, n, 0, 0);
    }
  }

  lemma NextQuotient(x: nat, n: nat)
    requires n > 0
    ensures x % n == n - 1 ==> (x + 1) / n == x / n + 1 && (x + 1) % n == 0
    ensures x % n < n - 1 ==> (x + 1) / n == x / n && (x + 1) % n == x % n + 1
  {
    var q, r := x / n, x % n;
    assert x == n * q + r;
    if r == n - 1 {
      assert n * (q + 1) == n * q + n;
      QuotientUnique(x + 1, n, q + 1, 0);
    } else {
      QuotientUnique(x + 1, n, q, r + 1);
    }
  }

  /** Transmit queue ids are pairwise different exactly for up to 65536 workers. */
  lemma QueueIdsDistinctExactly(n: Word32)
    ensures (forall s, t :: 0 <= s < t < n ==> s % 0x1_0000 != t % 0x1_0000) <==> n <= 0x1_0000
  {
    if n > 0x1_0000 {
      var s, t := 0, 0x1_0000;
      assert s % 0x1_0000 == t % 0x1_0000;
    }
  }

  /** They lie below the number of queues configured exactly for fewer than 65536 workers. */
  lemma QueueIdsConfiguredExactly(n: Word32)
    ensures (forall t :: 0 <= t < n ==> t % 0x1_0000 < n % 0x1_0000) <==> n < 0x1_0000
  {
    if n >= 0x1_0000 {
      var t := 0xFFFF;
      assert t % 0x1_0000 == 0xFFFF;
    }
  }

  /** Worker t polls receive queue q of the interface with this id. */
  ghost predicate Polls(confs: seq<IntConf>, n: Word32, t: nat, id: Byte, q: nat)
    requires n > 0
  {
    q < n % 0x1_0000 && exists i :: i in ShareOf(|confs|, t, n) && confs[i].intId == id
  }

  /** No receive queue has two workers exactly when equal interface ids land on one worker, in
      particular when the ids are different, or when the count is cut to 0 and nothing is polled. */
  lemma QueuesPolledOnceExactly(confs: seq<IntConf>, n: Word32)
    requires n > 0
    ensures (forall s, t, id, q :: Polls(confs, n, s, id, q) && Polls(confs, n, t, id, q) ==> s == t) <==>
            (n % 0x1_0000 == 0
             || forall i, j :: 0 <= i < j < |confs| && confs[i].intId == confs[j].intId ==> i % n == j % n)
  {
    hide Polls;
    if n % 0x1_0000 > 0 && forall s, t, id, q :: Polls(confs, n, s, id, q) && Polls(confs, n, t, id, q) ==> s == t {
      forall i, j | 0 <= i < j < |confs| && confs[i].intId == confs[j].intId ensures i % n == j % n {
        PollsOwn(confs, n, i);
        PollsOwn(confs, n, j);
      }
    }
    if forall i, j :: 0 <= i < j < |confs| && confs[i].intId == confs[j].intId ==> i % n == j % n {
      forall s, t, id, q | Polls(confs, n, s, id, q) && Polls(confs, n, t, id, q) ensures s == t {
        var i := PolledFor(confs, n, s, id, q);
        var j := PolledFor(confs, n, t, id, q);
      }
    }
    if n % 0x1_0000 == 0 {
      NonePolled(confs, n);
    }
  }

  /** Each interface is polled by the worker it is shared out to. */
  lemma PollsOwn(confs: seq<IntConf>, n: Word32, i: nat)
    requires n % 0x1_0000 > 0 && i < |confs|
    ensures Polls(confs, n, i % n, confs[i].intId, 0)
  {
    assert i in ShareOf(|confs|, i % n, n);
  }

  lemma PolledFor(confs: seq<IntConf>, n: Word32, t: nat, id: Byte, q: nat) returns (i: nat)
    requires n > 0 && Polls(confs, n, t, id, q)
    ensures i < |confs| && i % n == t && confs[i].intId == id
  {
    i :| i in ShareOf(|confs|, t, n) && confs[i].intId == id;
  }

  lemma NonePolled(confs: seq<IntConf>, n: Word32)
    requires n > 0 && n % 0x1_0000 == 0
    ensures forall t, id, q :: !Polls(confs, n, t, id, q)
  {
  }

  /** An interface named twice and shared out to two workers. */
  lemma PolledTwice(conf: IntConf)
    ensures Polls([conf, conf], 2, 0, conf.intId, 0) && Polls([conf, conf], 2, 1, conf.intId, 0)
  {
    assert 0 in ShareOf(2, 0, 2) && 1 in ShareOf(2, 1, 2);
    assert [conf, conf][0] == [conf, conf][1] == conf;
  }
}
