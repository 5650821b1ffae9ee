/**
 What holds of whole runs of a worker: every buffer that comes in goes out exactly once,
 in order.
 */
module Conservation {
  import opened Bits
  import opened Decisions
  import opened Nics
  import opened Routers

  /** The event says what became of this buffer under this verdict, given the attempts from k
      up to k': sent as decided at the first success, or freed because so decided or because
      exactly ten attempts were refused. */
  ghost predicate Settles(e: Event, buf: Mbuf, queue: Word16, v: Verdict, accepts: nat -> bool, k: nat, k': nat) {
    match e
    case Sent(b, port, q, frame) =>
      && b == buf && q == queue && v == Transmit(port, frame)
      && k < k' <= k + 10 && Refused(accepts, k, k' - 1) && accepts(k' - 1)
    case Freed(b) =>
      && b == buf
      && k' == (if v.Discard? then k else k + 10) && Refused(accepts, k, k')
  }

  ghost predicate Refused(accepts: nat -> bool, k: nat, k': nat) {
    forall j: nat :: k <= j < k' ==> !accepts(j)
  }

  /** The attempts made before buffer number i is handled. */
  function AttemptsBefore(t: Trace, bufs: seq<Mbuf>, queue: Word16, vs: seq<Verdict>, accepts: nat -> bool, i: nat): nat
    requires i <= |bufs| == |vs|
  {
    HandledAll(t, bufs[..i], queue, vs[..i], accepts).attempts
  }

  /** Each received buffer leaves by exactly one event, and the events follow the order of
      reception: event number i is about buffer number i. */
  lemma {:induction false} EveryBufferOnce(t: Trace, bufs: seq<Mbuf>, queue: Word16, vs: seq<Verdict>,
                                           accepts: nat -> bool)
    requires |bufs| == |vs|
    ensures var after := HandledAll(t, bufs, queue, vs, accepts);
            && |after.log| == |t.log| + |bufs|
            && after.log[..|t.log|] == t.log
            && AttemptsBefore(t, bufs, queue, vs, accepts, 0) == t.attempts
            && AttemptsBefore(t, bufs, queue, vs, accepts, |bufs|) == after.attempts
            && forall i :: 0 <= i < |bufs| ==>
                 Settles(after.log[|t.log| + i], bufs[i], queue, vs[i], accepts,
                         AttemptsBefore(t, bufs, queue, vs, accepts, i),
                         AttemptsBefore(t, bufs, queue, vs, accepts, i + 1))
  {
    assert bufs[..|bufs|] == bufs && vs[..|bufs|] == vs;
    LogGrows(t, bufs, queue, vs, accepts, 0);
    hide HandledAll, Settles;
    forall i | 0 <= i < |bufs|
      ensures Settles(HandledAll(t, bufs, queue, vs, accepts).log[|t.log| + i], bufs[i], queue, vs[i], accepts,
                      AttemptsBefore(t, bufs, queue, vs, accepts, i),
                      AttemptsBefore(t, bufs, queue, vs, accepts, i + 1))
    {
      OneBuffer(t, bufs, queue, vs, accepts, i);
    }
  }

  lemma {:induction false} OneBuffer(t: Trace, bufs: seq<Mbuf>, queue: Word16, vs: seq<Verdict>, accepts: nat -> bool,
                                     i: nat)
    requires i < |bufs| == |vs|
    ensures var log := HandledAll(t, bufs, queue, vs, accepts).log;
            && |log| == |t.log| + |bufs|
            && Settles(log[|t.log| + i], bufs[i], queue, vs[i], accepts,
                       AttemptsBefore(t, bufs, queue, vs, accepts, i),
                       AttemptsBefore(t, bufs, queue, vs, accepts, i + 1))
  {
    LogGrows(t, bufs, queue, vs, accepts, i + 1);
    LogGrows(t, bufs[..i], queue, vs[..i], accepts, 0);
    HandledNext(t, bufs, queue, vs, accepts, i);
    var before := HandledAll(t, bufs[..i], queue, vs[..i], accepts);
    DisposalSettles(bufs[i], queue, vs[i], accepts, before.attempts);
    hide HandledAll, Settles, Disposal, AttemptsAfter;
  }

  /** Handling more buffers only appends to the log. */
  lemma {:induction false} LogGrows(t: Trace, bufs: seq<Mbuf>, queue: Word16, vs: seq<Verdict>, accepts: nat -> bool,
                                    i: nat)
    requires i <= |bufs| == |vs|
    ensures var log := HandledAll(t, bufs, queue, vs, accepts).log;
            && |log| == |t.log| + |bufs|
            && log[..|t.log| + i] == HandledAll(t, bufs[..i], queue, vs[..i], accepts).log
  {
    if i == |bufs| {
      assert bufs[..i] == bufs && vs[..i] == vs;
    }
    if bufs != [] {
      var last := |bufs| - 1;
      hide Disposal, AttemptsAfter;
      LogGrows(t, bufs[..last], queue, vs[..last], accepts, if i < last then i else last);
      if i < last {
        assert bufs[..last][..i] == bufs[..i] && vs[..last][..i] == vs[..i];
      } else {
        assert bufs[..last][..last] == bufs[..last] && vs[..last][..last] == vs[..last];
      }
    }
  }

  lemma {:induction false} DisposalSettles(buf: Mbuf, queue: Word16, v: Verdict, accepts: nat -> bool, k: nat)
    ensures Settles(Disposal(buf, queue, v, accepts, k), buf, queue, v, accepts, k, AttemptsAfter(v, accepts, k))
  {
    TriesUntilTaken(accepts, k, MAX_TRANSMIT_TRIAL);
    hide Taken, Tries;
  }

  /** The attempts stop at the first success; without one, all n are made. */
  lemma {:induction false} TriesUntilTaken(accepts: nat -> bool, k: nat, n: nat)
    ensures var m := Tries(accepts, k, n);
            && m <= n
            && (if Taken(accepts, k, n) then m > 0 && Refused(accepts, k, k + m - 1) && accepts(k + m - 1)
                else m == n && Refused(accepts, k, k + n))
    decreases n
  {
    if n > 0 && !accepts(k) {
      TriesUntilTaken(accepts, k + 1, n - 1);
    }
  }

  // ---------- whole runs ----------

  /** A burst handled by a worker: the interface polled, what was taken from each of its queues,
      the buffers in the order handled, and the verdicts on them. */
  datatype Burst = Burst(interface: nat, taken: seq<seq<Mbuf>>, bufs: seq<Mbuf>, verdicts: seq<Verdict>)

  ghost predicate Matched(bursts: seq<Burst>) {
    forall i :: 0 <= i < |bursts| ==> |bursts[i].bufs| == |bursts[i].verdicts|
  }

  function HandledRun(t: Trace, bursts: seq<Burst>, queue: Word16, accepts: nat -> bool): Trace
    requires Matched(bursts)
  {
    if bursts == [] then t
    else
      var last := |bursts| - 1;
      var before := HandledRun(t, bursts[..last], queue, accepts);
      HandledAll(before, bursts[last].bufs, queue, bursts[last].verdicts, accepts)
  }

  function Received(bursts: seq<Burst>): seq<Mbuf> {
    if bursts == [] then [] else Received(bursts[..|bursts| - 1]) + bursts[|bursts| - 1].bufs
  }

  function Verdicts(bursts: seq<Burst>): (vs: seq<Verdict>)
    requires Matched(bursts)
    ensures |vs| == |Received(bursts)|
  {
    if bursts == [] then [] else Verdicts(bursts[..|bursts| - 1]) + bursts[|bursts| - 1].verdicts
  }

  lemma {:induction false} HandledConcat(t: Trace, a: seq<Mbuf>, b: seq<Mbuf>, queue: Word16,
                                         va: seq<Verdict>, vb: seq<Verdict>, accepts: nat -> bool)
    requires |a| == |va| && |b| == |vb|
    ensures HandledAll(HandledAll(t, a, queue, va, accepts), b, queue, vb, accepts)
            == HandledAll(t, a + b, queue, va + vb, accepts)
  {
    if b == [] {
      assert a + b == a && va + vb == va;
    } else {
      var last := |b| - 1;
      HandledConcat(t, a, b[..last], queue, va, vb[..last], accepts);
      assert (a + b)[..|a| + last] == a + b[..last] && (va + vb)[..|a| + last] == va + vb[..last];
    }
  }

  /** A trace grown by one event for each buffer of the bursts, in order of reception, each with
      the attempts made for it. */
  ghost predicate OneEventEach(before: Trace, after: Trace, bursts: seq<Burst>, queue: Word16, accepts: nat -> bool) {
    && Matched(bursts)
    && var bufs, vs := Received(bursts), Verdicts(bursts);
    && |after.log| == |before.log| + |bufs|
    && after.log[..|before.log|] == before.log
    && AttemptsBefore(before, bufs, queue, vs, accepts, 0) == before.attempts
    && AttemptsBefore(before, bufs, queue, vs, accepts, |bufs|) == after.attempts
    && forall i :: 0 <= i < |bufs| ==>
         Settles(after.log[|before.log| + i], bufs[i], queue, vs[i], accepts,
                 AttemptsBefore(before, bufs, queue, vs, accepts, i),
                 AttemptsBefore(before, bufs, queue, vs, accepts, i + 1))
  }

  /** Conservation over any run: as many events as buffers received, one each, in order. */
  lemma {:induction false} RunConserves(t: Trace, bursts: seq<Burst>, queue: Word16, accepts: nat -> bool)
    requires Matched(bursts)
    ensures HandledRun(t, bursts, queue, accepts)
            == HandledAll(t, Received(bursts), queue, Verdicts(bursts), accepts)
    ensures OneEventEach(t, HandledRun(t, bursts, queue, accepts), bursts, queue, accepts)
  {
    if bursts != [] {
      var last := |bursts| - 1;
      RunConserves(t, bursts[..last], queue, accepts);
      HandledConcat(t, Received(bursts[..last]), bursts[last].bufs, queue,
                    Verdicts(bursts[..last]), bursts[last].verdicts, accepts);
    }
    EveryBufferOnce(t, Received(bursts), queue, Verdicts(bursts), accepts);
  }
}
