/**
 First in, first out: of two buffers of one receive queue the one queued first is handled
 first, however the polls of the queues are interleaved.
 */
module QueueOrder {
  import opened Bits
  import opened Nics
  import opened Routers
  import opened Conservation

  function Flatten(parts: seq<seq<Mbuf>>): seq<Mbuf> {
    if parts == [] then [] else Flatten(parts[..|parts| - 1]) + parts[|parts| - 1]
  }

  /** What a burst took from queue q of interface d. */
  function FromQueue(b: Burst, d: nat, q: nat): seq<Mbuf> {
    if b.interface == d && q < |b.taken| then b.taken[q] else []
  }

  /** What the bursts took from queue q of interface d, in the order of the polls. */
  function TakenFrom(bursts: seq<Burst>, d: nat, q: nat): seq<Mbuf> {
    if bursts == [] then []
    else
      var last := |bursts| - 1;
      TakenFrom(bursts[..last], d, q) + FromQueue(bursts[last], d, q)
  }

  /** Every burst was filled queue by queue. */
  ghost predicate InQueueOrder(bursts: seq<Burst>) {
    forall i :: 0 <= i < |bursts| ==> bursts[i].bufs == Flatten(bursts[i].taken)
  }

  /** Every queue held at the start what the bursts took from it, in that order, and then what it
      still holds. */
  ghost predicate Drained(start: seq<seq<seq<Mbuf>>>, now: seq<seq<seq<Mbuf>>>, bursts: seq<Burst>) {
    && |now| == |start|
    && (forall d :: 0 <= d < |now| ==> |now[d]| == |start[d]|)
    && forall d, q :: 0 <= d < |now| && 0 <= q < |now[d]| ==> start[d][q] == TakenFrom(bursts, d, q) + now[d][q]
  }

  lemma NothingDrained(start: seq<seq<seq<Mbuf>>>)
    ensures Drained(start, start, []) && InQueueOrder([])
  {
  }

  /** One more burst, taken from the front of the queues of one interface. */
  lemma {:induction false} DrainedMore(start: seq<seq<seq<Mbuf>>>, now: seq<seq<seq<Mbuf>>>, bursts: seq<Burst>,
                                       b: Burst, queues: seq<seq<Mbuf>>)
    requires Drained(start, now, bursts) && b.interface < |now| && |queues| == |now[b.interface]|
    requires forall q :: 0 <= q < |queues| ==> now[b.interface][q] == FromQueue(b, b.interface, q) + queues[q]
    ensures Drained(start, now[b.interface := queues], bursts + [b])
  {
    var after := now[b.interface := queues];
    assert (bursts + [b])[..|bursts|] == bursts;
    forall d, q | 0 <= d < |after| && 0 <= q < |after[d]|
      ensures start[d][q] == TakenFrom(bursts + [b], d, q) + after[d][q]
    {
      assert TakenFrom(bursts + [b], d, q) == TakenFrom(bursts, d, q) + FromQueue(b, d, q);
      hide TakenFrom;
      assert now[d][q] == FromQueue(b, d, q) + after[d][q];
    }
  }

  // ---------- where a buffer ends up ----------

  /** Where queue q begins in a burst. */
  function Offset(parts: seq<seq<Mbuf>>, q: nat): nat
    requires q <= |parts|
  {
    |Flatten(parts[..q])|
  }

  lemma {:induction false} OffsetIsRight(parts: seq<seq<Mbuf>>, q: nat, k: nat)
    requires q < |parts| && k < |parts[q]|
    ensures Offset(parts, q) + k < |Flatten(parts)| && Flatten(parts)[Offset(parts, q) + k] == parts[q][k]
  {
    var last := |parts| - 1;
    if q < last {
      OffsetIsRight(parts[..last], q, k);
      assert parts[..last][..q] == parts[..q];
    }
  }

  /** The place, among all buffers received, of the k-th one taken from queue q of interface d. */
  function Place(bursts: seq<Burst>, d: nat, q: nat, k: nat): nat
    requires k < |TakenFrom(bursts, d, q)|
  {
    var last := |bursts| - 1;
    var before := |TakenFrom(bursts[..last], d, q)|;
    if k < before then Place(bursts[..last], d, q, k)
    else |Received(bursts[..last])| + Offset(bursts[last].taken, q) + (k - before)
  }

  lemma {:induction false} PlaceIsRight(bursts: seq<Burst>, d: nat, q: nat, k: nat)
    requires InQueueOrder(bursts) && k < |TakenFrom(bursts, d, q)|
    ensures Place(bursts, d, q, k) < |Received(bursts)|
    ensures Received(bursts)[Place(bursts, d, q, k)] == TakenFrom(bursts, d, q)[k]
  {
    var last := |bursts| - 1;
    var earlier, b := bursts[..last], bursts[last];
    var before := TakenFrom(earlier, d, q);
    assert TakenFrom(bursts, d, q) == before + FromQueue(b, d, q);
    assert Received(bursts) == Received(earlier) + b.bufs;
    if k < |before| {
      PlaceIsRight(earlier, d, q, k);
      hide TakenFrom, Received;
    } else {
      OffsetIsRight(b.taken, q, k - |before|);
      hide TakenFrom, Received, Offset, Flatten;
    }
  }

  /** A queue is emptied from its front. */
  lemma {:induction false} PlacesIncrease(bursts: seq<Burst>, d: nat, q: nat, k: nat, l: nat)
    requires InQueueOrder(bursts) && k < l < |TakenFrom(bursts, d, q)|
    ensures Place(bursts, d, q, k) < Place(bursts, d, q, l)
  {
    var last := |bursts| - 1;
    var before := |TakenFrom(bursts[..last], d, q)|;
    if l < before {
      PlacesIncrease(bursts[..last], d, q, k, l);
    } else if k < before {
      PlaceIsRight(bursts[..last], d, q, k);
    }
  }

  // ---------- events ----------

  ghost predicate NoRepeats(bufs: seq<Mbuf>) {
    forall i, j :: 0 <= i < j < |bufs| ==> bufs[i] != bufs[j]
  }

  /** Event number x, and no other from number n on, is about this buffer. */
  ghost predicate OnlyEvent(log: seq<Event>, n: nat, x: nat, buf: Mbuf) {
    n <= x < |log| && log[x].buf == buf && forall z :: n <= z < |log| && log[z].buf == buf ==> z == x
  }

  /** Each of the two buffers has one event, the first before the second. */
  ghost predicate EarlierEvent(log: seq<Event>, n: nat, first: Mbuf, second: Mbuf) {
    exists x: nat, y: nat :: x < y && OnlyEvent(log, n, x, first) && OnlyEvent(log, n, y, second)
  }

  /** What was taken from a queue has its events in the order of the queue. */
  ghost predicate KeepsQueueOrder(queues: seq<seq<seq<Mbuf>>>, bursts: seq<Burst>, log: seq<Event>, n: nat) {
    forall d, q, k, l ::
      (0 <= d < |queues| && 0 <= q < |queues[d]| && 0 <= k < l < |queues[d][q]| && l < |TakenFrom(bursts, d, q)|) ==>
        EarlierEvent(log, n, queues[d][q][k], queues[d][q][l])
  }

  /** Of two buffers of one receive queue the one queued first has the earlier event, whether
      they are sent or freed. */
  lemma {:induction false} FirstQueuedFirstHandled(before: Trace, after: Trace, bursts: seq<Burst>, queue: Word16,
                                                   accepts: nat -> bool, start: seq<seq<seq<Mbuf>>>,
                                                   now: seq<seq<seq<Mbuf>>>)
    requires OneEventEach(before, after, bursts, queue, accepts) && NoRepeats(Received(bursts))
    requires InQueueOrder(bursts) && Drained(start, now, bursts)
    ensures KeepsQueueOrder(start, bursts, after.log, |before.log|)
  {
    EventsAreReceptions(before, after, bursts, queue, accepts);
    hide OneEventEach, InQueueOrder, NoRepeats;
    forall d, q, k, l |
      0 <= d < |start| && 0 <= q < |start[d]| && 0 <= k < l < |start[d][q]| && l < |TakenFrom(bursts, d, q)|
      ensures EarlierEvent(after.log, |before.log|, start[d][q][k], start[d][q][l])
    {
      assert start[d][q] == TakenFrom(bursts, d, q) + now[d][q];
      PlaceIsRight(bursts, d, q, k);
      PlaceIsRight(bursts, d, q, l);
      PlacesIncrease(bursts, d, q, k, l);
      var x, y := |before.log| + Place(bursts, d, q, k), |before.log| + Place(bursts, d, q, l);
      assert OnlyEvent(after.log, |before.log|, x, start[d][q][k]);
      assert OnlyEvent(after.log, |before.log|, y, start[d][q][l]);
    }
  }

  /** The event of the i-th buffer received is number i, and there is no other. */
  lemma {:induction false} EventsAreReceptions(before: Trace, after: Trace, bursts: seq<Burst>, queue: Word16,
                                               accepts: nat -> bool)
    requires OneEventEach(before, after, bursts, queue, accepts) && NoRepeats(Received(bursts))
    ensures |after.log| == |before.log| + |Received(bursts)|
    ensures forall i :: 0 <= i < |Received(bursts)| ==>
              OnlyEvent(after.log, |before.log|, |before.log| + i, Received(bursts)[i])
  {
    hide OneEventEach, NoRepeats, OnlyEvent;
    OneForEach(before, after, bursts, queue, accepts);
    forall i | 0 <= i < |Received(bursts)|
      ensures OnlyEvent(after.log, |before.log|, |before.log| + i, Received(bursts)[i])
    {
      forall j | 0 <= j < |Received(bursts)| ensures after.log[|before.log|..][j].buf == Received(bursts)[j] {
        EventIsAbout(before, after, bursts, queue, accepts, j);
      }
      NoOtherEvent(after.log, |before.log|, Received(bursts), i);
    }
  }

  lemma OneForEach(before: Trace, after: Trace, bursts: seq<Burst>, queue: Word16, accepts: nat -> bool)
    requires OneEventEach(before, after, bursts, queue, accepts)
    ensures |after.log| == |before.log| + |Received(bursts)|
  {
  }

  lemma EventIsAbout(before: Trace, after: Trace, bursts: seq<Burst>, queue: Word16, accepts: nat -> bool, i: nat)
    requires OneEventEach(before, after, bursts, queue, accepts) && i < |Received(bursts)|
    ensures |after.log| == |before.log| + |Received(bursts)| && after.log[|before.log| + i].buf == Received(bursts)[i]
  {
    hide AttemptsBefore, Refused, Received, Verdicts;
    var bufs, vs := Received(bursts), Verdicts(bursts);
    assert Settles(after.log[|before.log| + i], bufs[i], queue, vs[i], accepts,
                   AttemptsBefore(before, bufs, queue, vs, accepts, i),
                   AttemptsBefore(before, bufs, queue, vs, accepts, i + 1));
  }

  lemma NoOtherEvent(log: seq<Event>, n: nat, bufs: seq<Mbuf>, i: nat)
    requires |log| == n + |bufs| && i < |bufs| && NoRepeats(bufs)
    requires forall j :: 0 <= j < |bufs| ==> log[n..][j].buf == bufs[j]
    ensures OnlyEvent(log, n, n + i, bufs[i])
  {
    forall z | n <= z < |log| && log[z].buf == bufs[i] ensures z == n + i {
      assert log[n..][z - n] == log[z];
    }
    assert log[n..][i] == log[n + i];
  }
}
