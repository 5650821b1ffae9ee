/**
 Filling one burst from the receive queues of a device, and one poll of an interface.
 */
module Receive {
  import opened Bits
  import opened Frames
  import opened Decisions
  import opened Nics
  import opened Routers
  import opened RoutingTables
  import opened Conservation
  import opened QueueOrder

  /** No two places in the queues hold the same memory. */
  ghost predicate Unaliased(queues: seq<seq<Mbuf>>) {
    forall q, i, r, j ::
      (0 <= q < |queues| && 0 <= i < |queues[q]| && 0 <= r < |queues| && 0 <= j < |queues[r]| && (q != r || i != j)) ==>
        queues[q][i].data != queues[r][j].data
  }

  /** None of these buffers is in the queues. */
  ghost predicate Apart(bufs: seq<Mbuf>, queues: seq<seq<Mbuf>>) {
    forall i, q, j :: 0 <= i < |bufs| && 0 <= q < |queues| && 0 <= j < |queues[q]| ==>
      bufs[i].data != queues[q][j].data
  }

  /** The buffers in the queues, and the memory behind them. */
  ghost function Queued(queues: seq<seq<Mbuf>>): set<Mbuf> {
    set q, i | 0 <= q < |queues| && 0 <= i < |queues[q]| :: queues[q][i]
  }

  ghost function Memory(queues: seq<seq<Mbuf>>): set<array<Byte>> {
    set b | b in Queued(queues) :: b.data
  }

  /** The buffers that went from one bag to the next are these. */
  ghost predicate Moved(before: multiset<Mbuf>, after: multiset<Mbuf>, bufs: seq<Mbuf>) {
    before == multiset(bufs) + after
  }

  lemma MovedNone(a: multiset<Mbuf>)
    ensures Moved(a, a, [])
  {
  }

  lemma MovedBoth(a: multiset<Mbuf>, b: multiset<Mbuf>, c: multiset<Mbuf>, first: seq<Mbuf>, second: seq<Mbuf>)
    requires Moved(a, b, first) && Moved(b, c, second)
    ensures Moved(a, c, first + second)
  {
  }

  ghost function Bag(queues: seq<seq<Mbuf>>): multiset<Mbuf> {
    multiset(Flatten(queues))
  }

  function Least(a: nat, b: nat, c: nat): nat {
    if a <= b && a <= c then a else if b <= c then b else c
  }

  /** The k-th call to the card hands over up to `offers(k)` buffers. */
  class RxDevice {
    const offers: nat -> nat
    var calls: nat
    var queues: seq<seq<Mbuf>>

    constructor (queues: seq<seq<Mbuf>>, offers: nat -> nat)
      ensures this.queues == queues && this.offers == offers && calls == 0
    {
      this.queues, this.offers, calls := queues, offers, 0;
    }

    /** Hands over the front of queue q, at most n buffers, into the array from place off on. */
    method RxBurst(q: nat, bufs: array<Mbuf>, off: nat, n: nat) returns (k: nat)
      requires q < |queues| && off + n <= bufs.Length
      modifies this, bufs
      ensures k == Least(n, |old(queues)[q]|, offers(old(calls))) && calls == old(calls) + 1
      ensures queues == old(queues)[q := old(queues)[q][k..]]
      ensures bufs[..off + k] == old(bufs[..off]) + old(queues)[q][..k]
      ensures forall j :: off + k <= j < bufs.Length ==> bufs[j] == old(bufs[j])
    {
      k := Least(n, |queues[q]|, offers(calls));
      calls := calls + 1;
      for i := 0 to k
        invariant bufs[..off + i] == old(bufs[..off]) + queues[q][..i]
        invariant forall j :: off + i <= j < bufs.Length ==> bufs[j] == old(bufs[j])
        modifies bufs
      {
        bufs[off + i] := queues[q][i];
      }
      queues := queues[q := queues[q][k..]];
    }

    /** Polls the queues in turn until the burst is full. The burst is what was taken from each
        queue, in queue order; the rest stays queued in order, nothing is overwritten, and the
        places past the burst are not touched. */
    method Recv(numRxQueues: Word16, bufs: array<Mbuf>, numBufs: Word16)
      returns (rx: Word16, ghost taken: seq<seq<Mbuf>>)
      requires numRxQueues <= |queues| && numBufs <= bufs.Length && Unaliased(queues)
      modifies this, bufs
      ensures rx <= numBufs && |taken| <= numRxQueues && (|taken| < numRxQueues ==> rx == numBufs)
      ensures Filled(old(queues), queues, taken, bufs[..rx])
      ensures Asked(old(queues), taken, numBufs, offers, old(calls)) && calls == old(calls) + |taken|
      ensures forall j :: rx <= j < bufs.Length ==> bufs[j] == old(bufs[j])
    {
      hide *;
      NothingFilled(queues);
      NothingAsked(queues, numBufs, offers, calls);
      rx, taken := 0, [];
      var i: Word16 := 0;
      while i < numRxQueues && rx < numBufs
        invariant i <= numRxQueues <= |queues| && rx <= numBufs && |taken| == i
        invariant Filled(old(queues), queues, taken, bufs[..rx])
        invariant Asked(old(queues), taken, numBufs, offers, old(calls)) && calls == old(calls) + i
        invariant forall j :: rx <= j < bufs.Length ==> bufs[j] == old(bufs[j])
      {
        ghost var before, burst := queues, bufs[..rx];
        var k := RxBurst(i, bufs, rx, numBufs - rx);
        FilledLength(old(queues), before, taken, burst);
        LeastBounds(numBufs - rx, |before[i]|, offers(old(calls) + i));
        FilledMore(old(queues), before, queues, taken, burst, k);
        AskedMore(old(queues), taken, before[i][..k], numBufs, offers, old(calls));
        taken := taken + [before[i][..k]];
        rx := rx + k;
        assert bufs[..rx] == burst + before[i][..k];
        i := i + 1;
      }
    }
  }

  /** The burst is what was taken from each queue, in queue order; the rest stays queued in
      order, and no memory is in two places. */
  ghost predicate Filled(before: seq<seq<Mbuf>>, after: seq<seq<Mbuf>>, taken: seq<seq<Mbuf>>, burst: seq<Mbuf>) {
    && |taken| <= |before| == |after| && burst == Flatten(taken)
    && (forall q :: 0 <= q < |before| ==> before[q] == (if q < |taken| then taken[q] + after[q] else after[q]))
    && Distinct(burst) && Apart(burst, after) && Unaliased(after)
    && Queued(after) <= Queued(before) && (forall b :: b in burst ==> b in Queued(before))
    && Moved(Bag(before), Bag(after), burst)
  }

  /** Each queue in turn was asked for as many buffers as the burst had room for. */
  ghost predicate Asked(before: seq<seq<Mbuf>>, taken: seq<seq<Mbuf>>, room: nat, offers: nat -> nat, calls: nat) {
    && |taken| <= |before|
    && forall q :: 0 <= q < |taken| ==>
         && |Flatten(taken[..q])| <= room
         && |taken[q]| == Least(room - |Flatten(taken[..q])|, |before[q]|, offers(calls + q))
  }

  lemma NothingAsked(before: seq<seq<Mbuf>>, room: nat, offers: nat -> nat, calls: nat)
    ensures Asked(before, [], room, offers, calls)
  {
  }

  lemma AskedMore(before: seq<seq<Mbuf>>, taken: seq<seq<Mbuf>>, got: seq<Mbuf>, room: nat, offers: nat -> nat,
                  calls: nat)
    requires Asked(before, taken, room, offers, calls) && |taken| < |before| && |Flatten(taken)| <= room
    requires |got| == Least(room - |Flatten(taken)|, |before[|taken|]|, offers(calls + |taken|))
    ensures Asked(before, taken + [got], room, offers, calls)
  {
    var more := taken + [got];
    hide Least, Flatten;
    forall q | 0 <= q < |more|
      ensures more[..q] == taken[..q] && more[q] == if q < |taken| then taken[q] else got
    {
    }
    assert taken[..|taken|] == taken;
  }

  lemma LeastBounds(a: nat, b: nat, c: nat)
    ensures Least(a, b, c) <= a && Least(a, b, c) <= b
  {
  }

  /** A queue that has not been asked yet is as it was. */
  lemma FilledLength(start: seq<seq<Mbuf>>, before: seq<seq<Mbuf>>, taken: seq<seq<Mbuf>>, burst: seq<Mbuf>)
    requires Filled(start, before, taken, burst)
    ensures |start| == |before| && |Flatten(taken)| == |burst|
    ensures |taken| < |before| ==> start[|taken|] == before[|taken|]
  {
    hide Distinct, Apart, Unaliased, Queued, Moved, Bag, Flatten;
  }

  /** A card that always offers something hands something over, unless nothing is queued. */
  lemma {:induction false} TakesSome(before: seq<seq<Mbuf>>, after: seq<seq<Mbuf>>, taken: seq<seq<Mbuf>>,
                                     burst: seq<Mbuf>, room: nat, offers: nat -> nat, calls: nat)
    requires Filled(before, after, taken, burst) && Asked(before, taken, room, offers, calls)
    requires room > 0 && (|taken| == |before| || |burst| == room) && forall k :: offers(k) > 0
    ensures Ebbs(before, after)
  {
    FilledSizes(before, after, taken, burst);
    hide Filled, Bag, Flatten, Least;
    if burst == [] {
      forall q | 0 <= q < |before| ensures before[q] == [] {
        FlattenedEmpty(taken, q);
        LeastZero(room, |before[q]|, offers(calls + q));
      }
      NothingQueued(before);
    }
  }

  lemma FilledSizes(before: seq<seq<Mbuf>>, after: seq<seq<Mbuf>>, taken: seq<seq<Mbuf>>, burst: seq<Mbuf>)
    requires Filled(before, after, taken, burst)
    ensures |Bag(before)| == |burst| + |Bag(after)| && burst == Flatten(taken)
  {
    hide Bag, Distinct, Apart, Unaliased, Queued, Flatten;
  }

  lemma LeastZero(a: nat, b: nat, c: nat)
    requires a > 0 && c > 0
    ensures Least(a, b, c) == 0 <==> b == 0
  {
  }

  lemma NothingQueued(queues: seq<seq<Mbuf>>)
    requires forall q :: 0 <= q < |queues| ==> queues[q] == []
    ensures |Bag(queues)| == 0
  {
    AllEmpty(queues);
  }

  lemma {:induction false} FlattenedEmpty(parts: seq<seq<Mbuf>>, q: nat)
    requires Flatten(parts) == [] && q < |parts|
    ensures parts[q] == [] && Flatten(parts[..q]) == []
  {
    if q < |parts| - 1 {
      FlattenedEmpty(parts[..|parts| - 1], q);
      assert parts[..|parts| - 1][..q] == parts[..q];
    }
  }

  lemma {:induction false} AllEmpty(parts: seq<seq<Mbuf>>)
    requires forall q :: 0 <= q < |parts| ==> parts[q] == []
    ensures Flatten(parts) == []
  {
    if parts != [] {
      AllEmpty(parts[..|parts| - 1]);
    }
  }

  lemma NothingFilled(queues: seq<seq<Mbuf>>)
    requires Unaliased(queues)
    ensures Filled(queues, queues, [], [])
  {
    MovedNone(Bag(queues));
  }

  lemma {:induction false} FilledMore(start: seq<seq<Mbuf>>, before: seq<seq<Mbuf>>, after: seq<seq<Mbuf>>,
                                      taken: seq<seq<Mbuf>>, burst: seq<Mbuf>, k: nat)
    requires Filled(start, before, taken, burst)
    requires |taken| < |before| && k <= |before[|taken|]| && after == before[|taken| := before[|taken|][k..]]
    ensures var got := before[|taken|][..k];
            Filled(start, after, taken + [got], burst + got)
  {
    var i, got := |taken|, before[|taken|][..k];
    assert (taken + [got])[..i] == taken && before[i] == got + after[i];
    StillApart(burst, before, after, got, i);
    TakenWasQueued(before, after, got, i);
    TakenLeavesQueue(before, after, got, i);
    MovedBoth(Bag(start), Bag(before), Bag(after), burst, got);
    hide Moved, Bag, Apart, Distinct, Unaliased, Queued;
  }

  /** Taking from the front of one queue keeps everything apart. */
  lemma StillApart(bufs: seq<Mbuf>, before: seq<seq<Mbuf>>, after: seq<seq<Mbuf>>, got: seq<Mbuf>, q: nat)
    requires Distinct(bufs) && Apart(bufs, before) && Unaliased(before)
    requires q < |before| == |after| && before[q] == got + after[q] && after == before[q := after[q]]
    ensures Distinct(bufs + got) && Apart(bufs + got, after) && Unaliased(after)
  {
    forall i | 0 <= i < |got| ensures before[q][i] == got[i] {
    }
    forall j | 0 <= j < |after[q]| ensures before[q][|got| + j] == after[q][j] {
    }
  }

  lemma TakenWasQueued(before: seq<seq<Mbuf>>, after: seq<seq<Mbuf>>, got: seq<Mbuf>, q: nat)
    requires q < |before| == |after| && before[q] == got + after[q] && after == before[q := after[q]]
    ensures Queued(after) <= Queued(before) && forall b :: b in got ==> b in Queued(before)
  {
    forall b | b in Queued(after) ensures b in Queued(before) {
      var r, j :| 0 <= r < |after| && 0 <= j < |after[r]| && after[r][j] == b;
      assert before[r][if r == q then |got| + j else j] == b;
    }
    forall b | b in got ensures b in Queued(before) {
      var j :| 0 <= j < |got| && got[j] == b;
      assert before[q][j] == b;
    }
  }

  /** What is taken from a queue is what is missing from the queues. */
  lemma {:induction false} TakenLeavesQueue(before: seq<seq<Mbuf>>, after: seq<seq<Mbuf>>, got: seq<Mbuf>, q: nat)
    requires q < |before| == |after| && before[q] == got + after[q] && after == before[q := after[q]]
    ensures Moved(Bag(before), Bag(after), got)
    decreases |before|
  {
    var last := |before| - 1;
    if q < last {
      TakenLeavesQueue(before[..last], after[..last], got, q);
    } else {
      assert before[..last] == after[..last];
    }
  }

  /** The buffers waiting on a list of devices, given their queues. */
  ghost function Waiting(all: seq<seq<seq<Mbuf>>>): multiset<Mbuf> {
    if all == [] then multiset{} else Waiting(all[..|all| - 1]) + Bag(all[|all| - 1])
  }

  lemma {:induction false} WaitingLess(before: seq<seq<seq<Mbuf>>>, i: nat, queues: seq<seq<Mbuf>>, got: seq<Mbuf>)
    requires i < |before| && Moved(Bag(before[i]), Bag(queues), got)
    ensures Moved(Waiting(before), Waiting(before[i := queues]), got)
    decreases |before|
  {
    hide Bag;
    var last, after := |before| - 1, before[i := queues];
    if i < last {
      WaitingLess(before[..last], i, queues, got);
      assert after[..last] == before[..last][i := queues];
    } else {
      assert after[..last] == before[..last];
    }
  }

  ghost function QueuesOf(devs: seq<RxDevice>): (all: seq<seq<seq<Mbuf>>>)
    ensures |all| == |devs|
    ensures forall i :: 0 <= i < |devs| ==> all[i] == devs[i].queues
    reads devs
  {
    seq(|devs|, i requires 0 <= i < |devs| reads devs => devs[i].queues)
  }

  /** One poll of an interface: every buffer received is handled, queue by queue and in the order
      of each queue, and no other buffer is written to. */
  method Poll(thread: RouterThread, conf: IntConf, dev: RxDevice, bufs: array<Mbuf>, workerCount: Word16)
    returns (ghost taken: seq<seq<Mbuf>>, ghost received: seq<Mbuf>, ghost verdicts: seq<Verdict>)
    requires thread.Ready() && workerCount <= |dev.queues| && Unaliased(dev.queues) && bufs.Length == 32
    modifies thread.nic, dev, bufs, Memory(dev.queues)
    ensures thread.Ready() && Filled(old(dev.queues), dev.queues, taken, received)
    ensures |dev.queues| == |old(dev.queues)| && Unaliased(dev.queues)
    ensures Queued(dev.queues) <= old(Queued(dev.queues)) && forall b :: b in received ==> b in old(Queued(dev.queues))
    ensures forall b :: b in Queued(dev.queues) ==> b.data[..] == old(b.data[..])
    ensures |received| <= 32 && old(allocated(received))
    ensures |taken| <= workerCount && (|taken| < workerCount ==> |received| == 32)
    ensures Asked(old(dev.queues), taken, 32, dev.offers, old(dev.calls))
    ensures (forall k :: dev.offers(k) > 0) && |dev.queues| == workerCount ==> Ebbs(old(dev.queues), dev.queues)
    ensures Moved(Bag(old(dev.queues)), Bag(dev.queues), received)
    ensures verdicts == thread.DecidedAll(old(FramesOf(received)), conf)
    ensures thread.Seen() == HandledAll(old(thread.Seen()), received, thread.queue, verdicts, thread.nic.accepts)
  {
    hide *;
    ghost var before := dev.queues;
    AllAllocated(before);
    var rx;
    rx, taken := dev.Recv(workerCount, bufs, 32);  // MAX_BURST_SIZE
    received := bufs[..rx];
    FilledMeans(before, dev.queues, taken, received);
    assert forall k :: 0 <= k < |received| ==> received[k] in received;
    ghost var frames := FramesOf(received);
    assert frames == old(FramesOf(received));
    verdicts := thread.DecidedAll(frames, conf);
    if (forall k :: dev.offers(k) > 0) && |dev.queues| == workerCount {
      TakesSome(before, dev.queues, taken, received, 32, dev.offers, old(dev.calls));
    }
    thread.HandleFrames(conf, bufs, rx);
  }

  twostate lemma AllAllocated(queues: seq<seq<Mbuf>>)
    ensures forall b :: b in Queued(queues) ==> old(allocated(b))
  {
  }

  lemma FilledMeans(before: seq<seq<Mbuf>>, after: seq<seq<Mbuf>>, taken: seq<seq<Mbuf>>, burst: seq<Mbuf>)
    requires Filled(before, after, taken, burst)
    ensures |after| == |before| && Unaliased(after) && Queued(after) <= Queued(before)
    ensures forall b :: b in burst ==> b in Queued(before)
    ensures forall b :: b in Queued(after) ==> b.data in Memory(after)
    ensures DataOf(burst) <= Memory(before) && DataOf(burst) !! Memory(after) && Distinct(burst)
    ensures Moved(Bag(before), Bag(after), burst)
  {
    hide Unaliased, Moved, Bag;
  }

  /** The memory behind everything that is queued on the devices. */
  ghost function AllMemory(all: seq<seq<seq<Mbuf>>>): set<array<Byte>> {
    set d, b | 0 <= d < |all| && b in Queued(all[d]) :: b.data
  }

  /** No memory is queued twice, neither on one device nor on two. */
  ghost predicate Separate(all: seq<seq<seq<Mbuf>>>) {
    && (forall i :: 0 <= i < |all| ==> Unaliased(all[i]))
    && forall i, j, b, c :: 0 <= i < |all| && 0 <= j < |all| && i != j && b in Queued(all[i]) && c in Queued(all[j]) ==>
         b.data != c.data
  }

  /** The devices are distinct and each has a queue for every worker. */
  ghost predicate Pollable(devs: seq<RxDevice>, workerCount: Word16)
    reads devs
  {
    && (forall i, j :: 0 <= i < j < |devs| ==> devs[i] != devs[j])
    && forall i :: 0 <= i < |devs| ==> workerCount <= |devs[i].queues|
  }

  /** What the queues of one device say about the whole. */
  lemma OneOfAll(all: seq<seq<seq<Mbuf>>>, i: nat)
    requires i < |all| && Separate(all)
    ensures Unaliased(all[i]) && Memory(all[i]) <= AllMemory(all)
    ensures forall d, b :: 0 <= d < |all| && b in Queued(all[d]) ==>
              b.data in AllMemory(all) && (d != i ==> b.data !in Memory(all[i]))
  {
    hide Unaliased, Queued;
  }

  /** Taking from the queues of one device keeps everything separate. */
  lemma SeparateLess(all: seq<seq<seq<Mbuf>>>, i: nat, queues: seq<seq<Mbuf>>)
    requires i < |all| && Separate(all) && Unaliased(queues) && Queued(queues) <= Queued(all[i])
    ensures Separate(all[i := queues]) && AllMemory(all[i := queues]) <= AllMemory(all)
  {
    hide Unaliased, Queued;
    forall m | m in AllMemory(all[i := queues]) ensures m in AllMemory(all) {
      var d, b :| 0 <= d < |all| && b in Queued(all[i := queues][d]) && b.data == m;
      assert b in Queued(all[d]);
    }
  }

  lemma HandledOneMore(t: Trace, bursts: seq<Burst>, b: Burst, queue: Word16, accepts: nat -> bool)
    requires Matched(bursts) && |b.bufs| == |b.verdicts|
    ensures Matched(bursts + [b]) && Received(bursts + [b]) == Received(bursts) + b.bufs
    ensures HandledRun(t, bursts + [b], queue, accepts)
            == HandledAll(HandledRun(t, bursts, queue, accepts), b.bufs, queue, b.verdicts, accepts)
  {
    assert (bursts + [b])[..|bursts|] == bursts;
  }

  /** Where a run starts: the worker's trace, what is queued on each device, and the bytes of
      each queued buffer. */
  datatype Start = Start(trace: Trace, queues: seq<seq<seq<Mbuf>>>, bytes: map<Mbuf, Frame>)

  ghost function StartOf(thread: RouterThread, devs: seq<RxDevice>): Start
    reads thread.nic, devs, AllMemory(QueuesOf(devs))
  {
    Start(thread.Seen(), QueuesOf(devs),
          map d, b | 0 <= d < |devs| && b in Queued(QueuesOf(devs)[d]) :: b := b.data[..])
  }

  /** The buffer was queued there at the start, and with these bytes. */
  ghost predicate WasQueued(start: Start, d: nat, b: Mbuf, bytes: Frame) {
    d < |start.queues| && b in Queued(start.queues[d]) && b in start.bytes && start.bytes[b] == bytes
  }

  /** What is still queued was queued there at the start, and holds the same bytes. */
  ghost predicate Untouched(all: seq<seq<seq<Mbuf>>>, start: Start)
    reads AllMemory(all)
  {
    && |all| == |start.queues|
    && forall d, b :: 0 <= d < |all| && b in Queued(all[d]) ==> WasQueued(start, d, b, b.data[..])
  }

  /** Every buffer of the burst was queued at the start on the interface polled, and the verdict
      on it is the one its bytes at the start call for on that interface. */
  ghost predicate AsDecided(thread: RouterThread, confs: seq<IntConf>, start: Start, burst: Burst)
    reads thread.table
  {
    && burst.interface < |confs|
    && |burst.bufs| == |burst.verdicts|
    && forall i :: 0 <= i < |burst.bufs| ==>
         exists bytes :: WasQueued(start, burst.interface, burst.bufs[i], bytes)
                         && burst.verdicts[i] == thread.Decided(bytes, confs[burst.interface])
  }

  ghost predicate AllAsDecided(thread: RouterThread, confs: seq<IntConf>, start: Start, bursts: seq<Burst>)
    reads thread.table
  {
    forall i :: 0 <= i < |bursts| ==> AsDecided(thread, confs, start, bursts[i])
  }

  /** So far: the worker's trace is that of the bursts, the buffers gone from the queues are
      the ones received, from the front of each queue, every verdict is the one called for,
      and the rest is untouched. */
  ghost predicate Progress(thread: RouterThread, confs: seq<IntConf>, devs: seq<RxDevice>, start: Start,
                           bursts: seq<Burst>)
    reads thread.nic, thread.table, devs, AllMemory(QueuesOf(devs))
  {
    && Matched(bursts) && Separate(QueuesOf(devs))
    && thread.Seen() == HandledRun(start.trace, bursts, thread.queue, thread.nic.accepts)
    && Moved(Waiting(start.queues), Waiting(QueuesOf(devs)), Received(bursts))
    && AllAsDecided(thread, confs, start, bursts)
    && Untouched(QueuesOf(devs), start)
    && InQueueOrder(bursts) && Drained(start.queues, QueuesOf(devs), bursts)
  }

  lemma DecidedOneMore(thread: RouterThread, confs: seq<IntConf>, start: Start, earlier: seq<Burst>, i: nat,
                       taken: seq<seq<Mbuf>>, received: seq<Mbuf>, frames: seq<Frame>)
    requires AllAsDecided(thread, confs, start, earlier) && i < |confs| && |frames| == |received|
    requires forall k :: 0 <= k < |received| ==> WasQueued(start, i, received[k], frames[k])
    ensures var burst := Burst(i, taken, received, thread.DecidedAll(frames, confs[i]));
            AllAsDecided(thread, confs, start, earlier + [burst])
  {
    hide WasQueued, RouterThread.Decided;
    assert AsDecided(thread, confs, start, Burst(i, taken, received, thread.DecidedAll(frames, confs[i])));
  }

  lemma FilledDrains(start: seq<seq<seq<Mbuf>>>, all: seq<seq<seq<Mbuf>>>, earlier: seq<Burst>, burst: Burst,
                     queues: seq<seq<Mbuf>>)
    requires InQueueOrder(earlier) && Drained(start, all, earlier)
    requires burst.interface < |all| && Filled(all[burst.interface], queues, burst.taken, burst.bufs)
    ensures InQueueOrder(earlier + [burst]) && Drained(start, all[burst.interface := queues], earlier + [burst])
  {
    hide Drained, Flatten, Distinct, Apart, Unaliased, Queued, Moved, Bag;
    DrainedMore(start, all, earlier, burst, queues);
  }

  // ---------- no buffer is received twice ----------

  lemma {:induction false} FlattenMembers(queues: seq<seq<Mbuf>>, b: Mbuf)
    ensures b in Flatten(queues) <==> b in Queued(queues)
  {
    if queues != [] {
      var last := |queues| - 1;
      FlattenMembers(queues[..last], b);
      if b in Queued(queues) {
        var q, i :| 0 <= q < |queues| && 0 <= i < |queues[q]| && queues[q][i] == b;
        assert q < last ==> queues[..last][q][i] == b;
      }
      if b in Queued(queues[..last]) {
        var q, i :| 0 <= q < last && 0 <= i < |queues[..last][q]| && queues[..last][q][i] == b;
        assert queues[q][i] == b;
      }
      if b in queues[last] {
        var i :| 0 <= i < |queues[last]| && queues[last][i] == b;
      }
    }
  }

  lemma {:induction false} QueuedOnce(queues: seq<seq<Mbuf>>, b: Mbuf)
    requires Unaliased(queues)
    ensures Bag(queues)[b] <= 1
  {
    if queues != [] {
      var last := |queues| - 1;
      QueuedOnce(queues[..last], b);
      OnceIn(queues[last], b);
      FlattenMembers(queues[..last], b);
      assert b in queues[last] ==> b !in Queued(queues[..last]);
    }
  }

  lemma {:induction false} OnceIn(s: seq<Mbuf>, b: Mbuf)
    requires Distinct(s)
    ensures multiset(s)[b] <= 1
  {
    if s != [] {
      var last := |s| - 1;
      OnceIn(s[..last], b);
      assert s == s[..last] + [s[last]];
      assert s[last] !in s[..last];
    }
  }

  lemma {:induction false} WaitingOnce(all: seq<seq<seq<Mbuf>>>, b: Mbuf)
    requires Separate(all)
    ensures Waiting(all)[b] <= 1
    ensures b in Waiting(all) ==> exists d :: 0 <= d < |all| && b in Queued(all[d])
  {
    if all != [] {
      var last := |all| - 1;
      SeparatePart(all);
      WaitingOnce(all[..last], b);
      QueuedOnce(all[last], b);
      FlattenMembers(all[last], b);
      hide Queued, Unaliased, Flatten;
      if b in Waiting(all[..last]) {
        var d :| 0 <= d < last && b in Queued(all[..last][d]);
        assert b in Queued(all[d]);
      }
    }
  }

  lemma SeparatePart(all: seq<seq<seq<Mbuf>>>)
    requires Separate(all) && all != []
    ensures Separate(all[..|all| - 1]) && Unaliased(all[|all| - 1])
  {
    hide Queued, Unaliased;
  }

  lemma {:induction false} ReceivedOnce(all: seq<seq<seq<Mbuf>>>, rest: multiset<Mbuf>, received: seq<Mbuf>)
    requires Separate(all) && Moved(Waiting(all), rest, received)
    ensures NoRepeats(received)
  {
    forall i, j | 0 <= i < j < |received| ensures received[i] != received[j] {
      WaitingOnce(all, received[j]);
      hide Waiting, Separate;
      assert received == received[..j] + received[j..];
      assert multiset(received)[received[j]] <= 1;
      assert received[j] == received[j..][0];
    }
  }

  /** Polls the i-th interface of a worker. */
  method PollOne(thread: RouterThread, confs: seq<IntConf>, devs: seq<RxDevice>, bufs: array<Mbuf>, i: nat,
                 workerCount: Word16, ghost start: Start, ghost earlier: seq<Burst>)
    returns (ghost bursts: seq<Burst>)
    requires thread.Ready() && i < |devs| == |confs| && Pollable(devs, workerCount) && bufs.Length == 32
    requires Progress(thread, confs, devs, start, earlier)
    modifies thread.nic, devs, bufs, AllMemory(QueuesOf(devs))
    ensures thread.Ready() && Pollable(devs, workerCount) && AllMemory(QueuesOf(devs)) <= old(AllMemory(QueuesOf(devs)))
    ensures Progress(thread, confs, devs, start, bursts)
    ensures |bursts| == |earlier| + 1 && bursts[..|earlier|] == earlier
    ensures bursts[|earlier|].interface == i && Complete(bursts[|earlier|], workerCount)
    ensures QueuesOf(devs) == old(QueuesOf(devs))[i := devs[i].queues]
    ensures (forall k :: devs[i].offers(k) > 0) && |devs[i].queues| == workerCount ==>
              Ebbs(old(devs[i].queues), devs[i].queues)
  {
    hide RoutingTable.Valid, RouterThread.DecidedAll, HandledRun, HandledAll, Received, Unaliased, Waiting, Bag, Moved;
    hide Queued, Memory, AllMemory, Separate, WasQueued, AllAsDecided, Filled, InQueueOrder, Drained, Asked, Ebbs;
    ghost var all := QueuesOf(devs);
    forall d | 0 <= d < |all| {
      AllAllocated(all[d]);
    }
    OneOfAll(all, i);
    assert forall b :: b in Queued(all[i]) ==> WasQueued(start, i, b, b.data[..]);
    ghost var taken, received, verdicts;
    taken, received, verdicts := Poll(thread, confs[i], devs[i], bufs, workerCount);
    ghost var after := all[i := devs[i].queues];
    assert QueuesOf(devs) == after;
    SeparateLess(all, i, devs[i].queues);
    forall d, b | 0 <= d < |after| && b in Queued(after[d]) ensures WasQueued(start, d, b, b.data[..]) {
      assert b in Queued(all[d]) && b.data[..] == old(b.data[..]);
    }
    WaitingLess(all, i, devs[i].queues, received);
    MovedBoth(Waiting(start.queues), Waiting(all), Waiting(after), Received(earlier), received);
    DecidedOneMore(thread, confs, start, earlier, i, taken, received, old(FramesOf(received)));
    ghost var burst := Burst(i, taken, received, verdicts);
    FilledDrains(start.queues, all, earlier, burst, devs[i].queues);
    HandledOneMore(start.trace, earlier, burst, thread.queue, thread.nic.accepts);
    bursts := earlier + [burst];
  }

  /** A burst was filled from every queue of the worker, or up to its 32 places. */
  ghost predicate Complete(b: Burst, workerCount: Word16) {
    |b.taken| <= workerCount && (|b.taken| < workerCount ==> |b.bufs| == 32)
  }

  /** Less is queued, unless nothing was. */
  ghost predicate Ebbs(before: seq<seq<Mbuf>>, after: seq<seq<Mbuf>>) {
    |Bag(after)| < |Bag(before)| || |Bag(before)| == |Bag(after)| == 0
  }

  /** The interfaces were polled in turn, each time completely. */
  ghost predicate InTurn(bursts: seq<Burst>, n: nat, workerCount: Word16) {
    forall k :: 0 <= k < |bursts| ==> n > 0 && bursts[k].interface == k % n && Complete(bursts[k], workerCount)
  }

  lemma {:induction false} NextInTurn(earlier: seq<Burst>, bursts: seq<Burst>, n: nat, workerCount: Word16, r: nat,
                                      i: nat)
    requires InTurn(earlier, n, workerCount) && |earlier| == r * n + i && i < n
    requires |bursts| == |earlier| + 1 && bursts[..|earlier|] == earlier
    requires bursts[|earlier|].interface == i && Complete(bursts[|earlier|], workerCount)
    ensures InTurn(bursts, n, workerCount)
  {
    QuotientUnique(r * n + i, n, r, i);
    hide Complete;
    forall k | 0 <= k < |bursts|
      ensures bursts[k].interface == k % n && Complete(bursts[k], workerCount)
    {
      assert k < |earlier| ==> bursts[k] == bursts[..|earlier|][k];
    }
  }

  /** Every device has lost a buffer in each of r rounds, and the first i of them in one more,
      unless it is empty. */
  ghost predicate Ebbed(start: seq<seq<seq<Mbuf>>>, now: seq<seq<seq<Mbuf>>>, r: nat, i: nat) {
    && |now| == |start|
    && forall d :: 0 <= d < |start| ==>
         |Bag(now[d])| == 0 || |Bag(now[d])| + r + (if d < i then 1 else 0) <= |Bag(start[d])|
  }

  lemma NothingEbbed(start: seq<seq<seq<Mbuf>>>)
    ensures Ebbed(start, start, 0, 0)
  {
  }

  lemma EbbedMore(start: seq<seq<seq<Mbuf>>>, now: seq<seq<seq<Mbuf>>>, r: nat, i: nat, queues: seq<seq<Mbuf>>)
    requires Ebbed(start, now, r, i) && i < |now| && Ebbs(now[i], queues)
    ensures Ebbed(start, now[i := queues], r, i + 1)
  {
    hide Bag;
  }

  lemma RoundEbbed(start: seq<seq<seq<Mbuf>>>, now: seq<seq<seq<Mbuf>>>, r: nat, n: nat)
    requires Ebbed(start, now, r, n) && n == |start|
    ensures Ebbed(start, now, r + 1, 0)
  {
    hide Bag;
  }

  /** Once as many rounds have been made as buffers were queued, everything has been received. */
  lemma {:induction false} EverythingReceived(start: seq<seq<seq<Mbuf>>>, now: seq<seq<seq<Mbuf>>>, bursts: seq<Burst>,
                                              r: nat)
    requires Drained(start, now, bursts) && Ebbed(start, now, r, 0)
    requires forall d :: 0 <= d < |start| ==> |Bag(start[d])| <= r
    ensures AllReceived(start, bursts)
  {
    forall d, q | 0 <= d < |start| && 0 <= q < |start[d]| ensures TakenFrom(bursts, d, q) == start[d][q] {
      assert |Bag(now[d])| == 0;
      FlattenedEmpty(now[d], q);
      hide Bag, TakenFrom;
      assert start[d][q] == TakenFrom(bursts, d, q) + now[d][q];
    }
  }

  ghost predicate AllReceived(start: seq<seq<seq<Mbuf>>>, bursts: seq<Burst>) {
    forall d, q :: 0 <= d < |start| && 0 <= q < |start[d]| ==> TakenFrom(bursts, d, q) == start[d][q]
  }

  /** Every card always offers something and has no queue but those of the workers. */
  ghost predicate Offering(devs: seq<RxDevice>, queues: seq<seq<seq<Mbuf>>>, workerCount: Word16) {
    && |queues| == |devs|
    && forall d :: 0 <= d < |devs| ==> |queues[d]| == workerCount && forall k :: devs[d].offers(k) > 0
  }

  /** The worker loop, followed for a number of rounds over its interfaces. Its log gains
      exactly one event for each buffer taken from the receive queues: the one its bytes at
      the start call for. The events of each receive queue come in the order of the queue. */
  method RunThread(thread: RouterThread, confs: seq<IntConf>, devs: seq<RxDevice>, bufs: array<Mbuf>,
                   workerCount: Word16, rounds: nat)
    returns (ghost bursts: seq<Burst>)
    requires thread.Ready() && |confs| == |devs| && Pollable(devs, workerCount) && bufs.Length == 32
    requires Separate(QueuesOf(devs))
    modifies thread.nic, devs, bufs, AllMemory(QueuesOf(devs))
    ensures thread.Ready()
    ensures Progress(thread, confs, devs, old(StartOf(thread, devs)), bursts)
    ensures OneEventEach(old(thread.Seen()), thread.Seen(), bursts, thread.queue, thread.nic.accepts)
    ensures KeepsQueueOrder(old(QueuesOf(devs)), bursts, thread.Seen().log, |old(thread.Seen()).log|)
    ensures |bursts| == rounds * |devs| && InTurn(bursts, |devs|, workerCount)
    ensures Offering(devs, old(QueuesOf(devs)), workerCount)
            && (forall d :: 0 <= d < |devs| ==> |Bag(old(QueuesOf(devs))[d])| <= rounds) ==>
              AllReceived(old(QueuesOf(devs)), bursts)
  {
    hide *;
    ghost var start := StartOf(thread, devs);
    NothingYet(thread, confs, devs);
    bursts := Rounds(thread, confs, devs, bufs, workerCount, rounds, start);
    ProgressConserves(thread, confs, devs, start, bursts);
    if Offering(devs, start.queues, workerCount)
       && (forall d :: 0 <= d < |devs| ==> |Bag(start.queues[d])| <= rounds) {
      ProgressShape(thread, confs, devs, start, bursts);
      EverythingReceived(start.queues, QueuesOf(devs), bursts, rounds);
    }
  }

  method Rounds(thread: RouterThread, confs: seq<IntConf>, devs: seq<RxDevice>, bufs: array<Mbuf>, workerCount: Word16,
                rounds: nat, ghost start: Start)
    returns (ghost bursts: seq<Burst>)
    requires thread.Ready() && |confs| == |devs| && Pollable(devs, workerCount) && bufs.Length == 32
    requires Progress(thread, confs, devs, start, []) && start.queues == QueuesOf(devs)
    modifies thread.nic, devs, bufs, AllMemory(QueuesOf(devs))
    ensures thread.Ready() && Progress(thread, confs, devs, start, bursts)
    ensures |bursts| == rounds * |devs| && InTurn(bursts, |devs|, workerCount)
    ensures Offering(devs, start.queues, workerCount) ==> Ebbed(start.queues, QueuesOf(devs), rounds, 0)
  {
    hide *;
    bursts := [];
    NothingEbbed(start.queues);
    NoneInTurn(|devs|, workerCount);
    for r := 0 to rounds
      invariant thread.Ready() && Pollable(devs, workerCount)
      invariant AllMemory(QueuesOf(devs)) <= old(AllMemory(QueuesOf(devs)))
      invariant Progress(thread, confs, devs, start, bursts)
      invariant |bursts| == r * |devs| && InTurn(bursts, |devs|, workerCount)
      invariant Offering(devs, start.queues, workerCount) ==> Ebbed(start.queues, QueuesOf(devs), r, 0)
    {
      for i := 0 to |devs|
        invariant thread.Ready() && Pollable(devs, workerCount)
        invariant AllMemory(QueuesOf(devs)) <= old(AllMemory(QueuesOf(devs)))
        invariant Progress(thread, confs, devs, start, bursts)
        invariant |bursts| == r * |devs| + i && InTurn(bursts, |devs|, workerCount)
        invariant Offering(devs, start.queues, workerCount) ==> Ebbed(start.queues, QueuesOf(devs), r, i)
      {
        ghost var earlier, all := bursts, QueuesOf(devs);
        bursts := PollOne(thread, confs, devs, bufs, i, workerCount, start, bursts);
        NextInTurn(earlier, bursts, |devs|, workerCount, r, i);
        if Offering(devs, start.queues, workerCount) {
          ProgressShape(thread, confs, devs, start, bursts);
          OfferingMeans(devs, start.queues, workerCount, i);
          EbbedMore(start.queues, all, r, i, devs[i].queues);
        }
      }
      OneMoreRound(r, |devs|);
      if Offering(devs, start.queues, workerCount) {
        ProgressShape(thread, confs, devs, start, bursts);
        RoundEbbed(start.queues, QueuesOf(devs), r, |devs|);
      }
    }
  }

  lemma NoneInTurn(n: nat, workerCount: Word16)
    ensures InTurn([], n, workerCount)
  {
  }

  lemma OneMoreRound(r: nat, n: nat)
    ensures r * n + n == (r + 1) * n
  {
  }

  lemma OfferingMeans(devs: seq<RxDevice>, queues: seq<seq<seq<Mbuf>>>, workerCount: Word16, i: nat)
    requires Offering(devs, queues, workerCount) && i < |devs|
    ensures |queues| == |devs| && |queues[i]| == workerCount && forall k :: devs[i].offers(k) > 0
  {
  }

  /** No device has gained or lost a queue. */
  lemma ProgressShape(thread: RouterThread, confs: seq<IntConf>, devs: seq<RxDevice>, start: Start, bursts: seq<Burst>)
    requires Progress(thread, confs, devs, start, bursts)
    ensures |start.queues| == |devs| && Drained(start.queues, QueuesOf(devs), bursts)
    ensures forall d :: 0 <= d < |devs| ==> |devs[d].queues| == |start.queues[d]|
  {
    hide HandledRun, Separate, Untouched, AllAsDecided, InQueueOrder, Waiting, Moved, TakenFrom;
    assert forall d :: 0 <= d < |devs| ==> QueuesOf(devs)[d] == devs[d].queues;
  }

  lemma NothingYet(thread: RouterThread, confs: seq<IntConf>, devs: seq<RxDevice>)
    requires Separate(QueuesOf(devs))
    ensures Progress(thread, confs, devs, StartOf(thread, devs), [])
    ensures StartOf(thread, devs).trace == thread.Seen() && StartOf(thread, devs).queues == QueuesOf(devs)
  {
    NothingDrained(QueuesOf(devs));
    hide Queued, Separate, Drained;
  }

  lemma {:induction false} ProgressConserves(thread: RouterThread, confs: seq<IntConf>, devs: seq<RxDevice>,
                                             start: Start, bursts: seq<Burst>)
    requires Progress(thread, confs, devs, start, bursts) && Separate(start.queues)
    ensures OneEventEach(start.trace, thread.Seen(), bursts, thread.queue, thread.nic.accepts)
    ensures KeepsQueueOrder(start.queues, bursts, thread.Seen().log, |start.trace.log|)
  {
    hide OneEventEach, HandledRun, Separate, Untouched, AllAsDecided, Drained, InQueueOrder, Waiting, Moved;
    RunConserves(start.trace, bursts, thread.queue, thread.nic.accepts);
    ReceivedOnce(start.queues, Waiting(QueuesOf(devs)), Received(bursts));
    FirstQueuedFirstHandled(start.trace, thread.Seen(), bursts, thread.queue, thread.nic.accepts, start.queues,
                            QueuesOf(devs));
  }
}
