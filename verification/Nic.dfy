/**
 Buffers, the network card, and who owns a buffer when. A buffer handed to the router
 leaves it again by being freed or by being taken for transmission; the log
 records which, in order. Which transmission attempts succeed is the card's
 business: the k-th attempt of a run succeeds when `accepts(k)`.
 */
module Nics {
  import opened Bits
  import opened Frames
  import opened Decisions

  const MAX_TRANSMIT_TRIAL := 10

  /** A packet buffer of one segment. */
  class Mbuf {
    const data: array<Byte>

    constructor (data: array<Byte>)
      ensures this.data == data
    {
      this.data := data;
    }
  }

  datatype Event = Freed(buf: Mbuf) | Sent(buf: Mbuf, port: Byte, queue: Word16, frame: Frame)

  /** Whether one of the next n attempts succeeds, and how many are made until then. */
  function Taken(accepts: nat -> bool, k: nat, n: nat): bool
    decreases n
  {
    n > 0 && (accepts(k) || Taken(accepts, k + 1, n - 1))
  }

  function Tries(accepts: nat -> bool, k: nat, n: nat): nat
    decreases n
  {
    if n == 0 then 0 else if accepts(k) then 1 else 1 + Tries(accepts, k + 1, n - 1)
  }

  lemma {:induction false} OneAttempt(accepts: nat -> bool, k: nat, n: nat)
    ensures n == 0 ==> !Taken(accepts, k, n) && Tries(accepts, k, n) == 0
    ensures n > 0 && accepts(k) ==> Taken(accepts, k, n) && Tries(accepts, k, n) == 1
    ensures n > 0 && !accepts(k) ==>
              && Taken(accepts, k, n) == Taken(accepts, k + 1, n - 1)
              && Tries(accepts, k, n) == 1 + Tries(accepts, k + 1, n - 1)
  {
  }

  /** What becomes of a buffer under a verdict: freed, sent, or freed after ten refusals. */
  function Disposal(buf: Mbuf, queue: Word16, v: Verdict, accepts: nat -> bool, k: nat): Event {
    match v
    case Discard => Freed(buf)
    case Transmit(port, frame) =>
      if Taken(accepts, k, MAX_TRANSMIT_TRIAL) then Sent(buf, port, queue, frame) else Freed(buf)
  }

  function AttemptsAfter(v: Verdict, accepts: nat -> bool, k: nat): nat {
    if v.Discard? then k else k + Tries(accepts, k, MAX_TRANSMIT_TRIAL)
  }

  class Nic {
    const accepts: nat -> bool
    var attempts: nat
    var log: seq<Event>

    constructor (accepts: nat -> bool)
      ensures this.accepts == accepts && attempts == 0 && log == []
    {
      this.accepts := accepts;
      attempts, log := 0, [];
    }

    method Free(buf: Mbuf)
      modifies this`log
      ensures log == old(log) + [Freed(buf)]
    {
      log := log + [Freed(buf)];
    }

    method TxBurst(port: Byte, queue: Word16, buf: Mbuf) returns (sent: bool)
      modifies this
      ensures attempts == old(attempts) + 1 && sent == accepts(old(attempts))
      ensures log == if sent then old(log) + [Sent(buf, port, queue, buf.data[..])] else old(log)
    {
      sent := accepts(attempts);
      attempts := attempts + 1;
      if sent {
        log := log + [Sent(buf, port, queue, buf.data[..])];
      }
    }

    /** Up to ten attempts, then the buffer is freed. */
    method SendOrFree(port: Byte, queue: Word16, buf: Mbuf)
      modifies this
      ensures var v := Transmit(port, buf.data[..]);
              && log == old(log) + [Disposal(buf, queue, v, accepts, old(attempts))]
              && attempts == AttemptsAfter(v, accepts, old(attempts))
    {
      hide Taken, Tries;
      var i := 0;
      while i < MAX_TRANSMIT_TRIAL
        invariant 0 <= i <= MAX_TRANSMIT_TRIAL
        invariant attempts == old(attempts) + i && log == old(log)
        invariant Taken(accepts, old(attempts), MAX_TRANSMIT_TRIAL)
                  == Taken(accepts, attempts, MAX_TRANSMIT_TRIAL - i)
        invariant Tries(accepts, old(attempts), MAX_TRANSMIT_TRIAL)
                  == i + Tries(accepts, attempts, MAX_TRANSMIT_TRIAL - i)
      {
        OneAttempt(accepts, attempts, MAX_TRANSMIT_TRIAL - i);
        var sent := TxBurst(port, queue, buf);
        if sent {
          return;
        }
        i := i + 1;
      }
      OneAttempt(accepts, attempts, 0);
      Free(buf);
    }
  }
}
