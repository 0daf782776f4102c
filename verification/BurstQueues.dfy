/** The device's burst queues: packets waiting for the NIC and packets fetched from it. */
module BurstQueues {
  import opened Outcomes

  const BURST_SIZE: nat := 32

  type Mbuf = int

  /** What the NIC made of a queue of `n` buffers: the size of the burst is passed in 16 bits, and it takes
      some front part of that burst. */
  function Taken(n: nat, willing: nat): (k: nat)
    ensures k <= n
  {
    var offered := n % 0x1_0000;
    if willing <= offered then willing else offered
  }

  /** Every outcome is covered: the NIC may take any number of the buffers it was offered. */
  lemma TakesAny(n: nat, k: nat)
    requires k <= n <= 0xFFFF
    ensures Taken(n, k) == k
  {
  }

  class Device {
    var sendQueue: seq<Mbuf>
    var receiveQueue: seq<Mbuf>
    var current: nat
    ghost var enqueued: seq<Mbuf>   // in order of enqueue_for_send
    ghost var accepted: seq<Mbuf>   // handed to the NIC
    ghost var fetched: seq<Mbuf>    // obtained from the NIC
    ghost var handedOut: seq<Mbuf>  // returned by receive

    /** Nothing is lost, repeated or reordered on either side. */
    ghost predicate Valid()
      reads this
    {
      && accepted + sendQueue == enqueued
      && current <= |receiveQueue|
      && handedOut + receiveQueue[current..] == fetched
    }

    constructor ()
      ensures Valid() && sendQueue == [] && receiveQueue == [] && enqueued == [] && fetched == []
    {
      sendQueue, receiveQueue, current := [], [], 0;
      enqueued, accepted, fetched, handedOut := [], [], [], [];
    }

    /** Offers the queue to the NIC and closes the gap by copying the rest to the front, in place. */
    method FlushSendQueue(willing: nat)
      requires Valid()
      modifies this
      ensures Valid() && enqueued == old(enqueued)
      ensures sendQueue == Flushed(old(sendQueue), willing)
      ensures accepted == old(accepted) + old(sendQueue)[..Taken(|old(sendQueue)|, willing)]
      ensures receiveQueue == old(receiveQueue) && current == old(current)
      ensures fetched == old(fetched) && handedOut == old(handedOut)
    {
      if sendQueue == [] {
        return;
      }
      var n := |sendQueue|;
      var sent := Taken(n, willing);
      accepted := accepted + sendQueue[..sent];
      sendQueue := Compact(sendQueue, sent);
      assert old(sendQueue) == old(sendQueue)[..sent] + old(sendQueue)[sent..];
    }

    /** Copies the part after `sent` to the front, element by element, and cuts the queue to its length. */
    static method Compact(queue: seq<Mbuf>, sent: nat) returns (rest: seq<Mbuf>)
      requires sent <= |queue|
      ensures rest == queue[sent..]
    {
      var n := |queue|;
      rest := queue;
      for i := 0 to n - sent
        invariant |rest| == n
        invariant forall k :: 0 <= k < i ==> rest[k] == queue[sent + k]
        invariant forall k :: i <= k < n ==> rest[k] == queue[k]
      {
        rest := rest[i := rest[sent + i]];
      }
      rest := rest[..n - sent];
    }

    /** The queue is flushed first only when it holds exactly one burst. */
    method EnqueueForSend(m: Mbuf, willing: nat)
      requires Valid()
      modifies this
      ensures Valid() && enqueued == old(enqueued) + [m]
      ensures sendQueue == Enqueued(old(sendQueue), m, willing)
      ensures fetched == old(fetched) && handedOut == old(handedOut)
    {
      if |sendQueue| == BURST_SIZE {
        FlushSendQueue(willing);
      }
      sendQueue := sendQueue + [m];
      enqueued := enqueued + [m];
    }

    /** Hands out the next fetched packet; `burst` is what the NIC would return if it is asked for 32. */
    method Receive(burst: seq<Mbuf>) returns (r: Option<Mbuf>)
      requires Valid() && |burst| <= 32
      modifies this
      ensures Valid() && sendQueue == old(sendQueue) && enqueued == old(enqueued) && accepted == old(accepted)
      ensures fetched == if old(current) == |old(receiveQueue)| then old(fetched) + burst else old(fetched)
      ensures r.Some? ==> handedOut == old(handedOut) + [r.value]
      ensures r.None? ==> handedOut == old(handedOut) && handedOut == fetched && burst == []
    {
      if current == |receiveQueue| {
        receiveQueue := burst;
        current := 0;
        fetched := fetched + burst;
      }
      if current < |receiveQueue| {
        r := Some(receiveQueue[current]);
        handedOut := handedOut + [receiveQueue[current]];
        current := current + 1;
        return;
      }
      return None;
    }
  }

  function Flushed(queue: seq<Mbuf>, willing: nat): seq<Mbuf> {
    queue[Taken(|queue|, willing)..]
  }

  function Enqueued(queue: seq<Mbuf>, m: Mbuf, willing: nat): seq<Mbuf> {
    (if |queue| == BURST_SIZE then Flushed(queue, willing) else queue) + [m]
  }

  // ----- Every series of sends -----

  /** A packet is queued, or the queue is flushed explicitly; `willing` is what the NIC would take if it
      were offered a burst at that moment. */
  datatype Op = Enqueue(m: Mbuf, willing: nat) | Flush(willing: nat)

  function Apply(queue: seq<Mbuf>, op: Op): seq<Mbuf> {
    match op
    case Enqueue(m, willing) => Enqueued(queue, m, willing)
    case Flush(willing) => Flushed(queue, willing)
  }

  function ApplyAll(queue: seq<Mbuf>, ops: seq<Op>): seq<Mbuf> {
    if ops == [] then queue else Apply(ApplyAll(queue, ops[..|ops| - 1]), ops[|ops| - 1])
  }

  /** A full burst is offered because of a new packet, and the NIC takes none of it. */
  predicate Refuses(queue: seq<Mbuf>, op: Op) {
    op.Enqueue? && |queue| == 32 && op.willing == 0
  }

  predicate NeverRefuses(queue: seq<Mbuf>, ops: seq<Op>) {
    ops != [] ==>
      var before := ops[..|ops| - 1];
      NeverRefuses(queue, before) && !Refuses(ApplyAll(queue, before), ops[|ops| - 1])
  }

  /** The queue holds at most one burst now and held at most one at every earlier moment. */
  predicate WithinBurst(queue: seq<Mbuf>, ops: seq<Op>) {
    |ApplyAll(queue, ops)| <= 32 && (ops != [] ==> WithinBurst(queue, ops[..|ops| - 1]))
  }

  /** The queue never exceeds one burst if and only if no full burst is refused when a packet is queued;
      refusals at other moments and explicit flushes do not matter. */
  lemma {:induction false} WithinBurstIff(queue: seq<Mbuf>, ops: seq<Op>)
    requires |queue| <= 32
    ensures WithinBurst(queue, ops) <==> NeverRefuses(queue, ops)
  {
    if ops != [] {
      WithinBurstIff(queue, ops[..|ops| - 1]);
    }
  }

  /** Packets queued during a series. */
  function Queued(ops: seq<Op>): nat {
    if ops == [] then 0 else Queued(ops[..|ops| - 1]) + if ops[|ops| - 1].Enqueue? then 1 else 0
  }

  /** Packets the NIC took in the explicit flushes of a series. */
  function FlushedOut(queue: seq<Mbuf>, ops: seq<Op>): nat {
    if ops == [] then 0
    else
      var before, op := ops[..|ops| - 1], ops[|ops| - 1];
      FlushedOut(queue, before) + if op.Flush? then Taken(|ApplyAll(queue, before)|, op.willing) else 0
  }

  predicate StaysAbove(queue: seq<Mbuf>, ops: seq<Op>) {
    |ApplyAll(queue, ops)| > 32 && (ops != [] ==> StaysAbove(queue, ops[..|ops| - 1]))
  }

  /** Once longer than a burst, the queue is never flushed by queueing: as long as it stays longer, every
      packet queued adds one, whatever the NIC would take, and only explicit flushes take any away. */
  lemma {:induction false} OnlyFlushShrinks(queue: seq<Mbuf>, ops: seq<Op>)
    requires StaysAbove(queue, ops)
    ensures |ApplyAll(queue, ops)| == |queue| + Queued(ops) - FlushedOut(queue, ops)
  {
    if ops != [] {
      OnlyFlushShrinks(queue, ops[..|ops| - 1]);
    }
  }

  /** One refusal is how it gets there; without explicit flushes the queue then grows with every packet. */
  lemma {:induction false} RefusalStopsAutomaticFlush(queue: seq<Mbuf>, m: Mbuf, ops: seq<Op>)
    requires |queue| == 32 && forall i :: 0 <= i < |ops| ==> ops[i].Enqueue?
    ensures |ApplyAll(Enqueued(queue, m, 0), ops)| == 32 + 1 + |ops|
  {
    if ops != [] {
      RefusalStopsAutomaticFlush(queue, m, ops[..|ops| - 1]);
    }
  }

  // ----- The ARP handler's sends -----

  /** Every send is one packet followed by an explicit flush: the packet, what the NIC would take when it
      is queued, and what it takes at the flush. */
  function Sends(sends: seq<(Mbuf, nat, nat)>): seq<Op> {
    if sends == [] then []
    else
      var last := sends[|sends| - 1];
      Sends(sends[..|sends| - 1]) + [Enqueue(last.0, last.1), Flush(last.2)]
  }

  predicate EachTaken(sends: seq<(Mbuf, nat, nat)>) {
    sends != [] ==> EachTaken(sends[..|sends| - 1]) && sends[|sends| - 1].2 > 0
  }

  /** Nothing is left waiting after any of the sends. */
  predicate AlwaysEmptied(sends: seq<(Mbuf, nat, nat)>) {
    ApplyAll([], Sends(sends)) == [] && (sends != [] ==> AlwaysEmptied(sends[..|sends| - 1]))
  }

  lemma ApplyTwo(queue: seq<Mbuf>, ops: seq<Op>, a: Op, b: Op)
    ensures ApplyAll(queue, ops + [a, b]) == Apply(Apply(ApplyAll(queue, ops), a), b)
  {
    hide Apply;
    assert (ops + [a, b])[..|ops| + 1] == ops + [a] && (ops + [a])[..|ops|] == ops;
  }

  /** Sent this way, no packet waits for a later one if and only if the NIC takes something at every flush. */
  lemma {:induction false} SendsEmptyIff(sends: seq<(Mbuf, nat, nat)>)
    ensures AlwaysEmptied(sends) <==> EachTaken(sends)
  {
    if sends != [] {
      var before, last := sends[..|sends| - 1], sends[|sends| - 1];
      SendsEmptyIff(before);
      ApplyTwo([], Sends(before), Enqueue(last.0, last.1), Flush(last.2));
    }
  }

  /** Even a NIC that refuses at times loses nothing: one flush it takes whole empties the queue. */
  lemma SendsCatchUp(sends: seq<(Mbuf, nat, nat)>, last: (Mbuf, nat, nat))
    requires |sends| < last.2 && |sends| < 0xFFFF
    ensures ApplyAll([], Sends(sends + [last])) == []
  {
    assert (sends + [last])[..|sends|] == sends;
    SendsBound(sends);
    ApplyTwo([], Sends(sends), Enqueue(last.0, last.1), Flush(last.2));
    hide ApplyAll;
    hide Sends;
    FlushedWhole(Enqueued(ApplyAll([], Sends(sends)), last.0, last.1), last.2);
    hide Taken;
  }

  lemma FlushedWhole(queue: seq<Mbuf>, willing: nat)
    requires |queue| <= willing && |queue| <= 0xFFFF
    ensures Flushed(queue, willing) == []
  {
  }

  lemma {:induction false} SendsBound(sends: seq<(Mbuf, nat, nat)>)
    ensures |ApplyAll([], Sends(sends))| <= |sends|
  {
    if sends != [] {
      var last := sends[|sends| - 1];
      SendsBound(sends[..|sends| - 1]);
      ApplyTwo([], Sends(sends[..|sends| - 1]), Enqueue(last.0, last.1), Flush(last.2));
    }
  }
}
