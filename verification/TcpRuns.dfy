/** Properties of every run of the TCP client: the 32-bit fields refine unbounded counters. */
module TcpRuns {
  import opened Outcomes
  import opened Binary
  import opened SeqNumbers
  import opened TcpModel
  import TcpOptions

  datatype Event = Open | Send(flags: byte, payload: Bytes) | Receive(packet: Packet) | Abort

  function Step(c: Client, e: Event): Outcome<Client> {
    match e
    case Open => Connect(c)
    case Send(flags, payload) => Transmit(c, SendBuffer(c, flags, false), payload)
    case Receive(p) => ProcessPacket(c, p)
    case Abort => Reset(c)
  }

  function Run(c: Client, es: seq<Event>): Outcome<Client> {
    if es == [] then Ok(c)
    else
      var c1 :- Run(c, es[..|es| - 1]);
      Step(c1, es[|es| - 1])
  }

  // ----- Send side -----

  /** Unbounded view of the send side: SYNs sent, SYNs not yet counted in `seq`, data bytes
      sent and sequence positions acknowledged. */
  datatype Counters = Counters(syns: nat, lag: nat, data: nat, acked: nat) {
    function Sent(): nat {
      syns + data
    }
  }

  function PayloadBytes(sent: seq<Segment>): nat {
    if sent == [] then 0 else PayloadBytes(sent[..|sent| - 1]) + |sent[|sent| - 1].payload|
  }

  lemma PayloadBytesSnoc(sent: seq<Segment>, s: Segment)
    ensures PayloadBytes(sent + [s]) == PayloadBytes(sent) + |s.payload|
  {
    assert (sent + [s])[..|sent|] == sent;
  }

  /** How the counters move. An acknowledgement moves `acked` to the next position that its
      32-bit number can stand for. */
  function Track(isn: uint32, u: Counters, c: Client, e: Event): Counters {
    match e
    case Open => u.(syns := u.syns + 1, lag := 1)
    case Send(_, payload) => u.(data := u.data + |payload|)
    case Abort => u
    case Receive(p) =>
      if IsOld(c, p) then u
      else
        var point := Unwrap(isn + u.acked, p.ack) - isn;
        u.(acked := if point >= 0 then point else 0,
           lag := if c.state == Connecting && p.flags == SYN_ACK then 0 else u.lag)
  }

  ghost function TrackRun(isn: uint32, c: Client, es: seq<Event>): Counters
    requires Run(c, es).Ok?
  {
    if es == [] then Counters(0, 0, 0, 0)
    else
      var before := es[..|es| - 1];
      Track(isn, TrackRun(isn, c, before), Run(c, before).value, es[|es| - 1])
  }

  /** The refinement relation between the 32-bit fields and the counters. */
  ghost predicate Refines(isn: uint32, c: Client, u: Counters) {
    && u.lag <= u.syns && u.lag <= 1
    && u.acked <= u.Sent()
    && (c.state == Connecting ==> u.lag == 1)
    && (c.state == Connected ==> u.lag == 0)
    && (c.state != Offline ==> u.syns > 0)
    && c.lastAck == Wrap(isn + u.acked)
    && c.unacked == u.Sent() - u.acked
    && c.seqNo == Wrap(isn + u.Sent() - u.lag)
    && u.data == PayloadBytes(c.sent)
  }

  /** The source opens a connection once, on a client with nothing in flight. */
  predicate MayStep(c: Client, e: Event) {
    e.Open? ==> c.unacked == 0 && c.seqNo == c.lastAck
  }

  ghost predicate Legal(c: Client, es: seq<Event>) {
    es != [] ==>
      var before := es[..|es| - 1];
      Legal(c, before) && (Run(c, before).Ok? ==> MayStep(Run(c, before).value, es[|es| - 1]))
  }

  lemma TransmitRefines(isn: uint32, c: Client, u: Counters, s: Segment, payload: Bytes)
    requires Refines(isn, c, u) && Transmit(c, s, payload).Ok?
    ensures Refines(isn, Transmit(c, s, payload).value, u.(data := u.data + |payload|))
  {
    hide Wrap;
    hide PayloadBytes;
    AddToWrap(isn + u.Sent() - u.lag, |payload|);
    WrapInRange(c.unacked + |payload|);
    PayloadBytesSnoc(c.sent, s.(payload := payload));
  }

  lemma TakeAckRefines(isn: uint32, c: Client, u: Counters, p: Packet)
    requires Refines(isn, c, u) && AcceptsAck(c, p.ack)
    ensures var point := Unwrap(isn + u.acked, p.ack) - isn;
            && u.acked <= point <= u.Sent()
            && Refines(isn, TakeAck(c, p), u.(acked := point))
  {
    hide Wrap;
    hide PayloadBytes;
    hide ScaledWindow;
    WrapUnwrap(isn + u.acked, p.ack);
    SubOfWrap(p.ack, isn + u.acked);
  }

  lemma OpenRefines(isn: uint32, c: Client, u: Counters)
    requires Refines(isn, c, u) && MayStep(c, Open) && Connect(c).Ok?
    ensures Refines(isn, Connect(c).value, Track(isn, u, c, Open))
  {
    hide Wrap;
    hide Less;
    hide Greater;
    hide PayloadBytes;
    OrderAgrees(isn + u.Sent() - u.lag, isn + u.acked);
    AddToWrap(isn + u.Sent(), 0);
    PayloadBytesSnoc(c.sent, SendBuffer(c.(state := Connecting), SYN, true));
  }

  lemma HandshakeRefines(isn: uint32, c: Client, u: Counters, p: Packet)
    requires Refines(isn, c, u) && c.state == Connecting && c.lastAck == p.ack
    requires FinishHandshake(c, p).Ok?
    ensures Refines(isn, FinishHandshake(c, p).value, u.(lag := 0))
  {
    hide Wrap;
    hide PayloadBytes;
    hide TcpOptions.WindowScale;
    AddToWrap(isn + u.Sent() - 1, 1);
    var c1 := c.(state := Connected, ack := Add(p.seqNo, 1), seqNo := Add(c.seqNo, 1), lastAck := p.ack);
    var shift := TcpOptions.WindowScale(p.options).value;
    var c2 := if shift.Some? then c1.(scale := shift.value) else c1;
    assert Refines(isn, c2, u.(lag := 0));
    TransmitRefines(isn, c2, u.(lag := 0), SendBuffer(c2, ACK, false), []);
  }

  lemma StepRefines(isn: uint32, c: Client, u: Counters, e: Event)
    requires Refines(isn, c, u) && MayStep(c, e) && Step(c, e).Ok?
    ensures Refines(isn, Step(c, e).value, Track(isn, u, c, e))
    ensures u.acked <= Track(isn, u, c, e).acked
  {
    hide Wrap;
    hide PayloadBytes;
    hide Less;
    hide Greater;
    hide Connect;
    hide FinishHandshake;
    match e
    case Open => OpenRefines(isn, c, u);
    case Send(flags, payload) => TransmitRefines(isn, c, u, SendBuffer(c, flags, false), payload);
    case Abort => TransmitRefines(isn, c, u, SendBuffer(c, RST, false), []);
    case Receive(p) =>
      if !IsOld(c, p) {
        TakeAckRefines(isn, c, u, p);
        var v := u.(acked := Unwrap(isn + u.acked, p.ack) - isn);
        var c1 := TakeAck(c, p);
        if c1.state == Connecting && p.flags == SYN_ACK {
          HandshakeRefines(isn, c1, v, p);
        } else if c1.state == Connected && p.payload != [] {
          var c2 := c1.(ack := Add(p.seqNo, |p.payload|));
          TransmitRefines(isn, c2, v, SendBuffer(c2, ACK, false), []);
        }
      }
  }

  /** Every run refines the unbounded counters. */
  lemma {:induction false} RunRefines(isn: uint32, id: uint16, es: seq<Event>)
    requires Legal(Fresh(isn, id), es) && Run(Fresh(isn, id), es).Ok?
    ensures Refines(isn, Run(Fresh(isn, id), es).value, TrackRun(isn, Fresh(isn, id), es))
  {
    if es != [] {
      var c, before := Fresh(isn, id), es[..|es| - 1];
      RunRefines(isn, id, before);
      StepRefines(isn, Run(c, before).value, TrackRun(isn, c, before), es[|es| - 1]);
    }
  }

  /** The fields' own reading of the invariant, in each connection state. */
  predicate SendSum(c: Client) {
    (c.state == Connecting ==> Add(c.seqNo, 1) == Add(c.lastAck, c.unacked)) &&
    (c.state == Connected ==> c.seqNo == Add(c.lastAck, c.unacked))
  }

  lemma SumFromCounters(isn: uint32, c: Client, u: Counters)
    requires Refines(isn, c, u)
    ensures SendSum(c)
    ensures u.lag == 0 ==> c.seqNo == Add(c.lastAck, c.unacked)
  {
    hide Wrap;
    hide PayloadBytes;
    AddToWrap(isn + u.acked, c.unacked);
    AddToWrap(isn + u.Sent() - u.lag, 1);
  }

  lemma SendSumInEveryRun(isn: uint32, id: uint16, es: seq<Event>)
    requires Legal(Fresh(isn, id), es) && Run(Fresh(isn, id), es).Ok?
    ensures SendSum(Run(Fresh(isn, id), es).value)
    ensures Open !in es ==> var c := Run(Fresh(isn, id), es).value; c.seqNo == Add(c.lastAck, c.unacked)
  {
    hide Step;
    hide Refines;
    hide SendSum;
    hide Add;
    RunRefines(isn, id, es);
    SumFromCounters(isn, Run(Fresh(isn, id), es).value, TrackRun(isn, Fresh(isn, id), es));
    if Open !in es {
      NoOpenNoSyn(isn, id, es);
    }
  }

  lemma {:induction false} NoOpenNoSyn(isn: uint32, id: uint16, es: seq<Event>)
    requires Open !in es && Run(Fresh(isn, id), es).Ok?
    ensures TrackRun(isn, Fresh(isn, id), es).syns == 0 && TrackRun(isn, Fresh(isn, id), es).lag == 0
    ensures Run(Fresh(isn, id), es).value.state == Offline
  {
    if es != [] {
      NoOpenNoSyn(isn, id, es[..|es| - 1]);
    }
  }

  /** Opening keeps the invariant exactly on a client whose sequence number is the last acknowledged one. */
  lemma OpenKeepsSumExactly(c: Client)
    requires Connect(c).Ok?
    ensures SendSum(Connect(c).value) <==> c.seqNo == c.lastAck
  {
  }

  // ----- Wrap-around acknowledgements -----

  const MAX_WINDOW: int := 0x3FFF_C000

  predicate ShiftAtMost14(e: Event) {
    e.Receive? ==>
      var w := TcpOptions.WindowScale(e.packet.options);
      w.Ok? && w.value.Some? ==> w.value.value <= 14
  }

  predicate InWindow(c: Client) {
    c.scale <= 14 && c.sendWnd <= MAX_WINDOW && c.unacked <= MAX_WINDOW
  }

  lemma {:induction false} Pow2Monotone(a: nat, b: nat)
    requires a <= b
    ensures Pow2(a) <= Pow2(b)
  {
    if a < b {
      Pow2Monotone(a, b - 1);
    }
  }

  lemma Pow2Of14()
    ensures Pow2(14) == 16384
  {
    assert Pow2(2) == 4;
    assert Pow2(4) == 16;
    assert Pow2(6) == 64;
    assert Pow2(8) == 256;
    assert Pow2(10) == 1024;
    assert Pow2(12) == 4096;
  }

  lemma MulBound(w: nat, p: nat)
    requires w <= 65535 && p <= 16384
    ensures w * p <= MAX_WINDOW
  {
    var slack := 65535 - w;
    assert slack * p >= 0;
    assert w * p == 65535 * p - slack * p;
  }

  lemma ScaledWindowBound(window: uint16, scale: byte)
    requires scale <= 14
    ensures ScaledWindow(window, scale) == window * Pow2(scale) <= MAX_WINDOW
  {
    Pow2Monotone(scale, 14);
    Pow2Of14();
    hide Pow2;
    hide Wrap;
    MulBound(window, Pow2(scale));
    WrapInRange(window * Pow2(scale));
  }

  lemma TransmitStaysInWindow(c: Client, s: Segment, payload: Bytes)
    requires InWindow(c) && Transmit(c, s, payload).Ok?
    ensures InWindow(Transmit(c, s, payload).value)
  {
    WrapInRange(c.unacked + |payload|);
  }

  lemma ReceiveStaysInWindow(c: Client, p: Packet)
    requires InWindow(c) && ShiftAtMost14(Receive(p)) && ProcessPacket(c, p).Ok?
    ensures InWindow(ProcessPacket(c, p).value)
  {
    hide Wrap;
    hide ScaledWindow;
    hide Less;
    hide Greater;
    hide TcpOptions.WindowScale;
    if !IsOld(c, p) {
      ScaledWindowBound(p.window, c.scale);
      hide Transmit;
      var c1 := TakeAck(c, p);
      if c1.state == Connecting && p.flags == SYN_ACK {
        var c2 := c1.(state := Connected, ack := Add(p.seqNo, 1), seqNo := Add(c1.seqNo, 1), lastAck := p.ack);
        var shift := TcpOptions.WindowScale(p.options).value;
        var c3 := if shift.Some? then c2.(scale := shift.value) else c2;
        TransmitStaysInWindow(c3, SendBuffer(c3, ACK, false), []);
      } else if c1.state == Connected && p.payload != [] {
        var c2 := c1.(ack := Add(p.seqNo, |p.payload|));
        TransmitStaysInWindow(c2, SendBuffer(c2, ACK, false), []);
      }
    }
  }

  lemma StepStaysInWindow(c: Client, e: Event)
    requires InWindow(c) && ShiftAtMost14(e) && Step(c, e).Ok?
    ensures InWindow(Step(c, e).value)
  {
    hide ProcessPacket;
    hide ShiftAtMost14;
    match e
    case Open =>
    case Send(flags, payload) => TransmitStaysInWindow(c, SendBuffer(c, flags, false), payload);
    case Receive(p) => ReceiveStaysInWindow(c, p);
    case Abort => TransmitStaysInWindow(c, SendBuffer(c, RST, false), []);
  }

  /** With shifts of at most 14, less than 2^30 bytes are ever in flight. */
  lemma {:induction false} RunStaysInWindow(isn: uint32, id: uint16, es: seq<Event>)
    requires Run(Fresh(isn, id), es).Ok?
    requires forall i :: 0 <= i < |es| ==> ShiftAtMost14(es[i])
    ensures InWindow(Run(Fresh(isn, id), es).value)
    ensures Run(Fresh(isn, id), es).value.unacked < 0x4000_0000
  {
    if es != [] {
      var before := es[..|es| - 1];
      RunStaysInWindow(isn, id, before);
      StepStaysInWindow(Run(Fresh(isn, id), before).value, es[|es| - 1]);
    }
  }

  /** The 32-bit number of stream position `n`. */
  function At(isn: uint32, n: nat): uint32 {
    Wrap(isn + n)
  }

  /** `ack` stands for a position between the last acknowledged and the highest sent. */
  ghost predicate InFlight(isn: uint32, u: Counters, ack: uint32) {
    exists n: nat :: u.acked <= n <= u.Sent() && At(isn, n) == ack
  }

  lemma InFlightByDistance(isn: uint32, c: Client, u: Counters, ack: uint32)
    requires Refines(isn, c, u)
    ensures InFlight(isn, u, ack) <==> Sub(ack, c.lastAck) <= c.unacked
  {
    hide Wrap;
    hide PayloadBytes;
    var point := Unwrap(isn + u.acked, ack) - isn;
    WrapUnwrap(isn + u.acked, ack);
    SubOfWrap(ack, isn + u.acked);
    if point <= u.Sent() {
      assert u.acked <= point <= u.Sent() && At(isn, point) == ack;
    }
    forall n: nat | u.acked <= n <= u.Sent() && At(isn, n) == ack
      ensures point <= n
    {
      UnwrapIsLeast(isn + u.acked, ack, isn + n);
    }
  }

  lemma AcceptsByDistance(c: Client, ack: uint32)
    ensures AcceptsAck(c, ack) <==> Sub(ack, c.lastAck) <= c.unacked && Sub(ack, c.lastAck) <= HALF
  {
  }

  /** The circular checks accept exactly the numbers in flight if and only if at most 2^31
      positions are in flight. */
  lemma AckExactIff(isn: uint32, c: Client, u: Counters)
    requires Refines(isn, c, u)
    ensures (forall ack: uint32 :: AcceptsAck(c, ack) <==> InFlight(isn, u, ack)) <==> c.unacked <= HALF
  {
    hide AcceptsAck;
    hide InFlight;
    hide Wrap;
    hide PayloadBytes;
    forall ack: uint32
      ensures AcceptsAck(c, ack) <==> Sub(ack, c.lastAck) <= c.unacked && Sub(ack, c.lastAck) <= HALF
      ensures InFlight(isn, u, ack) <==> Sub(ack, c.lastAck) <= c.unacked
    {
      InFlightByDistance(isn, c, u, ack);
      AcceptsByDistance(c, ack);
    }
    if c.unacked > HALF {
      var far := Add(c.lastAck, HALF + 1);
      assert Sub(far, c.lastAck) == HALF + 1 by {
        SubOfAdd(c.lastAck, HALF + 1);
      }
      assert InFlight(isn, u, far) && !AcceptsAck(c, far);
    }
  }

  /** So in every run with shifts of at most 14 acknowledgements are judged exactly, and the
      unbounded acknowledged position never moves back. */
  lemma AckExactInEveryRun(isn: uint32, id: uint16, es: seq<Event>, p: Packet)
    requires Legal(Fresh(isn, id), es) && Run(Fresh(isn, id), es).Ok?
    requires forall i :: 0 <= i < |es| ==> ShiftAtMost14(es[i])
    ensures var c := Run(Fresh(isn, id), es).value;
            var u := TrackRun(isn, Fresh(isn, id), es);
            && (AcceptsAck(c, p.ack) <==> InFlight(isn, u, p.ack))
            && (ProcessPacket(c, p).Ok? ==> u.acked <= Track(isn, u, c, Receive(p)).acked <= u.Sent())
  {
    hide Step;
    hide ProcessPacket;
    hide Track;
    hide AcceptsAck;
    hide InFlight;
    hide Refines;
    RunRefines(isn, id, es);
    RunStaysInWindow(isn, id, es);
    var c, u := Run(Fresh(isn, id), es).value, TrackRun(isn, Fresh(isn, id), es);
    AckExactIff(isn, c, u);
    if ProcessPacket(c, p).Ok? {
      AckedMovesForward(isn, c, u, p);
    }
  }

  lemma AckedMovesForward(isn: uint32, c: Client, u: Counters, p: Packet)
    requires Refines(isn, c, u) && ProcessPacket(c, p).Ok?
    ensures u.acked <= Track(isn, u, c, Receive(p)).acked <= u.Sent()
  {
    hide FinishHandshake;
    hide AcceptPayload;
    hide Wrap;
    hide PayloadBytes;
    if !IsOld(c, p) {
      TakeAckRefines(isn, c, u, p);
    }
  }

  // ----- Contiguous data segments -----

  predicate OpensOnce(es: seq<Event>) {
    es != [] ==>
      var before := es[..|es| - 1];
      OpensOnce(before) && (es[|es| - 1].Open? ==> Open !in before)
  }

  ghost predicate SendsOnlyConnected(c: Client, es: seq<Event>) {
    es != [] ==>
      var before, e := es[..|es| - 1], es[|es| - 1];
      && SendsOnlyConnected(c, before)
      && (e.Send? && e.payload != [] && Run(c, before).Ok? ==> Run(c, before).value.state == Connected)
  }

  /** Data segments continue each other, starting right after the SYN. */
  predicate Contiguous(isn: uint32, sent: seq<Segment>) {
    sent != [] ==>
      var before, s := sent[..|sent| - 1], sent[|sent| - 1];
      && Contiguous(isn, before)
      && (s.payload != [] ==> s.seqNo == Wrap(isn + 1 + PayloadBytes(before)))
  }

  lemma ContiguousSnoc(isn: uint32, sent: seq<Segment>, s: Segment)
    requires Contiguous(isn, sent)
    requires s.payload != [] ==> s.seqNo == Wrap(isn + 1 + PayloadBytes(sent))
    ensures Contiguous(isn, sent + [s])
  {
    assert (sent + [s])[..|sent|] == sent;
  }

  /** Which segments one step adds to those sent. */
  lemma StepSends(c: Client, e: Event)
    requires Step(c, e).Ok?
    ensures var after := Step(c, e).value.sent;
            || after == c.sent
            || (|after| == |c.sent| + 1 && after[..|c.sent|] == c.sent
                && (if e.Send? then after[|c.sent|] == SendBuffer(c, e.flags, false).(payload := e.payload)
                    else after[|c.sent|].payload == []))
  {
  }

  lemma {:induction false} SynCount(isn: uint32, id: uint16, es: seq<Event>)
    requires OpensOnce(es) && Run(Fresh(isn, id), es).Ok?
    ensures TrackRun(isn, Fresh(isn, id), es).syns == if Open in es then 1 else 0
  {
    hide Step;
    if es != [] {
      var before, last := es[..|es| - 1], es[|es| - 1];
      SynCount(isn, id, before);
      assert es == before + [last];
    }
  }

  /** Runs that send data only once connected put every data segment at
      ISN + 1 + (payload bytes sent before it), modulo 2^32. */
  lemma {:induction false} DataIsContiguous(isn: uint32, id: uint16, es: seq<Event>)
    requires OpensOnce(es) && Legal(Fresh(isn, id), es) && SendsOnlyConnected(Fresh(isn, id), es)
    ensures Run(Fresh(isn, id), es).Ok? ==> Contiguous(isn, Run(Fresh(isn, id), es).value.sent)
  {
    if es != [] && Run(Fresh(isn, id), es).Ok? {
      hide Step;
      var before, e := es[..|es| - 1], es[|es| - 1];
      DataIsContiguous(isn, id, before);
      RunRefines(isn, id, before);
      SynCount(isn, id, before);
      var c := Run(Fresh(isn, id), before).value;
      StepContiguous(isn, c, TrackRun(isn, Fresh(isn, id), before), e);
    }
  }

  lemma StepContiguous(isn: uint32, c: Client, u: Counters, e: Event)
    requires Refines(isn, c, u) && u.syns <= 1 && Contiguous(isn, c.sent)
    requires e.Send? && e.payload != [] ==> c.state == Connected
    requires Step(c, e).Ok?
    ensures Contiguous(isn, Step(c, e).value.sent)
  {
    StepSends(c, e);
    hide Step;
    hide Wrap;
    hide PayloadBytes;
    hide Contiguous;
    var after := Step(c, e).value.sent;
    if after != c.sent {
      ContiguousSnoc(isn, c.sent, after[|c.sent|]);
      assert after == c.sent + [after[|c.sent|]];
    }
  }

  // ----- Receive side -----

  /** What a step adds to the byte stream the client has accepted and acknowledged. */
  function Accepted(c: Client, e: Event): Bytes {
    if e.Receive? && c.state == Connected && !IsOld(c, e.packet) then e.packet.payload else []
  }

  ghost function AcceptedBy(c: Client, es: seq<Event>): Bytes {
    if es == [] || Run(c, es[..|es| - 1]).Failure? then []
    else AcceptedBy(c, es[..|es| - 1]) + Accepted(Run(c, es[..|es| - 1]).value, es[|es| - 1])
  }

  /** A segment at offset `off` of the peer's stream; the SYN itself, with number `peerIsn`, is at -1. */
  predicate FromPeer(peerIsn: uint32, data: Bytes, p: Packet, off: int) {
    && p.seqNo == Wrap(peerIsn + 1 + off)
    && if off == -1 then p.payload == []
       else 0 <= off <= off + |p.payload| <= |data| && p.payload == data[off..off + |p.payload|]
  }

  /** Before the handshake the peer answers with its SYN-ACK; afterwards it sends stretches of its
      stream, new or repeated, or its SYN-ACK again, less than 2^31 away from the position accepted. */
  ghost predicate PeerSends(peerIsn: uint32, data: Bytes, c: Client, accepted: nat, p: Packet) {
    if c.state != Connected then p.flags == SYN_ACK ==> p.seqNo == peerIsn
    else exists off: int :: FromPeer(peerIsn, data, p, off) && -HALF < off - accepted < HALF
  }

  ghost predicate HonestPeer(peerIsn: uint32, data: Bytes, c: Client, es: seq<Event>) {
    es != [] ==>
      var before, e := es[..|es| - 1], es[|es| - 1];
      && HonestPeer(peerIsn, data, c, before)
      && (e.Receive? && Run(c, before).Ok? ==>
            PeerSends(peerIsn, data, Run(c, before).value, |AcceptedBy(c, before)|, e.packet))
  }

  /** `ack == 0` reads as "not known yet": such a client takes any segment. In place is one that
      carries nothing or the next bytes. */
  predicate InPlace(peerIsn: uint32, data: Bytes, c: Client, accepted: nat, p: Packet) {
    c.state == Connected && c.ack == 0 && p.payload != [] ==> FromPeer(peerIsn, data, p, accepted)
  }

  ghost predicate InPlaceAtZero(peerIsn: uint32, data: Bytes, c: Client, es: seq<Event>) {
    es != [] ==>
      var before, e := es[..|es| - 1], es[|es| - 1];
      && InPlaceAtZero(peerIsn, data, c, before)
      && (e.Receive? && Run(c, before).Ok? ==>
            InPlace(peerIsn, data, Run(c, before).value, |AcceptedBy(c, before)|, e.packet))
  }

  /** The position `ack` names and the accepted bytes agree with the peer's stream. */
  ghost predicate InOrder(peerIsn: uint32, data: Bytes, c: Client, accepted: Bytes) {
    && accepted <= data
    && (c.state == Connected ==> c.ack == Wrap(peerIsn + 1 + |accepted|))
  }

  lemma AcceptsInOrder(peerIsn: uint32, data: Bytes, c: Client, accepted: Bytes, p: Packet)
    requires InOrder(peerIsn, data, c, accepted) && ProcessPacket(c, p).Ok?
    requires c.state == Connected
    requires PeerSends(peerIsn, data, c, |accepted|, p)
    ensures InOrder(peerIsn, data, ProcessPacket(c, p).value, accepted + Accepted(c, Receive(p)))
            <==> InPlace(peerIsn, data, c, |accepted|, p)
  {
    hide Wrap;
    hide Less;
    hide Greater;
    hide AcceptsAck;
    var off: int :| FromPeer(peerIsn, data, p, off) && -HALF < off - |accepted| < HALF;
    OrderAgrees(peerIsn + 1 + off, peerIsn + 1 + |accepted|);
    AddToWrap(peerIsn + 1 + off, |p.payload|);
    OrderAgrees(peerIsn + 1 + off + |p.payload|, peerIsn + 1 + |accepted| + |p.payload|);
    hide ScaledWindow;
    hide FinishHandshake;
    if off == |accepted| {
      assert data[..off] + data[off..off + |p.payload|] == data[..off + |p.payload|];
    } else if p.payload == [] {
      assert accepted + [] == accepted;
    }
  }

  lemma StepInOrder(peerIsn: uint32, data: Bytes, c: Client, accepted: Bytes, e: Event)
    requires InOrder(peerIsn, data, c, accepted) && Step(c, e).Ok?
    requires c.state != Connected ==> accepted == []
    requires e.Receive? ==> PeerSends(peerIsn, data, c, |accepted|, e.packet)
    ensures InOrder(peerIsn, data, Step(c, e).value, accepted + Accepted(c, e))
            <==> (e.Receive? ==> InPlace(peerIsn, data, c, |accepted|, e.packet))
  {
    hide Wrap;
    hide Less;
    hide AcceptsAck;
    hide ScaledWindow;
    hide TcpOptions.WindowScale;
    hide FromPeer;
    if e.Receive? && c.state == Connected {
      AcceptsInOrder(peerIsn, data, c, accepted, e.packet);
    }
  }

  lemma StateStep(c: Client, e: Event)
    requires Step(c, e).Ok? && !e.Abort?
    ensures c.state == Connected && !e.Open? ==> Step(c, e).value.state == Connected
    ensures c.state == Offline && !e.Open? ==> Step(c, e).value.state == Offline
  {
    hide AcceptsAck;
    hide Less;
    hide ScaledWindow;
    hide TcpOptions.WindowScale;
  }

  /** A client that was never aborted accepts nothing before it is connected. */
  lemma {:induction false} NothingBeforeConnected(isn: uint32, id: uint16, es: seq<Event>)
    requires Abort !in es && OpensOnce(es) && Run(Fresh(isn, id), es).Ok?
    ensures Run(Fresh(isn, id), es).value.state != Connected ==> AcceptedBy(Fresh(isn, id), es) == []
    ensures Open in es || Run(Fresh(isn, id), es).value.state == Offline
  {
    if es != [] {
      hide Step;
      var before, last := es[..|es| - 1], es[|es| - 1];
      NothingBeforeConnected(isn, id, before);
      StateStep(Run(Fresh(isn, id), before).value, last);
      assert es == before + [last];
    }
  }

  /** A run of a new client, opened once and not aborted, with a peer that sends what it should. */
  ghost predicate HonestRun(isn: uint32, id: uint16, peerIsn: uint32, data: Bytes, es: seq<Event>) {
    && OpensOnce(es) && Abort !in es && Run(Fresh(isn, id), es).Ok?
    && HonestPeer(peerIsn, data, Fresh(isn, id), es)
  }

  /** The bytes accepted are a prefix of the peer's stream and `ack` is the number of the next one. */
  ghost predicate EndsInOrder(isn: uint32, id: uint16, peerIsn: uint32, data: Bytes, es: seq<Event>) {
    && Run(Fresh(isn, id), es).Ok?
    && InOrder(peerIsn, data, Run(Fresh(isn, id), es).value, AcceptedBy(Fresh(isn, id), es))
  }

  ghost predicate InOrderThroughout(isn: uint32, id: uint16, peerIsn: uint32, data: Bytes, es: seq<Event>) {
    EndsInOrder(isn, id, peerIsn, data, es) &&
    (es != [] ==> InOrderThroughout(isn, id, peerIsn, data, es[..|es| - 1]))
  }

  /** Over every run, although the peer may repeat segments and the numbers wrap: accepted bytes and
      `ack` agree with the peer's stream at every moment if and only if everything that came while
      `ack` was 0 came in place. */
  lemma {:induction false} ReceivesPrefix(isn: uint32, id: uint16, peerIsn: uint32, data: Bytes, es: seq<Event>)
    requires HonestRun(isn, id, peerIsn, data, es)
    ensures InOrderThroughout(isn, id, peerIsn, data, es)
            <==> InPlaceAtZero(peerIsn, data, Fresh(isn, id), es)
  {
    if es != [] {
      var before, e := es[..|es| - 1], es[|es| - 1];
      assert es == before + [e];
      hide Step;
      ReceivesPrefix(isn, id, peerIsn, data, before);
      NothingBeforeConnected(isn, id, before);
      if InOrderThroughout(isn, id, peerIsn, data, before) {
        StepInOrder(peerIsn, data, Run(Fresh(isn, id), before).value, AcceptedBy(Fresh(isn, id), before), e);
      }
    }
  }
}
