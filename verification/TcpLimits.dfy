/** Where the TCP client stops keeping its promises: the exact conditions, and runs that break them. */
module TcpLimits {
  import opened Outcomes
  import opened Binary
  import opened SeqNumbers
  import opened TcpModel
  import opened TcpRuns
  import TcpOptions

  // ----- `ack == 0` -----

  /** The client takes the payload of a segment and acknowledges it. */
  predicate Acknowledges(c: Client, p: Packet) {
    var r := ProcessPacket(c, p);
    && r.Ok? && |r.value.sent| == |c.sent| + 1
    && r.value.ack == r.value.sent[|c.sent|].ack == Add(p.seqNo, |p.payload|)
  }

  /** The checks that do not concern the segment's place. */
  predicate Passes(c: Client, p: Packet) {
    && p.valid && !HasRst(p.flags) && AcceptsAck(c, p.ack)
    && TakeAck(c, p).unacked <= TakeAck(c, p).sendWnd
  }

  /** A segment that passes the other checks is taken exactly when it is in its place or `ack` is 0;
      any other is dropped if it is old and ends the run if it lies ahead. */
  lemma MisplacedAcceptedIffAckZero(peerIsn: uint32, data: Bytes, c: Client, accepted: Bytes, p: Packet, off: nat)
    requires c.state == Connected && InOrder(peerIsn, data, c, accepted)
    requires FromPeer(peerIsn, data, p, off) && p.payload != [] && -HALF < off - |accepted| < HALF
    ensures Acknowledges(c, p) <==> Passes(c, p) && (off == |accepted| || c.ack == 0)
    ensures c.ack != 0 && off < |accepted| && p.valid && !HasRst(p.flags) ==> ProcessPacket(c, p) == Ok(c)
    ensures c.ack != 0 && off > |accepted| ==> ProcessPacket(c, p).Failure?
  {
    OrderAgrees(peerIsn + 1 + off, peerIsn + 1 + |accepted|);
    hide Wrap;
    hide Less;
    hide Greater;
    hide ScaledWindow;
    hide HasRst;
  }

  /** The peer's numbers never come to stand for "not known yet" in front of something to be taken
      wrongly: they stop short of the wrap, or only the first byte lies behind it. */
  predicate Unambiguous(peerIsn: uint32, data: Bytes) {
    peerIsn + 1 + |data| < MODULUS || (peerIsn == MODULUS - 1 && |data| <= 1)
  }

  lemma UnambiguousPlace(peerIsn: uint32, data: Bytes, c: Client, accepted: Bytes, p: Packet)
    requires Unambiguous(peerIsn, data) && InOrder(peerIsn, data, c, accepted)
    requires PeerSends(peerIsn, data, c, |accepted|, p)
    ensures InPlace(peerIsn, data, c, |accepted|, p)
  {
    if c.state == Connected && c.ack == 0 && p.payload != [] {
      if peerIsn + 1 + |data| < MODULUS {
        WrapInRange(peerIsn + 1 + |accepted|);
        assert false;
      }
      var off: int :| FromPeer(peerIsn, data, p, off) && -HALF < off - |accepted| < HALF;
      assert off == 0 == |accepted|;
    }
  }

  lemma {:induction false} UnambiguousInPlace(isn: uint32, id: uint16, peerIsn: uint32, data: Bytes, es: seq<Event>)
    requires HonestRun(isn, id, peerIsn, data, es) && Unambiguous(peerIsn, data)
    ensures InPlaceAtZero(peerIsn, data, Fresh(isn, id), es)
  {
    if es != [] {
      hide Step;
      hide InPlace;
      hide Unambiguous;
      var before, e := es[..|es| - 1], es[|es| - 1];
      assert es == before + [e];
      UnambiguousInPlace(isn, id, peerIsn, data, before);
      ReceivesPrefix(isn, id, peerIsn, data, before);
      if e.Receive? {
        var c := Fresh(isn, id);
        UnambiguousPlace(peerIsn, data, Run(c, before).value, AcceptedBy(c, before), e.packet);
      }
    }
  }

  // ----- A run that goes wrong for every other peer -----

  function SynAckOf(isn: uint32, peerIsn: uint32, options: Bytes): Event {
    Receive(Packet(true, SYN_ACK, peerIsn, Add(isn, 1), 65535, options, []))
  }

  /** One byte of the peer's stream. */
  function ByteAt(isn: uint32, peerIsn: uint32, data: Bytes, off: nat): Event
    requires off < |data|
  {
    Receive(Packet(true, ACK, Wrap(peerIsn + 1 + off), Add(isn, 1), 65535, [], [data[off]]))
  }

  /** Opens, connects and delivers the first `n` bytes, one by one. */
  function Deliver(isn: uint32, peerIsn: uint32, data: Bytes, n: nat): seq<Event>
    requires n <= |data|
  {
    if n == 0 then [Open, SynAckOf(isn, peerIsn, [])]
    else Deliver(isn, peerIsn, data, n - 1) + [ByteAt(isn, peerIsn, data, n - 1)]
  }

  /** A connected client with nothing in flight. */
  predicate Idle(c: Client, isn: uint32, ack: uint32) {
    && c.state == Connected && c.lastAck == Add(isn, 1) && c.unacked == 0 && c.sendWnd == 65535 && c.scale == 0
    && c.ack == ack
  }

  lemma ByteTaken(c: Client, isn: uint32, peerIsn: uint32, data: Bytes, off: nat)
    requires off < |data| && Idle(c, isn, c.ack) && (c.ack == 0 || c.ack == Wrap(peerIsn + 1 + off))
    ensures var e := ByteAt(isn, peerIsn, data, off);
            && Step(c, e).Ok? && Idle(Step(c, e).value, isn, Wrap(peerIsn + 1 + (off + 1)))
            && Accepted(c, e) == [data[off]]
  {
    AddToWrap(peerIsn + 1 + off, 1);
    NoShift(65535);
    SubSelf(c.lastAck);
    AcceptsByDistance(c, c.lastAck);
    NotLessSelf(c.ack);
    hide Wrap;
    hide Sub;
    hide Less;
    hide AcceptsAck;
    hide ScaledWindow;
  }

  lemma SubSelf(a: uint32)
    ensures Sub(a, a) == 0
  {
  }

  lemma NotGreaterSelf(a: uint32)
    ensures !Greater(a, a)
  {
  }

  lemma NotLessSelf(a: uint32)
    ensures !Less(a, a)
  {
  }

  lemma NoShift(window: uint16)
    ensures ScaledWindow(window, 0) == window
  {
  }

  lemma RunSnoc(c: Client, es: seq<Event>, e: Event)
    requires Run(c, es).Ok?
    ensures Run(c, es + [e]) == Step(Run(c, es).value, e)
    ensures AcceptedBy(c, es + [e]) == AcceptedBy(c, es) + Accepted(Run(c, es).value, e)
  {
    hide Step;
    hide Accepted;
    assert (es + [e])[..|es|] == es;
  }

  lemma LegalSnoc(c: Client, es: seq<Event>, e: Event)
    requires Legal(c, es) && !e.Open?
    ensures Legal(c, es + [e])
  {
    hide Run;
    assert (es + [e])[..|es|] == es;
  }

  lemma HonestSnoc(isn: uint32, id: uint16, peerIsn: uint32, data: Bytes, es: seq<Event>, p: Packet)
    requires HonestRun(isn, id, peerIsn, data, es)
    requires var c := Fresh(isn, id);
             && Step(Run(c, es).value, Receive(p)).Ok?
             && PeerSends(peerIsn, data, Run(c, es).value, |AcceptedBy(c, es)|, p)
    ensures HonestRun(isn, id, peerIsn, data, es + [Receive(p)])
  {
    hide Step;
    hide PeerSends;
    RunSnoc(Fresh(isn, id), es, Receive(p));
    assert (es + [Receive(p)])[..|es|] == es;
  }

  lemma HandshakeState(isn: uint32, id: uint16, peerIsn: uint32, options: Bytes)
    requires TcpOptions.WindowScale(options).Ok?
    ensures var o := Connect(Fresh(isn, id));
            var r := Step(o.value, SynAckOf(isn, peerIsn, options));
            var shift := TcpOptions.WindowScale(options).value;
            && o.Ok? && o.value.state == Connecting && r.Ok?
            && r.value.scale == (if shift.Some? then shift.value else 0)
            && Idle(r.value.(scale := 0), isn, Wrap(peerIsn + 1))
  {
    var c := Connect(Fresh(isn, id)).value;
    SubOfAdd(isn, 1);
    AcceptsByDistance(c, Add(isn, 1));
    NoShift(65535);
    hide TcpOptions.WindowScale;
    hide ScaledWindow;
    hide AcceptsAck;
    hide Less;
    hide Wrap;
  }

  /** Opening and connecting, with any options the peer's SYN-ACK may carry. */
  lemma HandshakeRun(isn: uint32, id: uint16, peerIsn: uint32, data: Bytes, options: Bytes)
    requires TcpOptions.WindowScale(options).Ok?
    ensures var es := [Open, SynAckOf(isn, peerIsn, options)];
            var shift := TcpOptions.WindowScale(options).value;
            && HonestRun(isn, id, peerIsn, data, es) && Legal(Fresh(isn, id), es)
            && AcceptedBy(Fresh(isn, id), es) == []
            && var c := Run(Fresh(isn, id), es).value;
               && c.scale == (if shift.Some? then shift.value else 0)
               && Idle(c.(scale := 0), isn, Wrap(peerIsn + 1))
  {
    HandshakeState(isn, id, peerIsn, options);
    hide Connect;
    hide ProcessPacket;
    hide TcpOptions.WindowScale;
    hide Idle;
    var c, e := Fresh(isn, id), SynAckOf(isn, peerIsn, options);
    assert [Open][..0] == [] && [Open, e][..1] == [Open];
    assert [] + [Open] == [Open] && [Open] + [e] == [Open, e];
    RunSnoc(c, [], Open);
    RunSnoc(c, [Open], e);
    assert OpensOnce([]) && OpensOnce([Open]);
    assert Legal(c, []) && Legal(c, [Open]);
    assert HonestPeer(peerIsn, data, c, []) && HonestPeer(peerIsn, data, c, [Open]);
    hide Step;
    HonestSnoc(isn, id, peerIsn, data, [Open], e.packet);
  }

  /** An honest run that accepted these bytes and left the client idle. */
  ghost predicate Accepts(
    isn: uint32, id: uint16, peerIsn: uint32, data: Bytes, es: seq<Event>, accepted: Bytes, ack: uint32)
  {
    && HonestRun(isn, id, peerIsn, data, es)
    && Idle(Run(Fresh(isn, id), es).value, isn, ack)
    && AcceptedBy(Fresh(isn, id), es) == accepted
  }

  lemma HandshakeAccepts(isn: uint32, id: uint16, peerIsn: uint32, data: Bytes)
    ensures Accepts(isn, id, peerIsn, data, [Open, SynAckOf(isn, peerIsn, [])], [], Wrap(peerIsn + 1))
  {
    assert TcpOptions.WindowScale([]) == Ok(None);
    hide TcpOptions.WindowScale;
    hide Run;
    hide AcceptedBy;
    hide HonestPeer;
    hide OpensOnce;
    hide Legal;
    hide Wrap;
    HandshakeRun(isn, id, peerIsn, data, []);
  }

  lemma {:induction false} DeliverRuns(isn: uint32, id: uint16, peerIsn: uint32, data: Bytes, n: nat)
    requires n <= |data|
    ensures Accepts(isn, id, peerIsn, data, Deliver(isn, peerIsn, data, n), data[..n], Wrap(peerIsn + 1 + n))
  {
    hide Accepts;
    hide Wrap;
    if n == 0 {
      HandshakeAccepts(isn, id, peerIsn, data);
    } else {
      DeliverRuns(isn, id, peerIsn, data, n - 1);
      var before := Deliver(isn, peerIsn, data, n - 1);
      TakeByte(isn, id, peerIsn, data, before, data[..n - 1], Wrap(peerIsn + 1 + (n - 1)), n - 1);
      assert data[..n - 1] + [data[n - 1]] == data[..n];
    }
  }

  lemma TakeByte(
    isn: uint32, id: uint16, peerIsn: uint32, data: Bytes, es: seq<Event>, accepted: Bytes, ack: uint32, off: nat)
    requires off < |data| && Accepts(isn, id, peerIsn, data, es, accepted, ack)
    requires -HALF < off - |accepted| < HALF && (ack == 0 || ack == Wrap(peerIsn + 1 + off))
    ensures Accepts(isn, id, peerIsn, data, es + [ByteAt(isn, peerIsn, data, off)], accepted + [data[off]],
                    Wrap(peerIsn + 1 + (off + 1)))
  {
    hide Step;
    hide Run;
    hide Accepted;
    hide AcceptedBy;
    hide Wrap;
    hide HonestPeer;
    var c := Fresh(isn, id);
    var e := ByteAt(isn, peerIsn, data, off);
    ByteTaken(Run(c, es).value, isn, peerIsn, data, off);
    hide Idle;
    RunSnoc(c, es, e);
    ByteFromPeer(isn, peerIsn, data, off);
    hide FromPeer;
    HonestSnoc(isn, id, peerIsn, data, es, e.packet);
  }

  lemma ByteFromPeer(isn: uint32, peerIsn: uint32, data: Bytes, off: nat)
    requires off < |data|
    ensures FromPeer(peerIsn, data, ByteAt(isn, peerIsn, data, off).packet, off)
  {
    assert data[off..off + 1] == [data[off]];
  }

  /** Delivers up to the byte in front of the wrap, then that byte again, or the second byte of all if
      the first lies behind the wrap. */
  lemma MisplacedRun(isn: uint32, id: uint16, peerIsn: uint32, data: Bytes) returns (es: seq<Event>)
    requires !Unambiguous(peerIsn, data)
    ensures HonestRun(isn, id, peerIsn, data, es) && !EndsInOrder(isn, id, peerIsn, data, es)
    ensures peerIsn < MODULUS - 1 ==>
              var n := MODULUS - 1 - peerIsn;
              AcceptedBy(Fresh(isn, id), es) == data[..n] + [data[n - 1]]
  {
    var n := MODULUS - 1 - peerIsn;
    var off := if n == 0 then 1 else n - 1;
    hide Accepts;
    DeliverRuns(isn, id, peerIsn, data, n);
    var before := Deliver(isn, peerIsn, data, n);
    assert Wrap(peerIsn + 1 + n) == 0;
    TakeByte(isn, id, peerIsn, data, before, data[..n], 0, off);
    es := before + [ByteAt(isn, peerIsn, data, off)];
    OrderAgrees(peerIsn + 1 + (off + 1), peerIsn + 1 + (n + 1));
    hide Wrap;
    NotInOrder(isn, id, peerIsn, data, es, data[..n] + [data[off]], Wrap(peerIsn + 1 + (off + 1)));
  }

  lemma NotInOrder(
    isn: uint32, id: uint16, peerIsn: uint32, data: Bytes, es: seq<Event>, accepted: Bytes, ack: uint32)
    requires Accepts(isn, id, peerIsn, data, es, accepted, ack) && ack != Wrap(peerIsn + 1 + |accepted|)
    ensures HonestRun(isn, id, peerIsn, data, es) && !EndsInOrder(isn, id, peerIsn, data, es)
    ensures AcceptedBy(Fresh(isn, id), es) == accepted
  {
    hide Run;
    hide Wrap;
    hide HonestPeer;
    hide AcceptedBy;
  }

  /** Every run with a peer of initial number `peerIsn` and stream `data` accepts a prefix of that stream
      and keeps `ack` at its end if and only if the numbers are unambiguous. */
  lemma InOrderIff(isn: uint32, id: uint16, peerIsn: uint32, data: Bytes)
    ensures (forall es: seq<Event> ::
               HonestRun(isn, id, peerIsn, data, es) ==> EndsInOrder(isn, id, peerIsn, data, es))
            <==> Unambiguous(peerIsn, data)
  {
    hide HonestRun;
    hide Unambiguous;
    if Unambiguous(peerIsn, data) {
      forall es: seq<Event> | HonestRun(isn, id, peerIsn, data, es)
        ensures EndsInOrder(isn, id, peerIsn, data, es)
      {
        hide EndsInOrder;
        UnambiguousInPlace(isn, id, peerIsn, data, es);
        ReceivesPrefix(isn, id, peerIsn, data, es);
        assert InOrderThroughout(isn, id, peerIsn, data, es);
      }
    } else {
      hide EndsInOrder;
      var es := MisplacedRun(isn, id, peerIsn, data);
    }
  }

  /** The shortest case: a one-byte stream numbered 2^32 - 1, whose byte comes twice, is accepted twice. */
  lemma RepeatAcceptedAtZero(isn: uint32, id: uint16)
    ensures exists es: seq<Event> ::
              HonestRun(isn, id, 0xFFFF_FFFE, [1], es) && AcceptedBy(Fresh(isn, id), es) == [1, 1]
  {
    hide HonestRun;
    hide AcceptedBy;
    var es := MisplacedRun(isn, id, 0xFFFF_FFFE, [1]);
    assert [1][..1] + [[1][0]] == [1, 1];
    assert AcceptedBy(Fresh(isn, id), es) == [1, 1];
  }

  // ----- Window shifts above 14 -----

  /** `n` segments of 1024 bytes each. */
  function Burst(n: nat): seq<Event> {
    if n == 0 then [] else Burst(n - 1) + [Send(PSH_ACK, Zeros(1024))]
  }

  lemma {:induction false} BurstRuns(c: Client, es: seq<Event>, n: nat)
    requires Legal(c, es) && Run(c, es).Ok?
    requires Run(c, es).value.unacked == 0 && 1024 * n <= Run(c, es).value.sendWnd
    ensures Legal(c, es + Burst(n)) && Run(c, es + Burst(n)).Ok?
    ensures Run(c, es + Burst(n)).value.unacked == 1024 * n
    ensures Run(c, es + Burst(n)).value.sendWnd == Run(c, es).value.sendWnd
  {
    hide Run;
    hide Step;
    hide Legal;
    if n == 0 {
      assert es + [] == es;
    } else {
      BurstRuns(c, es, n - 1);
      var before, e := es + Burst(n - 1), Send(PSH_ACK, Zeros(1024));
      assert es + Burst(n) == before + [e];
      hide Burst;
      SendSegment(Run(c, before).value);
      RunSnoc(c, before, e);
      LegalSnoc(c, before, e);
    }
  }

  lemma SendSegment(c: Client)
    requires c.unacked + 1024 <= c.sendWnd
    ensures var r := Step(c, Send(PSH_ACK, Zeros(1024)));
            r.Ok? && r.value.unacked == c.unacked + 1024 && r.value.sendWnd == c.sendWnd
  {
    WrapInRange(c.unacked + 1024);
    hide Wrap;
  }

  /** A peer that announces shift 16 lets a run come to more than 2^31 bytes in flight, and then an
      acknowledgement of bytes really sent is refused. */
  lemma LargeShiftRefusesAck(isn: uint32, id: uint16) returns (es: seq<Event>, ack: uint32)
    ensures Legal(Fresh(isn, id), es) && Run(Fresh(isn, id), es).Ok?
    ensures var c := Run(Fresh(isn, id), es).value;
            && c.unacked > HALF && !AcceptsAck(c, ack)
            && InFlight(isn, TrackRun(isn, Fresh(isn, id), es), ack)
  {
    var c := Fresh(isn, id);
    var connected := [Open, SynAckOf(isn, 0, [3, 3, 16])];
    assert TcpOptions.WindowScale([3, 3, 16]) == Ok(Some(16)) by {
      ShiftSixteen();
    }
    HandshakeRun(isn, id, 0, [], [3, 3, 16]);
    hide Run;
    hide TcpOptions.WindowScale;
    var update := Receive(Packet(true, ACK, 1, Add(isn, 1), 65535, [], []));
    WindowUpdate(Run(c, connected).value, isn, update);
    RunSnoc(c, connected, update);
    var ready := connected + [update];
    assert ready[..|connected|] == connected;
    hide Step;
    BurstRuns(c, ready, 2097153);
    es := ready + Burst(2097153);
    RunRefines(isn, id, es);
    var d, u := Run(c, es).value, TrackRun(isn, c, es);
    ack := Add(d.lastAck, HALF + 1);
    SubOfAdd(d.lastAck, HALF + 1);
    InFlightByDistance(isn, d, u, ack);
    AcceptsByDistance(d, ack);
  }

  lemma ShiftSixteen()
    ensures TcpOptions.WindowScale([3, 3, 16]) == Ok(Some(16))
  {
    var area: Bytes := [3, 3, 16];
    assert area[area[1]..] == [] && area[2..area[1]] == [16];
    assert TcpOptions.Tokens([]) == Ok([]);
    assert [TcpOptions.Field(3, [16])] + [] == [TcpOptions.Field(3, [16])];
    assert TcpOptions.Tokens(area) == Ok([TcpOptions.Field(3, [16])]);
  }

  lemma WindowUpdate(c: Client, isn: uint32, e: Event)
    requires c.scale == 16 && Idle(c.(scale := 0), isn, 1)
    requires e == Receive(Packet(true, ACK, 1, Add(isn, 1), 65535, [], []))
    ensures Step(c, e) == Ok(c.(sendWnd := 0xFFFF_0000))
  {
    assert ScaledWindow(65535, 16) == 0xFFFF_0000 by {
      Pow2Of14();
      assert Pow2(16) == 4 * Pow2(14);
    }
    hide ScaledWindow;
    NotLessSelf(1);
    SubSelf(c.lastAck);
    NotGreaterSelf(c.lastAck);
    hide Less;
    hide Greater;
    hide Wrap;
  }
}
