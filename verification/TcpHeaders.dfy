/** What stands in the headers of the segments sent, with the flag bytes of section 3.1 of RFC 9293, and what
    a received header does. */
module TcpHeaders {
  import opened Outcomes
  import opened Binary
  import opened SeqNumbers
  import opened TcpModel
  import opened TcpRuns
  import TcpOptions
  import TcpLimits

  // ----- One step -----

  /** The segment a step adds, if it adds one: its flags, and numbers that are those after the step, except
      that data is numbered by its first byte. */
  predicate AddsOne(c: Client, e: Event, d: Client, flags: byte) {
    && |d.sent| == |c.sent| + 1 && d.sent[..|c.sent|] == c.sent
    && var s := d.sent[|c.sent|];
       && s.flags == flags && s.options == e.Open? && s.id == c.ipId && d.ipId == (c.ipId + 1) % 0x1_0000
       && s.payload == (if e.Send? then e.payload else [])
       && s.ack == d.ack && s.seqNo == if e.Send? then c.seqNo else d.seqNo
  }

  predicate AddsNone(c: Client, d: Client) {
    d.sent == c.sent && d.ipId == c.ipId
  }

  /** A segment that the client takes while it waits for the SYN-ACK, or takes data from. */
  predicate Answered(c: Client, p: Packet) {
    || (c.state == Connecting && p.flags == 0x12)
    || (c.state == Connected && p.payload != [])
  }

  lemma StepAdds(c: Client, e: Event)
    requires Step(c, e).Ok?
    ensures var d := Step(c, e).value;
            match e
            case Open => AddsOne(c, e, d, 0x02)
            case Send(flags, _) => AddsOne(c, e, d, flags)
            case Abort => AddsOne(c, e, d, 0x04)
            case Receive(p) =>
              if !IsOld(c, p) && Answered(c, p) then AddsOne(c, e, d, 0x10) else AddsNone(c, d)
  {
    hide Wrap;
    hide Less;
    hide AcceptsAck;
    hide ScaledWindow;
    hide TcpOptions.WindowScale;
    NothingAdded(c.seqNo);
    NothingAdded(Add(c.seqNo, 1));
  }

  /** The numbers of whatever a step adds. */
  lemma AddedNumbers(c: Client, e: Event)
    requires Step(c, e).Ok? && |Step(c, e).value.sent| == |c.sent| + 1
    ensures var d := Step(c, e).value;
            var s := d.sent[|c.sent|];
            && d.sent == c.sent + [s] && s.options == e.Open? && s.ack == d.ack && s.id == c.ipId
            && s.payload == (if e.Send? then e.payload else []) && s.seqNo == if e.Send? then c.seqNo else d.seqNo
  {
    hide Step;
    hide IsOld;
    hide Answered;
    StepAdds(c, e);
  }

  lemma NothingAdded(a: uint32)
    ensures Add(a, 0) == a
  {
  }

  /** The third segment of the handshake: a SYN-ACK taken while connecting is answered by one bare ACK that
      carries the number after everything in flight and the number after the peer's SYN. */
  lemma SynAckAnswered(isn: uint32, c: Client, u: Counters, p: Packet)
    requires Refines(isn, c, u) && c.state == Connecting && c.ack == 0 && p.flags == 0x12 && ProcessPacket(c, p).Ok?
    ensures var d := ProcessPacket(c, p).value;
            && d.state == Connected && |d.sent| == |c.sent| + 1 && d.sent[..|c.sent|] == c.sent
            && d.sent[|c.sent|] == Segment(0x10, c.ipId, Wrap(p.ack + d.unacked), Wrap(p.seqNo + 1), false, [])
  {
    hide Wrap;
    hide PayloadBytes;
    ConnectedState(c, p);
    StepAdds(c, Receive(p));
    StepRefines(isn, c, u, Receive(p));
    SumFromCounters(isn, ProcessPacket(c, p).value, Track(isn, u, c, Receive(p)));
    hide ProcessPacket;
    hide Track;
    hide Less;
    hide Refines;
  }

  lemma ConnectedState(c: Client, p: Packet)
    requires c.state == Connecting && c.ack == 0 && p.flags == 0x12 && ProcessPacket(c, p).Ok?
    ensures var d := ProcessPacket(c, p).value;
            d.state == Connected && d.ack == Wrap(p.seqNo + 1) && d.lastAck == p.ack
  {
    hide Wrap;
    hide AcceptsAck;
    hide ScaledWindow;
    hide TcpOptions.WindowScale;
  }

  /** A new client, and what opening and aborting do to it. */
  lemma OpenAndAbort(isn: uint32, id: uint16, c: Client)
    ensures Fresh(isn, id) == Client(Offline, isn, 0, isn, 0, 65535, 0, id, [])
    ensures Connect(c).Ok? <==> c.unacked <= c.sendWnd
    ensures Connect(c).Ok? ==>
              var d := Connect(c).value;
              d == c.(state := Connecting, unacked := 1, ipId := d.ipId, sent := d.sent)
    ensures Reset(c).Ok? ==> var d := Reset(c).value; d == c.(state := Offline, ipId := d.ipId, sent := d.sent)
  {
    NothingAdded(c.seqNo);
    WrapInRange(c.unacked);
    hide Wrap;
  }

  // ----- Every run -----

  /** How the segment added by a step from `c` to `d` is numbered. */
  predicate Header(isn: uint32, id: uint16, peerIsn: uint32, c: Client, d: Client, accepted: nat) {
    || d.sent == c.sent
    || (&& |d.sent| == |c.sent| + 1 && d.sent[..|c.sent|] == c.sent
        && var s := d.sent[|c.sent|];
           && s.id == (id + |c.sent|) % 0x1_0000
           && (d.state == Connected ==>
                 && s.seqNo == Wrap(isn + 1 + PayloadBytes(c.sent)) && s.ack == Wrap(peerIsn + 1 + accepted)
                 && !s.options))
  }

  ghost predicate Headers(isn: uint32, id: uint16, peerIsn: uint32, es: seq<Event>)
    requires Run(Fresh(isn, id), es).Ok?
  {
    es != [] ==>
      var c, before := Fresh(isn, id), es[..|es| - 1];
      && Headers(isn, id, peerIsn, before)
      && Header(isn, id, peerIsn, Run(c, before).value, Run(c, es).value, |AcceptedBy(c, es)|)
  }

  /** The id of segment `n`. */
  function IdAt(id: uint16, n: nat): uint16 {
    (id + n) % 0x1_0000
  }

  lemma {:induction false} IdsCount(isn: uint32, id: uint16, es: seq<Event>)
    requires Run(Fresh(isn, id), es).Ok?
    ensures var c := Run(Fresh(isn, id), es).value; c.ipId == IdAt(id, |c.sent|)
  {
    if es == [] {
      assert IdAt(id, 0) == id;
    } else {
      hide Step;
      IdsCount(isn, id, es[..|es| - 1]);
      var c := Run(Fresh(isn, id), es[..|es| - 1]).value;
      StepIds(c, es[|es| - 1]);
      NextId(id, |c.sent|);
      hide IdAt;
    }
  }

  lemma StepIds(c: Client, e: Event)
    requires Step(c, e).Ok?
    ensures var d := Step(c, e).value;
            || (|d.sent| == |c.sent| && d.ipId == c.ipId)
            || (|d.sent| == |c.sent| + 1 && d.ipId == (c.ipId + 1) % 0x1_0000)
  {
    hide Step;
    hide IsOld;
    hide Answered;
    StepAdds(c, e);
  }

  lemma NextId(id: uint16, n: nat)
    ensures (IdAt(id, n) + 1) % 0x1_0000 == IdAt(id, n + 1)
  {
  }

  /** One step between two states that agree with the counters and with the peer's stream. */
  lemma StepNumbered(isn: uint32, peerIsn: uint32, data: Bytes, c: Client, u: Counters, e: Event, accepted: Bytes)
    requires Refines(isn, c, u) && u.syns <= 1 && MayStep(c, e) && Step(c, e).Ok?
    requires e.Send? && e.payload != [] ==> c.state == Connected
    requires InOrder(peerIsn, data, Step(c, e).value, accepted)
    requires |Step(c, e).value.sent| == |c.sent| + 1 && Step(c, e).value.state == Connected && !e.Abort?
    ensures var s := Step(c, e).value.sent[|c.sent|];
            && s.seqNo == Wrap(isn + 1 + PayloadBytes(c.sent)) && s.ack == Wrap(peerIsn + 1 + |accepted|)
            && !s.options
  {
    hide Step;
    hide Wrap;
    hide Track;
    hide PayloadBytes;
    hide MayStep;
    var d := Step(c, e).value;
    var v := Track(isn, u, c, e);
    AddedNumbers(c, e);
    ConnectsFrom(c, e);
    StepRefines(isn, c, u, e);
    TrackSyns(isn, u, c, e);
    PayloadBytesSnoc(c.sent, d.sent[|c.sent|]);
  }

  lemma TrackSyns(isn: uint32, u: Counters, c: Client, e: Event)
    requires !e.Open?
    ensures Track(isn, u, c, e).syns == u.syns
  {
    hide Unwrap;
  }

  lemma ConnectsFrom(c: Client, e: Event)
    requires Step(c, e).Ok? && Step(c, e).value.state == Connected
    ensures !e.Open? && c.state != Offline && (e.Send? ==> c.state == Connected)
  {
    hide Wrap;
    hide Less;
    hide AcceptsAck;
    hide ScaledWindow;
    hide TcpOptions.WindowScale;
  }

  /** Over every run with an honest peer that sends data only once connected: every segment sent by a connected
      client, bare ones included, carries ISN + 1 + payload bytes sent before it, and the number after the
      peer's SYN and the bytes accepted so far; segments are identified one after the other. */
  lemma {:induction false} HeadersInEveryRun(
    isn: uint32, id: uint16, peerIsn: uint32, data: Bytes, es: seq<Event>)
    requires HonestRun(isn, id, peerIsn, data, es) && InPlaceAtZero(peerIsn, data, Fresh(isn, id), es)
    requires Legal(Fresh(isn, id), es) && SendsOnlyConnected(Fresh(isn, id), es)
    ensures Headers(isn, id, peerIsn, es)
  {
    if es != [] {
      hide Step;
      hide Header;
      hide Run;
      hide PeerSends;
      hide InPlace;
      var before := es[..|es| - 1];
      RunLast(isn, id, es);
      assert es == before + [es[|es| - 1]];
      HeadersInEveryRun(isn, id, peerIsn, data, before);
      LastHeaderHolds(isn, id, peerIsn, data, es);
    }
  }

  lemma RunLast(isn: uint32, id: uint16, es: seq<Event>)
    requires es != [] && Run(Fresh(isn, id), es).Ok?
    ensures var before := Run(Fresh(isn, id), es[..|es| - 1]);
            before.Ok? && Run(Fresh(isn, id), es) == Step(before.value, es[|es| - 1])
  {
    hide Step;
  }

  lemma LastHeaderHolds(isn: uint32, id: uint16, peerIsn: uint32, data: Bytes, es: seq<Event>)
    requires es != [] && HonestRun(isn, id, peerIsn, data, es) && InPlaceAtZero(peerIsn, data, Fresh(isn, id), es)
    requires Legal(Fresh(isn, id), es) && SendsOnlyConnected(Fresh(isn, id), es)
    ensures var c, before := Fresh(isn, id), es[..|es| - 1];
            && Run(c, before).Ok?
            && Header(isn, id, peerIsn, Run(c, before).value, Run(c, es).value, |AcceptedBy(c, es)|)
  {
    hide Step;
    hide Run;
    hide AcceptedBy;
    hide TrackRun;
    hide InPlaceAtZero;
    hide HonestPeer;
    hide InOrder;
    hide Refines;
    hide MayStep;
    hide Header;
    hide Legal;
    hide SendsOnlyConnected;
    hide OpensOnce;
    var c, before, e := Fresh(isn, id), es[..|es| - 1], es[|es| - 1];
    RunLast(isn, id, es);
    LastFacts(isn, id, peerIsn, data, es);
    StepHeader(isn, id, peerIsn, data, Run(c, before).value, TrackRun(isn, c, before), e, AcceptedBy(c, es));
  }

  /** What is known of the state before the last event of such a run. */
  lemma LastFacts(isn: uint32, id: uint16, peerIsn: uint32, data: Bytes, es: seq<Event>)
    requires es != [] && HonestRun(isn, id, peerIsn, data, es) && InPlaceAtZero(peerIsn, data, Fresh(isn, id), es)
    requires Legal(Fresh(isn, id), es) && SendsOnlyConnected(Fresh(isn, id), es)
    ensures var c, before, e := Fresh(isn, id), es[..|es| - 1], es[|es| - 1];
            && Run(c, before).Ok? && !e.Abort?
            && var mid := Run(c, before).value;
               && Refines(isn, mid, TrackRun(isn, c, before)) && TrackRun(isn, c, before).syns <= 1
               && MayStep(mid, e) && (e.Send? && e.payload != [] ==> mid.state == Connected)
               && mid.ipId == (id + |mid.sent|) % 0x1_0000
               && InOrder(peerIsn, data, Run(c, es).value, AcceptedBy(c, es))
  {
    hide Step;
    hide Run;
    hide AcceptedBy;
    hide TrackRun;
    hide InPlaceAtZero;
    hide HonestPeer;
    hide InOrder;
    hide Refines;
    hide MayStep;
    var before, e := es[..|es| - 1], es[|es| - 1];
    RunLast(isn, id, es);
    OpensBefore(es);
    LegalLast(isn, id, es);
    hide Legal;
    hide SendsOnlyConnected;
    hide OpensOnce;
    ReceivesPrefix(isn, id, peerIsn, data, es);
    assert EndsInOrder(isn, id, peerIsn, data, es);
    RunRefines(isn, id, before);
    SynCount(isn, id, before);
    IdsCount(isn, id, before);
    assert e in es;
  }

  lemma StepHeader(
    isn: uint32, id: uint16, peerIsn: uint32, data: Bytes, c: Client, u: Counters, e: Event, accepted: Bytes)
    requires Refines(isn, c, u) && u.syns <= 1 && MayStep(c, e) && Step(c, e).Ok? && !e.Abort?
    requires e.Send? && e.payload != [] ==> c.state == Connected
    requires InOrder(peerIsn, data, Step(c, e).value, accepted) && c.ipId == (id + |c.sent|) % 0x1_0000
    ensures Header(isn, id, peerIsn, c, Step(c, e).value, |accepted|)
  {
    hide Step;
    hide Wrap;
    hide InOrder;
    hide Refines;
    hide MayStep;
    hide IsOld;
    hide Answered;
    StepAdds(c, e);
    var d := Step(c, e).value;
    if |d.sent| == |c.sent| + 1 {
      AddedNumbers(c, e);
      if d.state == Connected {
        StepNumbered(isn, peerIsn, data, c, u, e, accepted);
      }
    }
  }

  lemma LegalLast(isn: uint32, id: uint16, es: seq<Event>)
    requires es != [] && Run(Fresh(isn, id), es[..|es| - 1]).Ok?
    requires Legal(Fresh(isn, id), es) && SendsOnlyConnected(Fresh(isn, id), es)
    ensures var mid, e := Run(Fresh(isn, id), es[..|es| - 1]).value, es[|es| - 1];
            && Legal(Fresh(isn, id), es[..|es| - 1]) && MayStep(mid, e)
            && (e.Send? && e.payload != [] ==> mid.state == Connected)
  {
    hide Run;
    hide MayStep;
  }

  lemma OpensBefore(es: seq<Event>)
    requires es != [] && OpensOnce(es)
    ensures OpensOnce(es[..|es| - 1])
  {
  }

  // ----- Received headers -----

  /** A segment with the RST bit, 0x04, ends the run, whatever the other bits say. */
  lemma ResetEndsRun(c: Client, p: Packet, high: nat, low: nat)
    requires p.flags == 8 * high + 4 + low && low < 4
    ensures ProcessPacket(c, p).Failure?
  {
    ResetBit(high, low);
    hide AcceptsAck;
    hide IsOld;
    hide FinishHandshake;
    hide AcceptPayload;
  }

  lemma ResetBit(high: nat, low: nat)
    requires low < 4
    ensures (8 * high + 4 + low) / 4 % 2 == 1 && (8 * high + low) / 4 % 2 == 0
  {
    assert (8 * high + 4 + low) / 4 == 2 * high + 1;
    assert (8 * high + low) / 4 == 2 * high;
  }

  /** Without that bit a valid segment in place with a fitting acknowledgement and room to answer is taken. */
  lemma TakenWithoutReset(c: Client, p: Packet, high: nat, low: nat)
    requires p.flags == 8 * high + low && low < 4 && p.valid && c.state == Connected
    requires c.ack != 0 && p.seqNo == c.ack && AcceptsAck(c, p.ack) && TakeAck(c, p).unacked <= TakeAck(c, p).sendWnd
    ensures ProcessPacket(c, p).Ok?
  {
    ResetBit(high, low);
    TcpLimits.NotLessSelf(c.ack);
    hide Less;
    hide Wrap;
    hide ScaledWindow;
    hide Greater;
  }

  /** The window of every segment taken replaces the old one, larger or smaller, unless it is 0. */
  lemma WindowFollows(c: Client, p: Packet)
    requires ProcessPacket(c, p).Ok? && !IsOld(c, p) && c.scale <= 14
    ensures var d := ProcessPacket(c, p).value;
            d.sendWnd == if p.window == 0 then c.sendWnd else p.window * Pow2(c.scale)
  {
    ScaledWindowBound(p.window, c.scale);
    WindowPositive(p.window, Pow2(c.scale));
    hide Pow2;
    hide Wrap;
    hide Less;
    hide Greater;
    hide ScaledWindow;
    hide TcpOptions.WindowScale;
  }

  lemma WindowPositive(w: nat, p: nat)
    requires p > 0
    ensures w * p > 0 <==> w > 0
  {
  }
}
