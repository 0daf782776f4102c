/** What reaches TLS through TCP, judged by the packets alone. */
module Transport {
  import opened Outcomes
  import opened Binary
  import opened SeqNumbers
  import opened TlsModel
  import opened TlsRuns
  import opened TlsHandshake
  import opened TlsTraffic
  import opened Stack
  import TlsPeer
  import Tcp = TcpModel
  import TcpRuns
  import TcpLimits
  import TcpHeaders
  import TcpOptions

  // ----- Packets in sequence -----

  /** The packets of a run. */
  function PacketsOf(es: seq<Event>): seq<Tcp.Packet> {
    if es == [] then []
    else
      var last := es[|es| - 1];
      PacketsOf(es[..|es| - 1]) + if last.Packet? then [last.packet] else []
  }

  lemma {:induction false} CarriedIsInput(es: seq<Event>)
    ensures TlsPeer.Carried(PacketsOf(es)) == Input(es)
  {
    if es != [] {
      var before, e := PacketsOf(es[..|es| - 1]), es[|es| - 1];
      CarriedIsInput(es[..|es| - 1]);
      if e.Packet? {
        assert (before + [e.packet])[..|before|] == before;
      } else {
        assert before + [] == before;
      }
    }
  }

  lemma {:induction false} PacketsAppend(a: seq<Event>, b: seq<Event>)
    ensures PacketsOf(a + b) == PacketsOf(a) + PacketsOf(b)
  {
    if b == [] {
      assert a + b == a;
    } else {
      PacketsAppend(a, b[..|b| - 1]);
      assert (a + b)[..|a + b| - 1] == a + b[..|b| - 1];
    }
  }

  predicate SynAckIn(ps: seq<Tcp.Packet>) {
    ps != [] && (ps[|ps| - 1].flags == Tcp.SYN_ACK || SynAckIn(ps[..|ps| - 1]))
  }

  /** Every payload comes after a SYN-ACK and has the number of the byte that follows all earlier ones. */
  predicate InSequence(peerIsn: uint32, ps: seq<Tcp.Packet>) {
    ps != [] ==>
      var before, p := ps[..|ps| - 1], ps[|ps| - 1];
      && InSequence(peerIsn, before)
      && (p.payload != [] ==> SynAckIn(before) && p.seqNo == Wrap(peerIsn + 1 + |TlsPeer.Carried(before)|))
  }

  /** What a peer with this stream sends, from the packets alone: its SYN-ACK, then segments of the stream
      or its SYN-ACK again, less than 2^31 away from what was carried before. */
  ghost predicate PeerPackets(peerIsn: uint32, data: Bytes, ps: seq<Tcp.Packet>) {
    ps != [] ==>
      var before, p := ps[..|ps| - 1], ps[|ps| - 1];
      && PeerPackets(peerIsn, data, before)
      && if !SynAckIn(before) then p.flags == Tcp.SYN_ACK ==> p.seqNo == peerIsn
         else exists off: int ::
                TcpRuns.FromPeer(peerIsn, data, p, off) && -HALF < off - |TlsPeer.Carried(before)| < HALF
  }

  // ----- When the client is connected -----

  /** Connected exactly if a SYN-ACK came; before that `ack` is 0. */
  predicate ConnectedBy(c: Tcp.Client, synAck: bool) {
    if synAck then c.state == Tcp.Connected else c.state == Tcp.Connecting && c.ack == 0
  }

  lemma PacketConnects(c: Tcp.Client, synAck: bool, p: Tcp.Packet)
    requires ConnectedBy(c, synAck) && Tcp.ProcessPacket(c, p).Ok?
    ensures ConnectedBy(Tcp.ProcessPacket(c, p).value, synAck || p.flags == Tcp.SYN_ACK)
  {
    hide Tcp.AcceptsAck;
    hide Tcp.ScaledWindow;
    hide TcpOptions.WindowScale;
    hide Less;
    hide Wrap;
  }

  lemma SendKeepsConnection(a: Tcp.Client, b: Tcp.Client, synAck: bool)
    requires ConnectedBy(a, synAck) && OneSend(a, b)
    ensures ConnectedBy(b, synAck)
  {
    hide Wrap;
  }

  lemma {:induction false} ConnectedIff(env: Env, isn: uint32, id: Tcp.uint16, es: seq<Event>)
    requires Create(env, Tcp.Fresh(isn, id)).Ok? && Run(env, Create(env, Tcp.Fresh(isn, id)).value, es).Ok?
    ensures ConnectedBy(Run(env, Create(env, Tcp.Fresh(isn, id)).value, es).value.tcp, SynAckIn(PacketsOf(es)))
  {
    var st := Create(env, Tcp.Fresh(isn, id)).value;
    if es == [] {
      assert !SynAckIn([]);
      hide Wrap;
    } else {
      hide Create;
      hide ConnectedBy;
      var before, e := es[..|es| - 1], es[|es| - 1];
      ConnectedIff(env, isn, id, before);
      var mid, ps := Run(env, st, before).value, PacketsOf(before);
      if e.Packet? {
        assert (ps + [e.packet])[..|ps|] == ps;
        PacketConnects(mid.tcp, SynAckIn(ps), e.packet);
        hide Tcp.ProcessPacket;
      } else {
        QuietStep(env, mid, e);
        hide Step;
        hide OneSend;
        SendKeepsConnection(mid.tcp, Step(env, mid, e).value.tcp, SynAckIn(ps));
        assert ps + [] == ps;
      }
    }
  }

  // ----- New data -----

  /** One segment with payload: not old exactly if it carries the next number. */
  lemma NewIffNext(peerIsn: uint32, data: Bytes, c: Tcp.Client, accepted: Bytes, p: Tcp.Packet)
    requires c.state == Tcp.Connected && TcpRuns.InOrder(peerIsn, data, c, accepted) && p.payload != []
    requires TcpRuns.PeerSends(peerIsn, data, c, |accepted|, p) && Tcp.ProcessPacket(c, p).Ok?
    requires TcpRuns.InPlace(peerIsn, data, c, |accepted|, p)
    ensures TcpRuns.Accepted(c, TcpRuns.Receive(p)) == p.payload <==> p.seqNo == Wrap(peerIsn + 1 + |accepted|)
  {
    hide Wrap;
    hide Tcp.AcceptsAck;
    hide Tcp.ScaledWindow;
    if p.seqNo == c.ack {
      TcpLimits.NotLessSelf(c.ack);
    }
  }

  lemma HonestLast(peerIsn: uint32, data: Bytes, c: Tcp.Client, ts: seq<TcpRuns.Event>, t: TcpRuns.Event)
    ensures TcpRuns.HonestPeer(peerIsn, data, c, ts + [t]) <==>
              && TcpRuns.HonestPeer(peerIsn, data, c, ts)
              && (t.Receive? && TcpRuns.Run(c, ts).Ok? ==>
                    TcpRuns.PeerSends(peerIsn, data, TcpRuns.Run(c, ts).value, |TcpRuns.AcceptedBy(c, ts)|, t.packet))
    ensures TcpRuns.InPlaceAtZero(peerIsn, data, c, ts + [t]) <==>
              && TcpRuns.InPlaceAtZero(peerIsn, data, c, ts)
              && (t.Receive? && TcpRuns.Run(c, ts).Ok? ==>
                    TcpRuns.InPlace(peerIsn, data, TcpRuns.Run(c, ts).value, |TcpRuns.AcceptedBy(c, ts)|, t.packet))
  {
    hide TcpRuns.Run;
    hide TcpRuns.AcceptedBy;
    hide TcpRuns.PeerSends;
    hide TcpRuns.InPlace;
    assert (ts + [t])[..|ts|] == ts;
  }

  /** The transport of a run: segments of the peer's stream, in place whenever `ack` is 0. */
  ghost predicate Sound(peerIsn: uint32, data: Bytes, c: Tcp.Client, ts: seq<TcpRuns.Event>) {
    TcpRuns.HonestPeer(peerIsn, data, c, ts) && TcpRuns.InPlaceAtZero(peerIsn, data, c, ts)
  }

  /** Events other than packets have no part in it. */
  lemma SoundQuiet(peerIsn: uint32, data: Bytes, c: Tcp.Client, ts: seq<TcpRuns.Event>, a: Tcp.Client, b: Tcp.Client)
    ensures Sound(peerIsn, data, c, ts + Effect(a, b)) <==> Sound(peerIsn, data, c, ts)
  {
    if Effect(a, b) == [] {
      assert ts + [] == ts;
    } else {
      hide TcpRuns.HonestPeer;
      hide TcpRuns.InPlaceAtZero;
      HonestLast(peerIsn, data, c, ts, Effect(a, b)[0]);
    }
  }

  /** What TCP made of a run of a new client with such a transport. */
  lemma InOrderSoFar(env: Env, isn: uint32, id: Tcp.uint16, peerIsn: uint32, data: Bytes, es: seq<Event>)
    requires Create(env, Tcp.Fresh(isn, id)).Ok? && Run(env, Create(env, Tcp.Fresh(isn, id)).value, es).Ok?
    requires Sound(peerIsn, data, Tcp.Fresh(isn, id), TcpTrace(env, Create(env, Tcp.Fresh(isn, id)).value, es))
    ensures var st := Create(env, Tcp.Fresh(isn, id)).value;
            TcpRuns.InOrder(peerIsn, data, Run(env, st, es).value.tcp, AcceptedInput(env, st, es))
  {
    hide Run;
    hide Create;
    hide AcceptedInput;
    hide TcpTrace;
    hide TcpRuns.Run;
    hide TcpRuns.AcceptedBy;
    hide TcpRuns.HonestPeer;
    hide TcpRuns.InPlaceAtZero;
    hide TcpRuns.OpensOnce;
    var st := Create(env, Tcp.Fresh(isn, id)).value;
    var ts := TcpTrace(env, st, es);
    TraceRuns(env, Tcp.Fresh(isn, id), es);
    OpensFirstOnce(ts);
    TcpRuns.ReceivesPrefix(isn, id, peerIsn, data, ts);
    assert TcpRuns.EndsInOrder(isn, id, peerIsn, data, ts);
  }

  /** A packet's payload is new exactly if it comes in sequence. */
  predicate Next(peerIsn: uint32, ps: seq<Tcp.Packet>, p: Tcp.Packet) {
    p.payload != [] ==> SynAckIn(ps) && p.seqNo == Wrap(peerIsn + 1 + |TlsPeer.Carried(ps)|)
  }

  lemma PacketNewIff(
    env: Env, isn: uint32, id: Tcp.uint16, peerIsn: uint32, data: Bytes, es: seq<Event>, st: Tls, p: Tcp.Packet)
    requires Create(env, Tcp.Fresh(isn, id)).Ok? && Run(env, Create(env, Tcp.Fresh(isn, id)).value, es) == Ok(st)
    requires var start := Create(env, Tcp.Fresh(isn, id)).value;
             && Sound(peerIsn, data, Tcp.Fresh(isn, id), TcpTrace(env, start, es))
             && AcceptedInput(env, start, es) == Input(es)
    requires Tcp.ProcessPacket(st.tcp, p).Ok? && TcpRuns.PeerSends(peerIsn, data, st.tcp, |Input(es)|, p)
    requires TcpRuns.InPlace(peerIsn, data, st.tcp, |Input(es)|, p)
    ensures AcceptedOf(st, Packet(p)) == p.payload <==> Next(peerIsn, PacketsOf(es), p)
  {
    hide Run;
    hide Create;
    hide Input;
    hide AcceptedInput;
    hide Sound;
    hide Tcp.ProcessPacket;
    hide TcpTrace;
    hide Tcp.IsOld;
    hide Wrap;
    hide TcpRuns.PeerSends;
    hide TcpRuns.InPlace;
    InOrderSoFar(env, isn, id, peerIsn, data, es);
    ConnectedIff(env, isn, id, es);
    CarriedIsInput(es);
    if p.payload != [] && st.tcp.state == Tcp.Connected {
      NewIffNext(peerIsn, data, st.tcp, Input(es), p);
    }
  }

  lemma PacketTrace(env: Env, st: Tls, es: seq<Event>)
    requires Run(env, st, es).Ok? && es != [] && es[|es| - 1].Packet?
    ensures var before, p := es[..|es| - 1], es[|es| - 1].packet;
            && TcpTrace(env, st, es) == TcpTrace(env, st, before) + [TcpRuns.Receive(p)]
            && PacketsOf(es) == PacketsOf(before) + [p]
            && PacketsOf(es)[..|PacketsOf(before)|] == PacketsOf(before)
            && Input(es) == Input(before) + p.payload
            && Tcp.ProcessPacket(Run(env, st, before).value.tcp, p).Ok?
  {
    hide Tcp.ProcessPacket;
  }

  lemma QuietTrace(env: Env, st: Tls, es: seq<Event>)
    requires Run(env, st, es).Ok? && es != [] && !es[|es| - 1].Packet?
    ensures var before := es[..|es| - 1];
            && TcpTrace(env, st, es)
               == TcpTrace(env, st, before) + Effect(Run(env, st, before).value.tcp, Run(env, st, es).value.tcp)
            && PacketsOf(es) == PacketsOf(before) && Input(es) == Input(before)
            && AcceptedInput(env, st, es) == AcceptedInput(env, st, before)
            && (AllNew(env, st, es) <==> AllNew(env, st, before))
  {
    hide Step;
    hide Effect;
    var before := es[..|es| - 1];
    assert PacketsOf(before) + [] == PacketsOf(before) && Input(before) + [] == Input(before);
    assert AcceptedInput(env, st, before) + [] == AcceptedInput(env, st, before);
  }

  /** With such a transport every payload was new data for TCP if and only if the payloads came in
      sequence, which the packets alone decide. */
  lemma {:induction false} AllNewIffInSequence(
    env: Env, isn: uint32, id: Tcp.uint16, peerIsn: uint32, data: Bytes, es: seq<Event>)
    requires Create(env, Tcp.Fresh(isn, id)).Ok? && Run(env, Create(env, Tcp.Fresh(isn, id)).value, es).Ok?
    requires Sound(peerIsn, data, Tcp.Fresh(isn, id), TcpTrace(env, Create(env, Tcp.Fresh(isn, id)).value, es))
    ensures AllNew(env, Create(env, Tcp.Fresh(isn, id)).value, es) <==> InSequence(peerIsn, PacketsOf(es))
  {
    var c := Tcp.Fresh(isn, id);
    hide Create;
    hide Step;
    hide Input;
    hide TcpTrace;
    hide AcceptedOf;
    hide Effect;
    hide Wrap;
    hide TcpRuns.Run;
    hide TcpRuns.AcceptedBy;
    hide TcpRuns.PeerSends;
    hide TcpRuns.InPlace;
    var st := Create(env, c).value;
    if es != [] {
      var before, e := es[..|es| - 1], es[|es| - 1];
      var mid := Run(env, st, before).value;
      var ts := TcpTrace(env, st, before);
      if e.Packet? {
        PacketTrace(env, st, es);
        HonestLast(peerIsn, data, c, ts, TcpRuns.Receive(e.packet));
        hide TcpRuns.HonestPeer;
        hide TcpRuns.InPlaceAtZero;
        AllNewIffInSequence(env, isn, id, peerIsn, data, before);
        TraceRuns(env, c, before);
        AcceptedAtMost(env, st, before);
        hide AcceptedInput;
        if AllNew(env, st, before) {
          PacketNewIff(env, isn, id, peerIsn, data, before, mid, e.packet);
        }
      } else {
        QuietTrace(env, st, es);
        SoundQuiet(peerIsn, data, c, ts, mid.tcp, Run(env, st, es).value.tcp);
        hide Sound;
        AllNewIffInSequence(env, isn, id, peerIsn, data, before);
      }
    }
  }

  /** With a peer that may repeat segments and whose numbers are unambiguous: TLS is given exactly the
      stream TCP accepted if and only if the payloads came in sequence. */
  lemma InputIsAcceptedIffInSequence(
    env: Env, isn: uint32, id: Tcp.uint16, peerIsn: uint32, data: Bytes, es: seq<Event>)
    requires Create(env, Tcp.Fresh(isn, id)).Ok? && Run(env, Create(env, Tcp.Fresh(isn, id)).value, es).Ok?
    requires TcpRuns.HonestPeer(
               peerIsn, data, Tcp.Fresh(isn, id), TcpTrace(env, Create(env, Tcp.Fresh(isn, id)).value, es))
    requires TcpLimits.Unambiguous(peerIsn, data)
    ensures Input(es) == AcceptedInput(env, Create(env, Tcp.Fresh(isn, id)).value, es)
            <==> InSequence(peerIsn, PacketsOf(es))
  {
    hide Run;
    hide Create;
    hide Input;
    hide AcceptedInput;
    hide AllNew;
    hide InSequence;
    hide TcpTrace;
    hide TcpRuns.Run;
    hide TcpRuns.AcceptedBy;
    hide TcpRuns.HonestPeer;
    hide TcpRuns.InPlaceAtZero;
    hide TcpRuns.OpensOnce;
    hide TcpLimits.Unambiguous;
    var c := Tcp.Fresh(isn, id);
    var st := Create(env, c).value;
    var ts := TcpTrace(env, st, es);
    TraceRuns(env, c, es);
    OpensFirstOnce(ts);
    TcpLimits.UnambiguousInPlace(isn, id, peerIsn, data, ts);
    AllNewIffInSequence(env, isn, id, peerIsn, data, es);
    InputIsAcceptedIff(env, st, es);
  }

  /** A peer's packet in sequence is what the client's state asks for. */
  lemma PacketSound(
    peerIsn: uint32, data: Bytes, c: Tcp.Client, carried: nat, synAck: bool, p: Tcp.Packet)
    requires ConnectedBy(c, synAck)
    requires if !synAck then p.flags == Tcp.SYN_ACK ==> p.seqNo == peerIsn
             else exists off: int :: TcpRuns.FromPeer(peerIsn, data, p, off) && -HALF < off - carried < HALF
    requires p.payload != [] ==> synAck && p.seqNo == Wrap(peerIsn + 1 + carried)
    ensures TcpRuns.PeerSends(peerIsn, data, c, carried, p) && TcpRuns.InPlace(peerIsn, data, c, carried, p)
  {
    if synAck && p.payload != [] {
      var off: int :| TcpRuns.FromPeer(peerIsn, data, p, off) && -HALF < off - carried < HALF;
      OrderAgrees(peerIsn + 1 + off, peerIsn + 1 + carried);
      hide Wrap;
    }
  }

  /** Packets that are a peer's and come in sequence make a sound transport, also past the wrap. */
  lemma {:induction false} SequenceIsSound(
    env: Env, isn: uint32, id: Tcp.uint16, peerIsn: uint32, data: Bytes, es: seq<Event>)
    requires Create(env, Tcp.Fresh(isn, id)).Ok? && Run(env, Create(env, Tcp.Fresh(isn, id)).value, es).Ok?
    requires PeerPackets(peerIsn, data, PacketsOf(es)) && InSequence(peerIsn, PacketsOf(es))
    ensures Sound(peerIsn, data, Tcp.Fresh(isn, id), TcpTrace(env, Create(env, Tcp.Fresh(isn, id)).value, es))
  {
    var c := Tcp.Fresh(isn, id);
    hide Create;
    hide Step;
    hide Input;
    hide AllNew;
    hide AcceptedInput;
    hide Effect;
    hide Wrap;
    hide ConnectedBy;
    hide TcpRuns.FromPeer;
    hide TcpRuns.Run;
    hide TcpRuns.AcceptedBy;
    hide TcpRuns.PeerSends;
    hide TcpRuns.InPlace;
    var st := Create(env, c).value;
    if es == [] {
      assert TcpTrace(env, st, es) == [] + [TcpRuns.Open];
      HonestLast(peerIsn, data, c, [], TcpRuns.Open);
      assert TcpRuns.HonestPeer(peerIsn, data, c, []) && TcpRuns.InPlaceAtZero(peerIsn, data, c, []);
    } else {
      hide TcpTrace;
      var before, e := es[..|es| - 1], es[|es| - 1];
      var mid := Run(env, st, before).value;
      var ts := TcpTrace(env, st, before);
      hide TcpRuns.HonestPeer;
      hide TcpRuns.InPlaceAtZero;
      if e.Packet? {
        PacketTrace(env, st, es);
        SequenceIsSound(env, isn, id, peerIsn, data, before);
        AllNewIffInSequence(env, isn, id, peerIsn, data, before);
        AcceptedAtMost(env, st, before);
        TraceRuns(env, c, before);
        ConnectedIff(env, isn, id, before);
        CarriedIsInput(before);
        PacketSound(peerIsn, data, mid.tcp, |Input(before)|, SynAckIn(PacketsOf(before)), e.packet);
        HonestLast(peerIsn, data, c, ts, TcpRuns.Receive(e.packet));
      } else {
        QuietTrace(env, st, es);
        SequenceIsSound(env, isn, id, peerIsn, data, before);
        SoundQuiet(peerIsn, data, c, ts, mid.tcp, Run(env, st, es).value.tcp);
        hide Sound;
      }
    }
  }

  /** Over every run of a new TLS client on a new TCP client whose packets are a peer's and come in
      sequence: TLS is given a prefix of the peer's stream, which is what TCP accepted, and once connected
      `ack` names the byte after it. */
  lemma TlsReceivesPrefix(
    env: Env, isn: uint32, id: Tcp.uint16, peerIsn: uint32, data: Bytes, es: seq<Event>)
    requires Create(env, Tcp.Fresh(isn, id)).Ok?
    requires PeerPackets(peerIsn, data, PacketsOf(es)) && InSequence(peerIsn, PacketsOf(es))
    ensures var st := Create(env, Tcp.Fresh(isn, id)).value;
            var r := Run(env, st, es);
            r.Ok? ==>
              && Input(es) <= data && AcceptedInput(env, st, es) == Input(es)
              && (SynAckIn(PacketsOf(es)) ==> r.value.tcp.ack == Wrap(peerIsn + 1 + |Input(es)|))
  {
    hide Run;
    hide Create;
    hide Input;
    hide AcceptedInput;
    hide AllNew;
    hide Sound;
    hide TcpTrace;
    hide Wrap;
    var st := Create(env, Tcp.Fresh(isn, id)).value;
    if Run(env, st, es).Ok? {
      SequenceIsSound(env, isn, id, peerIsn, data, es);
      AllNewIffInSequence(env, isn, id, peerIsn, data, es);
      InputIsAcceptedIff(env, st, es);
      InOrderSoFar(env, isn, id, peerIsn, data, es);
      ConnectedIff(env, isn, id, es);
    }
  }

  /** ... and every segment sent by the connected client, bare or with data, carries ISN + 1 + payload bytes sent
      before it and the number of the next byte to come, if the SYN-ACK was the first packet. */
  lemma HeadersInSession(
    env: Env, isn: uint32, id: Tcp.uint16, peerIsn: uint32, data: Bytes, es: seq<Event>)
    requires Create(env, Tcp.Fresh(isn, id)).Ok? && Run(env, Create(env, Tcp.Fresh(isn, id)).value, es).Ok?
    requires PeerPackets(peerIsn, data, PacketsOf(es)) && InSequence(peerIsn, PacketsOf(es))
    requires es != [] && es[0].Packet? && es[0].packet.flags == Tcp.SYN_ACK
    ensures var ts := TcpTrace(env, Create(env, Tcp.Fresh(isn, id)).value, es);
            TcpRuns.Run(Tcp.Fresh(isn, id), ts).Ok? && TcpHeaders.Headers(isn, id, peerIsn, ts)
  {
    hide Run;
    hide Create;
    hide TcpTrace;
    hide TcpRuns.Run;
    hide TcpRuns.AcceptedBy;
    hide TcpRuns.HonestPeer;
    hide TcpRuns.InPlaceAtZero;
    hide TcpRuns.OpensOnce;
    hide TcpRuns.SendsOnlyConnected;
    hide TcpRuns.Legal;
    hide TcpHeaders.Headers;
    hide AcceptedInput;
    hide PeerPackets;
    hide InSequence;
    var c := Tcp.Fresh(isn, id);
    var ts := TcpTrace(env, Create(env, c).value, es);
    SequenceIsSound(env, isn, id, peerIsn, data, es);
    TraceRuns(env, c, es);
    TraceStart(env, Create(env, c).value, es);
    OpensFirstOnce(ts);
    OpensFirstLegal(isn, id, ts);
    SendsConnected(isn, id, ts);
    TcpHeaders.HeadersInEveryRun(isn, id, peerIsn, data, ts);
  }
}
