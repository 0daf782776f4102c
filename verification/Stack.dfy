/** TCP and TLS together: what reaches the TLS buffer is the peer's byte stream. */
module Stack {
  import opened Outcomes
  import opened Binary
  import opened SeqNumbers
  import opened TlsRecords
  import opened TlsModel
  import ClientHello
  import opened TlsRuns
  import opened TlsHandshake
  import opened TlsTraffic
  import Tcp = TcpModel
  import TcpRuns
  import TcpLimits
  import TcpOptions

  /** Whatever TLS does on its own makes TCP send at most one segment. */
  ghost predicate OneSend(a: Tcp.Client, b: Tcp.Client) {
    a == b || exists payload: Bytes :: Sends(a, payload, b)
  }

  predicate Sends(a: Tcp.Client, payload: Bytes, b: Tcp.Client) {
    Tcp.Transmit(a, Tcp.SendBuffer(a, Tcp.PSH_ACK, false), payload) == Ok(b)
  }

  lemma PayloadIsOneSend(st: Tls, payload: Bytes)
    requires SendPayload(st, payload).Ok?
    ensures OneSend(st.tcp, SendPayload(st, payload).value.tcp)
  {
    hide Tcp.Transmit;
    assert Sends(st.tcp, payload, SendPayload(st, payload).value.tcp);
  }

  lemma KeyExchangeIsOneSend(env: Env, st: Tls)
    requires SendKeyExchangeAndFinished(env, st).Ok?
    ensures OneSend(st.tcp, SendKeyExchangeAndFinished(env, st).value.tcp)
  {
    hide OneSend;
    hide Tcp.Transmit;
    var transcript := st.transcript + KeyExchangeMessage(env);
    var master := DeriveMaster(env, st.serverPub, transcript);
    var keys := DeriveKeys(env, master, st.serverRandom, st.clientRandom).value;
    var s := SealingOf(keys, st.writeSeq, HANDSHAKE, FinishedMessage(env, master, transcript));
    var ready := AfterSealing(st, s).(transcript := transcript, masterSecret := master, keys := Some(keys));
    var payload :=
      Record(HANDSHAKE, KeyExchangeMessage(env)) + CHANGE_CIPHER_RECORD
      + SealedRecord(env, HANDSHAKE, st.writeSeq, s);
    PayloadIsOneSend(ready, payload);
    hide SendPayload;
  }

  lemma HandshakeTcp(env: Env, st: Tls)
    requires IsWhole(st.buf) && ProcessHandshake(env, st).Ok?
    ensures var after := ProcessHandshake(env, st).value;
            && OneSend(st.tcp, after.tcp)
            && (after.tcp == st.tcp || Installed(after))
            && (Installed(st) ==> after.tcp == st.tcp && Installed(after))
  {
    hide OneSend;
    hide SendKeyExchangeAndFinished;
    hide Value;
    hide HelloAccepted;
    hide KeyExchangeReading;
    hide HelloDoneReading;
    hide ServerClosing;
    NoSend(st.tcp);
    if st.phase == ServerHelloDone && HelloDoneReading(st.buf[5..]).Message? {
      KeyExchangeIsOneSend(env, Hash(st, HelloDoneReading(st.buf[5..]).size));
    }
  }

  /** One pass of `receive`: a send is the last thing it does before the keys are installed. */
  lemma OnceTcp(env: Env, st: Tls)
    requires !ReceiveOnce(env, st).Thrown?
    ensures var once := ReceiveOnce(env, st);
            && OneSend(st.tcp, once.st.tcp)
            && (once.st.tcp == st.tcp || once.Returned? || Installed(once.st))
            && (Installed(st) ==> once.st.tcp == st.tcp && Installed(once.st))
  {
    hide OneSend;
    hide SendPayload;
    hide ProcessHandshake;
    hide Decrypted;
    hide Value;
    hide Record;
    hide ClientHello.HelloMessage;
    NoSend(st.tcp);
    if st.phase == ClientHelloToSend && st.buf == [] {
      var message := ClientHello.HelloMessage(env.random, env.host);
      PayloadIsOneSend(st.(clientRandom := env.random, transcript := st.transcript + message),
                       Record(HANDSHAKE, message));
    } else if IsWhole(st.buf) && ProcessHandshake(env, st).Ok? {
      HandshakeTcp(env, st);
    }
  }

  lemma NoSend(a: Tcp.Client)
    ensures OneSend(a, a)
  {
  }

  lemma {:induction false} ReceiveTcp(env: Env, st: Tls)
    requires Receive(env, st).Got?
    ensures OneSend(st.tcp, Receive(env, st).st.tcp)
    ensures Installed(st) ==> Receive(env, st).st.tcp == st.tcp
    decreases |st.buf|
  {
    hide ReceiveOnce;
    hide OneSend;
    OnceTcp(env, st);
    var once := ReceiveOnce(env, st);
    if once.Again? {
      ReceiveTcp(env, once.st);
    }
  }

  lemma QuietStep(env: Env, st: Tls, e: Event)
    requires !e.Packet? && Step(env, st, e).Ok?
    ensures OneSend(st.tcp, Step(env, st, e).value.tcp)
  {
    hide OneSend;
    hide Receive;
    NoSend(st.tcp);
    match e
    case Poll => ReceiveTcp(env, st);
    case Write(_) =>
    case Send =>
      var s := SealingOf(st.keys.value, st.writeSeq, APPLICATION_DATA, st.sendBuf);
      PayloadIsOneSend(AfterSealing(st, s).(sendBuf := []),
                       SealedRecord(env, APPLICATION_DATA, st.writeSeq, s));
      hide SendPayload;
  }

  // ----- The TCP run inside a TLS run -----

  function Effect(a: Tcp.Client, b: Tcp.Client): seq<TcpRuns.Event> {
    if a == b || b.sent == [] then [] else [TcpRuns.Send(Tcp.PSH_ACK, b.sent[|b.sent| - 1].payload)]
  }

  /** TCP events behind one TLS event. */
  function TcpEvents(env: Env, st: Tls, e: Event): seq<TcpRuns.Event>
    requires Step(env, st, e).Ok?
  {
    if e.Packet? then [TcpRuns.Receive(e.packet)] else Effect(st.tcp, Step(env, st, e).value.tcp)
  }

  /** TCP events behind a run of a new client, which begins by opening the connection. */
  ghost function TcpTrace(env: Env, st: Tls, es: seq<Event>): seq<TcpRuns.Event>
    requires Run(env, st, es).Ok?
  {
    if es == [] then [TcpRuns.Open]
    else
      var before := es[..|es| - 1];
      TcpTrace(env, st, before) + TcpEvents(env, Run(env, st, before).value, es[|es| - 1])
  }

  lemma RunSnoc(c: Tcp.Client, ts: seq<TcpRuns.Event>, t: TcpRuns.Event)
    ensures TcpRuns.Run(c, ts).Ok? ==>
              && TcpRuns.Run(c, ts + [t]) == TcpRuns.Step(TcpRuns.Run(c, ts).value, t)
              && TcpRuns.AcceptedBy(c, ts + [t])
                 == TcpRuns.AcceptedBy(c, ts) + TcpRuns.Accepted(TcpRuns.Run(c, ts).value, t)
  {
    hide TcpRuns.Step;
    hide TcpRuns.Accepted;
    assert (ts + [t])[..|ts|] == ts;
  }

  lemma EffectStep(a: Tcp.Client, b: Tcp.Client)
    requires OneSend(a, b) && a != b
    ensures Effect(a, b) != [] && TcpRuns.Step(a, Effect(a, b)[0]) == Ok(b)
  {
    var payload: Bytes :| Sends(a, payload, b);
    assert b.sent[|b.sent| - 1].payload == payload;
  }

  /** The TCP part of the state is a run of the TCP client, and it accepted what TLS says it did. */
  ghost predicate Traces(c: Tcp.Client, ts: seq<TcpRuns.Event>, st: Tls, accepted: Bytes) {
    TcpRuns.Run(c, ts) == Ok(st.tcp) && TcpRuns.AcceptedBy(c, ts) == accepted && OpensFirst(ts)
  }

  lemma PacketTraces(c: Tcp.Client, ts: seq<TcpRuns.Event>, st: Tls, accepted: Bytes, p: Tcp.Packet)
    requires Traces(c, ts, st, accepted) && ProcessPacket(st, p).Ok?
    ensures Traces(c, ts + [TcpRuns.Receive(p)], ProcessPacket(st, p).value, accepted + AcceptedOf(st, Packet(p)))
  {
    hide TcpRuns.Run;
    hide TcpRuns.AcceptedBy;
    hide TcpRuns.Step;
    hide TcpRuns.Accepted;
    PacketTcp(st, p);
    hide ProcessPacket;
    RunSnoc(c, ts, TcpRuns.Receive(p));
  }

  lemma QuietTraces(c: Tcp.Client, ts: seq<TcpRuns.Event>, st: Tls, accepted: Bytes, after: Tls)
    requires Traces(c, ts, st, accepted) && OneSend(st.tcp, after.tcp)
    ensures Traces(c, ts + Effect(st.tcp, after.tcp), after, accepted)
  {
    hide TcpRuns.Run;
    hide TcpRuns.AcceptedBy;
    hide TcpRuns.Step;
    hide TcpRuns.Accepted;
    hide OneSend;
    if st.tcp == after.tcp {
      assert ts + [] == ts;
    } else {
      EffectStep(st.tcp, after.tcp);
      var t := Effect(st.tcp, after.tcp)[0];
      RunSnoc(c, ts, t);
      NotAccepted(st.tcp, t);
      assert accepted + [] == accepted;
    }
  }

  lemma StartTraces(env: Env, c: Tcp.Client)
    requires Create(env, c).Ok?
    ensures Traces(c, [TcpRuns.Open], Create(env, c).value, [])
  {
    RunSnoc(c, [], TcpRuns.Open);
    assert [] + [TcpRuns.Open] == [TcpRuns.Open];
    hide Tcp.Connect;
  }

  lemma {:induction false} TraceRuns(env: Env, c: Tcp.Client, es: seq<Event>)
    requires Create(env, c).Ok? && Run(env, Create(env, c).value, es).Ok?
    ensures var st := Create(env, c).value;
            Traces(c, TcpTrace(env, st, es), Run(env, st, es).value, AcceptedInput(env, st, es))
  {
    hide Traces;
    hide OneSend;
    hide ProcessPacket;
    hide Receive;
    hide Flush;
    hide Effect;
    var st := Create(env, c).value;
    if es == [] {
      StartTraces(env, c);
    } else {
      hide Create;
      var before, e := es[..|es| - 1], es[|es| - 1];
      TraceRuns(env, c, before);
      var mid, ts := Run(env, st, before).value, TcpTrace(env, st, before);
      var accepted := AcceptedInput(env, st, before);
      if e.Packet? {
        PacketTraces(c, ts, mid, accepted, e.packet);
        hide AcceptedOf;
      } else {
        QuietStep(env, mid, e);
        hide Step;
        QuietTraces(c, ts, mid, accepted, Step(env, mid, e).value);
        assert accepted + [] == accepted;
      }
    }
  }

  lemma NotAccepted(c: Tcp.Client, t: TcpRuns.Event)
    requires t.Send?
    ensures TcpRuns.Accepted(c, t) == []
  {
  }

  lemma PacketTcp(st: Tls, p: Tcp.Packet)
    requires ProcessPacket(st, p).Ok?
    ensures TcpRuns.Step(st.tcp, TcpRuns.Receive(p)) == Ok(ProcessPacket(st, p).value.tcp)
  {
    hide Tcp.ProcessPacket;
  }

  predicate OpensFirst(ts: seq<TcpRuns.Event>) {
    && ts != [] && ts[0] == TcpRuns.Open
    && forall i :: 1 <= i < |ts| ==> !ts[i].Open? && !ts[i].Abort?
  }

  lemma {:induction false} OpensFirstOnce(ts: seq<TcpRuns.Event>)
    requires OpensFirst(ts)
    ensures TcpRuns.OpensOnce(ts) && TcpRuns.Abort !in ts
  {
    if |ts| > 1 {
      OpensFirstOnce(ts[..|ts| - 1]);
    } else {
      assert ts[..|ts| - 1] == [];
    }
  }

  /** The failing input in a run of a new client: connected, then the same one-byte segment twice. */
  lemma RepeatedPayloadRun(env: Env, isn: uint32, id: Tcp.uint16)
    requires Create(env, Tcp.Fresh(isn, id)).Ok?
    ensures var st := Create(env, Tcp.Fresh(isn, id)).value;
            exists es: seq<Event> ::
              Run(env, st, es).Ok? && Input(es) == [1, 1] && AcceptedInput(env, st, es) == [1]
  {
    hide Create;
    hide Wrap;
    var st := Create(env, Tcp.Fresh(isn, id)).value;
    var synAck := TcpLimits.SynAckOf(isn, 5, []).packet;
    var p := TcpLimits.ByteAt(isn, 5, [1], 0).packet;
    ConnectedAndByte(env, isn, id, synAck, p);
    var connected := ProcessPacket(st, synAck).value;
    hide Tcp.IsOld;
    hide ProcessPacket;
    hide Run;
    hide AcceptedInput;
    hide AcceptedOf;
    hide Input;
    RepeatedPayloadBuffered(env, connected, p);
    OneEvent(env, st, Packet(synAck));
    RunsTogether(env, st, [Packet(synAck)], [Packet(p), Packet(p)]);
    var es := [Packet(synAck)] + [Packet(p), Packet(p)];
    assert Input(es) == [1, 1] && AcceptedInput(env, st, es) == [1];
  }

  lemma RunsTogether(env: Env, st: Tls, a: seq<Event>, b: seq<Event>)
    requires Run(env, st, a).Ok? && Run(env, Run(env, st, a).value, b).Ok?
    ensures Run(env, st, a + b) == Run(env, Run(env, st, a).value, b) && Input(a + b) == Input(a) + Input(b)
    ensures AcceptedInput(env, st, a + b) == AcceptedInput(env, st, a) + AcceptedInput(env, Run(env, st, a).value, b)
  {
    hide Run;
    hide Input;
    hide AcceptedInput;
    RunAppend(env, st, a, b);
    InputAppend(a, b);
    AcceptedAppend(env, st, a, b);
  }

  lemma ConnectedAndByte(env: Env, isn: uint32, id: Tcp.uint16, synAck: Tcp.Packet, p: Tcp.Packet)
    requires Create(env, Tcp.Fresh(isn, id)).Ok?
    requires synAck == TcpLimits.SynAckOf(isn, 5, []).packet && p == TcpLimits.ByteAt(isn, 5, [1], 0).packet
    ensures var st := Create(env, Tcp.Fresh(isn, id)).value;
            var connected := ProcessPacket(st, synAck);
            && connected.Ok? && connected.value.buf == [] && AcceptedOf(st, Packet(synAck)) == []
            && connected.value.tcp.state == Tcp.Connected
            && ProcessPacket(connected.value, p).Ok? && !Tcp.IsOld(connected.value.tcp, p)
            && p.payload == [1] && Add(p.seqNo, 1) != 0 && synAck.payload == []
  {
    assert TcpOptions.WindowScale([]) == Ok(None);
    hide TcpOptions.WindowScale;
    TcpLimits.HandshakeState(isn, id, 5, []);
    hide Tcp.Connect;
    hide Tcp.ProcessPacket;
    var st := Create(env, Tcp.Fresh(isn, id)).value;
    var c := Tcp.ProcessPacket(st.tcp, synAck).value;
    TcpLimits.ByteTaken(c, isn, 5, [1], 0);
    TcpLimits.NotLessSelf(6);
    hide Less;
  }

  // ----- Data segments -----

  lemma {:induction false} OpensFirstLegal(isn: uint32, id: Tcp.uint16, ts: seq<TcpRuns.Event>)
    requires OpensFirst(ts)
    ensures TcpRuns.Legal(Tcp.Fresh(isn, id), ts)
  {
    hide TcpRuns.Step;
    var c := Tcp.Fresh(isn, id);
    if |ts| > 1 {
      OpensFirstLegal(isn, id, ts[..|ts| - 1]);
    } else {
      assert ts[..|ts| - 1] == [];
      assert TcpRuns.Legal(c, []) && TcpRuns.Run(c, []) == Ok(c);
    }
  }

  predicate IsSynAck(t: TcpRuns.Event) {
    t.Receive? && t.packet.flags == Tcp.SYN_ACK
  }

  lemma SynAckConnects(isn: uint32, id: Tcp.uint16, p: Tcp.Packet)
    requires p.flags == Tcp.SYN_ACK
    ensures var c := Tcp.Connect(Tcp.Fresh(isn, id));
            c.Ok? && Tcp.ProcessPacket(c.value, p).Ok? ==> Tcp.ProcessPacket(c.value, p).value.state == Tcp.Connected
  {
    hide Tcp.AcceptsAck;
    hide Tcp.ScaledWindow;
    hide Wrap;
  }

  /** A client whose first packet is the SYN-ACK is connected from then on. */
  lemma {:induction false} ConnectedAfterSynAck(isn: uint32, id: Tcp.uint16, ts: seq<TcpRuns.Event>)
    requires OpensFirst(ts) && |ts| >= 2 && IsSynAck(ts[1]) && TcpRuns.Run(Tcp.Fresh(isn, id), ts).Ok?
    ensures TcpRuns.Run(Tcp.Fresh(isn, id), ts).value.state == Tcp.Connected
  {
    var c := Tcp.Fresh(isn, id);
    var before, t := ts[..|ts| - 1], ts[|ts| - 1];
    if |ts| == 2 {
      assert before == [TcpRuns.Open] && before[..0] == [];
      assert TcpRuns.Run(c, []) == Ok(c) && TcpRuns.Run(c, before) == Tcp.Connect(c);
      SynAckConnects(isn, id, t.packet);
      hide Tcp.Connect;
      hide Tcp.ProcessPacket;
    } else {
      hide TcpRuns.Step;
      ConnectedAfterSynAck(isn, id, before);
      TcpRuns.StateStep(TcpRuns.Run(c, before).value, t);
    }
  }

  lemma {:induction false} SendsConnected(isn: uint32, id: Tcp.uint16, ts: seq<TcpRuns.Event>)
    requires OpensFirst(ts) && (|ts| >= 2 ==> IsSynAck(ts[1]))
    ensures TcpRuns.SendsOnlyConnected(Tcp.Fresh(isn, id), ts)
  {
    hide TcpRuns.Step;
    hide TcpRuns.Run;
    hide IsSynAck;
    var before := ts[..|ts| - 1];
    if |ts| > 1 {
      SendsConnected(isn, id, before);
      if |ts| > 2 && TcpRuns.Run(Tcp.Fresh(isn, id), before).Ok? {
        ConnectedAfterSynAck(isn, id, before);
      }
      assert |ts| == 2 ==> IsSynAck(ts[|ts| - 1]);
      assert IsSynAck(ts[|ts| - 1]) ==> !ts[|ts| - 1].Send? by {
        NotSend(ts[|ts| - 1]);
      }
    } else {
      assert before == [] && TcpRuns.SendsOnlyConnected(Tcp.Fresh(isn, id), []);
    }
  }

  lemma NotSend(t: TcpRuns.Event)
    ensures IsSynAck(t) ==> !t.Send?
  {
  }

  lemma {:induction false} TraceStart(env: Env, st: Tls, es: seq<Event>)
    requires Run(env, st, es).Ok? && es != [] && es[0].Packet?
    ensures |TcpTrace(env, st, es)| >= 2 && TcpTrace(env, st, es)[1] == TcpRuns.Receive(es[0].packet)
    ensures TcpTrace(env, st, es)[0] == TcpRuns.Open
  {
    hide Step;
    hide Effect;
    var before := es[..|es| - 1];
    if before != [] {
      TraceStart(env, st, before);
    } else {
      assert TcpTrace(env, st, before) == [TcpRuns.Open];
    }
  }

  /** Over every run whose first packet is the SYN-ACK: the handshake messages, the upgrade request and
      all later records are numbered ISN + 1 + bytes sent before. */
  lemma SessionDataContiguous(env: Env, isn: uint32, id: Tcp.uint16, es: seq<Event>)
    requires Create(env, Tcp.Fresh(isn, id)).Ok?
    requires es != [] && es[0].Packet? && es[0].packet.flags == Tcp.SYN_ACK
    ensures var r := Run(env, Create(env, Tcp.Fresh(isn, id)).value, es);
            r.Ok? ==> TcpRuns.Contiguous(isn, r.value.tcp.sent)
  {
    hide Run;
    hide Create;
    hide TcpTrace;
    hide TcpRuns.Contiguous;
    hide TcpRuns.AcceptedBy;
    hide AcceptedInput;
    hide TcpRuns.Run;
    var c := Tcp.Fresh(isn, id);
    var st := Create(env, c).value;
    if Run(env, st, es).Ok? {
      var ts := TcpTrace(env, st, es);
      TraceRuns(env, c, es);
      TraceStart(env, st, es);
      OpensFirstOnce(ts);
      OpensFirstLegal(isn, id, ts);
      SendsConnected(isn, id, ts);
      TcpRuns.DataIsContiguous(isn, id, ts);
    }
  }

  lemma StepGrows(env: Env, st: Tls, e: Event)
    requires Step(env, st, e).Ok?
    ensures st.tcp.sent <= Step(env, st, e).value.tcp.sent
  {
    if e.Packet? {
      PacketTcp(st, e.packet);
      TcpRuns.StepSends(st.tcp, TcpRuns.Receive(e.packet));
      hide TcpRuns.Step;
    } else {
      QuietStep(env, st, e);
      hide Step;
      if st.tcp != Step(env, st, e).value.tcp {
        var payload: Bytes :| Sends(st.tcp, payload, Step(env, st, e).value.tcp);
      }
    }
  }

  lemma {:induction false} SentGrows(env: Env, st: Tls, es: seq<Event>)
    requires Run(env, st, es).Ok?
    ensures st.tcp.sent <= Run(env, st, es).value.tcp.sent
  {
    hide Step;
    if es != [] {
      SentGrows(env, st, es[..|es| - 1]);
      StepGrows(env, Run(env, st, es[..|es| - 1]).value, es[|es| - 1]);
    }
  }

  lemma {:induction false} ContiguousBefore(isn: uint32, sent: seq<Tcp.Segment>, n: nat)
    requires TcpRuns.Contiguous(isn, sent) && n <= |sent|
    ensures TcpRuns.Contiguous(isn, sent[..n])
    decreases |sent|
  {
    if n < |sent| {
      ContiguousBefore(isn, sent[..|sent| - 1], n);
      assert sent[..|sent| - 1][..n] == sent[..n];
    } else {
      assert sent[..n] == sent;
    }
  }

  /** A first packet that does not connect: the hello goes out with the number of the SYN. */
  lemma EarlyHello(env: Env, isn: uint32, id: Tcp.uint16, p: Tcp.Packet)
    requires Create(env, Tcp.Fresh(isn, id)).Ok? && p.payload == [] && p.flags != Tcp.SYN_ACK
    ensures var st := Create(env, Tcp.Fresh(isn, id)).value;
            ProcessPacket(st, p).Ok? && Receive(env, ProcessPacket(st, p).value).Got? ==>
              !TcpRuns.Contiguous(isn, Receive(env, ProcessPacket(st, p).value).st.tcp.sent)
  {
    var st := Create(env, Tcp.Fresh(isn, id)).value;
    if ProcessPacket(st, p).Ok? && Receive(env, ProcessPacket(st, p).value).Got? {
      var waiting := ProcessPacket(st, p).value;
      StillConnecting(isn, id, p);
      hide Tcp.ProcessPacket;
      hide Tcp.Connect;
      hide ClientHello.HelloMessage;
      assert waiting.buf == [];
      var hello := Record(HANDSHAKE, ClientHello.HelloMessage(env.random, env.host));
      assert |hello| >= 5;
      hide Record;
      var sent := Receive(env, waiting).st.tcp.sent;
      assert |sent| == 2 && sent[1].payload == hello && sent[1].seqNo == isn;
      MisnumberedHello(isn, sent);
    }
  }

  lemma StillConnecting(isn: uint32, id: Tcp.uint16, p: Tcp.Packet)
    requires p.flags != Tcp.SYN_ACK
    ensures var c := Tcp.Connect(Tcp.Fresh(isn, id));
            c.Ok? && Tcp.ProcessPacket(c.value, p).Ok? ==>
              var d := Tcp.ProcessPacket(c.value, p).value;
              d.seqNo == isn && |d.sent| == 1 && d.sent[0].payload == []
  {
    hide Tcp.AcceptsAck;
    hide Tcp.ScaledWindow;
    WrapInRange(isn);
    hide Wrap;
  }

  lemma MisnumberedHello(isn: uint32, sent: seq<Tcp.Segment>)
    requires |sent| == 2 && sent[0].payload == [] && sent[1].payload != [] && sent[1].seqNo == isn
    ensures !TcpRuns.Contiguous(isn, sent)
  {
    assert sent[..1] == [sent[0]] && [sent[0]][..0] == [];
    assert TcpRuns.PayloadBytes([]) == 0 && TcpRuns.PayloadBytes([sent[0]]) == 0;
    assert isn != Wrap(isn + 1);
  }

  /** In the worker loop every packet is followed by a call of `receive`, which sends the hello whatever
      TCP's state. So if the first packet carries no data, the data segments of the whole run are
      contiguous if and only if that packet is the SYN-ACK. */
  lemma ContiguousIffSynAckFirst(env: Env, isn: uint32, id: Tcp.uint16, p: Tcp.Packet, es: seq<Event>)
    requires Create(env, Tcp.Fresh(isn, id)).Ok? && p.payload == []
    ensures var r := Run(env, Create(env, Tcp.Fresh(isn, id)).value, [Packet(p), Poll] + es);
            r.Ok? ==> (TcpRuns.Contiguous(isn, r.value.tcp.sent) <==> p.flags == Tcp.SYN_ACK)
  {
    hide Create;
    hide Run;
    hide Receive;
    hide ProcessPacket;
    hide TcpRuns.Contiguous;
    var st := Create(env, Tcp.Fresh(isn, id)).value;
    var first := [Packet(p), Poll];
    if Run(env, st, first + es).Ok? {
      if p.flags == Tcp.SYN_ACK {
        SessionDataContiguous(env, isn, id, first + es);
      } else {
        StartOk(env, st, first, es);
        EarlyHelloRun(env, isn, id, p);
        RunAppend(env, st, first, es);
        Misnumbered(env, isn, Run(env, st, first).value, es);
      }
    }
  }

  lemma EarlyHelloRun(env: Env, isn: uint32, id: Tcp.uint16, p: Tcp.Packet)
    requires Create(env, Tcp.Fresh(isn, id)).Ok? && p.payload == [] && p.flags != Tcp.SYN_ACK
    requires Run(env, Create(env, Tcp.Fresh(isn, id)).value, [Packet(p), Poll]).Ok?
    ensures var r := Run(env, Create(env, Tcp.Fresh(isn, id)).value, [Packet(p), Poll]);
            !TcpRuns.Contiguous(isn, r.value.tcp.sent)
  {
    hide Run;
    hide TcpRuns.Contiguous;
    EarlyHello(env, isn, id, p);
    hide Create;
    hide Receive;
    hide ProcessPacket;
    var st := Create(env, Tcp.Fresh(isn, id)).value;
    assert [Packet(p)] + [Poll] == [Packet(p), Poll];
    StartOk(env, st, [Packet(p)], [Poll]);
    OneEvent(env, st, Packet(p));
    TwoEvents(env, st, Packet(p), Poll);
  }

  /** What was sent stays sent: later segments do not mend the numbering. */
  lemma Misnumbered(env: Env, isn: uint32, st: Tls, es: seq<Event>)
    requires Run(env, st, es).Ok? && !TcpRuns.Contiguous(isn, st.tcp.sent)
    ensures !TcpRuns.Contiguous(isn, Run(env, st, es).value.tcp.sent)
  {
    hide Run;
    hide TcpRuns.Contiguous;
    SentGrows(env, st, es);
    var sent := Run(env, st, es).value.tcp.sent;
    assert sent[..|st.tcp.sent|] == st.tcp.sent;
    if TcpRuns.Contiguous(isn, sent) {
      ContiguousBefore(isn, sent, |st.tcp.sent|);
    }
  }

  /** The failing case is real: a bare ACK of the initial number comes first, and the hello goes out early. */
  lemma EarlyHelloOccurs(env: Env, isn: uint32, id: Tcp.uint16)
    requires |env.random| == 32 && 86 + |env.host| <= env.room && |env.host| < 60000
    ensures var created := Create(env, Tcp.Fresh(isn, id));
            var es := [Packet(Tcp.Packet(true, Tcp.ACK, 7, isn, 65535, [], [])), Poll];
            && created.Ok? && Run(env, created.value, es).Ok?
            && !TcpRuns.Contiguous(isn, Run(env, created.value, es).value.tcp.sent)
  {
    var p := Tcp.Packet(true, Tcp.ACK, 7, isn, 65535, [], []);
    var created := Create(env, Tcp.Fresh(isn, id));
    BareAckTaken(isn, id, p);
    var st := created.value;
    var waiting := ProcessPacket(st, p).value;
    assert waiting.buf == [] + [] == [] && waiting.phase == ClientHelloToSend;
    HelloFits(env, waiting);
    hide Tcp.Connect;
    hide Tcp.ProcessPacket;
    hide SendClientHello;
    assert Receive(env, waiting).Got?;
    OneEvent(env, st, Packet(p));
    TwoEvents(env, st, Packet(p), Poll);
    hide Run;
    hide ProcessPacket;
    hide Receive;
    EarlyHelloRun(env, isn, id, p);
  }

  lemma BareAckTaken(isn: uint32, id: Tcp.uint16, p: Tcp.Packet)
    requires p == Tcp.Packet(true, Tcp.ACK, 7, isn, 65535, [], [])
    ensures var c := Tcp.Connect(Tcp.Fresh(isn, id));
            && c.Ok? && Tcp.ProcessPacket(c.value, p).Ok?
            && Tcp.ProcessPacket(c.value, p).value.unacked == 1 && Tcp.ProcessPacket(c.value, p).value.sendWnd == 65535
  {
    var c := Tcp.Connect(Tcp.Fresh(isn, id)).value;
    TcpLimits.SubSelf(isn);
    TcpRuns.AcceptsByDistance(c, isn);
    TcpLimits.NoShift(65535);
    hide Tcp.AcceptsAck;
    hide Tcp.ScaledWindow;
    hide Wrap;
  }

  lemma HelloFits(env: Env, st: Tls)
    requires |env.random| == 32 && 86 + |env.host| <= env.room && ClientHello.HostFits(env.host)
    ensures SendClientHello(env, st).Ok? <==> st.tcp.unacked + 86 + |env.host| <= st.tcp.sendWnd
  {
    ClientHello.LengthsNest(env.random, env.host);
    hide ClientHello.HelloMessage;
    hide Encode;
  }

  lemma {:induction false} StartOk(env: Env, st: Tls, a: seq<Event>, b: seq<Event>)
    requires Run(env, st, a + b).Ok?
    ensures Run(env, st, a).Ok?
  {
    hide Step;
    if b == [] {
      assert a + b == a;
    } else {
      assert (a + b)[..|a + b| - 1] == a + b[..|b| - 1];
      StartOk(env, st, a, b[..|b| - 1]);
    }
  }

  /** Every segment with data carries PSH and ACK, 0x18. */
  predicate AllPushed(sent: seq<Tcp.Segment>) {
    forall i :: 0 <= i < |sent| && sent[i].payload != [] ==> sent[i].flags == 0x18
  }

  lemma StepPushed(env: Env, st: Tls, e: Event)
    requires AllPushed(st.tcp.sent) && Step(env, st, e).Ok?
    ensures AllPushed(Step(env, st, e).value.tcp.sent)
  {
    var after := Step(env, st, e).value.tcp;
    if e.Packet? {
      PacketTcp(st, e.packet);
      TcpRuns.StepSends(st.tcp, TcpRuns.Receive(e.packet));
      hide TcpRuns.Step;
    } else {
      QuietStep(env, st, e);
      if st.tcp != after {
        var payload: Bytes :| Sends(st.tcp, payload, after);
      }
    }
    hide Step;
  }

  lemma {:induction false} DataIsPushed(env: Env, isn: uint32, id: Tcp.uint16, es: seq<Event>)
    requires Create(env, Tcp.Fresh(isn, id)).Ok?
    ensures var r := Run(env, Create(env, Tcp.Fresh(isn, id)).value, es); r.Ok? ==> AllPushed(r.value.tcp.sent)
  {
    var st := Create(env, Tcp.Fresh(isn, id)).value;
    if es != [] {
      hide Create;
      hide Step;
      hide AllPushed;
      DataIsPushed(env, isn, id, es[..|es| - 1]);
      if Run(env, st, es).Ok? {
        StepPushed(env, Run(env, st, es[..|es| - 1]).value, es[|es| - 1]);
      }
    }
  }
}
