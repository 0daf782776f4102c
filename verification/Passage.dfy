/** A session that goes through: with room in the packets and in the peer's window nothing throws, and the
    caller gets every message. */
module Passage {
  import opened Outcomes
  import opened Binary
  import opened Scanner
  import opened SeqNumbers
  import opened WssFrames
  import opened WssModel
  import opened WssRuns
  import opened Session
  import TlsRecords
  import Tls = TlsModel
  import TlsRuns
  import TlsHandshake
  import TlsTraffic
  import TlsPeer
  import TlsCalls
  import TlsCuts
  import TlsServer
  import TlsAgreement
  import Tcp = TcpModel
  import TcpRuns
  import TcpLimits
  import TcpOptions
  import ClientHello
  import ByteStream
  import Stack

  // ----- TCP -----

  /** A connected client with `u` bytes in flight. */
  predicate Ready(c: Tcp.Client, isn: uint32, ack: uint32, u: nat) {
    && c.state == Tcp.Connected && c.lastAck == Add(isn, 1) && c.unacked == u && c.sendWnd == 65535 && c.scale == 0
    && c.ack == ack
  }

  /** A segment that acknowledges the SYN only. */
  function Segment(isn: uint32, seqNo: uint32, payload: Bytes): Tcp.Packet {
    Tcp.Packet(true, Tcp.ACK, seqNo, Add(isn, 1), 65535, [], payload)
  }

  lemma SegmentTaken(c: Tcp.Client, isn: uint32, ack: uint32, u: nat, payload: Bytes)
    requires Ready(c, isn, ack, u) && u <= 65535 && payload != []
    ensures var r := Tcp.ProcessPacket(c, Segment(isn, ack, payload));
            r.Ok? && Ready(r.value, isn, Add(ack, |payload|), u)
  {
    TcpLimits.NoShift(65535);
    TcpLimits.SubSelf(c.lastAck);
    TcpRuns.AcceptsByDistance(c, c.lastAck);
    TcpLimits.NotLessSelf(c.ack);
    WrapInRange(u);
    hide Wrap;
    hide Sub;
    hide Less;
    hide Tcp.AcceptsAck;
    hide Tcp.ScaledWindow;
  }

  lemma SentReady(before: Tls.Tls, after: Tls.Tls, n: nat, isn: uint32, ack: uint32, u: nat)
    requires Ready(before.tcp, isn, ack, u) && TlsCalls.SentBytes(before, after, n)
    ensures Ready(after.tcp, isn, ack, u + n)
  {
  }

  // ----- Room -----

  /** Hello, answer and request fit a packet each, and all of them the peer's first window. */
  ghost predicate Roomy(env: Tls.Env) {
    && Tls.EnvOk(env)
    && 86 + |env.host| <= env.room && 93 <= env.room && 29 + |env.request| <= env.room
    && |env.request| <= Tls.STREAM_SIZE
    && 86 + |env.host| + 93 + 29 + |env.request| <= 65535
  }

  /** The server's handshake bytes. */
  function Opening(s: TlsPeer.Server): Bytes {
    TlsHandshake.Remaining(Tls.ServerHello, s.flight, TlsPeer.Closing(s))
  }

  lemma StreamParts(s: TlsPeer.Server)
    ensures TlsPeer.Stream(s) == Opening(s) + TlsPeer.Application(s.records)
    ensures Opening(s) != []
  {
    var f, a, b := s.flight, TlsPeer.Closing(s), TlsPeer.Application(s.records);
    TlsHandshake.RemainingStart(f, a);
    TlsHandshake.RemainingStart(f, a + b);
    hide TlsHandshake.Remaining;
    var r1, r2, r3, r4 :=
      TlsRecords.Record(TlsRecords.HANDSHAKE, f.hello), TlsRecords.Record(TlsRecords.HANDSHAKE, f.certificate),
      TlsRecords.Record(TlsRecords.HANDSHAKE, f.keyExchange), TlsRecords.Record(TlsRecords.HANDSHAKE, f.done);
    Regroup(r1, r2, r3, r4, a, b);
  }

  lemma Regroup(r1: Bytes, r2: Bytes, r3: Bytes, r4: Bytes, a: Bytes, b: Bytes)
    ensures r1 + (r2 + (r3 + (r4 + (a + b)))) == (r1 + (r2 + (r3 + (r4 + a)))) + b
  {
  }

  /** Both parts of the stream fit the receive buffer. */
  predicate Short(s: TlsPeer.Server) {
    |Opening(s)| <= Tls.STREAM_SIZE && |TlsPeer.Application(s.records)| <= Tls.STREAM_SIZE
  }

  // ----- Steps of the session -----

  /** Nothing buffered or returned yet, `u` bytes in flight. */
  ghost predicate Stands(
    env: Tls.Env, s: TlsPeer.Server, w: Wss, later: Bytes, isn: uint32, ack: uint32, u: nat)
    requires TlsPeer.GoodServer(s)
  {
    && Waits(env, s, w, later) && TlsRuns.KeysInv(w.tls)
    && Ready(w.tls.tcp, isn, ack, u) && w.tls.sendBuf == []
  }

  lemma Connects(env: Tls.Env, s: TlsPeer.Server, isn: uint32, id: Tcp.uint16, peerIsn: uint32)
    requires TlsPeer.GoodServer(s)
    ensures var created := Create(env, Tcp.Fresh(isn, id));
            && created.Ok?
            && var r := ProcessPacket(created.value, TcpLimits.SynAckOf(isn, peerIsn, []).packet);
               && r.Ok? && Stands(env, s, r.value, TlsPeer.Stream(s), isn, Wrap(peerIsn + 1), 0)
               && r.value.tls.phase == Tls.ClientHelloToSend && r.value.tls.buf == [] && r.value.state == Init
  {
    assert TcpOptions.WindowScale([]) == Ok(None);
    TcpLimits.HandshakeState(isn, id, peerIsn, []);
    var c := Tcp.Fresh(isn, id);
    hide Tcp.Connect;
    hide Tcp.ProcessPacket;
    hide TcpOptions.WindowScale;
    hide TlsPeer.GoodServer;
    var w := Create(env, c).value;
    var p := TcpLimits.SynAckOf(isn, peerIsn, []).packet;
    CreateWaits(env, s, c);
    TlsRuns.CreateInv(env, c);
    TlsRuns.AnyStep(env, w.tls, TlsRuns.Packet(p));
    hide TlsRuns.KeysInv;
    hide TlsPeer.Aligned;
    hide TlsPeer.Application;
    assert [] + TlsPeer.Stream(s) == TlsPeer.Stream(s);
    PacketWaits(env, s, w, p, TlsPeer.Stream(s));
  }

  /** A drain of one call that returns nothing. */
  lemma OneCall(env: Tls.Env, st: Tls.Tls)
    requires Tls.Receive(env, st).Got? && Tls.Receive(env, st).out == None
    ensures Tls.Drain(env, st) == Tls.Drained([], Tls.Receive(env, st).st)
  {
    hide Tls.Receive;
  }

  /** The call in which nothing is taken out of an empty buffer. */
  lemma EmptyCall(env: Tls.Env, w: Wss, st: Tls.Tls)
    requires w.buf == [] && w.state == Init && Tls.Drain(env, w.tls) == Tls.Drained([], st)
    ensures st.phase != Tls.ServerFinished ==> NextMessage(env, w) == Next(None, w.(tls := st))
    ensures st.phase == Tls.ServerFinished && SendUpgrade(env, st).Ok? ==>
              NextMessage(env, w) == Next(None, w.(state := HttpHandshake, tls := SendUpgrade(env, st).value))
  {
    hide Tls.Drain;
    hide SendUpgrade;
    var v := w.(tls := st);
    assert Concat([]) == [] && w.buf + [] == w.buf;
    assert Fill(env, w) == Ok(v);
    NoFrameInEmpty(v);
    if st.phase == Tls.ServerFinished && SendUpgrade(env, st).Ok? {
      NoFrameInEmpty(v.(state := HttpHandshake, tls := SendUpgrade(env, st).value));
    }
    hide TakeFrame;
    hide Fill;
  }

  lemma HelloSent(env: Tls.Env, st: Tls.Tls)
    requires Roomy(env) && st.tcp.unacked + 86 + |env.host| <= st.tcp.sendWnd
    requires st.phase == Tls.ClientHelloToSend && st.buf == []
    ensures var r := Tls.Receive(env, st);
            && r.Got? && r.out == None && r.st.phase == Tls.ServerHello && r.st.buf == []
            && TlsCalls.SentBytes(st, r.st, 86 + |env.host|)
  {
    Stack.HelloFits(env, st);
    var message := ClientHello.HelloMessage(env.random, env.host);
    ClientHello.LengthsNest(env.random, env.host);
    assert |TlsRecords.Record(TlsRecords.HANDSHAKE, message)| == 86 + |env.host|;
    hide ClientHello.HelloMessage;
    hide TlsRecords.Record;
    hide Tls.EnvOk;
    TlsCalls.TransmitBytes(st.tcp, TlsRecords.Record(TlsRecords.HANDSHAKE, message));
    hide Tcp.Transmit;
  }

  /** The first call sends the hello. */
  lemma SaysHello(env: Tls.Env, s: TlsPeer.Server, w: Wss, isn: uint32, ack: uint32)
    requires TlsPeer.GoodServer(s) && Roomy(env) && Stands(env, s, w, TlsPeer.Stream(s), isn, ack, 0)
    requires w.state == Init && w.tls.phase == Tls.ClientHelloToSend && w.tls.buf == []
    ensures var n := NextMessage(env, w);
            && n.Next? && Stands(env, s, n.w, TlsPeer.Stream(s), isn, ack, 86 + |env.host|)
            && n.w.state == Init && n.w.tls.phase == Tls.ServerHello && n.w.tls.buf == []
  {
    HelloSent(env, w.tls);
    hide Roomy;
    hide Tls.Receive;
    hide TlsPeer.GoodServer;
    hide Waits;
    OneCall(env, w.tls);
    var st := Tls.Receive(env, w.tls).st;
    EmptyCall(env, w, st);
    SentReady(w.tls, st, 86 + |env.host|, isn, ack, 0);
    TlsRuns.ReceiveStep(env, w.tls);
    hide TlsRuns.KeysInv;
    hide NextMessage;
    hide Ready;
    StreamCovers(s);
    WaitsParts(env, s, w, TlsPeer.Stream(s));
    AskWaits(env, s, w, TlsPeer.Stream(s));
  }

  lemma StreamCovers(s: TlsPeer.Server)
    ensures |TlsPeer.Stream(s)| >= |TlsPeer.Application(s.records)|
  {
    StreamParts(s);
  }

  lemma WaitsParts(env: Tls.Env, s: TlsPeer.Server, w: Wss, later: Bytes)
    requires TlsPeer.GoodServer(s) && Waits(env, s, w, later)
    ensures TlsPeer.Aligned(env, s, w.tls, later) && w.buf == []
    ensures |later| >= |TlsPeer.Application(s.records)|
    ensures w.state == HttpHandshake ==> AtStart(s, w.tls, later)
  {
  }

  /** The server's handshake bytes arrive. */
  lemma TakesOpening(env: Tls.Env, s: TlsPeer.Server, w: Wss, isn: uint32, ack: uint32, u: nat)
    requires TlsPeer.GoodServer(s) && Short(s) && Stands(env, s, w, TlsPeer.Stream(s), isn, ack, u)
    requires w.state == Init && w.tls.buf == [] && u <= 65535
    ensures var r := ProcessPacket(w, Segment(isn, ack, Opening(s)));
            && r.Ok? && r.value.state == Init && r.value.tls.phase == w.tls.phase
            && Stands(env, s, r.value, TlsPeer.Application(s.records), isn, Add(ack, |Opening(s)|), u)
  {
    hide TlsPeer.GoodServer;
    hide Waits;
    hide TlsPeer.Stream;
    hide TlsPeer.Application;
    StreamParts(s);
    hide Opening;
    var p := Segment(isn, ack, Opening(s));
    SegmentTaken(w.tls.tcp, isn, ack, u, Opening(s));
    hide Ready;
    hide Tcp.ProcessPacket;
    assert |w.tls.buf| + |p.payload| <= Tls.STREAM_SIZE;
    TlsRuns.AnyStep(env, w.tls, TlsRuns.Packet(p));
    hide TlsRuns.KeysInv;
    PacketWaits(env, s, w, p, TlsPeer.Application(s.records));
  }

  lemma UpgradeSent(env: Tls.Env, st: Tls.Tls)
    requires Roomy(env) && st.keys.Some? && |st.keys.value.clientIv| == 4 && st.sendBuf == []
    requires st.tcp.unacked + 29 + |env.request| <= st.tcp.sendWnd
    ensures SendUpgrade(env, st).Ok? && TlsCalls.SentBytes(st, SendUpgrade(env, st).value, 29 + |env.request|)
  {
    assert [] + env.request == env.request;
    var pushed := Tls.Push(st, env.request).value;
    TlsTraffic.SealedShape(env, TlsRecords.APPLICATION_DATA, st.keys.value, st.writeSeq, env.request);
    var sealing := Tls.SealingOf(st.keys.value, st.writeSeq, TlsRecords.APPLICATION_DATA, env.request);
    hide Tls.EnvOk;
    hide Tls.SealingOf;
    hide Tls.SealedRecord;
    TlsCalls.TransmitBytes(
      st.tcp, Tls.SealedRecord(env, TlsRecords.APPLICATION_DATA, st.writeSeq, sealing));
    hide Tcp.Transmit;
  }

  lemma KeysThere(st: Tls.Tls)
    requires TlsRuns.KeysInv(st) && st.phase == Tls.ServerFinished
    ensures st.keys.Some? && |st.keys.value.clientIv| == 4
  {
  }

  /** The call that finds the whole handshake: it answers, and returns with the connection established. */
  lemma Establishes(env: Tls.Env, s: TlsPeer.Server, st: Tls.Tls, later: Bytes)
    requires TlsPeer.GoodServer(s) && TlsPeer.Fillable(s.records) && TlsPeer.Aligned(env, s, st, later)
    requires TlsRuns.KeysInv(st) && Roomy(env) && 1 <= TlsRuns.Rank(st.phase) <= 4
    requires later == TlsPeer.Application(s.records) && st.tcp.unacked + 93 <= st.tcp.sendWnd
    ensures var r := Tls.Receive(env, st);
            && r.Got? && r.out == None && r.st.phase == Tls.ServerFinished && TlsRuns.KeysInv(r.st)
            && TlsCalls.SentBytes(st, r.st, 93)
  {
    hide Tls.Receive;
    hide TlsPeer.Aligned;
    hide TlsRuns.KeysInv;
    hide TlsPeer.GoodServer;
    hide TlsPeer.Fillable;
    hide Tls.EnvOk;
    TlsCalls.ReceiveFailsIff(env, s, st, later);
    TlsCalls.ReceiveSpinsIff(env, s, st, later);
    QuietReceive(env, s, st, later);
    TlsCalls.ReceiveEstablishes(env, s, st, later);
    TlsCalls.ReceiveSends(env, s, st, later);
    TlsRuns.ReceiveStep(env, st);
  }

  /** The second call answers the flight and sends the request. */
  lemma SendsRequest(env: Tls.Env, s: TlsPeer.Server, w: Wss, isn: uint32, ack: uint32, u: nat)
    requires TlsPeer.GoodServer(s) && TlsPeer.Fillable(s.records) && Roomy(env)
    requires Stands(env, s, w, TlsPeer.Application(s.records), isn, ack, u)
    requires w.state == Init && w.tls.phase == Tls.ServerHello && u + 93 + 29 + |env.request| <= 65535
    ensures var n := NextMessage(env, w);
            && n.Next? && n.w.state == HttpHandshake
            && Stands(env, s, n.w, TlsPeer.Application(s.records), isn, ack, u + 93 + 29 + |env.request|)
  {
    hide TlsPeer.GoodServer;
    hide TlsPeer.Fillable;
    hide TlsPeer.Application;
    hide Waits;
    hide Tls.Receive;
    hide TlsRuns.KeysInv;
    hide SendUpgrade;
    hide NextMessage;
    WaitsParts(env, s, w, TlsPeer.Application(s.records));
    Establishes(env, s, w.tls, TlsPeer.Application(s.records));
    var st := Tls.Receive(env, w.tls).st;
    SentReady(w.tls, st, 93, isn, ack, u);
    KeysThere(st);
    UpgradeSent(env, st);
    SentReady(st, SendUpgrade(env, st).value, 29 + |env.request|, isn, ack, u + 93);
    OneCall(env, w.tls);
    EmptyCall(env, w, st);
    UpgradeKeeps(env, st);
    hide Ready;
    hide Roomy;
    hide TlsPeer.Aligned;
    AskWaits(env, s, w, TlsPeer.Application(s.records));
  }

  /** The application records arrive. */
  lemma TakesRecords(env: Tls.Env, s: TlsPeer.Server, w: Wss, isn: uint32, ack: uint32, u: nat)
    requires TlsPeer.GoodServer(s) && Short(s) && Stands(env, s, w, TlsPeer.Application(s.records), isn, ack, u)
    requires w.state == HttpHandshake && u <= 65535 && TlsPeer.Application(s.records) != []
    ensures var r := ProcessPacket(w, Segment(isn, ack, TlsPeer.Application(s.records)));
            && r.Ok? && r.value.state == HttpHandshake && r.value.buf == []
            && r.value.tls == w.tls.(tcp := r.value.tls.tcp, buf := TlsPeer.Application(s.records))
            && TlsRuns.KeysInv(r.value.tls)
  {
    hide TlsPeer.GoodServer;
    WaitsParts(env, s, w, TlsPeer.Application(s.records));
    hide Waits;
    hide TlsPeer.Application;
    var p := Segment(isn, ack, TlsPeer.Application(s.records));
    SegmentTaken(w.tls.tcp, isn, ack, u, p.payload);
    hide Ready;
    hide Tcp.ProcessPacket;
    assert w.tls.buf + p.payload == p.payload;
    TlsRuns.AnyStep(env, w.tls, TlsRuns.Packet(p));
  }

  lemma DrainsAll(env: Tls.Env, s: TlsPeer.Server, st: Tls.Tls, plain: Bytes)
    requires TlsPeer.GoodServer(s) && Carries(env, s, plain) && Tls.EnvOk(env) && TlsRuns.KeysInv(st)
    requires st.phase == Tls.ServerFinished && st.keys.Some? && SessionKeys(env, s.flight, st.keys.value)
    requires st.buf == TlsPeer.Application(s.records) && st.readSeq == 0
    ensures var d := Tls.Drain(env, st);
            d.Drained? && Concat(d.outs) == plain && d.st.phase == Tls.ServerFinished && |plain| <= |st.buf|
  {
    CarriesOpens(env, s, plain, st.keys.value);
    hide Carries;
    ApplicationParses(s.records);
    TlsCuts.DrainByParse(env, st);
    TlsTraffic.DrainShrinks(env, st);
    hide Tls.Drain;
    hide Parse;
    hide TlsTraffic.OpenAll;
    hide Concat;
    hide TlsRuns.KeysInv;
    hide Tls.EnvOk;
    hide SessionKeys;
  }

  lemma FramesNotRefused(fs: seq<Frame>, w: Wss)
    requires AllSendable(fs) && w.buf == Concat(EncodeAll(fs))
    ensures TakeFrame(w).Next?
  {
    StreamRoundTrip(fs, []);
    assert w.buf + [] == w.buf;
    assert Parse(FrameRule, []) == Parsed([], [], false);
    if Wraps(w.buf) {
      WrapIsBad(w.buf);
    }
    ExtractByRule(w.buf);
    hide ExtractPayload;
    hide PeekHeader;
    hide Concat;
  }

  /** The third call finds the response and all frames. */
  lemma GetsMessages(env: Tls.Env, s: TlsPeer.Server, w: Wss, response: Bytes, fs: seq<Frame>)
    requires TlsPeer.GoodServer(s) && IsResponse(response) && AllSendable(fs) && Short(s)
    requires Carries(env, s, response + Concat(EncodeAll(fs))) && Tls.EnvOk(env) && TlsRuns.KeysInv(w.tls)
    requires w.state == HttpHandshake && w.buf == [] && w.tls.phase == Tls.ServerFinished && w.tls.readSeq == 0
    requires w.tls.keys.Some? && SessionKeys(env, s.flight, w.tls.keys.value)
    requires w.tls.buf == TlsPeer.Application(s.records)
    ensures NextMessage(env, w).Next?
  {
    hide Concat;
    hide Find;
    hide AfterBlankLine;
    hide Carries;
    hide TlsRuns.KeysInv;
    hide Tls.EnvOk;
    hide TlsPeer.GoodServer;
    hide SessionKeys;
    hide NextMessage;
    var frames := Concat(EncodeAll(fs));
    DrainsAll(env, s, w.tls, response + frames);
    FramesNotRefused(fs, w.(state := Connected, buf := frames, tls := Tls.Drain(env, w.tls).st));
    UpgradesAndTakes(env, w, response, frames);
  }

  /** A call that drains response and frames: the response goes, and the first frame is tried. */
  lemma UpgradesAndTakes(env: Tls.Env, w: Wss, response: Bytes, frames: Bytes)
    requires w.state == HttpHandshake && w.buf == [] && IsResponse(response)
    requires var d := Tls.Drain(env, w.tls);
             && d.Drained? && Concat(d.outs) == response + frames && d.st.phase == Tls.ServerFinished
             && |response + frames| <= STREAM_SIZE
             && TakeFrame(w.(state := Connected, buf := frames, tls := d.st)).Next?
    ensures NextMessage(env, w).Next?
  {
    hide Tls.Drain;
    hide Concat;
    hide TakeFrame;
    hide Find;
    var plain := response + frames;
    UpgradeStable(response, frames);
    assert w.buf + plain == plain && [] + frames == frames;
    assert AfterBlankLine(plain) == frames;
    hide AfterBlankLine;
  }

  // ----- The whole session -----

  /** A run so far, with the bytes it carried. */
  ghost predicate Reaches(env: Tls.Env, start: Wss, s: TlsPeer.Server, es: seq<Event>, w: Wss, input: Bytes) {
    Run(env, start, es) == Ok(w) && AnswersRequest(env, start, s, es) && Input(es) == input
  }

  lemma Goes(
    env: Tls.Env, start: Wss, s: TlsPeer.Server, es: seq<Event>, w: Wss, input: Bytes, e: Event, next: Wss)
    requires Reaches(env, start, s, es, w, input) && Step(env, w, e) == Ok(next)
    requires var piece: Bytes := if e.Packet? then e.packet.payload else [];
             w.state == Init ==> |input + piece| + |TlsPeer.Application(s.records)| <= |TlsPeer.Stream(s)|
    ensures Reaches(env, start, s, es + [e], next, input + if e.Packet? then e.packet.payload else [])
  {
    hide Step;
    assert (es + [e])[..|es|] == es;
  }

  /** The packets and calls of such a session. */
  function Schedule(isn: uint32, peerIsn: uint32, s: TlsPeer.Server): seq<Event> {
    var first := Wrap(peerIsn + 1);
    [Packet(TcpLimits.SynAckOf(isn, peerIsn, []).packet), Ask]
    + [Packet(Segment(isn, first, Opening(s))), Ask]
    + [Packet(Segment(isn, Add(first, |Opening(s)|), TlsPeer.Application(s.records))), Ask]
  }

  /** As far as the request. */
  lemma ReachesRequest(env: Tls.Env, isn: uint32, id: Tcp.uint16, peerIsn: uint32, s: TlsPeer.Server)
    returns (start: Wss, w: Wss, es: seq<Event>)
    requires TlsPeer.GoodServer(s) && TlsPeer.Fillable(s.records) && Short(s) && Roomy(env)
    ensures Create(env, Tcp.Fresh(isn, id)) == Ok(start) && w.state == HttpHandshake
    ensures es == [Packet(TcpLimits.SynAckOf(isn, peerIsn, []).packet), Ask]
                  + [Packet(Segment(isn, Wrap(peerIsn + 1), Opening(s))), Ask]
    ensures Reaches(env, start, s, es, w, Opening(s))
    ensures Stands(env, s, w, TlsPeer.Application(s.records), isn, Add(Wrap(peerIsn + 1), |Opening(s)|),
                   86 + |env.host| + 93 + 29 + |env.request|)
  {
    hide TlsPeer.GoodServer;
    hide TlsPeer.Fillable;
    hide Short;
    hide Stands;
    hide Wrap;
    hide NextMessage;
    hide ProcessPacket;
    hide TlsPeer.Application;
    StreamParts(s);
    hide TlsPeer.Stream;
    hide Opening;
    var first := Wrap(peerIsn + 1);
    var p, q := TcpLimits.SynAckOf(isn, peerIsn, []).packet, Segment(isn, first, Opening(s));
    Connects(env, s, isn, id, peerIsn);
    start := Create(env, Tcp.Fresh(isn, id)).value;
    hide Create;
    var w1 := ProcessPacket(start, p).value;
    SaysHello(env, s, w1, isn, first);
    var w2 := NextMessage(env, w1).w;
    TakesOpening(env, s, w2, isn, first, 86 + |env.host|);
    var w3 := ProcessPacket(w2, q).value;
    SendsRequest(env, s, w3, isn, Add(first, |Opening(s)|), 86 + |env.host|);
    w := NextMessage(env, w3).w;
    hide Roomy;
    assert Reaches(env, start, s, [], start, []);
    hide Reaches;
    Goes(env, start, s, [], start, [], Packet(p), w1);
    Goes(env, start, s, [] + [Packet(p)], w1, [], Ask, w2);
    Goes(env, start, s, [] + [Packet(p)] + [Ask], w2, [], Packet(q), w3);
    Goes(env, start, s, [] + [Packet(p)] + [Ask] + [Packet(q)], w3, [] + Opening(s), Ask, w);
    es := [Packet(p), Ask] + [Packet(q), Ask];
    assert es == [] + [Packet(p)] + [Ask] + [Packet(q)] + [Ask];
    assert [] + Opening(s) + [] == Opening(s);
  }

  lemma ReachesEnd(
    env: Tls.Env, isn: uint32, id: Tcp.uint16, peerIsn: uint32, s: TlsPeer.Server, response: Bytes, fs: seq<Frame>)
    returns (start: Wss, w: Wss)
    requires TlsPeer.GoodServer(s) && IsResponse(response) && AllSendable(fs) && Short(s) && Roomy(env)
    requires Carries(env, s, response + Concat(EncodeAll(fs)))
    ensures Create(env, Tcp.Fresh(isn, id)) == Ok(start)
    ensures Reaches(env, start, s, Schedule(isn, peerIsn, s), w, TlsPeer.Stream(s))
  {
    hide TlsPeer.GoodServer;
    hide TlsPeer.Fillable;
    hide TlsPeer.Application;
    hide Carries;
    hide Tls.EnvOk;
    hide Wrap;
    hide Create;
    hide Concat;
    hide IsResponse;
    hide Short;
    hide Reaches;
    hide Stands;
    hide Opening;
    SomethingToCome(env, s, response, Concat(EncodeAll(fs)));
    CarriesFills(env, s, response + Concat(EncodeAll(fs)));
    var es, w4;
    start, w4, es := ReachesRequest(env, isn, id, peerIsn, s);
    var ack := Add(Wrap(peerIsn + 1), |Opening(s)|);
    w := Finishes(env, start, s, es, w4, isn, ack, 86 + |env.host| + 93 + 29 + |env.request|, response, fs);
    var r := Packet(Segment(isn, ack, TlsPeer.Application(s.records)));
    assert es + [r, Ask] == Schedule(isn, peerIsn, s);
  }

  lemma Finishes(
    env: Tls.Env, start: Wss, s: TlsPeer.Server, es: seq<Event>, w4: Wss, isn: uint32, ack: uint32, u: nat,
    response: Bytes, fs: seq<Frame>) returns (w: Wss)
    requires TlsPeer.GoodServer(s) && IsResponse(response) && AllSendable(fs) && Short(s) && Tls.EnvOk(env)
    requires Carries(env, s, response + Concat(EncodeAll(fs))) && TlsPeer.Application(s.records) != []
    requires Reaches(env, start, s, es, w4, Opening(s)) && w4.state == HttpHandshake && u <= 65535
    requires Stands(env, s, w4, TlsPeer.Application(s.records), isn, ack, u)
    ensures Reaches(env, start, s, es + [Packet(Segment(isn, ack, TlsPeer.Application(s.records))), Ask], w,
                    TlsPeer.Stream(s))
  {
    hide TlsPeer.GoodServer;
    hide TlsPeer.Application;
    hide Carries;
    hide Concat;
    hide IsResponse;
    hide Short;
    hide Reaches;
    hide Tls.EnvOk;
    hide NextMessage;
    hide ProcessPacket;
    hide SessionKeys;
    StreamParts(s);
    hide TlsPeer.Stream;
    hide Opening;
    var app := TlsPeer.Application(s.records);
    var r := Segment(isn, ack, app);
    TakesRecords(env, s, w4, isn, ack, u);
    AtRecords(env, s, w4, app);
    hide Stands;
    hide TlsRuns.KeysInv;
    var w5 := ProcessPacket(w4, r).value;
    GetsMessages(env, s, w5, response, fs);
    w := NextMessage(env, w5).w;
    Goes(env, start, s, es, w4, Opening(s), Packet(r), w5);
    Goes(env, start, s, es + [Packet(r)], w5, Opening(s) + app, Ask, w);
    assert es + [Packet(r)] + [Ask] == es + [Packet(r), Ask];
    assert Opening(s) + app + [] == Opening(s) + app;
  }

  lemma AtRecords(env: Tls.Env, s: TlsPeer.Server, w: Wss, later: Bytes)
    requires TlsPeer.GoodServer(s) && Waits(env, s, w, later) && w.state == HttpHandshake && Tls.EnvOk(env)
    ensures w.tls.phase == Tls.ServerFinished && w.tls.readSeq == 0
    ensures w.tls.keys.Some? && SessionKeys(env, s.flight, w.tls.keys.value)
  {
    WaitsParts(env, s, w, later);
    KeysOfSession(env, s, w.tls, later);
  }

  /** For every server and environment with enough room: the session connects, shakes hands, upgrades and
      delivers all messages; nothing throws and nothing hangs. */
  lemma SessionSucceeds(
    env: Tls.Env, isn: uint32, id: Tcp.uint16, peerIsn: uint32, s: TlsPeer.Server, response: Bytes, fs: seq<Frame>)
    requires TlsPeer.GoodServer(s) && IsResponse(response) && AllSendable(fs) && Short(s) && Roomy(env)
    requires Carries(env, s, response + Concat(EncodeAll(fs)))
    ensures var created := Create(env, Tcp.Fresh(isn, id));
            && created.Ok?
            && var r := Run(env, created.value, Schedule(isn, peerIsn, s));
               && r.Ok?
               && Delivered(r.value, Messages(env, created.value, Schedule(isn, peerIsn, s))) == SentMessages(fs)
  {
    var start, w := ReachesEnd(env, isn, id, peerIsn, s, response, fs);
    hide Run;
    hide Messages;
    hide Carries;
    hide IsResponse;
    hide Concat;
    hide TlsPeer.GoodServer;
    hide AnswersRequest;
    hide SentMessages;
    hide Delivered;
    hide Create;
    hide Roomy;
    hide Short;
    var es := Schedule(isn, peerIsn, s);
    assert Complete(es, []);
    hide Schedule;
    hide TlsPeer.Stream;
    assert Input(es) + [] == Input(es);
    hide Input;
    SessionDelivers(env, Tcp.Fresh(isn, id), s, response, fs, es, []);
  }

  // ----- One such session -----

  /** Every byte moved on by `step`. */
  function Shifted(s: Bytes, step: int): (t: Bytes)
    ensures |t| == |s|
  {
    seq(|s|, i requires 0 <= i < |s| => (s[i] + step) % 256)
  }

  function Counting(n: nat): (s: Bytes)
    ensures |s| == n
  {
    seq(n, i => i % 256)
  }

  function KeyByte(key: Bytes): byte {
    if key == [] then 0 else key[0]
  }

  /** A key block that counts up, and a cipher that moves every byte on by the first of the key, stand for the
      foreign code: client and server keys differ, and so do their ciphertexts. */
  const ENV: Tls.Env := Tls.Env(
    transcript => transcript,
    (secret, purpose, seed, n) => Counting(n),
    (key, nonce, aad, plain) => Shifted(plain, KeyByte(key)) + Zeros(16),
    (key, nonce, aad, cipher) => Shifted(cipher, 0 - KeyByte(key)),
    point => point, Zeros(32), Zeros(32), [], [], 1000)

  /** The smallest messages that the client accepts. */
  const FLIGHT: TlsHandshake.Flight := TlsHandshake.Flight(
    Zeros(39) + [0xC0, 0x2F, 0, 0, 0], [11, 0, 0, 0], [12, 0, 0, 0, 3, 0, 29, 0, 0, 0, 0, 0], [14, 0, 0, 0])

  /** "HTTP/1.1 101" and a blank line. */
  const RESPONSE: Bytes := [72, 84, 84, 80, 47, 49, 46, 49, 32, 49, 48, 49] + [13, 10, 13, 10]

  // A Text frame, a Ping and a Binary frame
  const FRAMES: seq<Frame> := [
    Frame(1, false, false, false, true, [65]), Frame(9, false, false, false, true, []),
    Frame(2, false, false, false, true, [66])]
  const ENCODED: seq<Bytes> := [[0x81, 1, 65], [0x89, 0], [0x82, 1, 66]]

  /** Sealed under the server's key, which begins with 16. */
  function Body(plain: Bytes): Bytes {
    TlsServer.SealBody(ENV, Counting(40), 1, Zeros(8), plain)
  }

  lemma EnvIsOk()
    ensures Tls.EnvOk(ENV)
  {
    forall s: Bytes, l: string, d: Bytes, n: nat
      ensures |ENV.prf(s, l, d, n)| == n
    {
      assert ENV.prf(s, l, d, n) == Counting(n);
    }
    forall k: Bytes, n: Bytes, a: Bytes, p: Bytes
      ensures |ENV.seal(k, n, a, p)| == |p| + 16
    {
      assert ENV.seal(k, n, a, p) == Shifted(p, KeyByte(k)) + Zeros(16);
    }
    forall k: Bytes, n: Bytes, a: Bytes, c: Bytes
      ensures |ENV.open(k, n, a, c)| == |c|
    {
      assert ENV.open(k, n, a, c) == Shifted(c, 0 - KeyByte(k));
    }
  }

  lemma CipherInverts()
    ensures Invertible(ENV)
  {
    EnvIsOk();
    hide Tls.EnvOk;
    forall k: Bytes, n: Bytes, a: Bytes, b: Bytes, p: Bytes
      ensures p <= ENV.open(k, n, a, ENV.seal(k, n, b, p))
    {
      var back := Shifted(Shifted(p, KeyByte(k)) + Zeros(16), 0 - KeyByte(k));
      assert ENV.open(k, n, a, ENV.seal(k, n, b, p)) == back;
      forall i | 0 <= i < |p|
        ensures back[i] == p[i]
      {
        MovedBack(p[i], KeyByte(k));
      }
    }
  }

  lemma MovedBack(x: byte, step: byte)
    ensures ((x + step) % 256 - step) % 256 == x
  {
  }

  lemma FlightIsGood()
    ensures TlsHandshake.GoodFlight(FLIGHT)
  {
    var hello, exchange, done := FLIGHT.hello, FLIGHT.keyExchange, FLIGHT.done;
    assert hello[38] == 0 && hello[39..41] == [0xC0, 0x2F];
    assert exchange[5..7] == [0, 0x1D] && exchange[10..12] == [0, 0] && done[1..4] == [0, 0, 0];
    ClientHello.TwoBytes(0xC0, 0x2F);
    ClientHello.TwoBytes(0, 0x1D);
    ClientHello.TwoBytes(0, 0);
    assert Value([0, 0, 0]) == 256 * Value([0, 0]) by {
      var zeros: Bytes := [0, 0, 0];
      assert zeros[..2] == [0, 0];
    }
    hide Value;
  }

  lemma ResponseIsGood()
    ensures IsResponse(RESPONSE)
  {
    assert RESPONSE[0..12] == STATUS && RESPONSE[12..16] == BLANK_LINE;
    FirstIsUnique(RESPONSE, STATUS, Some(0));
    forall i: nat | i < 12
      ensures !ByteStream.OccursAt(RESPONSE, BLANK_LINE, i)
    {
      assert RESPONSE[i] == STATUS[i] != 13;
      assert RESPONSE[i..i + 4][0] == RESPONSE[i];
    }
    FirstIsUnique(RESPONSE, BLANK_LINE, Some(12));
  }

  lemma BodyCarries(plain: Bytes, s: TlsPeer.Server)
    requires TlsPeer.GoodServer(s) && s.records == [Body(plain)] && 0 < |plain| < 1000
    ensures Carries(ENV, s, plain)
  {
    CipherInverts();
    var x := TlsHandshake.Exchanged(ENV, s.flight);
    TlsHandshake.HelloRandom(ENV.random, ENV.host);
    assert x.KeyBlock(ENV) == Counting(40);
    hide Invertible;
    assert TlsAgreement.Seals(ENV, Counting(40), Body(plain), plain);
    hide TlsAgreement.Seals;
    assert SealsAll(ENV, Counting(40), s.records, [plain]);
    ConcatOne(plain);
    hide TlsHandshake.Exchanged;
    hide Concat;
  }

  const PLAIN: Bytes := RESPONSE + [0x81, 1, 65, 0x89, 0, 0x82, 1, 66]

  const SERVER: TlsPeer.Server := TlsPeer.Server(FLIGHT, Zeros(16), [Body(PLAIN)])

  lemma FramesEncoded()
    ensures AllSendable(FRAMES) && EncodeAll(FRAMES) == ENCODED && SentMessages(FRAMES) == [[65], [66]]
    ensures RESPONSE + Concat(ENCODED) == PLAIN
  {
    var b, c := FRAMES[1..], FRAMES[2..];
    assert b[1..] == c && c[1..] == [];
    assert EncodeFrame(FRAMES[0]) == [0x81, 1, 65] && EncodeFrame(FRAMES[1]) == [0x89, 0];
    assert EncodeFrame(FRAMES[2]) == [0x82, 1, 66];
    assert AllSendable([]) && EncodeAll([]) == [] && SentMessages([]) == [];
    assert AllSendable(c) && EncodeAll(c) == [[0x82, 1, 66]] && SentMessages(c) == [[66]];
    assert AllSendable(b) && EncodeAll(b) == [[0x89, 0]] + [[0x82, 1, 66]] && SentMessages(b) == [[66]];
    hide EncodeFrame;
    assert ENCODED[..2] == [[0x81, 1, 65], [0x89, 0]] && ENCODED[..2][..1] == [[0x81, 1, 65]];
    ConcatOne([0x81, 1, 65]);
  }

  lemma ServerIsGood()
    ensures TlsPeer.GoodServer(SERVER) && Short(SERVER)
  {
    FlightIsGood();
    assert |Body(PLAIN)| == 24 + |PLAIN| == 48;
    hide TlsHandshake.GoodFlight;
    assert TlsPeer.Sized(SERVER, 0xFFFF);
    var f, a := SERVER.flight, TlsPeer.Closing(SERVER);
    TlsHandshake.RemainingStart(f, a);
    hide TlsHandshake.Remaining;
    hide Encode;
    assert |a| == 27 && |Opening(SERVER)| <= 200;
    assert SERVER.records[1..] == [];
    assert TlsPeer.Application([]) == [];
  }

  /** The hypotheses can all be met: a server that upgrades and sends a Text frame, a Ping and a Binary frame. */
  lemma SomeSessionSucceeds(isn: uint32, id: Tcp.uint16, peerIsn: uint32)
    ensures var created := Create(ENV, Tcp.Fresh(isn, id));
            && created.Ok?
            && var r := Run(ENV, created.value, Schedule(isn, peerIsn, SERVER));
               && r.Ok?
               && Delivered(r.value, Messages(ENV, created.value, Schedule(isn, peerIsn, SERVER))) == [[65], [66]]
  {
    ServerIsGood();
    ResponseIsGood();
    FramesEncoded();
    BodyCarries(PLAIN, SERVER);
    EnvIsRoomy();
    hide Run;
    hide Messages;
    hide Delivered;
    hide Create;
    hide Schedule;
    hide Carries;
    hide IsResponse;
    hide TlsPeer.GoodServer;
    hide Short;
    hide Roomy;
    hide EncodeAll;
    hide AllSendable;
    hide SentMessages;
    hide Concat;
    SessionSucceeds(ENV, isn, id, peerIsn, SERVER, RESPONSE, FRAMES);
  }

  lemma EnvIsRoomy()
    ensures Roomy(ENV)
  {
    EnvIsOk();
    hide Tls.EnvOk;
  }
}
