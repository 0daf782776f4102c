/** The handshake as the transcript sees it: whatever way the server's flight is cut into packets, the
    keys are derived from exactly the messages of section 7.4.9 of RFC 5246 (section 3 of RFC 7627). */
module TlsHandshake {
  import opened Outcomes
  import opened Binary
  import opened TlsRecords
  import opened TlsModel
  import opened TlsRuns
  import ClientHello
  import S = TlsServer
  import Tcp = TcpModel

  /** The four messages of the server, each filling one record. */
  datatype Flight = Flight(hello: Bytes, certificate: Bytes, keyExchange: Bytes, done: Bytes)

  predicate GoodHello(m: Bytes) {
    |m| < 0x1_0000 && HelloAccepted(m)
  }

  predicate GoodCertificate(m: Bytes) {
    4 <= |m| < 0x1_0000 && m[0] == CERTIFICATE
  }

  predicate GoodKeyExchange(m: Bytes) {
    |m| < 0x1_0000 && KeyExchangeReading(m) == Message(|m|)
  }

  predicate GoodDone(m: Bytes) {
    |m| < 0x1_0000 && HelloDoneReading(m) == Message(|m|)
  }

  predicate GoodFlight(f: Flight) {
    GoodHello(f.hello) && GoodCertificate(f.certificate) && GoodKeyExchange(f.keyExchange) && GoodDone(f.done)
  }

  function Public(m: Bytes): Bytes
    requires GoodKeyExchange(m)
  {
    m[8..8 + m[7] as int]
  }

  function PublicArea(m: Bytes): PublicKeyArea
    requires GoodKeyExchange(m)
  {
    Public(m) + Zeros(2048)[|Public(m)|..]
  }

  /** Everything hashed before the keys are derived, without record headers. */
  function Transcript(env: Env, f: Flight): Bytes {
    ClientHello.HelloMessage(env.random, env.host) + f.hello + f.certificate + f.keyExchange + f.done
    + KeyExchangeMessage(env)
  }

  function Master(env: Env, f: Flight): Bytes
    requires GoodFlight(f)
  {
    DeriveMaster(env, PublicArea(f.keyExchange), Transcript(env, f))
  }

  /** The wire form of the flight from phase `phase` on, followed by `tail`. */
  function Remaining(phase: Phase, f: Flight, tail: Bytes): Bytes
    decreases 7 - Rank(phase)
  {
    match phase
    case ServerHelloDone => Record(HANDSHAKE, f.done) + tail
    case ServerKeyExchange => Record(HANDSHAKE, f.keyExchange) + Remaining(ServerHelloDone, f, tail)
    case ServerCertificate => Record(HANDSHAKE, f.certificate) + Remaining(ServerKeyExchange, f, tail)
    case ServerHello => Record(HANDSHAKE, f.hello) + Remaining(ServerCertificate, f, tail)
    case ClientHelloToSend => Remaining(ServerHello, f, tail)
    case _ => tail
  }

  /** What the transcript holds on entering `phase`. */
  function Hashed(env: Env, phase: Phase, f: Flight): Bytes {
    var hello := ClientHello.HelloMessage(env.random, env.host);
    match phase
    case ClientHelloToSend => []
    case ServerHello => hello
    case ServerCertificate => hello + f.hello
    case ServerKeyExchange => hello + f.hello + f.certificate
    case ServerHelloDone => hello + f.hello + f.certificate + f.keyExchange
    case _ => Transcript(env, f)
  }

  /** The state agrees with the part of the flight consumed so far; `later` are the bytes of the
      server's stream that have not arrived yet. */
  ghost predicate Follows(env: Env, f: Flight, tail: Bytes, st: Tls, later: Bytes)
    requires GoodFlight(f)
  {
    && st.transcript == Hashed(env, st.phase, f)
    && st.clientRandom == env.random
    && (Rank(st.phase) <= 4 ==> st.buf + later == Remaining(st.phase, f, tail) && st.sealings == [] && st.keys.None?)
    && (2 <= Rank(st.phase) ==> st.serverRandom == f.hello[6..38])
    && (Rank(st.phase) <= 3 ==> st.serverPub == Zeros(2048))
    && (4 <= Rank(st.phase) ==> st.serverPub == PublicArea(f.keyExchange))
    && Rank(st.phase) != 5
    && (st.phase == ClientFinished ==> st.buf + later == tail)
    && (6 <= Rank(st.phase) ==> Derived(env, f, st))
  }

  /** Master secret, keys and the verified Finished message come from the flight alone. */
  ghost predicate Derived(env: Env, f: Flight, st: Tls)
    requires GoodFlight(f)
  {
    && st.masterSecret == Master(env, f)
    && st.keys.Some?
    && DeriveKeys(env, Master(env, f), f.hello[6..38], env.random) == Ok(st.keys.value)
    && st.sealings != []
    && st.sealings[0].plain == FinishedMessage(env, Master(env, f), Transcript(env, f))
  }

  /** A whole record at the head of what arrived is the next message of the flight. */
  lemma HeadIsRecord(buf: Bytes, later: Bytes, contentType: byte, m: Bytes, rest: Bytes)
    requires |m| < 0x1_0000 && buf + later == Record(contentType, m) + rest && |buf| >= 5
    ensures BodySize(buf) == |m| && IsTls12(buf) && buf[0] == contentType
    ensures IsWhole(buf) ==>
              && |buf| >= 5 + |m| && buf[5..5 + |m|] == m && buf[5 + |m|..] + later == rest
              && buf[5..] == m + buf[5 + |m|..]
  {
    RecordHeader(contentType, m, rest);
    HeaderStable(buf, later);
    var all := buf + later;
    assert all[5..] == m + rest;
    if IsWhole(buf) {
      assert buf[5..5 + |m|] == all[5..5 + |m|] == m;
      assert all[5 + |m|..] == buf[5 + |m|..] + later;
    }
  }

  lemma HelloStep(env: Env, f: Flight, tail: Bytes, st: Tls, later: Bytes)
    requires GoodFlight(f) && Follows(env, f, tail, st, later) && IsWhole(st.buf) && st.phase == ServerHello
    ensures ProcessServerHello(st).Ok? && Follows(env, f, tail, ProcessServerHello(st).value, later)
  {
    RemainingStart(f, tail);
    hide Remaining;
    hide Record;
    hide ClientHello.HelloMessage;
    hide Value;
    hide Zeros;
    hide Derived;
    hide Transcript;
    var m := f.hello;
    HeadIsRecord(st.buf, later, HANDSHAKE, m, Remaining(ServerCertificate, f, tail));
    var b := st.buf[5..];
    var at := 39 + m[38] as int;
    assert b[at..at + 2] == m[at..at + 2] && b[6..38] == m[6..38];
  }

  lemma CertificateStep(env: Env, f: Flight, tail: Bytes, st: Tls, later: Bytes)
    requires GoodFlight(f) && Follows(env, f, tail, st, later) && IsWhole(st.buf) && st.phase == ServerCertificate
    ensures ProcessCertificate(st).Ok? && Follows(env, f, tail, ProcessCertificate(st).value, later)
  {
    RemainingStart(f, tail);
    hide Remaining;
    hide Record;
    hide ClientHello.HelloMessage;
    hide Value;
    hide Zeros;
    hide Derived;
    hide Transcript;
    HeadIsRecord(st.buf, later, HANDSHAKE, f.certificate, Remaining(ServerKeyExchange, f, tail));
  }

  lemma KeyExchangeStable(m: Bytes, rest: Bytes)
    requires GoodKeyExchange(m)
    ensures KeyExchangeReading(m + rest) == Message(|m|)
  {
    var n := 10 + m[7] as int;
    assert (m + rest)[n..n + 2] == m[n..n + 2] && (m + rest)[5..7] == m[5..7];
  }

  lemma KeyExchangeStep(env: Env, f: Flight, tail: Bytes, st: Tls, later: Bytes)
    requires GoodFlight(f) && Follows(env, f, tail, st, later) && IsWhole(st.buf) && st.phase == ServerKeyExchange
    ensures ProcessServerKeyExchange(st).Ok?
    ensures Follows(env, f, tail, ProcessServerKeyExchange(st).value, later)
  {
    RemainingStart(f, tail);
    hide Remaining;
    hide Record;
    hide ClientHello.HelloMessage;
    hide Value;
    hide Zeros;
    hide Derived;
    hide Transcript;
    var m := f.keyExchange;
    HeadIsRecord(st.buf, later, HANDSHAKE, m, Remaining(ServerHelloDone, f, tail));
    var b := st.buf[5..];
    KeyExchangeStable(m, st.buf[5 + |m|..]);
    assert b[8..8 + b[7] as int] == Public(m);
    hide KeyExchangeReading;
  }

  lemma DoneStep(env: Env, f: Flight, tail: Bytes, st: Tls, later: Bytes)
    requires GoodFlight(f) && Follows(env, f, tail, st, later) && IsWhole(st.buf) && st.phase == ServerHelloDone
    requires ProcessServerHelloDone(env, st).Ok?
    ensures Follows(env, f, tail, ProcessServerHelloDone(env, st).value, later)
  {
    RemainingStart(f, tail);
    hide Remaining;
    hide Record;
    hide ClientHello.HelloMessage;
    hide Value;
    hide Zeros;
    var m := f.done;
    HeadIsRecord(st.buf, later, HANDSHAKE, m, tail);
    hide Tcp.Transmit;
    hide DeriveMaster;
    hide FinishedMessage;
    hide KeyExchangeMessage;
    hide SealingOf;
    hide SealedRecord;
    assert st.buf[5..][1..4] == m[1..4];
    var hashed := Hash(st, |m|);
    assert hashed.transcript + KeyExchangeMessage(env) == Transcript(env, f);
  }

  /** The client's own hello starts the transcript. */
  lemma SendHelloFollows(env: Env, f: Flight, tail: Bytes, st: Tls, later: Bytes)
    requires GoodFlight(f) && Follows(env, f, tail, st, later) && st.phase == ClientHelloToSend
    requires SendClientHello(env, st).Ok?
    ensures Follows(env, f, tail, SendClientHello(env, st).value.(phase := ServerHello), later)
  {
    hide ClientHello.HelloMessage;
    hide Tcp.Transmit;
    hide Record;
    RemainingStart(f, tail);
    hide Remaining;
  }

  lemma FinishedFollows(env: Env, f: Flight, tail: Bytes, st: Tls, later: Bytes)
    requires GoodFlight(f) && Follows(env, f, tail, st, later) && Rank(st.phase) >= 6
    ensures forall after: Tls ::
              (after.phase == ServerFinished || (after.phase == st.phase && after.buf == st.buf))
              && after == st.(phase := after.phase, buf := after.buf, readSeq := after.readSeq)
              ==> Follows(env, f, tail, after, later)
  {
    hide Transcript;
    hide Derived;
    hide ClientHello.HelloMessage;
    forall after: Tls |
      (after.phase == ServerFinished || (after.phase == st.phase && after.buf == st.buf))
      && after == st.(phase := after.phase, buf := after.buf, readSeq := after.readSeq)
      ensures Follows(env, f, tail, after, later)
    {
      assert Derived(env, f, after) by {
        DerivedAgain(env, f, st, after);
      }
    }
  }

  lemma DerivedAgain(env: Env, f: Flight, st: Tls, after: Tls)
    requires GoodFlight(f) && Derived(env, f, st)
    requires after == st.(phase := after.phase, buf := after.buf, readSeq := after.readSeq)
    ensures Derived(env, f, after)
  {
  }

  lemma HandshakeFollows(env: Env, f: Flight, tail: Bytes, st: Tls, later: Bytes)
    requires GoodFlight(f) && Follows(env, f, tail, st, later) && IsWhole(st.buf)
    requires ProcessHandshake(env, st).Ok?
    ensures Follows(env, f, tail, ProcessHandshake(env, st).value, later)
  {
    hide Follows;
    hide ProcessServerHello;
    hide ProcessCertificate;
    hide ProcessServerKeyExchange;
    hide ProcessServerHelloDone;
    match st.phase
    case ServerHello => HelloStep(env, f, tail, st, later);
    case ServerCertificate => CertificateStep(env, f, tail, st, later);
    case ServerKeyExchange => KeyExchangeStep(env, f, tail, st, later);
    case ServerHelloDone => DoneStep(env, f, tail, st, later);
    case ClientFinished => FinishedFollows(env, f, tail, st, later);
    case _ =>
  }

  /** One pass of `receive` follows the flight. */
  lemma OnceFollows(env: Env, f: Flight, tail: Bytes, st: Tls, later: Bytes)
    requires GoodFlight(f) && Follows(env, f, tail, st, later) && !ReceiveOnce(env, st).Thrown?
    ensures Follows(env, f, tail, ReceiveOnce(env, st).st, later)
  {
    hide Follows;
    hide ProcessHandshake;
    hide SendClientHello;
    hide Decrypted;
    if st.phase == ClientHelloToSend && st.buf == [] {
      SendHelloFollows(env, f, tail, st, later);
    } else if IsWhole(st.buf) && IsTls12(st.buf) {
      if st.phase == ServerFinished {
        FinishedFollows(env, f, tail, st, later);
      } else {
        HandshakeFollows(env, f, tail, st, later);
      }
    }
  }

  lemma {:induction false} ReceiveFollows(env: Env, f: Flight, tail: Bytes, st: Tls, later: Bytes)
    requires GoodFlight(f) && Follows(env, f, tail, st, later) && Receive(env, st).Got?
    ensures Follows(env, f, tail, Receive(env, st).st, later)
    decreases |st.buf|
  {
    hide ReceiveOnce;
    hide Follows;
    OnceFollows(env, f, tail, st, later);
    var once := ReceiveOnce(env, st);
    if once.Again? {
      ReceiveFollows(env, f, tail, once.st, later);
    }
  }

  /** Bytes the packets of a run carried. */
  function Input(es: seq<Event>): Bytes {
    if es == [] then []
    else
      var last := es[|es| - 1];
      Input(es[..|es| - 1]) + if last.Packet? then last.packet.payload else []
  }

  lemma {:induction false} InputAppend(a: seq<Event>, b: seq<Event>)
    ensures Input(a + b) == Input(a) + Input(b)
  {
    if b == [] {
      assert a + b == a;
    } else {
      InputAppend(a, b[..|b| - 1]);
      assert (a + b)[..|a + b| - 1] == a + b[..|b| - 1];
    }
  }

  lemma FlushFollows(env: Env, f: Flight, tail: Bytes, st: Tls, later: Bytes)
    requires GoodFlight(f) && Follows(env, f, tail, st, later) && Flush(env, st).Ok?
    ensures Follows(env, f, tail, Flush(env, st).value, later)
  {
    hide Tcp.Transmit;
    hide Remaining;
    hide Transcript;
    hide Master;
    hide ClientHello.HelloMessage;
    hide SealedRecord;
  }

  lemma StepFollows(env: Env, f: Flight, tail: Bytes, st: Tls, later: Bytes, e: Event)
    requires GoodFlight(f) && Follows(env, f, tail, st, later) && Step(env, st, e).Ok?
    requires e.Packet? ==> e.packet.payload <= later
    ensures Follows(env, f, tail, Step(env, st, e).value,
                    if e.Packet? then later[|e.packet.payload|..] else later)
  {
    hide Receive;
    hide Flush;
    hide Tcp.ProcessPacket;
    hide Remaining;
    hide Transcript;
    hide Master;
    hide ClientHello.HelloMessage;
    match e
    case Packet(p) =>
      assert (st.buf + p.payload) + later[|p.payload|..] == st.buf + later;
    case Poll => ReceiveFollows(env, f, tail, st, later);
    case Write(bytes) =>
    case Send => FlushFollows(env, f, tail, st, later);
  }

  lemma {:induction false} RunFollows(
    env: Env, tcp: Tcp.Client, f: Flight, tail: Bytes, es: seq<Event>, later: Bytes)
    requires GoodFlight(f) && Create(env, tcp).Ok? && Run(env, Create(env, tcp).value, es).Ok?
    requires Input(es) + later == Remaining(ServerHello, f, tail)
    ensures var st := Run(env, Create(env, tcp).value, es).value;
            && Follows(env, f, tail, st, later)
            && (Installed(st) ==> st.transcript == Transcript(env, f) && Derived(env, f, st))
  {
    hide Step;
    hide Remaining;
    hide Derived;
    var start := Create(env, tcp).value;
    if es == [] {
      hide Tcp.Connect;
      assert [] + later == later;
      assert Remaining(ClientHelloToSend, f, tail) == Remaining(ServerHello, f, tail) by {
        RemainingStart(f, tail);
      }
    } else {
      var before, e := es[..|es| - 1], es[|es| - 1];
      var piece: Bytes := if e.Packet? then e.packet.payload else [];
      assert Input(before) + (piece + later) == Input(es) + later;
      RunFollows(env, tcp, f, tail, before, piece + later);
      StepFollows(env, f, tail, Run(env, start, before).value, piece + later, e);
      assert (piece + later)[|piece|..] == later;
      assert piece == [] ==> piece + later == later;
    }
  }

  lemma RemainingStart(f: Flight, tail: Bytes)
    ensures Remaining(ClientHelloToSend, f, tail) == Remaining(ServerHello, f, tail)
    ensures Remaining(ServerHello, f, tail) == Record(HANDSHAKE, f.hello) + Remaining(ServerCertificate, f, tail)
    ensures Remaining(ServerCertificate, f, tail)
         == Record(HANDSHAKE, f.certificate) + Remaining(ServerKeyExchange, f, tail)
    ensures Remaining(ServerKeyExchange, f, tail)
         == Record(HANDSHAKE, f.keyExchange) + Remaining(ServerHelloDone, f, tail)
    ensures Remaining(ServerHelloDone, f, tail) == Record(HANDSHAKE, f.done) + tail
  {
  }

  // ----- Agreement with the server -----

  /** The exchange as the server knows it, with the client's two messages. */
  function Exchanged(env: Env, f: Flight): S.Exchange
    requires GoodFlight(f)
  {
    S.Exchange(ClientHello.HelloMessage(env.random, env.host), f.hello, f.certificate, f.keyExchange, f.done,
               KeyExchangeMessage(env), env.exchange(S.PublicKey(f.keyExchange)))
  }

  /** Master secret, the four keys and the Finished message are those of the server, which derives them apart. */
  ghost predicate Agrees(env: Env, f: Flight, st: Tls)
    requires GoodFlight(f)
  {
    var x := Exchanged(env, f);
    && |x.clientHello| >= 38 && st.sealings != [] && |x.KeyBlock(env)| == 40
    && st.transcript == x.Messages() && st.masterSecret == x.MasterSecret(env)
    && var block := x.KeyBlock(env);
       && st.keys == Some(Keys(block[..16], block[16..32], block[32..36], block[36..]))
       && st.sealings[0].plain == x.ClientFinished(env)
  }

  lemma PublicAgrees(m: Bytes)
    requires GoodKeyExchange(m)
    ensures PublicArea(m)[..32] == S.PublicKey(m)
  {
    var pub := Public(m);
    var area := PublicArea(m);
    forall i | 0 <= i < 32
      ensures area[..32][i] == S.PublicKey(m)[i]
    {
    }
  }

  lemma HelloRandom(random: Bytes, host: Bytes)
    requires |random| == 32
    ensures var m := ClientHello.HelloMessage(random, host); |m| >= 38 && m[6..38] == random
  {
    var rest := ClientHello.SUITES + Encode(2, |ClientHello.Extensions(host)|) + ClientHello.Extensions(host);
    var body := ClientHello.HelloBody(random, host);
    assert body == [3, 3] + random + rest;
    hide ClientHello.Extensions;
    var m := ClientHello.HelloMessage(random, host);
    assert m == ([CLIENT_HELLO] + Encode(3, |body|) + [3, 3]) + random + rest;
  }

  lemma DerivedAgrees(env: Env, f: Flight, st: Tls)
    requires EnvOk(env) && GoodFlight(f) && Derived(env, f, st) && st.transcript == Transcript(env, f)
    ensures Agrees(env, f, st)
  {
    PublicAgrees(f.keyExchange);
    HelloRandom(env.random, env.host);
    var x := Exchanged(env, f);
    hide KeyExchangeMessage;
    hide ClientHello.HelloMessage;
    hide PublicArea;
    hide S.PublicKey;
    hide GoodHello;
    hide GoodKeyExchange;
    assert x.Messages() == Transcript(env, f);
    hide Transcript;
    hide S.Exchange.Messages;
    assert Master(env, f) == x.MasterSecret(env);
    assert Encode(3, 12) == [0, 0, 12];
  }

  /** Over every run of a new client whose input is cut from a server stream that starts with the
      flight: once the keys are installed, the transcript is the six messages in order, and master
      secret, keys and the Finished message are those that the server derives from them. */
  lemma TranscriptInEveryRun(
    env: Env, tcp: Tcp.Client, f: Flight, tail: Bytes, es: seq<Event>, later: Bytes)
    requires GoodFlight(f) && Create(env, tcp).Ok? && Run(env, Create(env, tcp).value, es).Ok?
    requires Input(es) + later == Remaining(ServerHello, f, tail)
    ensures var st := Run(env, Create(env, tcp).value, es).value;
            && Follows(env, f, tail, st, later)
            && (Installed(st) ==> st.transcript == Transcript(env, f) && Derived(env, f, st))
            && (Installed(st) && EnvOk(env) ==> Agrees(env, f, st))
  {
    hide Run;
    hide Create;
    hide Remaining;
    hide Derived;
    hide Follows;
    hide Transcript;
    hide EnvOk;
    hide Agrees;
    RunFollows(env, tcp, f, tail, es, later);
    var st := Run(env, Create(env, tcp).value, es).value;
    if Installed(st) && EnvOk(env) {
      DerivedAgrees(env, f, st);
    }
  }

  // ----- The handshake completes -----

  lemma RecordWhole(phase: Phase, f: Flight, tail: Bytes, buf: Bytes, later: Bytes)
    requires GoodFlight(f) && Rank(phase) <= 4 && buf + later == Remaining(phase, f, tail) && |later| <= |tail|
    ensures |buf| >= 5 && IsWhole(buf)
  {
    RemainingStart(f, tail);
    hide Remaining;
    match phase
    case ClientHelloToSend => WholeHead(buf, later, f.hello, Remaining(ServerCertificate, f, tail), tail);
    case ServerHello => WholeHead(buf, later, f.hello, Remaining(ServerCertificate, f, tail), tail);
    case ServerCertificate => WholeHead(buf, later, f.certificate, Remaining(ServerKeyExchange, f, tail), tail);
    case ServerKeyExchange => WholeHead(buf, later, f.keyExchange, Remaining(ServerHelloDone, f, tail), tail);
    case ServerHelloDone => WholeHead(buf, later, f.done, tail, tail);
  }

  lemma WholeHead(buf: Bytes, later: Bytes, m: Bytes, rest: Bytes, tail: Bytes)
    requires buf + later == Record(HANDSHAKE, m) + rest && |later| <= |tail| <= |rest| && |m| < 0x1_0000
    ensures IsWhole(buf)
  {
    assert |Record(HANDSHAKE, m)| == 5 + |m|;
    HeadIsRecord(buf, later, HANDSHAKE, m, rest);
  }

  /** When the whole flight is there, a pass that ends the call has sent the client's Finished. */
  lemma OnceCompletes(env: Env, f: Flight, tail: Bytes, st: Tls, later: Bytes)
    requires GoodFlight(f) && Follows(env, f, tail, st, later) && |later| <= |tail|
    requires ReceiveOnce(env, st).Returned? && KeysInv(st)
    ensures Installed(ReceiveOnce(env, st).st)
  {
    OnceStep(env, st);
    if Rank(st.phase) <= 4 {
      RecordWhole(st.phase, f, tail, st.buf, later);
      OnceFollows(env, f, tail, st, later);
      var after := ReceiveOnce(env, st).st;
      if Rank(after.phase) <= 4 {
        RecordWhole(after.phase, f, tail, after.buf, later);
        hide Follows;
        hide ProcessHandshake;
        hide Remaining;
        hide KeysInv;
        hide Progress;
        assert false;
      }
    }
  }

  lemma {:induction false} ReceiveCompletes(env: Env, f: Flight, tail: Bytes, st: Tls, later: Bytes)
    requires GoodFlight(f) && Follows(env, f, tail, st, later) && |later| <= |tail|
    requires KeysInv(st) && Receive(env, st).Got?
    ensures Installed(Receive(env, st).st)
    decreases |st.buf|
  {
    hide ReceiveOnce;
    hide Follows;
    hide KeysInv;
    var once := ReceiveOnce(env, st);
    OnceStep(env, st);
    if once.Again? {
      OnceFollows(env, f, tail, st, later);
      ReceiveCompletes(env, f, tail, once.st, later);
    } else {
      OnceCompletes(env, f, tail, st, later);
    }
  }

  /** Once the whole flight has arrived, however it was cut, the next call that returns has answered it:
      keys are installed and the client's Finished is sent. */
  lemma HandshakeCompletes(env: Env, tcp: Tcp.Client, f: Flight, tail: Bytes, es: seq<Event>, later: Bytes)
    requires GoodFlight(f) && Create(env, tcp).Ok?
    requires Input(es) + later == Remaining(ServerHello, f, tail) && |later| <= |tail|
    ensures var r := Run(env, Create(env, tcp).value, es + [Poll]);
            r.Ok? ==> Installed(r.value) && Derived(env, f, r.value)
  {
    hide Run;
    hide Receive;
    hide Follows;
    hide Derived;
    hide KeysInv;
    hide Remaining;
    hide Create;
    var start := Create(env, tcp).value;
    RunPoll(env, start, es);
    if Run(env, start, es + [Poll]).Ok? {
      var st := Run(env, start, es).value;
      RunInv(env, tcp, es);
      TranscriptInEveryRun(env, tcp, f, tail, es, later);
      ReceiveCompletes(env, f, tail, st, later);
      ReceiveFollows(env, f, tail, st, later);
      FollowsDerived(env, f, tail, Receive(env, st).st, later);
    }
  }

  lemma RunPoll(env: Env, st: Tls, es: seq<Event>)
    ensures var r := Run(env, st, es + [Poll]);
            r.Ok? ==>
              && Run(env, st, es).Ok? && Receive(env, Run(env, st, es).value).Got?
              && r.value == Receive(env, Run(env, st, es).value).st
  {
    hide Receive;
    assert (es + [Poll])[..|es|] == es;
  }

  lemma FollowsDerived(env: Env, f: Flight, tail: Bytes, st: Tls, later: Bytes)
    requires GoodFlight(f) && Follows(env, f, tail, st, later) && Installed(st)
    ensures Derived(env, f, st)
  {
  }
}
