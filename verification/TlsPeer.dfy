/** A whole server stream, handshake and application records, as the client consumes it: where the
    buffer stands in that stream, and how full it gets. */
module TlsPeer {
  import opened Outcomes
  import opened Binary
  import opened TlsRecords
  import opened TlsModel
  import opened TlsRuns
  import opened TlsHandshake
  import Tcp = TcpModel

  /** The server's flight, the body of its Finished record and those of its application records. */
  datatype Server = Server(flight: Flight, finished: Bytes, records: seq<Bytes>)

  function Application(records: seq<Bytes>): Bytes {
    if records == [] then [] else Record(APPLICATION_DATA, records[0]) + Application(records[1..])
  }

  function Closing(s: Server): Bytes {
    CHANGE_CIPHER_RECORD + Record(HANDSHAKE, s.finished)
  }

  /** What follows the flight. */
  function Tail(s: Server): Bytes {
    Closing(s) + Application(s.records)
  }

  function Stream(s: Server): Bytes {
    Remaining(ServerHello, s.flight, Tail(s))
  }

  const MAX_BODY: nat := 18432  // 2^14 + 2048, section 6.2.3 of RFC 5246

  /** Bodies of at most `max` bytes, and room for an explicit IV in application records. */
  predicate Sized(s: Server, max: nat) {
    && |s.flight.hello| <= max && |s.flight.certificate| <= max && |s.flight.keyExchange| <= max
    && |s.flight.done| <= max && |s.finished| <= max
    && forall i :: 0 <= i < |s.records| ==> EXPLICIT_IV_SIZE <= |s.records[i]| <= max
  }

  predicate GoodServer(s: Server) {
    GoodFlight(s.flight) && Sized(s, 0xFFFF)
  }

  /** Application records with room for explicit IV, data and tag. */
  predicate Fillable(bodies: seq<Bytes>) {
    forall i :: 0 <= i < |bodies| ==> 24 < |bodies[i]| < 0x1_0000
  }

  /** The buffer begins at a record of the stream and `later` is what has not arrived. Number `i` is the
      next application record. */
  ghost predicate At(s: Server, st: Tls, later: Bytes, i: nat) {
    && (st.phase != ServerFinished ==> i == 0)
    && i <= |s.records| && st.readSeq == Number(i)
    && (st.phase == ServerFinished ==> st.buf + later == Application(s.records[i..]))
  }

  ghost predicate Aligned(env: Env, s: Server, st: Tls, later: Bytes)
    requires GoodServer(s)
  {
    Follows(env, s.flight, Tail(s), st, later) && exists i: nat :: At(s, st, later, i)
  }

  lemma ClosingAligned(s: Server, st: Tls, later: Bytes)
    requires GoodServer(s) && At(s, st, later, 0) && st.phase == ClientFinished && st.buf + later == Tail(s)
    requires IsWhole(st.buf) && ProcessServerFinished(st).Ok?
    ensures At(s, ProcessServerFinished(st).value, later, 0)
  {
    var rest := Record(HANDSHAKE, s.finished) + Application(s.records);
    assert Tail(s) == CHANGE_CIPHER_RECORD + rest;
    assert CHANGE_CIPHER_RECORD == Record(CHANGE_CIPHER, [1]);
    HeadIsRecord(st.buf, later, CHANGE_CIPHER, [1], rest);
    if ServerClosing(st.buf).Message? {
      var b := st.buf[6..];
      assert b + later == rest;
      HeadIsRecord(b, later, HANDSHAKE, s.finished, Application(s.records));
      assert s.records[0..] == s.records;
    }
  }

  lemma ApplicationAligned(env: Env, s: Server, st: Tls, later: Bytes, i: nat) returns (next: nat)
    requires GoodServer(s) && At(s, st, later, i) && st.phase == ServerFinished
    requires IsWhole(st.buf) && !ReceiveApplication(env, st).Thrown?
    ensures At(s, ReceiveApplication(env, st).st, later, next)
  {
    var left := s.records[i..];
    assert left != [] && left[1..] == s.records[i + 1..];
    HeadIsRecord(st.buf, later, APPLICATION_DATA, left[0], Application(left[1..]));
    next := i + 1;
    NextNumber(i);
    assert st.buf[5..][|left[0]|..] == st.buf[5 + |left[0]|..];
  }

  lemma NotYetApplication(s: Server, st: Tls, later: Bytes, after: Tls)
    requires At(s, st, later, 0) && st.phase != ServerFinished
    requires after.phase != ServerFinished && after.readSeq == st.readSeq
    ensures At(s, after, later, 0)
  {
  }

  lemma HandshakeReadSeq(env: Env, st: Tls)
    requires IsWhole(st.buf) && ProcessHandshake(env, st).Ok?
    ensures ProcessHandshake(env, st).value.readSeq == st.readSeq
    ensures st.phase != ClientFinished ==> ProcessHandshake(env, st).value.phase != ServerFinished
  {
    hide Tcp.Transmit;
    hide Value;
    hide DeriveKeys;
    hide SealingOf;
    hide SealedRecord;
  }

  /** One pass of `receive` moves along the stream, record by record. */
  lemma OnceAligned(env: Env, s: Server, st: Tls, later: Bytes)
    requires GoodServer(s) && Aligned(env, s, st, later) && !ReceiveOnce(env, st).Thrown?
    ensures Aligned(env, s, ReceiveOnce(env, st).st, later)
  {
    OnceFollows(env, s.flight, Tail(s), st, later);
    var i: nat :| At(s, st, later, i);
    var after := ReceiveOnce(env, st).st;
    if IsWhole(st.buf) && IsTls12(st.buf) && st.phase == ServerFinished {
      hide Follows;
      var next := ApplicationAligned(env, s, st, later, i);
    } else if IsWhole(st.buf) && st.phase == ClientFinished {
      ClosingAligned(s, st, later);
      hide Follows;
      assert At(s, after, later, 0);
    } else if st.phase != ServerFinished {
      if IsWhole(st.buf) && ProcessHandshake(env, st).Ok? {
        HandshakeReadSeq(env, st);
      }
      hide Follows;
      hide ProcessHandshake;
      hide Tcp.Transmit;
      NotYetApplication(s, st, later, after);
    } else {
      hide Follows;
      assert after == st;
    }
  }

  lemma FlightHead(env: Env, s: Server, st: Tls, later: Bytes, max: nat)
    requires GoodServer(s) && Follows(env, s.flight, Tail(s), st, later) && Sized(s, max)
    requires |st.buf| >= 5 && Rank(st.phase) <= 4
    ensures BodySize(st.buf) <= max
  {
    var f, tail := s.flight, Tail(s);
    RemainingStart(f, tail);
    hide Remaining;
    hide Hashed;
    hide Record;
    hide Tail;
    hide GoodFlight;
    var rest := Remaining(ServerCertificate, f, tail);
    match st.phase
    case ClientHelloToSend => HeadIsRecord(st.buf, later, HANDSHAKE, f.hello, rest);
    case ServerHello => HeadIsRecord(st.buf, later, HANDSHAKE, f.hello, rest);
    case ServerCertificate =>
      HeadIsRecord(st.buf, later, HANDSHAKE, f.certificate, Remaining(ServerKeyExchange, f, tail));
    case ServerKeyExchange =>
      HeadIsRecord(st.buf, later, HANDSHAKE, f.keyExchange, Remaining(ServerHelloDone, f, tail));
    case ServerHelloDone => HeadIsRecord(st.buf, later, HANDSHAKE, f.done, tail);
  }

  lemma ClosingHead(s: Server, buf: Bytes, later: Bytes)
    requires buf + later == Tail(s) && |buf| >= 5
    ensures BodySize(buf) == 1
  {
    var rest := Record(HANDSHAKE, s.finished) + Application(s.records);
    assert Tail(s) == CHANGE_CIPHER_RECORD + rest && CHANGE_CIPHER_RECORD == Record(CHANGE_CIPHER, [1]);
    HeadIsRecord(buf, later, CHANGE_CIPHER, [1], rest);
  }

  lemma ApplicationHead(s: Server, st: Tls, later: Bytes, i: nat, max: nat)
    requires GoodServer(s) && Sized(s, max) && At(s, st, later, i) && st.phase == ServerFinished && |st.buf| >= 5
    ensures i < |s.records| && EXPLICIT_IV_SIZE <= BodySize(st.buf) == |s.records[i]| <= max
  {
    var left := s.records[i..];
    assert left != [];
    HeadIsRecord(st.buf, later, APPLICATION_DATA, left[0], Application(left[1..]));
  }

  /** The record at the head of the buffer keeps to the server's limits. */
  lemma HeadSized(env: Env, s: Server, st: Tls, later: Bytes, max: nat)
    requires GoodServer(s) && Aligned(env, s, st, later) && Sized(s, max) && |st.buf| >= 5 && max > 0
    ensures BodySize(st.buf) <= max && !(st.phase == ServerFinished && IsRunt(st.buf))
  {
    hide BodySize;
    if Rank(st.phase) <= 4 {
      FlightHead(env, s, st, later, max);
    } else if st.phase == ClientFinished {
      ClosingHead(s, st.buf, later);
    } else {
      var i: nat :| At(s, st, later, i);
      ApplicationHead(s, st, later, i, max);
    }
  }

  // ----- The receive buffer does not overflow -----

  /** A call that returns nothing leaves less than one record. */
  lemma OnceLeftover(env: Env, s: Server, st: Tls, later: Bytes)
    requires GoodServer(s) && Aligned(env, s, st, later) && Sized(s, MAX_BODY)
    requires ReceiveOnce(env, st).Returned? && ReceiveOnce(env, st).out.None?
    ensures |ReceiveOnce(env, st).st.buf| < 5 + MAX_BODY
  {
    hide Aligned;
    hide ProcessHandshake;
    hide Decrypted;
    hide SealedRecord;
    hide Tcp.Transmit;
    if |st.buf| >= 5 {
      HeadSized(env, s, st, later, MAX_BODY);
    }
  }

  lemma {:induction false} ReceiveAligned(env: Env, s: Server, st: Tls, later: Bytes)
    requires GoodServer(s) && Aligned(env, s, st, later) && Receive(env, st).Got?
    ensures Aligned(env, s, Receive(env, st).st, later)
    ensures Sized(s, MAX_BODY) && Receive(env, st).out.None? ==> |Receive(env, st).st.buf| < 5 + MAX_BODY
    decreases |st.buf|
  {
    hide ReceiveOnce;
    hide Aligned;
    hide Sized;
    OnceAligned(env, s, st, later);
    var once := ReceiveOnce(env, st);
    if once.Again? {
      ReceiveAligned(env, s, once.st, later);
    } else if Sized(s, MAX_BODY) && once.out.None? {
      OnceLeftover(env, s, st, later);
    }
  }

  /** A drained buffer holds less than one record of the stream. */
  lemma {:induction false} DrainLeftover(env: Env, s: Server, st: Tls, later: Bytes)
    requires GoodServer(s) && Aligned(env, s, st, later) && Drain(env, st).Drained?
    ensures Aligned(env, s, Drain(env, st).st, later)
    ensures Sized(s, MAX_BODY) ==> |Drain(env, st).st.buf| < 5 + MAX_BODY
    decreases |st.buf|
  {
    hide Receive;
    hide Aligned;
    hide Sized;
    ReceiveAligned(env, s, st, later);
    var r := Receive(env, st);
    if r.out.Some? {
      DrainLeftover(env, s, r.st, later);
    }
  }

  /** The worker loop's treatment of the stack: every packet is followed by a full drain, and the
      plaintexts are collected. */
  function Drive(env: Env, st: Tls, ps: seq<Tcp.Packet>): Drained {
    if ps == [] then Drained([], st)
    else
      var before := Drive(env, st, ps[..|ps| - 1]);
      if before.Aborted? then Aborted
      else
        var got := ProcessPacket(before.st, ps[|ps| - 1]);
        if got.Failure? then Aborted
        else
          var d := Drain(env, got.value);
          if d.Aborted? then Aborted else Drained(before.outs + d.outs, d.st)
  }

  function Carried(ps: seq<Tcp.Packet>): Bytes {
    if ps == [] then [] else Carried(ps[..|ps| - 1]) + ps[|ps| - 1].payload
  }

  lemma PacketAligned(env: Env, s: Server, st: Tls, p: Tcp.Packet, later: Bytes)
    requires GoodServer(s) && Aligned(env, s, st, p.payload + later) && ProcessPacket(st, p).Ok?
    ensures Aligned(env, s, ProcessPacket(st, p).value, later)
  {
    hide Tcp.ProcessPacket;
    assert (p.payload + later)[|p.payload|..] == later;
    StepFollows(env, s.flight, Tail(s), st, p.payload + later, Packet(p));
    hide Follows;
    var i: nat :| At(s, st, p.payload + later, i);
    Assoc(st.buf, p.payload, later);
    assert At(s, ProcessPacket(st, p).value, later, i);
  }

  lemma CreateAligned(env: Env, s: Server, tcp: Tcp.Client)
    requires GoodServer(s) && Create(env, tcp).Ok?
    ensures Aligned(env, s, Create(env, tcp).value, Stream(s))
  {
    hide Tcp.Connect;
    RemainingStart(s.flight, Tail(s));
    hide Remaining;
    assert [] + Stream(s) == Stream(s);
    assert At(s, Create(env, tcp).value, Stream(s), 0);
  }

  lemma {:induction false} DriveAligned(env: Env, s: Server, tcp: Tcp.Client, ps: seq<Tcp.Packet>, later: Bytes)
    requires GoodServer(s) && Create(env, tcp).Ok? && Drive(env, Create(env, tcp).value, ps).Drained?
    requires Carried(ps) + later == Stream(s)
    ensures var st := Drive(env, Create(env, tcp).value, ps).st;
            Aligned(env, s, st, later) && (Sized(s, MAX_BODY) ==> |st.buf| < 5 + MAX_BODY)
  {
    hide Drain;
    hide ProcessPacket;
    hide Aligned;
    hide Stream;
    hide Sized;
    if ps == [] {
      assert [] + later == later;
      CreateAligned(env, s, tcp);
      hide Tcp.Connect;
    } else {
      var before, p := ps[..|ps| - 1], ps[|ps| - 1];
      Assoc(Carried(before), p.payload, later);
      DriveAligned(env, s, tcp, before, p.payload + later);
      var st := Drive(env, Create(env, tcp).value, before).st;
      PacketAligned(env, s, st, p, later);
      DrainLeftover(env, s, ProcessPacket(st, p).value, later);
    }
  }

  /** Both buffers hold 20600 bytes: a payload that TCP took, or plaintext to send, is refused beyond that. */
  lemma BuffersHold(st: Tls, p: Tcp.Packet, bytes: Bytes)
    ensures ProcessPacket(st, p).Ok? <==> Tcp.ProcessPacket(st.tcp, p).Ok? && |st.buf| + |p.payload| <= 20600
    ensures Push(st, bytes).Ok? <==> |st.sendBuf| + |bytes| <= 20600
  {
    hide Tcp.ProcessPacket;
  }

  const MAX_SEGMENT: nat := 1460

  /** A server whose records keep to the protocol's limit, in segments of any cut, from the handshake on:
      drained after each packet, the client is left with at most 18436 bytes, and the next segment that
      TCP accepts always fits the 20600-byte buffer. */
  lemma NeverOverflows(
    env: Env, s: Server, tcp: Tcp.Client, ps: seq<Tcp.Packet>, later: Bytes, p: Tcp.Packet)
    requires GoodServer(s) && Sized(s, MAX_BODY) && Create(env, tcp).Ok?
    requires Carried(ps) + later == Stream(s) && |p.payload| <= MAX_SEGMENT
    ensures var r := Drive(env, Create(env, tcp).value, ps);
            r.Drained? ==>
              && |r.st.buf| <= 18436
              && (Tcp.ProcessPacket(r.st.tcp, p).Ok? <==> ProcessPacket(r.st, p).Ok?)
  {
    hide Drive;
    hide Tcp.ProcessPacket;
    hide Tcp.Connect;
    hide Stream;
    if Drive(env, Create(env, tcp).value, ps).Drained? {
      DriveAligned(env, s, tcp, ps, later);
    }
  }

  // ----- Every run -----

  lemma QuietAligned(env: Env, s: Server, st: Tls, later: Bytes, e: Event)
    requires GoodServer(s) && Aligned(env, s, st, later) && (e.Write? || e.Send?) && Step(env, st, e).Ok?
    ensures Aligned(env, s, Step(env, st, e).value, later)
  {
    StepFollows(env, s.flight, Tail(s), st, later, e);
    hide Follows;
    hide Tcp.Transmit;
    hide SealedRecord;
    var i: nat :| At(s, st, later, i);
    assert At(s, Step(env, st, e).value, later, i);
  }

  /** In every run the buffer stands at a record of the stream. */
  lemma {:induction false} RunAligned(env: Env, s: Server, tcp: Tcp.Client, es: seq<Event>, later: Bytes)
    requires GoodServer(s) && Create(env, tcp).Ok? && Run(env, Create(env, tcp).value, es).Ok?
    requires Input(es) + later == Stream(s)
    ensures Aligned(env, s, Run(env, Create(env, tcp).value, es).value, later)
  {
    hide Aligned;
    hide Stream;
    hide Create;
    hide Receive;
    hide ProcessPacket;
    hide Flush;
    var start := Create(env, tcp).value;
    if es == [] {
      assert [] + later == later;
      CreateAligned(env, s, tcp);
    } else {
      var before, e := es[..|es| - 1], es[|es| - 1];
      var piece: Bytes := if e.Packet? then e.packet.payload else [];
      Assoc(Input(before), piece, later);
      assert piece == [] ==> piece + later == later;
      RunAligned(env, s, tcp, before, piece + later);
      var st := Run(env, start, before).value;
      match e
      case Packet(p) => PacketAligned(env, s, st, p, later);
      case Poll => ReceiveAligned(env, s, st, later);
      case Write(_) => QuietAligned(env, s, st, later, e);
      case Send => QuietAligned(env, s, st, later, e);
    }
  }
}
