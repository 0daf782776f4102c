/** How every call of `receive` ends on a server's stream: with a result, with an exception, or never. */
module TlsCalls {
  import opened Outcomes
  import opened Binary
  import opened TlsRecords
  import opened TlsModel
  import opened TlsRuns
  import opened TlsHandshake
  import opened TlsPeer
  import TlsTraffic
  import Tcp = TcpModel
  import SeqNumbers

  // ----- A stream cut between ChangeCipherSpec and Finished -----

  /** What has arrived ends after ChangeCipherSpec and before the end of the Finished record. */
  predicate InGap(s: Server, later: Bytes) {
    |Application(s.records)| < |later| <= |Application(s.records)| + 5 + |s.finished|
  }

  lemma ApplicationShrinks(records: seq<Bytes>, i: nat)
    requires i <= |records|
    ensures |Application(records[i..])| <= |Application(records)|
    decreases i
  {
    if i > 0 {
      ApplicationShrinks(records, i - 1);
      assert records[i - 1..][1..] == records[i..];
    } else {
      assert records[0..] == records;
    }
  }

  /** Waiting for Finished, the client is stuck exactly when the stream is cut there. */
  lemma StuckInGap(s: Server, st: Tls, later: Bytes)
    requires GoodServer(s) && st.phase == ClientFinished && st.buf + later == Tail(s)
    ensures IsStuck(st) <==> InGap(s, later)
  {
    var rest := Record(HANDSHAKE, s.finished) + Application(s.records);
    assert Tail(s) == CHANGE_CIPHER_RECORD + rest && CHANGE_CIPHER_RECORD == Record(CHANGE_CIPHER, [1]);
    assert |Record(HANDSHAKE, s.finished)| == 5 + |s.finished|;
    if |st.buf| >= 5 {
      HeadIsRecord(st.buf, later, CHANGE_CIPHER, [1], rest);
      if IsWhole(st.buf) {
        assert st.buf[5] == 1 by {
          assert st.buf[5..6] == [1];
        }
        var b := st.buf[6..];
        assert b + later == rest;
        if |b| >= 5 {
          HeadIsRecord(b, later, HANDSHAKE, s.finished, Application(s.records));
        }
      }
    }
  }

  lemma {:induction false} ReceiveSpinsInGap(env: Env, s: Server, st: Tls, later: Bytes)
    requires GoodServer(s) && Aligned(env, s, st, later) && KeysInv(st)
    ensures Receive(env, st).Spins? ==> InGap(s, later)
    ensures InGap(s, later) ==> !Receive(env, st).Got?
    decreases |st.buf|
  {
    hide ReceiveOnce;
    hide KeysInv;
    hide InGap;
    hide IsStuck;
    var once := ReceiveOnce(env, st);
    StuckIff(env, st);
    if st.phase == ClientFinished {
      StuckInGap(s, st, later);
    }
    if once.Again? {
      OnceAligned(env, s, st, later);
      OnceStep(env, st);
      if |once.st.buf| < |st.buf| {
        hide Aligned;
        ReceiveSpinsInGap(env, s, once.st, later);
      } else {
        assert st.phase == ClientFinished by {
          StuckPhase(st);
        }
      }
    } else if once.Returned? && InGap(s, later) {
      GapNotReturned(env, s, st, later);
      assert false;
    }
  }

  lemma StuckPhase(st: Tls)
    ensures IsStuck(st) ==> st.phase == ClientFinished
  {
  }

  /** A handshake pass that ends the call leaves less than a header. */
  lemma HandshakePass(env: Env, st: Tls)
    requires IsWhole(st.buf) && st.phase != ServerFinished && ReceiveOnce(env, st).Returned?
    ensures |ReceiveOnce(env, st).st.buf| < 5
    ensures st.phase != ClientFinished ==> ReceiveOnce(env, st).st.phase != ServerFinished
  {
    if ProcessHandshake(env, st).Ok? {
      HandshakeReadSeq(env, st);
    }
    hide ProcessHandshake;
  }

  /** Where the buffer of a client that follows the flight stands. */
  lemma FollowsParts(env: Env, f: Flight, tail: Bytes, st: Tls, later: Bytes)
    requires GoodFlight(f) && Follows(env, f, tail, st, later)
    ensures Rank(st.phase) != 5
    ensures Rank(st.phase) <= 4 ==> st.buf + later == Remaining(st.phase, f, tail)
    ensures st.phase == ClientFinished ==> st.buf + later == tail
  {
    hide Remaining;
    hide Hashed;
    hide Derived;
  }

  /** When more than the flight has arrived, a pass over the flight never ends the call. */
  lemma FlightNotLast(env: Env, s: Server, st: Tls, later: Bytes)
    requires GoodServer(s) && Follows(env, s.flight, Tail(s), st, later) && KeysInv(st)
    requires Rank(st.phase) <= 4 && |later| + 5 <= |Tail(s)|
    ensures !ReceiveOnce(env, st).Returned?
  {
    hide ReceiveOnce;
    hide Follows;
    hide KeysInv;
    hide Remaining;
    hide Tail;
    if ReceiveOnce(env, st).Returned? {
      FollowsParts(env, s.flight, Tail(s), st, later);
      RecordWhole(st.phase, s.flight, Tail(s), st.buf, later);
      OnceCompletes(env, s.flight, Tail(s), st, later);
      OnceFollows(env, s.flight, Tail(s), st, later);
      HandshakePass(env, st);
      FollowsParts(env, s.flight, Tail(s), ReceiveOnce(env, st).st, later);
      assert false;
    }
  }

  /** In the gap no pass ends the call: the flight is processed first, and then the client is stuck. */
  lemma GapNotReturned(env: Env, s: Server, st: Tls, later: Bytes)
    requires GoodServer(s) && Aligned(env, s, st, later) && KeysInv(st) && InGap(s, later)
    ensures !ReceiveOnce(env, st).Returned?
  {
    hide ReceiveOnce;
    hide KeysInv;
    NeverInBetween(env, s, st, later);
    if st.phase == ServerFinished {
      var i: nat :| At(s, st, later, i);
      hide Follows;
      ApplicationShrinks(s.records, i);
      assert false;
    } else if st.phase == ClientFinished {
      FollowsParts(env, s.flight, Tail(s), st, later);
      StuckInGap(s, st, later);
      StuckIff(env, st);
    } else {
      assert |Tail(s)| == 11 + |s.finished| + |Application(s.records)|;
      hide Follows;
      FlightNotLast(env, s, st, later);
    }
  }

  // ----- How a call ends -----

  /** The client's answer to the flight fits a packet and the peer's window. */
  predicate AnswerFits(env: Env, st: Tls) {
    env.room >= 93 && st.tcp.unacked + 93 <= st.tcp.sendWnd
  }

  lemma AnswerSentIff(env: Env, st: Tls)
    requires EnvOk(env)
    ensures SendKeyExchangeAndFinished(env, st).Ok? <==> AnswerFits(env, st)
    ensures AnswerFits(env, st) ==> SentBytes(st, SendKeyExchangeAndFinished(env, st).value, 93)
  {
    hide KeyExchangeMessage;
    hide FinishedMessage;
    hide SealedRecord;
    hide SealingOf;
    hide Record;
    hide DeriveMaster;
    hide DeriveKeys;
    hide Tcp.Transmit;
    var transcript := st.transcript + KeyExchangeMessage(env);
    var master := DeriveMaster(env, st.serverPub, transcript);
    TlsTraffic.FlightSizes(env, master, st.serverRandom, st.clientRandom, transcript);
    var keys := DeriveKeys(env, master, st.serverRandom, st.clientRandom).value;
    var finished := FinishedMessage(env, master, transcript);
    TlsTraffic.SealedShape(env, HANDSHAKE, keys, st.writeSeq, finished);
    hide EnvOk;
    var s := SealingOf(keys, st.writeSeq, HANDSHAKE, finished);
    TransmitBytes(st.tcp, Record(HANDSHAKE, KeyExchangeMessage(env)) + CHANGE_CIPHER_RECORD
                          + SealedRecord(env, HANDSHAKE, st.writeSeq, s));
  }

  /** What sending `n` bytes does to TCP; plaintext waiting to be sent is not touched. */
  predicate SentBytes(before: Tls, after: Tls, n: nat) {
    && after.sendBuf == before.sendBuf
    && after.tcp == before.tcp.(ipId := after.tcp.ipId, seqNo := after.tcp.seqNo, sent := after.tcp.sent,
                                unacked := after.tcp.unacked)
    && after.tcp.unacked == before.tcp.unacked + n
  }

  lemma TransmitBytes(c: Tcp.Client, payload: Bytes)
    ensures var r := Tcp.Transmit(c, Tcp.SendBuffer(c, Tcp.PSH_ACK, false), payload);
            && (r.Ok? <==> c.unacked + |payload| <= c.sendWnd)
            && (r.Ok? ==>
                  && r.value == c.(ipId := r.value.ipId, seqNo := r.value.seqNo, sent := r.value.sent,
                                   unacked := r.value.unacked)
                  && r.value.unacked == c.unacked + |payload|)
  {
    if c.unacked + |payload| <= c.sendWnd {
      SeqNumbers.WrapInRange(c.unacked + |payload|);
    }
    hide SeqNumbers.Wrap;
  }

  /** A whole record of the flight is processed; only the answer to the last one may fail. */
  lemma FlightOutcome(env: Env, s: Server, st: Tls, later: Bytes)
    requires GoodServer(s) && EnvOk(env) && Follows(env, s.flight, Tail(s), st, later)
    requires IsWhole(st.buf) && 1 <= Rank(st.phase) <= 4
    ensures ProcessHandshake(env, st).Ok? <==> (st.phase == ServerHelloDone ==> AnswerFits(env, st))
    ensures ProcessHandshake(env, st).Ok? && st.phase != ServerHelloDone ==>
              && SentBytes(st, ProcessHandshake(env, st).value, 0)
              && 1 <= Rank(ProcessHandshake(env, st).value.phase) <= 4
    ensures ProcessHandshake(env, st).Ok? && st.phase == ServerHelloDone ==>
              SentBytes(st, ProcessHandshake(env, st).value, 93)
  {
    var f, tail := s.flight, Tail(s);
    match st.phase
    case ServerHello => HelloStep(env, f, tail, st, later);
    case ServerCertificate => CertificateStep(env, f, tail, st, later);
    case ServerKeyExchange => KeyExchangeStep(env, f, tail, st, later);
    case ServerHelloDone => DoneOutcome(env, s, st, later);
  }

  /** The last message of the flight is recognised. */
  lemma DoneRead(env: Env, s: Server, st: Tls, later: Bytes) returns (n: nat)
    requires GoodServer(s) && Follows(env, s.flight, Tail(s), st, later)
    requires IsWhole(st.buf) && st.phase == ServerHelloDone
    ensures HelloDoneReading(st.buf[5..]) == Message(n)
  {
    var m := s.flight.done;
    n := |m|;
    RemainingStart(s.flight, Tail(s));
    hide Remaining;
    hide Hashed;
    hide Record;
    hide Tail;
    HeadIsRecord(st.buf, later, HANDSHAKE, m, Tail(s));
    assert st.buf[5..][1..4] == m[1..4];
    hide Value;
  }

  lemma DoneOutcome(env: Env, s: Server, st: Tls, later: Bytes)
    requires GoodServer(s) && EnvOk(env) && Follows(env, s.flight, Tail(s), st, later)
    requires IsWhole(st.buf) && st.phase == ServerHelloDone
    ensures ProcessServerHelloDone(env, st).Ok? <==> AnswerFits(env, st)
    ensures AnswerFits(env, st) ==> SentBytes(st, ProcessServerHelloDone(env, st).value, 93)
  {
    var n := DoneRead(env, s, st, later);
    AnswerSentIff(env, Hash(st, n));
    hide Follows;
    hide GoodServer;
    hide HelloDoneReading;
    hide SendKeyExchangeAndFinished;
    hide EnvOk;
  }

  /** Closing records and application records are never refused. */
  lemma EstablishedOutcome(env: Env, s: Server, st: Tls, later: Bytes)
    requires GoodServer(s) && Aligned(env, s, st, later) && KeysInv(st) && Installed(st)
    requires Fillable(s.records) || InGap(s, later)
    ensures !ReceiveOnce(env, st).Thrown?
  {
    hide Decrypted;
    if st.phase == ServerFinished {
      var i: nat :| At(s, st, later, i);
      ApplicationShrinks(s.records, i);
      if |st.buf| >= 5 {
        var left := s.records[i..];
        assert left != [];
        HeadIsRecord(st.buf, later, APPLICATION_DATA, left[0], Application(left[1..]));
      }
    } else {
      ClosingAccepted(s, st, later);
    }
  }

  lemma ClosingAccepted(s: Server, st: Tls, later: Bytes)
    requires GoodServer(s) && st.phase == ClientFinished && st.buf + later == Tail(s)
    ensures |st.buf| >= 5 ==> IsTls12(st.buf)
    ensures IsWhole(st.buf) ==> ProcessServerFinished(st).Ok?
  {
    var rest := Record(HANDSHAKE, s.finished) + Application(s.records);
    assert Tail(s) == CHANGE_CIPHER_RECORD + rest && CHANGE_CIPHER_RECORD == Record(CHANGE_CIPHER, [1]);
    if |st.buf| >= 5 {
      HeadIsRecord(st.buf, later, CHANGE_CIPHER, [1], rest);
      if IsWhole(st.buf) {
        assert st.buf[5] == 1 by {
          assert st.buf[5..6] == [1];
        }
        var b := st.buf[6..];
        assert b + later == rest;
        if |b| >= 5 {
          HeadIsRecord(b, later, HANDSHAKE, s.finished, Application(s.records));
        }
      }
    }
  }

  lemma FlightIsTls12(env: Env, s: Server, st: Tls, later: Bytes)
    requires GoodServer(s) && Follows(env, s.flight, Tail(s), st, later) && |st.buf| >= 5 && Rank(st.phase) <= 4
    ensures IsTls12(st.buf)
    ensures IsWhole(st.buf) && st.phase == ServerHelloDone ==> |later| <= |Tail(s)|
  {
    var f, tail := s.flight, Tail(s);
    RemainingStart(f, tail);
    hide Remaining;
    hide Hashed;
    hide Record;
    hide Tail;
    hide GoodFlight;
    match st.phase
    case ClientHelloToSend => HeadIsRecord(st.buf, later, HANDSHAKE, f.hello, Remaining(ServerCertificate, f, tail));
    case ServerHello => HeadIsRecord(st.buf, later, HANDSHAKE, f.hello, Remaining(ServerCertificate, f, tail));
    case ServerCertificate =>
      HeadIsRecord(st.buf, later, HANDSHAKE, f.certificate, Remaining(ServerKeyExchange, f, tail));
    case ServerKeyExchange =>
      HeadIsRecord(st.buf, later, HANDSHAKE, f.keyExchange, Remaining(ServerHelloDone, f, tail));
    case ServerHelloDone => HeadIsRecord(st.buf, later, HANDSHAKE, f.done, tail);
  }

  /** One pass of a client that has sent its hello throws exactly when its answer is due and does not fit;
      otherwise it sends the answer or nothing. */
  ghost predicate PassesAs(env: Env, st: Tls) {
    var once := ReceiveOnce(env, st);
    var due := st.phase == ServerHelloDone && IsWhole(st.buf);
    && (once.Thrown? <==> due && !AnswerFits(env, st))
    && (!once.Thrown? ==>
          && SentBytes(st, once.st, if due then 93 else 0)
          && Rank(st.phase) <= Rank(once.st.phase)
          && (Rank(st.phase) <= 4 ==> (Installed(once.st) <==> due)))
  }

  lemma FlightPasses(env: Env, s: Server, st: Tls, later: Bytes)
    requires GoodServer(s) && Follows(env, s.flight, Tail(s), st, later) && KeysInv(st) && EnvOk(env)
    requires 1 <= Rank(st.phase) <= 4
    ensures PassesAs(env, st)
  {
    hide Follows;
    hide KeysInv;
    hide EnvOk;
    hide ProcessHandshake;
    hide GoodServer;
    hide Progress;
    if |st.buf| >= 5 {
      FlightIsTls12(env, s, st, later);
      if IsWhole(st.buf) {
        FlightOutcome(env, s, st, later);
        if ProcessHandshake(env, st).Ok? {
          HandshakeRank(env, st);
          if st.phase == ServerHelloDone {
            DonePhase(env, s, st, later);
          }
        }
      }
    }
    hide IsWhole;
  }

  lemma HandshakeRank(env: Env, st: Tls)
    requires KeysInv(st) && IsWhole(st.buf) && ProcessHandshake(env, st).Ok?
    ensures Rank(st.phase) <= Rank(ProcessHandshake(env, st).value.phase)
  {
    hide ProcessHandshake;
    hide KeysInv;
    HandshakeStep(env, st);
  }

  lemma DonePhase(env: Env, s: Server, st: Tls, later: Bytes)
    requires GoodServer(s) && Follows(env, s.flight, Tail(s), st, later) && IsWhole(st.buf)
    requires st.phase == ServerHelloDone && ProcessHandshake(env, st).Ok?
    ensures ProcessHandshake(env, st).value.phase == ClientFinished
  {
    var n := DoneRead(env, s, st, later);
    hide Follows;
    hide GoodServer;
    hide HelloDoneReading;
    hide SendKeyExchangeAndFinished;
  }

  lemma InstalledPasses(env: Env, s: Server, st: Tls, later: Bytes)
    requires GoodServer(s) && Aligned(env, s, st, later) && KeysInv(st) && Installed(st)
    requires Fillable(s.records) || InGap(s, later)
    ensures PassesAs(env, st)
  {
    hide Aligned;
    hide KeysInv;
    hide GoodServer;
    hide Fillable;
    hide InGap;
    EstablishedOutcome(env, s, st, later);
    OnceStep(env, st);
    InstalledSendsNothing(env, st);
    hide ReceiveOnce;
    hide IsWhole;
    hide IsStuck;
  }

  lemma InstalledSendsNothing(env: Env, st: Tls)
    requires Installed(st) && !ReceiveOnce(env, st).Thrown?
    ensures SentBytes(st, ReceiveOnce(env, st).st, 0)
  {
    hide Decrypted;
    hide ServerClosing;
    hide Value;
  }

  lemma OnceOutcome(env: Env, s: Server, st: Tls, later: Bytes)
    requires GoodServer(s) && Aligned(env, s, st, later) && KeysInv(st) && EnvOk(env) && Rank(st.phase) >= 1
    requires Fillable(s.records) || InGap(s, later)
    ensures PassesAs(env, st) && Rank(st.phase) != 5
  {
    hide PassesAs;
    if Installed(st) {
      InstalledPasses(env, s, st, later);
    } else {
      FlightPasses(env, s, st, later);
    }
  }

  lemma NeverInBetween(env: Env, s: Server, st: Tls, later: Bytes)
    requires GoodServer(s) && Aligned(env, s, st, later)
    ensures st.phase != ClientKeyExchange
  {
  }

  /** The whole flight has arrived and the client has not answered it yet. */
  predicate AnswerDue(s: Server, st: Tls, later: Bytes) {
    Rank(st.phase) <= 4 && |later| <= |Tail(s)|
  }

  /** While messages of the flight are missing, a pass does not reach the answer; when all are there, no
      pass ends before it. */
  lemma DueAtOnce(env: Env, s: Server, st: Tls, later: Bytes)
    requires GoodServer(s) && Aligned(env, s, st, later) && KeysInv(st) && Rank(st.phase) <= 4
    ensures st.phase == ServerHelloDone && IsWhole(st.buf) ==> AnswerDue(s, st, later)
    ensures AnswerDue(s, st, later) ==> IsWhole(st.buf)
    ensures AnswerDue(s, st, later) && ReceiveOnce(env, st).Returned? ==> Installed(ReceiveOnce(env, st).st)
  {
    if |st.buf| >= 5 {
      FlightIsTls12(env, s, st, later);
    }
    if AnswerDue(s, st, later) {
      RecordWhole(st.phase, s.flight, Tail(s), st.buf, later);
      if ReceiveOnce(env, st).Returned? {
        OnceCompletes(env, s.flight, Tail(s), st, later);
      }
    }
    hide ReceiveOnce;
    hide Follows;
    hide KeysInv;
  }

  /** A call of a client that has sent its hello throws if and only if the whole flight has arrived, is not
      answered yet, and the answer does not fit. */
  lemma {:induction false} ReceiveFailsIff(env: Env, s: Server, st: Tls, later: Bytes)
    requires GoodServer(s) && Aligned(env, s, st, later) && KeysInv(st) && EnvOk(env) && Rank(st.phase) >= 1
    requires Fillable(s.records) || InGap(s, later)
    ensures Receive(env, st).Failed? <==> AnswerDue(s, st, later) && !AnswerFits(env, st)
    decreases |st.buf|
  {
    hide ReceiveOnce;
    hide Aligned;
    hide KeysInv;
    hide EnvOk;
    hide GoodServer;
    hide InGap;
    hide Fillable;
    hide IsWhole;
    hide Tail;
    hide Progress;
    OnceOutcome(env, s, st, later);
    if Rank(st.phase) <= 4 {
      DueAtOnce(env, s, st, later);
    }
    var once := ReceiveOnce(env, st);
    if !once.Thrown? {
      OnceStep(env, st);
      StuckPhase(st);
      OnceAligned(env, s, st, later);
      hide IsStuck;
      NeverInBetween(env, s, once.st, later);
      if once.Again? && |once.st.buf| < |st.buf| {
        ReceiveFailsIff(env, s, once.st, later);
      }
    }
  }

  lemma HelloNeverSpins(env: Env, st: Tls)
    requires st.phase == ClientHelloToSend
    ensures !Receive(env, st).Spins?
  {
    hide SendClientHello;
  }

  /** What keeps a call in the gap from throwing: the hello is out, and an answer that is due fits. */
  predicate Proceeds(env: Env, st: Tls) {
    st.phase != ClientHelloToSend && (Rank(st.phase) <= 4 ==> AnswerFits(env, st))
  }

  lemma ReceiveSpinsIff(env: Env, s: Server, st: Tls, later: Bytes)
    requires GoodServer(s) && Aligned(env, s, st, later) && KeysInv(st) && EnvOk(env)
    ensures Receive(env, st).Spins? <==> InGap(s, later) && Proceeds(env, st)
  {
    hide Receive;
    hide Aligned;
    hide KeysInv;
    hide EnvOk;
    hide GoodServer;
    ReceiveSpinsInGap(env, s, st, later);
    if st.phase == ClientHelloToSend {
      HelloNeverSpins(env, st);
    } else if InGap(s, later) {
      ReceiveFailsIff(env, s, st, later);
      assert |Tail(s)| == 11 + |s.finished| + |Application(s.records)|;
    }
  }

  /** In every run on a server's stream: the next call never ends if and only if what has arrived ends
      between ChangeCipherSpec and the end of the Finished record, the hello has been sent, and the answer
      to the flight has been sent or fits. */
  lemma SpinsIffCutInGap(env: Env, s: Server, tcp: Tcp.Client, es: seq<Event>, later: Bytes)
    requires GoodServer(s) && EnvOk(env) && Create(env, tcp).Ok? && Input(es) + later == Stream(s)
    ensures var r := Run(env, Create(env, tcp).value, es);
            r.Ok? ==> (Receive(env, r.value).Spins? <==> InGap(s, later) && Proceeds(env, r.value))
  {
    hide Run;
    hide Receive;
    hide Aligned;
    hide KeysInv;
    hide InGap;
    hide Create;
    hide Stream;
    hide EnvOk;
    if Run(env, Create(env, tcp).value, es).Ok? {
      RunAligned(env, s, tcp, es, later);
      RunInv(env, tcp, es);
      ReceiveSpinsIff(env, s, Run(env, Create(env, tcp).value, es).value, later);
    }
  }

  /** ... and with records the client can decrypt it throws, once the hello is sent, if and only if the
      whole flight has arrived and the answer, not yet sent, does not fit. In all other cases it returns. */
  lemma ThrowsIffAnswerDoesNotFit(env: Env, s: Server, tcp: Tcp.Client, es: seq<Event>, later: Bytes)
    requires GoodServer(s) && Fillable(s.records) && EnvOk(env) && Create(env, tcp).Ok?
    requires Input(es) + later == Stream(s)
    ensures var r := Run(env, Create(env, tcp).value, es);
            r.Ok? && r.value.phase != ClientHelloToSend ==>
              (Receive(env, r.value).Failed? <==> AnswerDue(s, r.value, later) && !AnswerFits(env, r.value))
  {
    hide Run;
    hide Receive;
    hide Aligned;
    hide KeysInv;
    hide Create;
    hide Stream;
    hide EnvOk;
    var r := Run(env, Create(env, tcp).value, es);
    if r.Ok? && r.value.phase != ClientHelloToSend {
      RunAligned(env, s, tcp, es, later);
      RunInv(env, tcp, es);
      ReceiveFailsIff(env, s, r.value, later);
    }
  }

  /** What a call that returns has sent: the answer, or nothing. */
  lemma {:induction false} ReceiveSends(env: Env, s: Server, st: Tls, later: Bytes)
    requires GoodServer(s) && Aligned(env, s, st, later) && KeysInv(st) && EnvOk(env) && Rank(st.phase) >= 1
    requires Fillable(s.records) && Receive(env, st).Got?
    ensures var after := Receive(env, st).st;
            SentBytes(st, after, if Rank(st.phase) <= 4 && Installed(after) then 93 else 0)
    decreases |st.buf|
  {
    hide ReceiveOnce;
    hide Aligned;
    hide KeysInv;
    hide EnvOk;
    hide GoodServer;
    hide Fillable;
    hide IsStuck;
    OnceOutcome(env, s, st, later);
    var once := ReceiveOnce(env, st);
    OnceStep(env, st);
    if once.Again? {
      OnceAligned(env, s, st, later);
      NeverInBetween(env, s, once.st, later);
      ReceiveSends(env, s, once.st, later);
      ReceiveStep(env, once.st);
    }
  }

  /** When the whole handshake is there, a pass that ends the call has established the connection. */
  lemma ClosingPassed(env: Env, s: Server, st: Tls, later: Bytes)
    requires GoodServer(s) && Aligned(env, s, st, later) && KeysInv(st)
    requires |later| <= |Application(s.records)| && ReceiveOnce(env, st).Returned?
    ensures ReceiveOnce(env, st).st.phase == ServerFinished
  {
    hide ReceiveOnce;
    hide Follows;
    hide KeysInv;
    NeverInBetween(env, s, st, later);
    if st.phase == ServerFinished {
      OnceStep(env, st);
    } else if st.phase == ClientFinished {
      FollowsParts(env, s.flight, Tail(s), st, later);
      ClosingEnds(env, s, st, later);
    } else {
      assert |Tail(s)| == 11 + |s.finished| + |Application(s.records)|;
      FlightNotLast(env, s, st, later);
      assert false;
    }
  }

  lemma ClosingEnds(env: Env, s: Server, st: Tls, later: Bytes)
    requires GoodServer(s) && st.phase == ClientFinished && st.buf + later == Tail(s)
    requires |later| <= |Application(s.records)| && ReceiveOnce(env, st).Returned?
    ensures ReceiveOnce(env, st).st.phase == ServerFinished
  {
    ClosingWhole(s, st, later);
    hide ServerClosing;
    hide Tail;
    hide Value;
  }

  lemma ClosingWhole(s: Server, st: Tls, later: Bytes)
    requires GoodServer(s) && st.phase == ClientFinished && st.buf + later == Tail(s)
    requires |later| <= |Application(s.records)|
    ensures IsWhole(st.buf) && IsTls12(st.buf) && ServerClosing(st.buf).Message?
  {
    var rest := Record(HANDSHAKE, s.finished) + Application(s.records);
    assert Tail(s) == CHANGE_CIPHER_RECORD + rest && CHANGE_CIPHER_RECORD == Record(CHANGE_CIPHER, [1]);
    assert |Record(HANDSHAKE, s.finished)| == 5 + |s.finished|;
    HeadIsRecord(st.buf, later, CHANGE_CIPHER, [1], rest);
    assert st.buf[5] == 1 by {
      assert st.buf[5..6] == [1];
    }
    var b := st.buf[6..];
    assert b + later == rest;
    HeadIsRecord(b, later, HANDSHAKE, s.finished, Application(s.records));
  }

  /** Once the whole handshake has arrived, the next call that returns has established the connection. */
  lemma {:induction false} ReceiveEstablishes(env: Env, s: Server, st: Tls, later: Bytes)
    requires GoodServer(s) && Aligned(env, s, st, later) && KeysInv(st)
    requires |later| <= |Application(s.records)| && Receive(env, st).Got?
    ensures Receive(env, st).st.phase == ServerFinished
    decreases |st.buf|
  {
    hide ReceiveOnce;
    hide Aligned;
    hide KeysInv;
    hide GoodServer;
    hide Application;
    var once := ReceiveOnce(env, st);
    if once.Again? {
      OnceStep(env, st);
      OnceAligned(env, s, st, later);
      ReceiveEstablishes(env, s, once.st, later);
    } else {
      ClosingPassed(env, s, st, later);
    }
  }
}
