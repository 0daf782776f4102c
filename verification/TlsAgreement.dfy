/** Client and server agree: what the server derives and opens from the bytes on the wire is what the client
    derived and sealed, and what the server seals the client returns. */
module TlsAgreement {
  import opened Outcomes
  import opened Binary
  import opened TlsRecords
  import opened TlsModel
  import opened TlsRuns
  import opened TlsHandshake
  import opened TlsTraffic
  import ClientHello
  import S = TlsServer
  import Tcp = TcpModel
  import TcpRuns
  import SeqNumbers
  import TlsPeer
  import TlsCalls
  import Stack

  // ----- What the client put on the wire -----

  /** The payloads of the segments that carry data, in order. */
  function Data(sent: seq<Tcp.Segment>): seq<Bytes> {
    if sent == [] then []
    else
      var last := sent[|sent| - 1].payload;
      Data(sent[..|sent| - 1]) + if last == [] then [] else [last]
  }

  lemma DataSnoc(sent: seq<Tcp.Segment>, s: Tcp.Segment)
    ensures Data(sent + [s]) == Data(sent) + if s.payload == [] then [] else [s.payload]
  {
    assert (sent + [s])[..|sent|] == sent;
  }

  function HelloRecord(env: Env): Bytes {
    Record(HANDSHAKE, ClientHello.HelloMessage(env.random, env.host))
  }

  /** The packet that answers the server's flight, given the first encryption. */
  function AnswerPacket(env: Env, s: Sealing): Bytes {
    Record(HANDSHAKE, KeyExchangeMessage(env)) + CHANGE_CIPHER_RECORD + SealedRecord(env, HANDSHAKE, 0, s)
  }

  /** Encryption `i` after the first, as a record. */
  function FlushedRecordOf(env: Env, sealings: seq<Sealing>, i: nat): Bytes
    requires 0 < i < |sealings|
  {
    SealedRecord(env, APPLICATION_DATA, Number(i), sealings[i])
  }

  /** The data sent so far: hello, answer, and then one record for every further encryption. */
  ghost predicate Wired(env: Env, st: Tls) {
    var data := Data(st.tcp.sent);
    if st.phase == ClientHelloToSend then data == [] && st.sealings == []
    else if !Installed(st) then data == [HelloRecord(env)] && st.sealings == []
    else
      && st.sealings != [] && |data| == |st.sealings| + 1
      && data[0] == HelloRecord(env) && data[1] == AnswerPacket(env, st.sealings[0])
      && forall i :: 0 < i < |st.sealings| ==> data[i + 1] == FlushedRecordOf(env, st.sealings, i)
  }

  /** A payload sent is the next one on the wire. */
  lemma PayloadWired(st: Tls, payload: Bytes)
    requires SendPayload(st, payload).Ok? && payload != []
    ensures Data(SendPayload(st, payload).value.tcp.sent) == Data(st.tcp.sent) + [payload]
  {
    var c := st.tcp;
    DataSnoc(c.sent, Tcp.SendBuffer(c, Tcp.PSH_ACK, false).(payload := payload));
    hide Data;
  }

  lemma HelloWired(env: Env, st: Tls)
    requires Wired(env, st) && st.phase == ClientHelloToSend && SendClientHello(env, st).Ok?
    ensures Wired(env, SendClientHello(env, st).value.(phase := ServerHello))
  {
    hide ClientHello.HelloMessage;
    var message := ClientHello.HelloMessage(env.random, env.host);
    var ready := st.(clientRandom := env.random, transcript := st.transcript + message);
    assert Record(HANDSHAKE, message) != [];
    PayloadWired(ready, Record(HANDSHAKE, message));
    hide Record;
    hide Data;
    hide Tcp.Transmit;
    assert [] + [HelloRecord(env)] == [HelloRecord(env)];
  }

  lemma AnswerWired(env: Env, st: Tls)
    requires Wired(env, st) && 1 <= Rank(st.phase) <= 4 && st.writeSeq == 0
    requires SendKeyExchangeAndFinished(env, st).Ok?
    ensures Wired(env, SendKeyExchangeAndFinished(env, st).value.(phase := ClientFinished))
  {
    hide KeyExchangeMessage;
    hide FinishedMessage;
    hide SealedRecord;
    hide SealingOf;
    hide DeriveMaster;
    hide DeriveKeys;
    var transcript := st.transcript + KeyExchangeMessage(env);
    var master := DeriveMaster(env, st.serverPub, transcript);
    var keys := DeriveKeys(env, master, st.serverRandom, st.clientRandom).value;
    var s := SealingOf(keys, st.writeSeq, HANDSHAKE, FinishedMessage(env, master, transcript));
    var ready := AfterSealing(st, s).(transcript := transcript, masterSecret := master, keys := Some(keys));
    assert AnswerPacket(env, s) != [];
    PayloadWired(ready, AnswerPacket(env, s));
    hide Record;
    hide Data;
    hide Tcp.Transmit;
    assert [] + [s] == [s];
  }

  lemma FlushWired(env: Env, st: Tls)
    requires Wired(env, st) && KeysInv(st) && Flush(env, st).Ok?
    ensures Wired(env, Flush(env, st).value)
  {
    hide SealingOf;
    hide Numbered;
    var s := SealingOf(st.keys.value, st.writeSeq, APPLICATION_DATA, st.sendBuf);
    var record := SealedRecord(env, APPLICATION_DATA, st.writeSeq, s);
    assert record != [];
    hide SealedRecord;
    hide AnswerPacket;
    hide HelloRecord;
    PayloadWired(AfterSealing(st, s).(sendBuf := []), record);
    hide Data;
    hide Tcp.Transmit;
    hide Number;
    var after := Flush(env, st).value;
    var n := |st.sealings|;
    assert after.sealings == st.sealings + [s] && Data(after.tcp.sent) == Data(st.tcp.sent) + [record];
    forall i | 0 < i < |after.sealings|
      ensures Data(after.tcp.sent)[i + 1] == FlushedRecordOf(env, after.sealings, i)
    {
      if i < n {
        assert Data(st.tcp.sent)[i + 1] == FlushedRecordOf(env, st.sealings, i);
      }
    }
  }

  lemma HandshakeWired(env: Env, st: Tls)
    requires Wired(env, st) && KeysInv(st) && IsWhole(st.buf) && ProcessHandshake(env, st).Ok?
    ensures Wired(env, ProcessHandshake(env, st).value)
  {
    hide SendKeyExchangeAndFinished;
    hide Numbered;
    hide Value;
    hide Data;
    hide HelloAccepted;
    hide KeyExchangeReading;
    hide HelloDoneReading;
    hide ServerClosing;
    hide FlushedRecordOf;
    hide AnswerPacket;
    hide HelloRecord;
    if st.phase == ServerHelloDone && HelloDoneReading(st.buf[5..]).Message? {
      AnswerWired(env, Hash(st, HelloDoneReading(st.buf[5..]).size));
    }
  }

  lemma OnceWired(env: Env, st: Tls)
    requires Wired(env, st) && KeysInv(st) && !ReceiveOnce(env, st).Thrown?
    ensures Wired(env, ReceiveOnce(env, st).st)
  {
    hide ProcessHandshake;
    hide SendClientHello;
    hide Decrypted;
    hide Data;
    hide KeysInv;
    if st.phase == ClientHelloToSend && st.buf == [] {
      HelloWired(env, st);
      hide Wired;
    } else if |st.buf| >= 5 && IsTls12(st.buf) && IsWhole(st.buf) && st.phase != ServerFinished {
      hide Wired;
      HandshakeWired(env, st);
    }
  }

  lemma {:induction false} ReceiveWired(env: Env, st: Tls)
    requires Wired(env, st) && KeysInv(st) && Receive(env, st).Got?
    ensures Wired(env, Receive(env, st).st)
    decreases |st.buf|
  {
    hide ReceiveOnce;
    hide Wired;
    hide KeysInv;
    OnceWired(env, st);
    OnceStep(env, st);
    if ReceiveOnce(env, st).Again? {
      ReceiveWired(env, ReceiveOnce(env, st).st);
    }
  }

  lemma PacketWired(env: Env, st: Tls, p: Tcp.Packet)
    requires Wired(env, st) && ProcessPacket(st, p).Ok?
    ensures Wired(env, ProcessPacket(st, p).value)
  {
    AcksCarryNothing(st.tcp, p);
    hide Tcp.ProcessPacket;
    hide Data;
    hide FlushedRecordOf;
    hide AnswerPacket;
    hide HelloRecord;
  }

  lemma AcksCarryNothing(c: Tcp.Client, p: Tcp.Packet)
    requires Tcp.ProcessPacket(c, p).Ok?
    ensures Data(Tcp.ProcessPacket(c, p).value.sent) == Data(c.sent)
  {
    TcpRuns.StepSends(c, TcpRuns.Receive(p));
    var after := Tcp.ProcessPacket(c, p).value.sent;
    hide Tcp.ProcessPacket;
    if after != c.sent {
      assert after == c.sent + [after[|c.sent|]];
      DataSnoc(c.sent, after[|c.sent|]);
    }
    hide Data;
  }

  lemma StepWired(env: Env, st: Tls, e: Event)
    requires Wired(env, st) && KeysInv(st) && Step(env, st, e).Ok?
    ensures Wired(env, Step(env, st, e).value)
  {
    hide Receive;
    hide ProcessPacket;
    hide Flush;
    hide KeysInv;
    hide Data;
    hide FlushedRecordOf;
    hide AnswerPacket;
    hide HelloRecord;
    match e
    case Packet(p) => PacketWired(env, st, p);
    case Poll => ReceiveWired(env, st);
    case Write(bytes) =>
    case Send => FlushWired(env, st);
  }

  /** In every run of a new client the wire shows the hello, the answer, and one record per further
      encryption, in order and nothing else. */
  lemma {:induction false} RunWired(env: Env, isn: SeqNumbers.uint32, id: Tcp.uint16, es: seq<Event>)
    requires Create(env, Tcp.Fresh(isn, id)).Ok? && Run(env, Create(env, Tcp.Fresh(isn, id)).value, es).Ok?
    ensures Wired(env, Run(env, Create(env, Tcp.Fresh(isn, id)).value, es).value)
  {
    var tcp := Tcp.Fresh(isn, id);
    if es == [] {
      var seg := Tcp.SendBuffer(tcp.(state := Tcp.Connecting), Tcp.SYN, true);
      DataSnoc([], seg);
      assert [] + [seg] == [seg];
      assert Data([]) == [];
    } else {
      hide Create;
      hide Step;
      hide Wired;
      hide KeysInv;
      var st, before := Create(env, tcp).value, es[..|es| - 1];
      RunWired(env, isn, id, before);
      RunInv(env, tcp, before);
      StepWired(env, Run(env, st, before).value, es[|es| - 1]);
    }
  }

  /** The bytes in the clear: key exchange (16) with a key of 32 bytes, ChangeCipherSpec, and the header of the
      encrypted handshake record; then application records whose length covers what follows. */
  lemma WireHeaders(env: Env, st: Tls)
    requires EnvOk(env) && Wired(env, st) && Installed(st) && Sealed(st) && st.keys.Some?
    requires |st.keys.value.clientIv| == 4
    ensures var data := Data(st.tcp.sent);
            && |data| >= 2 && |data[1]| >= 53
            && data[1][..42] == [22, 3, 3, 0, 37, 16, 0, 0, 33, 32] + env.ephemeral
            && data[1][42..48] == [20, 3, 3, 0, 1, 1] && data[1][48..51] == [22, 3, 3]
            && forall i :: 2 <= i < |data| ==>
                 |data[i]| >= 5 && data[i][..3] == [23, 3, 3] && |data[i]| == 5 + BodySize(data[i])
  {
    var data := Data(st.tcp.sent);
    hide Data;
    KeyExchangeWrittenOut(env);
    var front := Record(HANDSHAKE, KeyExchangeMessage(env));
    var r := SealedRecord(env, HANDSHAKE, 0, st.sealings[0]);
    RecordStart(HANDSHAKE, Encode(8, 0) + Ciphertext(env, st.sealings[0]));
    hide KeyExchangeMessage;
    AnswerHeaders(front, r);
    forall i | 2 <= i < |data|
      ensures |data[i]| >= 5 && data[i][..3] == [23, 3, 3] && |data[i]| == 5 + BodySize(data[i])
    {
      var s := st.sealings[i - 1];
      assert IsSealing(s, st.keys.value, i - 1);
      assert data[(i - 1) + 1] == FlushedRecordOf(env, st.sealings, i - 1);
      SealedShape(env, APPLICATION_DATA, st.keys.value, Number(i - 1), s.plain);
      RecordStart(APPLICATION_DATA, Encode(8, Number(i - 1)) + Ciphertext(env, s));
    }
  }

  lemma RecordStart(kind: byte, body: Bytes)
    ensures |Record(kind, body)| >= 5 && Record(kind, body)[..3] == [kind, 3, 3]
  {
  }

  lemma KeyExchangeWrittenOut(env: Env)
    requires EnvOk(env)
    ensures Record(HANDSHAKE, KeyExchangeMessage(env)) == [22, 3, 3, 0, 37, 16, 0, 0, 33, 32] + env.ephemeral
  {
    assert Encode(3, 33) == [0, 0, 33] && Encode(2, 37) == [0, 37];
    var message := KeyExchangeMessage(env);
    assert message == [16, 0, 0, 33, 32] + env.ephemeral;
    assert |message| == 37;
    hide KeyExchangeMessage;
  }

  lemma AnswerHeaders(front: Bytes, r: Bytes)
    requires |front| == 42 && |r| >= 5
    ensures var p := front + CHANGE_CIPHER_RECORD + r;
            |p| >= 53 && p[..42] == front && p[42..48] == [20, 3, 3, 0, 1, 1] && p[48..51] == r[..3]
  {
    var p := front + CHANGE_CIPHER_RECORD + r;
    assert p[48..51] == r[..3];
  }

  // ----- Agreement on secrets and keys -----

  /** The exchange as the server knows it: the messages it sent, and those it cut out of the client's first
      two data segments behind the record headers. */
  function OnWire(env: Env, f: Flight, data: seq<Bytes>): S.Exchange
    requires GoodFlight(f) && |data| >= 2 && |data[0]| >= 5 && |data[1]| >= 42
  {
    S.Exchange(data[0][5..], f.hello, f.certificate, f.keyExchange, f.done, data[1][5..42],
               env.exchange(S.PublicKey(f.keyExchange)))
  }

  lemma WireParts(env: Env, st: Tls)
    requires EnvOk(env) && Wired(env, st) && Installed(st)
    ensures var data := Data(st.tcp.sent);
            && |data| >= 2 && |data[0]| >= 43 && data[0][5..] == ClientHello.HelloMessage(env.random, env.host)
            && |data[1]| >= 48 && data[1][5..42] == KeyExchangeMessage(env)
            && data[1][48..] == SealedRecord(env, HANDSHAKE, 0, st.sealings[0])
            && data[0][5..][6..38] == env.random
  {
    var data := Data(st.tcp.sent);
    hide Data;
    var hello := ClientHello.HelloMessage(env.random, env.host);
    HelloRandom(env.random, env.host);
    hide ClientHello.HelloMessage;
    ClientRecord(hello);
    TlsClientSizes(env);
    hide SealedRecord;
    hide KeyExchangeMessage;
    ClientRecord(KeyExchangeMessage(env));
    hide Record;
    AnswerParts(Record(HANDSHAKE, KeyExchangeMessage(env)), SealedRecord(env, HANDSHAKE, 0, st.sealings[0]));
  }

  lemma TlsClientSizes(env: Env)
    requires EnvOk(env)
    ensures |KeyExchangeMessage(env)| == 37
  {
    hide Encode;
  }

  lemma ClientRecord(body: Bytes)
    ensures |Record(HANDSHAKE, body)| == 5 + |body| && Record(HANDSHAKE, body)[5..] == body
  {
  }

  lemma AnswerParts(front: Bytes, r: Bytes)
    requires |front| == 42
    ensures var p := front + CHANGE_CIPHER_RECORD + r; p[5..42] == front[5..] && p[48..] == r && |p| == 48 + |r|
  {
    var p := front + CHANGE_CIPHER_RECORD + r;
    assert p[48..] == r;
    assert p[5..42] == front[5..];
  }

  /** Master secret and keys are those of the server. */
  lemma SecretsAgree(env: Env, f: Flight, st: Tls)
    requires EnvOk(env) && GoodFlight(f) && Wired(env, st) && Installed(st) && Agrees(env, f, st)
    ensures var data := Data(st.tcp.sent);
            && |data| >= 2 && |data[0]| >= 43 && |data[1]| >= 48
            && var x := OnWire(env, f, data);
               var block := x.KeyBlock(env);
               && |block| == 40 && st.masterSecret == x.MasterSecret(env)
               && st.keys == Some(Keys(block[..16], block[16..32], block[32..36], block[36..]))
               && st.sealings[0].plain == x.ClientFinished(env)
  {
    hide Data;
    hide KeyExchangeMessage;
    hide ClientHello.HelloMessage;
    hide SealedRecord;
    hide Wired;
    hide EnvOk;
    hide S.PublicKey;
    hide S.Exchange.MasterSecret;
    hide S.Exchange.ClientFinished;
    hide S.Exchange.Messages;
    WireParts(env, st);
    assert OnWire(env, f, Data(st.tcp.sent)) == Exchanged(env, f);
    hide Exchanged;
    hide OnWire;
  }

  // ----- What the server opens -----

  /** The keys are the block cut in four. */
  predicate CutFrom(keys: Keys, block: Bytes) {
    |block| == 40 && keys == Keys(block[..16], block[16..32], block[32..36], block[36..])
  }

  /** A record sealed by the client under number `n` is opened by the server under that number. */
  lemma ServerOpens(env: Env, keys: Keys, block: Bytes, kind: byte, n: uint64, plain: Bytes)
    requires EnvOk(env) && S.Opens(env) && CutFrom(keys, block) && |plain| + 24 < 0x1_0000
    ensures var r := SealedRecord(env, kind, n, SealingOf(keys, n, kind, plain));
            |r| == 29 + |plain| && S.OpenRecord(env, block, n, r) == plain
  {
    var s := SealingOf(keys, n, kind, plain);
    var r := SealedRecord(env, kind, n, s);
    SealedShape(env, kind, keys, n, plain);
    assert r[5..13] == Encode(8, n) by {
      assert s.nonce[4..] == Encode(8, n);
    }
    hide SealedRecord;
    hide Encode;
    var aad := S.Additional(n, r[0], |r| - 29);
    assert aad == s.aad && block[32..36] + r[5..13] == s.nonce;
    var text := env.open(block[..16], block[32..36] + r[5..13], aad, r[13..]);
    assert r[13..] == env.seal(block[..16], s.nonce, s.aad, plain);
    assert plain <= text;
  }

  /** Every encryption so far is the sealing of its plaintext under its number. */
  ghost predicate Sealed(st: Tls) {
    && (st.keys.None? ==> st.sealings == [])
    && (st.keys.Some? ==>
          forall i :: 0 <= i < |st.sealings| ==> IsSealing(st.sealings[i], st.keys.value, i))
  }

  predicate IsSealing(s: Sealing, keys: Keys, i: nat) {
    |s.plain| + 24 < 0x1_0000
    && s == SealingOf(keys, Number(i), if i == 0 then HANDSHAKE else APPLICATION_DATA, s.plain)
  }

  lemma SealedMore(st: Tls, after: Tls, plain: Bytes)
    requires Sealed(st) && st.keys.Some? && st.sealings != [] && |plain| + 24 < 0x1_0000
    requires st.writeSeq == Number(|st.sealings|) && after.keys == st.keys
    requires after.sealings == st.sealings + [SealingOf(st.keys.value, st.writeSeq, APPLICATION_DATA, plain)]
    ensures Sealed(after)
  {
    var n, all := |st.sealings|, after.sealings;
    assert IsSealing(all[n], st.keys.value, n);
    hide IsSealing;
    hide SealingOf;
    assert forall i :: 0 <= i < n ==> all[i] == st.sealings[i];
  }

  lemma FlushSealed(env: Env, st: Tls)
    requires EnvOk(env) && Sealed(st) && KeysInv(st) && Wired(env, st) && Flush(env, st).Ok?
    ensures Sealed(Flush(env, st).value)
    ensures var after := Flush(env, st).value;
            && |after.sealings| == |st.sealings| + 1 && after.sealings[..|st.sealings|] == st.sealings
            && after.sealings[|st.sealings|].plain == st.sendBuf && after.sendBuf == []
  {
    hide Tcp.Transmit;
    hide SealedRecord;
    hide Numbered;
    hide Data;
    hide FlushedRecordOf;
    SealedMore(st, Flush(env, st).value, st.sendBuf);
    hide Sealed;
    hide Encode;
  }

  lemma AnswerSealed(env: Env, st: Tls)
    requires EnvOk(env) && st.sealings == [] && st.writeSeq == 0 && SendKeyExchangeAndFinished(env, st).Ok?
    ensures Sealed(SendKeyExchangeAndFinished(env, st).value)
    ensures |SendKeyExchangeAndFinished(env, st).value.sealings| == 1
    ensures SendKeyExchangeAndFinished(env, st).value.sendBuf == st.sendBuf
  {
    hide Tcp.Transmit;
    hide SealedRecord;
    hide KeyExchangeMessage;
    hide DeriveMaster;
    hide DeriveKeys;
    hide Record;
    var transcript := st.transcript + KeyExchangeMessage(env);
    var master := DeriveMaster(env, st.serverPub, transcript);
    FlightSizes(env, master, st.serverRandom, st.clientRandom, transcript);
    hide FinishedMessage;
    hide Encode;
    hide EnvOk;
    NumberBelow(0);
  }

  /** Plaintexts of all encryptions but the first, which is the Finished message. */
  function Texts(sealings: seq<Sealing>): Bytes {
    if |sealings| <= 1 then [] else Texts(sealings[..|sealings| - 1]) + sealings[|sealings| - 1].plain
  }

  /** Everything written is sealed, in order, or waits for the next flush. */
  ghost predicate Keeps(st: Tls, written: Bytes) {
    Sealed(st) && Texts(st.sealings) + st.sendBuf == written
  }

  lemma SameSealings(st: Tls, after: Tls, written: Bytes)
    requires Keeps(st, written)
    requires after.sealings == st.sealings && after.keys == st.keys && after.sendBuf == st.sendBuf
    ensures Keeps(after, written)
  {
    hide IsSealing;
    hide Texts;
  }

  lemma HandshakeKeeps(env: Env, st: Tls, written: Bytes)
    requires EnvOk(env) && Wired(env, st) && KeysInv(st) && Keeps(st, written)
    requires IsWhole(st.buf) && ProcessHandshake(env, st).Ok?
    ensures Keeps(ProcessHandshake(env, st).value, written)
  {
    hide SendKeyExchangeAndFinished;
    hide Value;
    hide Data;
    hide HelloAccepted;
    hide KeyExchangeReading;
    hide HelloDoneReading;
    hide ServerClosing;
    var after := ProcessHandshake(env, st).value;
    if st.phase == ServerHelloDone && HelloDoneReading(st.buf[5..]).Message? {
      var hashed := Hash(st, HelloDoneReading(st.buf[5..]).size);
      AnswerSealed(env, hashed);
      hide IsSealing;
      assert Texts(st.sealings) == [] && Texts(after.sealings) == [];
      assert Sealed(after);
    } else {
      hide Keeps;
      SameSealings(st, after, written);
    }
  }

  lemma OnceKeeps(env: Env, st: Tls, written: Bytes)
    requires EnvOk(env) && Wired(env, st) && KeysInv(st) && Keeps(st, written) && !ReceiveOnce(env, st).Thrown?
    ensures Keeps(ReceiveOnce(env, st).st, written)
  {
    hide ProcessHandshake;
    hide Decrypted;
    hide KeysInv;
    hide Wired;
    hide Keeps;
    hide EnvOk;
    hide Tcp.Transmit;
    if |st.buf| >= 5 && IsTls12(st.buf) && IsWhole(st.buf) && st.phase != ServerFinished {
      HandshakeKeeps(env, st, written);
    } else {
      SameSealings(st, ReceiveOnce(env, st).st, written);
    }
  }

  lemma {:induction false} ReceiveKeeps(env: Env, st: Tls, written: Bytes)
    requires EnvOk(env) && Wired(env, st) && KeysInv(st) && Keeps(st, written) && Receive(env, st).Got?
    ensures Keeps(Receive(env, st).st, written)
    decreases |st.buf|
  {
    hide ReceiveOnce;
    hide Wired;
    hide KeysInv;
    hide Keeps;
    hide EnvOk;
    OnceKeeps(env, st, written);
    OnceWired(env, st);
    OnceStep(env, st);
    if ReceiveOnce(env, st).Again? {
      ReceiveKeeps(env, ReceiveOnce(env, st).st, written);
    }
  }

  lemma FlushKeeps(env: Env, st: Tls, written: Bytes)
    requires EnvOk(env) && Wired(env, st) && KeysInv(st) && Keeps(st, written) && Flush(env, st).Ok?
    ensures Keeps(Flush(env, st).value, written)
  {
    FlushSealed(env, st);
    hide Sealed;
    hide Flush;
    hide Data;
    var after := Flush(env, st).value;
    assert after.sealings[..|after.sealings| - 1] == st.sealings;
    assert Texts(after.sealings) + [] == Texts(st.sealings) + st.sendBuf;
  }

  /** What the application wrote during a run. */
  function Written(es: seq<Event>): Bytes {
    if es == [] then []
    else
      var last := es[|es| - 1];
      Written(es[..|es| - 1]) + if last.Write? then last.bytes else []
  }

  lemma {:induction false} WrittenAppend(a: seq<Event>, b: seq<Event>)
    ensures Written(a + b) == Written(a) + Written(b)
  {
    if b == [] {
      assert a + b == a;
    } else {
      WrittenAppend(a, b[..|b| - 1]);
      assert (a + b)[..|a + b| - 1] == a + b[..|b| - 1];
    }
  }

  lemma OnceSendBuf(env: Env, st: Tls)
    requires !ReceiveOnce(env, st).Thrown?
    ensures ReceiveOnce(env, st).st.sendBuf == st.sendBuf
  {
    hide Tcp.Transmit;
    hide Value;
    hide Decrypted;
    hide HelloAccepted;
    hide KeyExchangeReading;
    hide HelloDoneReading;
    hide ServerClosing;
    hide SealingOf;
    hide SealedRecord;
    hide DeriveKeys;
    hide DeriveMaster;
    hide KeyExchangeMessage;
    hide FinishedMessage;
    hide Record;
  }

  /** Receiving does not touch plaintext that waits for a flush. */
  lemma {:induction false} ReceiveSendBuf(env: Env, st: Tls)
    requires Receive(env, st).Got?
    ensures Receive(env, st).st.sendBuf == st.sendBuf
    decreases |st.buf|
  {
    hide ReceiveOnce;
    OnceSendBuf(env, st);
    if ReceiveOnce(env, st).Again? {
      ReceiveSendBuf(env, ReceiveOnce(env, st).st);
    }
  }

  lemma StepKeeps(env: Env, st: Tls, e: Event, written: Bytes)
    requires EnvOk(env) && Wired(env, st) && KeysInv(st) && Keeps(st, written) && Step(env, st, e).Ok?
    ensures Keeps(Step(env, st, e).value, written + if e.Write? then e.bytes else [])
  {
    hide Receive;
    hide Flush;
    hide Wired;
    hide KeysInv;
    hide EnvOk;
    hide Tcp.ProcessPacket;
    assert written + [] == written;
    match e
    case Packet(p) => SameSealings(st, Step(env, st, e).value, written);
    case Poll => ReceiveKeeps(env, st, written);
    case Write(bytes) =>
      hide IsSealing;
      Assoc(Texts(st.sealings), st.sendBuf, bytes);
    case Send => FlushKeeps(env, st, written);
  }

  lemma {:induction false} RunKeeps(env: Env, isn: SeqNumbers.uint32, id: Tcp.uint16, es: seq<Event>)
    requires EnvOk(env) && Create(env, Tcp.Fresh(isn, id)).Ok?
    requires Run(env, Create(env, Tcp.Fresh(isn, id)).value, es).Ok?
    ensures Keeps(Run(env, Create(env, Tcp.Fresh(isn, id)).value, es).value, Written(es))
  {
    var tcp := Tcp.Fresh(isn, id);
    hide Tcp.Connect;
    if es != [] {
      hide Create;
      hide Step;
      hide Wired;
      hide KeysInv;
      hide Keeps;
      hide EnvOk;
      var st, before := Create(env, tcp).value, es[..|es| - 1];
      RunKeeps(env, isn, id, before);
      RunWired(env, isn, id, before);
      RunInv(env, tcp, before);
      StepKeeps(env, Run(env, st, before).value, es[|es| - 1], Written(before));
    }
  }

  /** Record `i` on the wire opens to the plaintext of encryption `i`. */
  lemma OpensOne(env: Env, st: Tls, block: Bytes, i: nat)
    requires EnvOk(env) && S.Opens(env) && Wired(env, st) && Installed(st) && Sealed(st)
    requires st.keys.Some? && CutFrom(st.keys.value, block) && i < |st.sealings| && i < 0x1_0000_0000_0000_0000
    ensures var data := Data(st.tcp.sent);
            var r := if i == 0 then SealedRecord(env, HANDSHAKE, 0, st.sealings[0]) else data[i + 1];
            |r| >= 29 && S.OpenRecord(env, block, i, r) == st.sealings[i].plain
  {
    NumberBelow(i);
    var s := st.sealings[i];
    assert IsSealing(s, st.keys.value, i);
    hide Data;
    hide AnswerPacket;
    hide HelloRecord;
    assert i > 0 ==> Data(st.tcp.sent)[i + 1] == FlushedRecordOf(env, st.sealings, i);
    ServerOpens(env, st.keys.value, block, if i == 0 then HANDSHAKE else APPLICATION_DATA, i, s.plain);
    hide SealedRecord;
    hide S.OpenRecord;
    hide EnvOk;
    hide S.Opens;
    hide CutFrom;
  }

  lemma {:induction false} ReadsAll(env: Env, st: Tls, block: Bytes, n: nat)
    requires EnvOk(env) && S.Opens(env) && Wired(env, st) && Installed(st) && Sealed(st)
    requires st.keys.Some? && CutFrom(st.keys.value, block)
    requires 1 <= n <= |st.sealings| <= 0x1_0000_0000_0000_0000
    ensures S.ReadText(env, block, 1, Data(st.tcp.sent)[2..n + 1]) == Texts(st.sealings[..n])
  {
    hide EnvOk;
    hide S.Opens;
    hide Sealed;
    hide CutFrom;
    hide Data;
    hide S.OpenRecord;
    hide HelloRecord;
    hide AnswerPacket;
    hide FlushedRecordOf;
    hide SealedRecord;
    var data := Data(st.tcp.sent);
    if n > 1 {
      ReadsAll(env, st, block, n - 1);
      OpensOne(env, st, block, n - 1);
      var records := data[2..n + 1];
      assert records[..|records| - 1] == data[2..n] && records[|records| - 1] == data[n];
      assert st.sealings[..n][..n - 1] == st.sealings[..n - 1];
    } else {
      assert data[2..n + 1] == [];
    }
  }

  /** Over every run of a new client with a server's flight, as soon as the keys are installed: master secret and
      keys are those that the server derives, apart, from the bytes on the wire; the server opens the first
      encrypted record as the Finished message it expects; and what it opens after that, followed by what
      waits for a flush, is everything the application wrote, in order. */
  lemma ServerAgrees(
    env: Env, isn: SeqNumbers.uint32, id: Tcp.uint16, f: Flight, tail: Bytes, es: seq<Event>, later: Bytes)
    requires EnvOk(env) && S.Opens(env) && GoodFlight(f) && Create(env, Tcp.Fresh(isn, id)).Ok?
    requires Run(env, Create(env, Tcp.Fresh(isn, id)).value, es).Ok?
    requires Input(es) + later == Remaining(ServerHello, f, tail)
    ensures var st := Run(env, Create(env, Tcp.Fresh(isn, id)).value, es).value;
            Installed(st) && |st.sealings| <= 0x1_0000_0000_0000_0000 ==>
              var data := Data(st.tcp.sent);
              && |data| >= 2 && |data[0]| >= 43 && |data[1]| >= 77
              && var x := OnWire(env, f, data);
                 var block := x.KeyBlock(env);
                 && |block| == 40 && st.masterSecret == x.MasterSecret(env)
                 && st.keys == Some(Keys(block[..16], block[16..32], block[32..36], block[36..]))
                 && S.OpenRecord(env, block, 0, data[1][48..]) == x.ClientFinished(env)
                 && S.ReadText(env, block, 1, data[2..]) + st.sendBuf == Written(es)
  {
    hide Run;
    hide Create;
    hide Wired;
    hide Derived;
    hide Agrees;
    hide Remaining;
    hide Data;
    hide Follows;
    hide KeysInv;
    hide Transcript;
    var tcp := Tcp.Fresh(isn, id);
    var st := Run(env, Create(env, tcp).value, es).value;
    if Installed(st) && |st.sealings| <= 0x1_0000_0000_0000_0000 {
      TranscriptInEveryRun(env, tcp, f, tail, es, later);
      RunWired(env, isn, id, es);
      RunKeeps(env, isn, id, es);
      SecretsAgree(env, f, st);
      WireParts(env, st);
      var data := Data(st.tcp.sent);
      var block := OnWire(env, f, data).KeyBlock(env);
      WiredSizes(env, st);
      OpensOne(env, st, block, 0);
      ReadsAll(env, st, block, |st.sealings|);
      assert data[2..|st.sealings| + 1] == data[2..] && st.sealings[..|st.sealings|] == st.sealings;
    }
  }

  lemma WiredSizes(env: Env, st: Tls)
    requires Wired(env, st) && Installed(st)
    ensures st.sealings != [] && |Data(st.tcp.sent)| == |st.sealings| + 1
  {
  }

  // ----- What the client opens -----

  /** Every application record of the server that the client returns is opened with the server's key, the
      server's fixed IV and the record's explicit IV. The additional data names the length of the
      ciphertext, where the server names that of the plaintext. */
  lemma ReceiveOpensWith(env: Env, st: Tls, block: Bytes, body: Bytes, rest: Bytes)
    requires EnvOk(env) && st.phase == ServerFinished && st.keys.Some? && CutFrom(st.keys.value, block)
    requires st.buf == S.Plain(23, body) + rest && 24 < |body| < 0x1_0000
    ensures var text := env.open(block[16..32], block[36..] + body[..8],
                                 Encode(8, st.readSeq) + [23, 3, 3] + Encode(2, |body| - 8), body[8..]);
            && |text| == |body| - 8
            && Receive(env, st) == Got(Some(text[..|body| - 24]),
                                       st.(buf := rest, readSeq := (st.readSeq + 1) % 0x1_0000_0000_0000_0000))
  {
    RecordHeader(23, body, rest);
    hide Record;
    hide Encode;
    var n := 5 + |body|;
    assert st.buf[5..n] == (body + rest)[..|body|] == body && st.buf[n..] == (body + rest)[|body|..] == rest;
    PollApplication(env, st);
    hide Receive;
  }

  /** What the server seals under any number, the client returns, because it does not check the tag. */
  lemma ClientOpens(env: Env, keys: Keys, block: Bytes, number: nat, count: uint64, iv: Bytes, plain: Bytes)
    requires EnvOk(env) && S.OpensAnyway(env) && CutFrom(keys, block) && |iv| == 8 && plain != []
    ensures var body := S.SealBody(env, block, number, iv, plain);
            |body| == 24 + |plain| && Decrypted(env, keys, count, body) == plain
  {
    var body := S.SealBody(env, block, number, iv, plain);
    var cipher := env.seal(block[16..32], block[36..] + iv, S.Additional(number, 23, |plain|), plain);
    assert body[..8] == iv && body[8..] == cipher;
    hide S.Additional;
    hide Aad;
    var text := env.open(keys.serverKey, keys.serverIv + iv, Aad(count, APPLICATION_DATA, |cipher|), cipher);
    assert plain <= text;
  }

  lemma ReceiveReturns(
    env: Env, st: Tls, block: Bytes, number: nat, iv: Bytes, plain: Bytes, rest: Bytes)
    requires EnvOk(env) && S.OpensAnyway(env) && st.phase == ServerFinished && st.keys.Some?
    requires CutFrom(st.keys.value, block) && |iv| == 8 && 0 < |plain| && |plain| + 24 < 0x1_0000
    requires st.buf == S.Plain(23, S.SealBody(env, block, number, iv, plain)) + rest
    ensures Receive(env, st)
         == Got(Some(plain), st.(buf := rest, readSeq := (st.readSeq + 1) % 0x1_0000_0000_0000_0000))
  {
    var body := S.SealBody(env, block, number, iv, plain);
    ClientOpens(env, st.keys.value, block, number, st.readSeq, iv, plain);
    RecordHeader(23, body, rest);
    hide S.SealBody;
    hide Record;
    hide EnvOk;
    hide Decrypted;
    var n := 5 + |body|;
    assert st.buf[5..n] == (body + rest)[..|body|] == body && st.buf[n..] == (body + rest)[|body|..] == rest;
    PollApplication(env, st);
    hide Receive;
  }

  /** The body of a record in which the server sealed `plain`. */
  ghost predicate Seals(env: Env, block: Bytes, body: Bytes, plain: Bytes)
    requires |block| == 40
  {
    && 0 < |plain| && |plain| + 24 < 0x1_0000
    && exists number: nat, iv: Bytes :: |iv| == 8 && body == S.SealBody(env, block, number, iv, plain)
  }

  lemma SealsOpens(env: Env, keys: Keys, block: Bytes, count: uint64, body: Bytes, plain: Bytes)
    requires EnvOk(env) && S.OpensAnyway(env) && CutFrom(keys, block) && Seals(env, block, body, plain)
    ensures |body| == 24 + |plain| && Decrypted(env, keys, count, body) == plain
  {
    var number: nat, iv: Bytes :| |iv| == 8 && body == S.SealBody(env, block, number, iv, plain);
    ClientOpens(env, keys, block, number, count, iv, plain);
  }
}
