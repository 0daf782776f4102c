/** The TLS client object. */
module TlsClient {
  import opened Outcomes
  import opened Binary
  import opened ByteStream
  import opened WriteStream
  import opened TlsRecords
  import M = TlsModel
  import ClientHello
  import Tcp = TcpModel
  import opened TcpClient
  import opened TlsReader

  datatype Result = Failed | Spins | Nothing | Data(view: View)

  class TlsConnection {
    const env: M.Env
    const stream: Stream
    const sendBuffer: Stream
    const tcp: TcpConnection
    var phase: M.Phase
    var transcript: Bytes
    var clientRandom: Bytes
    var serverRandom: Bytes
    var serverPub: M.PublicKeyArea
    var masterSecret: Bytes
    var keys: Option<M.Keys>
    var writeSeq: M.uint64
    var readSeq: M.uint64
    ghost var sealings: seq<M.Sealing>

    /** The streams are well formed and apart, and TCP's numbers refine its unbounded counters. */
    ghost predicate Valid()
      reads this, stream, sendBuffer, tcp
    {
      && M.EnvOk(env) && tcp.Valid()
      && stream.Valid() && sendBuffer.Valid() && sendBuffer.read == 0
      && stream != sendBuffer && stream.buffer != sendBuffer.buffer
      && stream.buffer.Length == M.STREAM_SIZE && sendBuffer.buffer.Length == M.STREAM_SIZE
    }

    ghost function View(): M.Tls
      requires Valid()
      reads this, stream, stream.buffer, sendBuffer, sendBuffer.buffer, tcp
    {
      M.Tls(phase, stream.Contents(), sendBuffer.Contents(), transcript, clientRandom, serverRandom, serverPub,
            masterSecret, keys, writeSeq, readSeq, sealings, tcp.View())
    }

    constructor (env: M.Env, tcp: TcpConnection)
      requires M.EnvOk(env) && tcp.Valid()
      ensures Valid() && View() == M.Start(env, tcp.View()) && this.env == env && this.tcp == tcp
      ensures fresh(stream) && fresh(stream.buffer) && fresh(sendBuffer) && fresh(sendBuffer.buffer)
    {
      this.env := env;
      this.tcp := tcp;
      stream := new Stream(M.STREAM_SIZE);
      sendBuffer := new Stream(M.STREAM_SIZE);
      phase := M.ClientHelloToSend;
      transcript := [];
      clientRandom := env.random;
      serverRandom := Zeros(32);
      serverPub := Zeros(2048);
      masterSecret := Zeros(48);
      keys := None;
      writeSeq := 0;
      readSeq := 0;
      sealings := [];
    }

    /** The second half of construction: opens the TCP connection. */
    method Open() returns (ok: bool)
      requires Valid()
      modifies tcp
      ensures ok <==> Tcp.Connect(old(tcp.View())).Ok?
      ensures ok ==> tcp.View() == Tcp.Connect(old(tcp.View())).value
      ensures ok && old(tcp.unacknowledgedBytes == 0 && tcp.seqNo == tcp.lastAckNumber) ==>
                Valid() && View() == old(View()).(tcp := Tcp.Connect(old(tcp.View())).value)
    {
      hide Tcp.Connect;
      ok := tcp.Connect();
    }

    method PushBytes(bytes: Bytes) returns (ok: bool)
      requires Valid()
      modifies sendBuffer, sendBuffer.buffer
      ensures Valid()
      ensures ok <==> M.Push(old(View()), bytes).Ok?
      ensures ok ==> View() == M.Push(old(View()), bytes).value
    {
      hide M.EnvOk;
      hide TcpConnection.Valid;
      ok := sendBuffer.PushBytes(bytes);
    }

    /** Encrypts `n` bytes of an outgoing packet in place and puts the tag after them. */
    method Encrypt(w: Writer, at: nat, n: nat, contentType: byte) returns (len: nat)
      requires Valid() && keys.Some? && w.Valid() && at + n + 16 <= w.bytes.Length
      requires w != this as object && w.bytes != stream.buffer && w.bytes != sendBuffer.buffer
      modifies this`writeSeq, this`sealings, w.bytes
      ensures Valid() && len == n + 16
      ensures var s := M.SealingOf(keys.value, old(writeSeq), contentType, old(w.bytes[at..at + n]));
              && View() == M.AfterSealing(old(View()), s)
              && w.bytes[..at] == old(w.bytes[..at])
              && w.bytes[at..at + len] == M.Ciphertext(env, s)
    {
      hide TcpConnection.Valid;
      hide M.SealingOf;
      hide Stream.Contents;
      hide Stream.Valid;
      var s := M.SealingOf(keys.value, writeSeq, contentType, w.bytes[at..at + n]);
      PlainSize(keys.value, writeSeq, contentType, w.bytes[at..at + n]);
      var out := M.Ciphertext(env, s);
      w.CopyIn(at, out);
      sealings := sealings + [s];
      writeSeq := (writeSeq + 1) % 0x1_0000_0000_0000_0000;
      len := |out|;
    }

    method SendClientHello() returns (ok: bool)
      requires Valid()
      modifies this, tcp
      ensures ok <==> M.SendClientHello(env, old(View())).Ok?
      ensures ok ==> Valid() && View() == M.SendClientHello(env, old(View())).value
    {
      hide Record;
      hide ClientHello.HelloMessage;
      hide Tcp.Transmit;
      var packet := tcp.GetSendBuffer(Tcp.PSH_ACK, false);
      var w := new Writer(env.room);
      clientRandom := env.random;
      ok := ClientHello.Build(w, env.random, env.host);
      if !ok {
        return;
      }
      assert w.Written()[5..] == ClientHello.HelloMessage(env.random, env.host) by {
        RecordBody(HANDSHAKE, ClientHello.HelloMessage(env.random, env.host));
      }
      transcript := transcript + w.bytes[5..w.writeIt];
      ok := tcp.Send(packet, w.bytes[..w.writeIt]);
    }

    /** Builds an application record in the packet: header and explicit IV, the plaintext, then the
        encryption in place and the final length. */
    method BuildRecord(w: Writer, toSend: Bytes) returns (ok: bool, len: nat)
      requires Valid() && w.Valid() && w.Written() == []
      requires w != this as object && w.bytes != stream.buffer && w.bytes != sendBuffer.buffer
      modifies this`writeSeq, this`sealings, w, w.bytes
      ensures Valid()
      ensures ok <==> keys.Some? && 29 + |toSend| <= w.bytes.Length
      ensures ok ==>
                var s := M.SealingOf(keys.value, old(writeSeq), APPLICATION_DATA, toSend);
                && View() == M.AfterSealing(old(View()), s)
                && len == 29 + |toSend|
                && w.bytes[..len] == M.SealedRecord(env, APPLICATION_DATA, old(writeSeq), s)
    {
      hide M.EnvOk;
      hide TcpConnection.Valid;
      hide Encode;
      hide M.SealingOf;
      hide M.AfterSealing;
      hide Writer.Written;
      var number := writeSeq;
      ok := PushPlain(w, number, toSend);
      if !ok || keys.None? || 29 + |toSend| > w.bytes.Length {
        return false, 0;
      }
      var n := Encrypt(w, 13, |toSend|, APPLICATION_DATA);
      ghost var before := w.bytes[..];
      assert before[..13] == w.bytes[..13] && before[13..13 + n] == w.bytes[13..13 + n];
      w.CopyIn(3, Encode(2, 8 + n));
      len := 13 + n;
      ghost var s := M.SealingOf(keys.value, number, APPLICATION_DATA, toSend);
      assert w.bytes[..len] == w.bytes[..][..len];
      assert w.bytes[..][..3] == before[..3] && w.bytes[..][5..] == before[5..];
      RecordLayout(before, w.bytes[..], Encode(8, number), M.Ciphertext(env, s));
    }

    static method PushPlain(w: Writer, number: M.uint64, toSend: Bytes) returns (ok: bool)
      requires w.Valid() && w.Written() == []
      modifies w, w.bytes
      ensures w.Valid() && (ok <==> 13 + |toSend| <= w.bytes.Length)
      ensures ok ==> w.bytes[..13] == [APPLICATION_DATA, 3, 3, 0, 0] + Encode(8, number)
      ensures ok ==> w.bytes[13..13 + |toSend|] == toSend
    {
      hide Encode;
      ok := w.Push([APPLICATION_DATA, 3, 3, 0, 0] + Encode(8, number));
      if ok {
        ok := w.Push(toSend);
        if ok {
          assert w.Written()[..13] == w.bytes[..13] && w.Written()[13..] == w.bytes[13..13 + |toSend|];
        }
      }
    }

    method Flush() returns (ok: bool)
      requires Valid()
      modifies this, tcp, sendBuffer
      ensures ok <==> M.Flush(env, old(View())).Ok?
      ensures ok ==> Valid() && View() == M.Flush(env, old(View())).value
    {
      hide Stream.Valid;
      hide Stream.Contents;
      hide Stream.Bytes;
      hide Writer.Written;
      hide Writer.Valid;
      hide M.EnvOk;
      hide TcpConnection.Valid;
      hide M.SealedRecord;
      hide M.SealingOf;
      hide Tcp.Transmit;
      var packet := tcp.GetSendBuffer(Tcp.PSH_ACK, false);
      var w := new Writer(env.room);
      ghost var plain := sendBuffer.Contents();
      var popped := sendBuffer.Pop(sendBuffer.Size());
      var toSend := sendBuffer.Bytes(popped.value);
      assert toSend == plain;
      var len;
      ok, len := BuildRecord(w, toSend);
      if ok {
        ok := tcp.Send(packet, w.bytes[..len]);
      }
    }

    /** Sends key exchange, ChangeCipherSpec and the encrypted Finished in one packet. */
    method SendKeyExchangeAndFinished() returns (ok: bool)
      requires Valid()
      modifies this, tcp
      ensures ok <==> M.SendKeyExchangeAndFinished(env, old(View())).Ok?
      ensures ok ==> Valid() && View() == M.SendKeyExchangeAndFinished(env, old(View())).value
    {
      hide M.EnvOk;
      hide TcpConnection.Valid;
      hide Tcp.Transmit;
      hide M.KeyExchangeMessage;
      hide M.DeriveMaster;
      hide M.DeriveKeys;
      hide M.FinishedMessage;
      hide M.SealingOf;
      hide M.SealedRecord;
      hide Record;
      hide Writer.Written;
      var packet := tcp.GetSendBuffer(Tcp.PSH_ACK, false);
      var w := new Writer(env.room);
      transcript := transcript + M.KeyExchangeMessage(env);
      masterSecret := M.DeriveMaster(env, serverPub, transcript);
      DerivedOk(env, masterSecret, serverRandom, clientRandom);
      keys := Some(M.DeriveKeys(env, masterSecret, serverRandom, clientRandom).value);
      FinishedSize(env, masterSecret, transcript);
      ok := BuildFlight(w, M.FinishedMessage(env, masterSecret, transcript));
      if ok {
        ok := tcp.Send(packet, w.bytes[..w.writeIt]);
      }
    }

    /** Writes the flight into the packet and encrypts the Finished message in place. */
    method BuildFlight(w: Writer, finished: Bytes) returns (ok: bool)
      requires Valid() && keys.Some? && w.Valid() && w.Written() == [] && |finished| == 16
      requires w != this as object && w.bytes != stream.buffer && w.bytes != sendBuffer.buffer
      modifies this`writeSeq, this`sealings, w, w.bytes
      ensures Valid() && w.Valid()
      ensures ok <==> 93 <= w.bytes.Length
      ensures ok ==>
                var s := M.SealingOf(keys.value, old(writeSeq), HANDSHAKE, finished);
                && View() == M.AfterSealing(old(View()), s)
                && w.bytes[..w.writeIt] == Record(HANDSHAKE, M.KeyExchangeMessage(env)) + M.CHANGE_CIPHER_RECORD
                                           + M.SealedRecord(env, HANDSHAKE, old(writeSeq), s)
    {
      hide M.EnvOk;
      hide TcpConnection.Valid;
      hide M.AfterSealing;
      hide M.KeyExchangeMessage;
      hide Record;
      hide Encode;
      hide Writer.Written;
      var number := writeSeq;
      ok := PushFlight(w, number, finished);
      if !ok || w.bytes.Length < 93 {
        return false;
      }
      var _ := Encrypt(w, 61, 16, HANDSHAKE);
      ok := w.Reserve(16);
      ghost var s := M.SealingOf(keys.value, number, HANDSHAKE, finished);
      FlightLayout(env, w.bytes[..93], number, s);
    }

    /** The part of the flight that is written before the encryption. */
    method PushFlight(w: Writer, number: M.uint64, finished: Bytes) returns (ok: bool)
      requires M.EnvOk(env) && w.Valid() && w.Written() == [] && |finished| == 16
      modifies w, w.bytes
      ensures w.Valid() && (ok <==> 77 <= w.bytes.Length) && (ok ==> w.writeIt == 77)
      ensures ok ==> w.bytes[..61] == FlightFront(env, number) && w.bytes[61..77] == finished
    {
      FlightFrontSize(env, number);
      hide Encode;
      hide M.KeyExchangeMessage;
      ok := w.Push(Record(HANDSHAKE, M.KeyExchangeMessage(env)));
      if !ok {
        return;
      }
      ok := w.Push(M.CHANGE_CIPHER_RECORD);
      if !ok {
        return;
      }
      ghost var before := w.Written();
      var last := [HANDSHAKE, 3, 3] + Encode(2, 40) + Encode(8, number);
      ok := w.Push(last + finished);
      if ok {
        assert w.Written() == (before + last) + finished;
        assert w.Written()[..61] == w.bytes[..61] && w.Written()[61..] == w.bytes[61..77];
      }
    }

    method ProcessServerHello() returns (ok: bool)
      requires Valid() && IsWhole(View().buf)
      modifies this, stream
      ensures Valid()
      ensures ok <==> M.ProcessServerHello(old(View())).Ok?
      ensures ok ==> View() == M.ProcessServerHello(old(View())).value
    {
      hide M.EnvOk;
      hide TcpConnection.Valid;
      hide Stream.Contents;
      hide Stream.Bytes;
      hide Stream.Valid;
      hide Value;
      hide M.HelloAccepted;
      var message, random;
      ok, message, random := TakeHello(stream);
      if ok {
        transcript := transcript + message;
        serverRandom := random;
        phase := M.ServerCertificate;
      }
    }

    method ProcessCertificate() returns (ok: bool)
      requires Valid() && IsWhole(View().buf)
      modifies this, stream
      ensures Valid()
      ensures ok <==> M.ProcessCertificate(old(View())).Ok?
      ensures ok ==> View() == M.ProcessCertificate(old(View())).value
    {
      hide M.EnvOk;
      hide TcpConnection.Valid;
      hide Stream.Contents;
      hide Stream.Bytes;
      hide Stream.Valid;
      hide Value;
      var reading, message := TakeTyped(stream, CERTIFICATE);
      if reading.Message? {
        transcript := transcript + message;
        phase := M.ServerKeyExchange;
      }
      ok := !reading.Wrong?;
    }

    method ProcessServerKeyExchange() returns (ok: bool)
      requires Valid() && IsWhole(View().buf)
      modifies this, stream
      ensures Valid()
      ensures ok <==> M.ProcessServerKeyExchange(old(View())).Ok?
      ensures ok ==> View() == M.ProcessServerKeyExchange(old(View())).value
    {
      hide M.EnvOk;
      hide TcpConnection.Valid;
      hide Stream.Contents;
      hide Stream.Bytes;
      hide Stream.Valid;
      hide Value;
      hide M.KeyExchangeReading;
      var reading, message, pub := TakeKeyExchange(stream);
      if reading.Message? {
        serverPub := pub + serverPub[|pub|..];
        transcript := transcript + message;
        phase := M.ServerHelloDone;
      }
      ok := !reading.Wrong?;
    }

    method ProcessServerHelloDone() returns (ok: bool)
      requires Valid() && IsWhole(View().buf)
      modifies this, stream, tcp
      ensures ok <==> M.ProcessServerHelloDone(env, old(View())).Ok?
      ensures ok ==> Valid() && View() == M.ProcessServerHelloDone(env, old(View())).value
    {
      hide M.EnvOk;
      hide TcpConnection.Valid;
      hide Stream.Contents;
      hide Stream.Bytes;
      hide Stream.Valid;
      hide Value;
      hide M.HelloDoneReading;
      hide M.SendKeyExchangeAndFinished;
      var reading, message := TakeHelloDone(stream);
      ok := !reading.Wrong?;
      if reading.Message? {
        transcript := transcript + message;
        ok := SendKeyExchangeAndFinished();
        phase := M.ClientFinished;
      }
    }

    method ProcessServerFinished() returns (ok: bool)
      requires Valid() && IsWhole(View().buf)
      modifies this, stream
      ensures Valid()
      ensures ok <==> M.ProcessServerFinished(old(View())).Ok?
      ensures ok ==> View() == M.ProcessServerFinished(old(View())).value
    {
      hide M.EnvOk;
      hide TcpConnection.Valid;
      hide Stream.Contents;
      hide Stream.Bytes;
      hide Stream.Valid;
      hide Value;
      hide M.ServerClosing;
      var reading := ReadClosing(stream);
      match reading
      case Wrong => return false;
      case Incomplete => return true;
      case Message(_) =>
        phase := M.ServerFinished;
        return true;
    }

    method ProcessHandshake() returns (ok: bool)
      requires Valid() && IsWhole(View().buf)
      modifies this, stream, tcp
      ensures ok <==> M.ProcessHandshake(env, old(View())).Ok?
      ensures ok ==> Valid() && View() == M.ProcessHandshake(env, old(View())).value
    {
      hide M.EnvOk;
      hide TcpConnection.Valid;
      hide M.ProcessServerHello;
      hide M.ProcessCertificate;
      hide M.ProcessServerKeyExchange;
      hide M.ProcessServerHelloDone;
      hide M.ProcessServerFinished;
      match phase
      case ServerHello => ok := ProcessServerHello();
      case ServerCertificate => ok := ProcessCertificate();
      case ServerKeyExchange => ok := ProcessServerKeyExchange();
      case ServerHelloDone => ok := ProcessServerHelloDone();
      case ClientFinished => ok := ProcessServerFinished();
      case _ => ok := false;
    }

    /** Decrypts a popped span in place; the plaintext is its front part. */
    method Decrypt(v: View, explicitIv: Bytes) returns (plain: View)
      requires Valid() && keys.Some? && v.start + v.size <= stream.buffer.Length && v.size > 16
      requires v.start + v.size <= stream.read || stream.Contents() == []
      modifies this`readSeq, stream.buffer
      ensures Valid()
      ensures View() == old(View()).(readSeq := (old(readSeq) + 1) % 0x1_0000_0000_0000_0000)
      ensures plain.start + plain.size <= stream.buffer.Length
      ensures |explicitIv| == 8 ==>
                stream.Bytes(plain) == M.Decrypted(env, keys.value, old(readSeq), explicitIv + old(stream.Bytes(v)))
    {
      var cipher := stream.Bytes(v);
      var aad := M.Aad(readSeq, APPLICATION_DATA, |cipher|);
      readSeq := (readSeq + 1) % 0x1_0000_0000_0000_0000;
      var text := env.open(keys.value.serverKey, keys.value.serverIv + explicitIv, aad, cipher);
      stream.Overwrite(v, text);
      plain := ByteStream.View.View(v.start, v.size - 16);
      assert stream.Bytes(plain) == text[..|text| - 16];
      if |explicitIv| == 8 {
        assert (explicitIv + cipher)[..8] == explicitIv && (explicitIv + cipher)[8..] == cipher;
      }
    }

    method ReceiveApplication() returns (r: Result)
      requires Valid() && IsWhole(View().buf)
      modifies this, stream, stream.buffer
      ensures Valid() && Matches(OnceToReceived(M.ReceiveApplication(env, old(View()))), r)
    {
      hide M.EnvOk;
      hide TcpConnection.Valid;
      hide Stream.Contents;
      hide Stream.Bytes;
      hide Stream.Valid;
      hide ReadTransaction.Remaining;
      hide Value;
      hide M.Decrypted;
      ghost var buf := stream.Contents();
      var popped := stream.Pop(5);
      var header := stream.Bytes(popped.value);
      assert header == buf[..5] && header[3..5] == buf[3..5];
      var size := Value(header[3..5]);
      ghost var b := stream.Contents();
      if header[0] != APPLICATION_DATA {
        return Failed;
      }
      var iv := stream.Pop(8);
      if iv.None? {
        return Nothing;
      }
      var explicitIv := stream.Bytes(iv.value);
      if size < 8 {
        return Nothing;
      }
      var ciphertext := stream.Pop(size - 8);
      Slice(b, 8, 0, size - 8);
      Slice(b, 8, size - 8, 0);
      if !(ciphertext.value.size > TAG_SIZE) || keys.None? {
        return Failed;
      }
      assert b[..8] + b[8..size] == b[..size];
      var plain := Decrypt(ciphertext.value, explicitIv);
      return Data(plain);
    }

    /** `r` and the current state are what the specification says. */
    ghost predicate Matches(spec: M.Received, r: Result)
      requires Valid()
      reads this, stream, stream.buffer, sendBuffer, sendBuffer.buffer, tcp
    {
      match spec
      case Failed => r == Failed
      case Spins => r == Spins
      case Got(out, st) =>
        && View() == st
        && (out.None? ==> r == Nothing)
        && (out.Some? ==>
              && r.Data? && r.view.start + r.view.size <= stream.buffer.Length
              && stream.Bytes(r.view) == out.value)
    }

    method Receive() returns (r: Result)
      requires Valid()
      modifies this, stream, stream.buffer, tcp
      ensures r == Failed <==> M.Receive(env, old(View())) == M.Failed
      ensures r != Failed ==> Valid() && Matches(M.Receive(env, old(View())), r)
      decreases |stream.Contents()|
    {
      hide M.EnvOk;
      hide TcpConnection.Valid;
      hide Stream.Contents;
      hide Stream.Bytes;
      hide Stream.Valid;
      hide ReadTransaction.Remaining;
      hide Value;
      hide M.ProcessHandshake;
      hide M.ReceiveApplication;
      hide M.SendClientHello;
      if phase == M.ClientHelloToSend && stream.Size() == 0 {
        var ok := SendClientHello();
        if !ok {
          return Failed;
        }
        phase := M.ServerHello;
        return Nothing;
      }
      ghost var buf := stream.Contents();
      var peeked := stream.Peek(5);
      if peeked.None? {
        return Nothing;
      }
      var header := stream.Bytes(peeked.value);
      assert header[3..5] == buf[3..5];
      if !(header[1] == 3 && header[2] == 3) {
        return Failed;
      }
      var whole := stream.Peek(5 + Value(header[3..5]));
      if whole.None? {
        return Nothing;
      }
      if phase == M.ServerFinished {
        r := ReceiveApplication();
        return;
      }
      var before := stream.Size();
      var ok := ProcessHandshake();
      if !ok {
        return Failed;
      }
      if stream.Size() >= 5 {
        if stream.Size() >= before {
          return Spins;  // the source would call itself again on the very same state, forever
        }
        r := Receive();
        return;
      }
      return Nothing;
    }

    method ProcessPacket(p: Tcp.Packet) returns (ok: bool)
      requires Valid()
      modifies tcp, stream, stream.buffer
      ensures ok <==> M.ProcessPacket(old(View()), p).Ok?
      ensures ok ==> Valid() && View() == M.ProcessPacket(old(View()), p).value
    {
      hide M.EnvOk;
      hide TcpConnection.Valid;
      hide Tcp.ProcessPacket;
      ok := tcp.ProcessPacket(p);
      if !ok {
        return;
      }
      stream.Shift();
      ok := stream.PushBytes(p.payload);
    }
  }

  /** A single pass seen as the result of the whole call. */
  ghost function OnceToReceived(once: M.Once): M.Received {
    match once
    case Thrown => M.Failed
    case Returned(out, st) => M.Got(out, st)
    case Again(_) => M.Spins
  }

  ghost function FlightFront(env: M.Env, number: M.uint64): Bytes {
    Record(HANDSHAKE, M.KeyExchangeMessage(env)) + M.CHANGE_CIPHER_RECORD
    + ([HANDSHAKE, 3, 3] + Encode(2, 40) + Encode(8, number))
  }

  lemma FlightFrontSize(env: M.Env, number: M.uint64)
    requires M.EnvOk(env)
    ensures |M.KeyExchangeMessage(env)| == 37 && |Record(HANDSHAKE, M.KeyExchangeMessage(env))| == 42
    ensures |FlightFront(env, number)| == 61
  {
    hide Encode;
  }

  lemma FlightLayout(env: M.Env, all: Bytes, number: M.uint64, s: M.Sealing)
    requires M.EnvOk(env) && |s.plain| == 16 && |all| == 93
    requires all[..61] == FlightFront(env, number) && all[61..] == M.Ciphertext(env, s)
    ensures all == Record(HANDSHAKE, M.KeyExchangeMessage(env)) + M.CHANGE_CIPHER_RECORD
                   + M.SealedRecord(env, HANDSHAKE, number, s)
  {
    hide Encode;
    hide M.KeyExchangeMessage;
    var cipher := M.Ciphertext(env, s);
    assert |cipher| == 32;
    var front := Record(HANDSHAKE, M.KeyExchangeMessage(env)) + M.CHANGE_CIPHER_RECORD;
    assert M.SealedRecord(env, HANDSHAKE, number, s)
        == ([HANDSHAKE, 3, 3] + Encode(2, 40) + Encode(8, number)) + cipher;
    assert all == all[..61] + all[61..];
  }

  lemma DerivedOk(env: M.Env, master: Bytes, serverRandom: Bytes, clientRandom: Bytes)
    requires M.EnvOk(env)
    ensures M.DeriveKeys(env, master, serverRandom, clientRandom).Ok?
  {
  }

  lemma PlainSize(keys: M.Keys, number: M.uint64, contentType: byte, plain: Bytes)
    ensures |M.SealingOf(keys, number, contentType, plain).plain| == |plain|
  {
  }

  lemma FinishedSize(env: M.Env, master: Bytes, transcript: Bytes)
    requires M.EnvOk(env)
    ensures |M.FinishedMessage(env, master, transcript)| == 16
  {
  }

  lemma RecordLayout(before: Bytes, after: Bytes, iv: Bytes, cipher: Bytes)
    requires |iv| == 8 && |before| == |after| && |after| >= 13 + |cipher|
    requires before[..13] == [APPLICATION_DATA, 3, 3, 0, 0] + iv && before[13..13 + |cipher|] == cipher
    requires after[..3] == before[..3] && after[3..5] == Encode(2, 8 + |cipher|) && after[5..] == before[5..]
    ensures after[..13 + |cipher|] == Record(APPLICATION_DATA, iv + cipher)
  {
    hide Encode;
    var n := |cipher|;
    assert before[..3] == before[..13][..3] == [APPLICATION_DATA, 3, 3];
    assert before[5..13] == before[..13][5..] == iv;
    Slice(after, 5, 0, 8);
    Slice(before, 5, 0, 8);
    Slice(after, 5, 8, n);
    Slice(before, 5, 8, n);
    Layout(after, n);
  }

  lemma Layout(s: Bytes, n: nat)
    requires |s| >= 13 + n
    ensures s[..13 + n] == s[..3] + s[3..5] + (s[5..13] + s[13..13 + n])
  {
  }

  lemma RecordBody(contentType: byte, body: Bytes)
    ensures |Record(contentType, body)| == 5 + |body| && Record(contentType, body)[5..] == body
  {
  }
}
