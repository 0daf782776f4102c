/** The TLS 1.2 client as steps on a value: the specification of class `TlsClient`. */
module TlsModel {
  import opened Outcomes
  import opened Binary
  import opened TlsRecords
  import ClientHello
  import Tcp = TcpModel

  datatype Phase =
    | ClientHelloToSend | ServerHello | ServerCertificate | ServerKeyExchange
    | ServerHelloDone | ClientKeyExchange | ClientFinished | ServerFinished

  type uint64 = x: int | 0 <= x < 0x1_0000_0000_0000_0000

  type PublicKeyArea = s: Bytes | |s| == 2048 witness seq(2048, _ => 0)

  datatype Keys = Keys(clientKey: Bytes, serverKey: Bytes, clientIv: Bytes, serverIv: Bytes)

  /** Foreign code and configuration: SHA-256, the TLS PRF, AES-128-GCM, the X25519 exchange with the
      client's ephemeral key, the generated random, the host name, the upgrade request and the payload
      room of one outgoing packet. */
  datatype Env = Env(
    hash: Bytes -> Bytes,
    prf: (Bytes, string, Bytes, nat) -> Bytes,
    seal: (Bytes, Bytes, Bytes, Bytes) -> Bytes,
    open: (Bytes, Bytes, Bytes, Bytes) -> Bytes,
    exchange: Bytes -> Bytes,
    ephemeral: Bytes,
    random: Bytes,
    host: Bytes,
    request: Bytes,
    room: nat)

  /** The lengths these functions promise; the room is bounded by the 16-bit IP length. */
  ghost predicate EnvOk(env: Env) {
    && |env.random| == 32 && |env.ephemeral| == 32
    && env.room <= 65495
    && (forall s: Bytes, l: string, d: Bytes, n: nat :: |env.prf(s, l, d, n)| == n)
    && (forall k: Bytes, n: Bytes, a: Bytes, p: Bytes :: |env.seal(k, n, a, p)| == |p| + 16)
    && (forall k: Bytes, n: Bytes, a: Bytes, c: Bytes :: |env.open(k, n, a, c)| == |c|)
  }

  /** One call of the cipher: everything that went into it. */
  datatype Sealing = Sealing(keys: Keys, nonce: Bytes, aad: Bytes, plain: Bytes)

  const STREAM_SIZE: nat := 20600

  datatype Tls = Tls(
    phase: Phase,
    buf: Bytes,            // received bytes not consumed yet
    sendBuf: Bytes,        // plaintext waiting for a flush
    transcript: Bytes,     // input of the running handshake hash
    clientRandom: Bytes, serverRandom: Bytes, serverPub: PublicKeyArea, masterSecret: Bytes,
    keys: Option<Keys>,
    writeSeq: uint64, readSeq: uint64,
    sealings: seq<Sealing>,
    tcp: Tcp.Client)

  /** A client is created around a TCP client, which it connects at once. */
  function Create(env: Env, tcp: Tcp.Client): Outcome<Tls> {
    var connected :- Tcp.Connect(tcp);
    Ok(Start(env, connected))
  }

  function Start(env: Env, tcp: Tcp.Client): Tls {
    Tls(ClientHelloToSend, [], [], [], env.random, Zeros(32), Zeros(2048), Zeros(48), None, 0, 0, [], tcp)
  }

  // ----- Sending -----

  function SendPayload(st: Tls, payload: Bytes): Outcome<Tls> {
    var tcp :- Tcp.Transmit(st.tcp, Tcp.SendBuffer(st.tcp, Tcp.PSH_ACK, false), payload);
    Ok(st.(tcp := tcp))
  }

  function SendClientHello(env: Env, st: Tls): Outcome<Tls> {
    if 86 + |env.host| > env.room then Failure
    else
      var message := ClientHello.HelloMessage(env.random, env.host);
      SendPayload(st.(clientRandom := env.random, transcript := st.transcript + message),
                  Record(HANDSHAKE, message))
  }

  function Nonce(keys: Keys, number: uint64): Bytes {
    keys.clientIv + Encode(8, number)
  }

  function Aad(number: uint64, contentType: byte, size: nat): Bytes {
    Encode(8, number) + [contentType, 3, 3] + Encode(2, size)
  }

  function SealingOf(keys: Keys, number: uint64, contentType: byte, plain: Bytes): Sealing {
    Sealing(keys, Nonce(keys, number), Aad(number, contentType, |plain|), plain)
  }

  function Ciphertext(env: Env, s: Sealing): Bytes {
    env.seal(s.keys.clientKey, s.nonce, s.aad, s.plain)
  }

  /** The state after one encryption. */
  function AfterSealing(st: Tls, s: Sealing): Tls {
    st.(sealings := st.sealings + [s], writeSeq := (st.writeSeq + 1) % 0x1_0000_0000_0000_0000)
  }

  /** An encrypted record: the explicit IV, then ciphertext and tag. */
  function SealedRecord(env: Env, contentType: byte, number: uint64, s: Sealing): Bytes {
    Record(contentType, Encode(8, number) + Ciphertext(env, s))
  }

  /** Sends all buffered plaintext as one record. Writing the tag past the packet's room and
      encrypting without keys are undefined in the source and fail here. */
  function Flush(env: Env, st: Tls): Outcome<Tls> {
    if st.keys.None? || 29 + |st.sendBuf| > env.room then Failure
    else
      var s := SealingOf(st.keys.value, st.writeSeq, APPLICATION_DATA, st.sendBuf);
      SendPayload(AfterSealing(st, s).(sendBuf := []), SealedRecord(env, APPLICATION_DATA, st.writeSeq, s))
  }

  function Push(st: Tls, bytes: Bytes): Outcome<Tls> {
    if |st.sendBuf| + |bytes| > STREAM_SIZE then Failure else Ok(st.(sendBuf := st.sendBuf + bytes))
  }

  function KeyExchangeMessage(env: Env): Bytes {
    Handshake(CLIENT_KEY_EXCHANGE, [32] + env.ephemeral)
  }

  const CHANGE_CIPHER_RECORD: Bytes := [CHANGE_CIPHER, 3, 3, 0, 1, 1]

  function DeriveMaster(env: Env, serverPub: PublicKeyArea, transcript: Bytes): Bytes {
    env.prf(env.exchange(serverPub[..32]), "extended master secret", env.hash(transcript), 48)
  }

  function DeriveKeys(env: Env, master: Bytes, serverRandom: Bytes, clientRandom: Bytes): Outcome<Keys> {
    var block := env.prf(master, "key expansion", serverRandom + clientRandom, 40);
    if |block| != 40 then Failure else Ok(Keys(block[..16], block[16..32], block[32..36], block[36..]))
  }

  function FinishedMessage(env: Env, master: Bytes, transcript: Bytes): Bytes {
    Handshake(FINISHED, env.prf(master, "client finished", env.hash(transcript), 12))
  }

  /** Adds the key exchange to the transcript, derives the keys from it and sends key exchange,
      ChangeCipherSpec and the encrypted Finished in one packet. */
  function SendKeyExchangeAndFinished(env: Env, st: Tls): Outcome<Tls> {
    if env.room < 93 then Failure
    else
      var transcript := st.transcript + KeyExchangeMessage(env);
      var master := DeriveMaster(env, st.serverPub, transcript);
      var keys :- DeriveKeys(env, master, st.serverRandom, st.clientRandom);
      var s := SealingOf(keys, st.writeSeq, HANDSHAKE, FinishedMessage(env, master, transcript));
      SendPayload(AfterSealing(st, s).(transcript := transcript, masterSecret := master, keys := Some(keys)),
                  Record(HANDSHAKE, KeyExchangeMessage(env)) + CHANGE_CIPHER_RECORD
                  + SealedRecord(env, HANDSHAKE, st.writeSeq, s))
  }

  // ----- Handshake messages from the server -----

  /** Consumes `n` bytes after the record header and adds them to the transcript. */
  function Hash(st: Tls, n: nat): Tls
    requires |st.buf| >= 5 + n
  {
    st.(buf := st.buf[5 + n..], transcript := st.transcript + st.buf[5..5 + n])
  }

  function SkipHeader(st: Tls): Tls
    requires |st.buf| >= 5
  {
    st.(buf := st.buf[5..])
  }

  /** Outcome of reading a message at the head of `b`: not all there, `size` bytes, or wrong. */
  datatype Reading = Incomplete | Message(size: nat) | Wrong

  /** The checks made on a ServerHello: suite and compression method after the session id. */
  predicate HelloAccepted(b: Bytes) {
    && |b| >= 39 && |b| >= 44 + b[38] as int
    && var at := 39 + b[38] as int; Value(b[at..at + 2]) == 0xC02F && b[at + 2] == 0
  }

  function ProcessServerHello(st: Tls): Outcome<Tls>
    requires IsWhole(st.buf)
  {
    var b := st.buf[5..];
    if !HelloAccepted(b) then Failure
    else Ok(Hash(st, BodySize(st.buf)).(serverRandom := b[6..38], phase := ServerCertificate))
  }

  function ProcessCertificate(st: Tls): Outcome<Tls>
    requires IsWhole(st.buf)
  {
    var b := st.buf[5..];
    if |b| < 4 then Ok(SkipHeader(st))
    else if b[0] != CERTIFICATE then Failure
    else Ok(Hash(st, BodySize(st.buf)).(phase := ServerKeyExchange))
  }

  /** The key exchange message; its size comes from its inner lengths. */
  function KeyExchangeReading(b: Bytes): (r: Reading)
    ensures r.Message? ==> 12 <= r.size <= |b| && 8 + b[7] as int <= r.size
  {
    if |b| < 4 then Incomplete
    else if b[0] != SERVER_KEY_EXCHANGE then Wrong
    else if |b| < 8 then Incomplete
    else if b[4] != 3 || Value(b[5..7]) != 0x1D then Wrong
    else if |b| < 12 + b[7] as int then Incomplete
    else
      var n := 12 + b[7] as int + Value(b[10 + b[7] as int..12 + b[7] as int]);
      if |b| < n then Incomplete else Message(n)
  }

  function ProcessServerKeyExchange(st: Tls): Outcome<Tls>
    requires IsWhole(st.buf)
  {
    var b := st.buf[5..];
    match KeyExchangeReading(b)
    case Wrong => Failure
    case Incomplete => Ok(SkipHeader(st))
    case Message(n) =>
      var pub := b[8..8 + b[7] as int];
      Ok(Hash(st, n).(serverPub := pub + st.serverPub[|pub|..], phase := ServerHelloDone))
  }

  function HelloDoneReading(b: Bytes): (r: Reading)
    ensures r.Message? ==> r.size <= |b|
  {
    if |b| < 4 then Incomplete
    else if b[0] != SERVER_HELLO_DONE then Wrong
    else
      var n := 4 + Value(b[1..4]);
      if |b| < n then Incomplete else Message(n)
  }

  function ProcessServerHelloDone(env: Env, st: Tls): Outcome<Tls>
    requires IsWhole(st.buf)
  {
    match HelloDoneReading(st.buf[5..])
    case Wrong => Failure
    case Incomplete => Ok(SkipHeader(st))
    case Message(n) =>
      var sent :- SendKeyExchangeAndFinished(env, Hash(st, n));
      Ok(sent.(phase := ClientFinished))
  }

  /** The record after ChangeCipherSpec; only its type and size matter. */
  function FinishedReading(b: Bytes): (r: Reading)
    ensures r.Message? ==> 5 <= r.size <= |b|
  {
    if |b| < 5 then Incomplete
    else if b[0] != HANDSHAKE then Wrong
    else
      var m := 5 + Value(b[3..5]);
      if |b| < m then Incomplete else Message(m)
  }

  /** The server's ChangeCipherSpec and Finished records. Reading the first byte of an empty
      ChangeCipherSpec is undefined in the source and wrong here. */
  function ServerClosing(buf: Bytes): (r: Reading)
    ensures r.Message? ==> 10 <= r.size <= |buf|
  {
    if |buf| < 5 then Incomplete
    else
      var n := 5 + BodySize(buf);
      if buf[0] != CHANGE_CIPHER then Wrong
      else if |buf| < n then Incomplete
      else if n == 5 || buf[5] != 1 then Wrong
      else
        var finished := FinishedReading(buf[n..]);
        if finished.Message? then Message(n + finished.size) else finished
  }

  function ProcessServerFinished(st: Tls): Outcome<Tls>
    requires IsWhole(st.buf)
  {
    match ServerClosing(st.buf)
    case Wrong => Failure
    case Incomplete => Ok(st)
    case Message(n) => Ok(st.(buf := st.buf[n..], phase := ServerFinished))
  }

  function ProcessHandshake(env: Env, st: Tls): Outcome<Tls>
    requires IsWhole(st.buf)
  {
    match st.phase
    case ServerHello => ProcessServerHello(st)
    case ServerCertificate => ProcessCertificate(st)
    case ServerKeyExchange => ProcessServerKeyExchange(st)
    case ServerHelloDone => ProcessServerHelloDone(env, st)
    case ClientFinished => ProcessServerFinished(st)
    case _ => Failure
  }

  // ----- Receiving -----

  function Decrypted(env: Env, keys: Keys, number: uint64, body: Bytes): (plain: Bytes)
    requires |body| > 24
  {
    var cipher := body[8..];
    var text := env.open(keys.serverKey, keys.serverIv + body[..8], Aad(number, APPLICATION_DATA, |cipher|), cipher);
    if |text| < 16 then text else text[..|text| - 16]
  }

  datatype Once = Thrown | Returned(out: Option<Bytes>, st: Tls) | Again(st: Tls)

  /** An application record. One that is shorter than its explicit IV loses its header, and eight
      more bytes if there are that many, without a result. */
  function ReceiveApplication(env: Env, st: Tls): (once: Once)
    requires IsWhole(st.buf)
    ensures !once.Again?
  {
    var n := BodySize(st.buf);
    var b := st.buf[5..];
    if st.buf[0] != APPLICATION_DATA then Thrown
    else if |b| < 8 then Returned(None, SkipHeader(st))
    else if n < 8 then Returned(None, st.(buf := b[8..]))
    else if n - 8 <= TAG_SIZE || st.keys.None? then Thrown
    else Returned(Some(Decrypted(env, st.keys.value, st.readSeq, b[..n])),
                  st.(buf := b[n..], readSeq := (st.readSeq + 1) % 0x1_0000_0000_0000_0000))
  }

  /** The body of `receive` up to its recursive call. */
  function ReceiveOnce(env: Env, st: Tls): Once {
    if st.phase == ClientHelloToSend && st.buf == [] then
      var sent := SendClientHello(env, st);
      if sent.Failure? then Thrown else Returned(None, sent.value.(phase := ServerHello))
    else if |st.buf| < 5 then Returned(None, st)
    else if !IsTls12(st.buf) then Thrown
    else if !IsWhole(st.buf) then Returned(None, st)
    else if st.phase != ServerFinished then
      var next := ProcessHandshake(env, st);
      if next.Failure? then Thrown
      else if |next.value.buf| >= 5 then Again(next.value) else Returned(None, next.value)
    else ReceiveApplication(env, st)
  }

  datatype Received = Failed | Spins | Got(out: Option<Bytes>, st: Tls)

  /** `receive`: repeats while the body asks for it; `Spins` when a repetition changes nothing. */
  function Receive(env: Env, st: Tls): Received
    decreases |st.buf|
  {
    match ReceiveOnce(env, st)
    case Thrown => Failed
    case Returned(out, s) => Got(out, s)
    case Again(s) => if |s.buf| < |st.buf| then Receive(env, s) else Spins
  }

  datatype Drained = Aborted | Drained(outs: seq<Bytes>, st: Tls)

  /** Calls `receive` until it has no plaintext. A call that fails or never ends aborts the run. */
  function Drain(env: Env, st: Tls): Drained
    decreases |st.buf|
  {
    var r := Receive(env, st);
    if !r.Got? then Aborted
    else if r.out.None? then Drained([], r.st)
    else if |r.st.buf| >= |st.buf| then Aborted
    else
      var later := Drain(env, r.st);
      if later.Aborted? then Aborted else later.(outs := [r.out.value] + later.outs)
  }

  /** A packet goes through TCP; its payload is buffered whatever TCP made of it. */
  function ProcessPacket(st: Tls, p: Tcp.Packet): Outcome<Tls> {
    var tcp :- Tcp.ProcessPacket(st.tcp, p);
    if |st.buf| + |p.payload| > STREAM_SIZE then Failure
    else Ok(st.(tcp := tcp, buf := st.buf + p.payload))
  }
}
