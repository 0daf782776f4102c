/** The server's side of the connection, written from the standards and the bytes on the wire alone: handshake
    messages (section 7.4 of RFC 5246), key derivation (sections 6.3 and 7.4.9 of RFC 5246, section 4 of
    RFC 7627) and record protection (section 3 of RFC 5288). It shares with the client only the foreign
    functions. */
module TlsServer {
  import opened Binary
  import M = TlsModel

  // ----- Handshake messages -----

  function Message(kind: byte, body: Bytes): Bytes {
    [kind] + Encode(3, |body|) + body
  }

  /** A record in the clear. */
  function Plain(kind: byte, body: Bytes): Bytes {
    [kind, 3, 3] + Encode(2, |body|) + body
  }

  function HelloBody(random: Bytes, session: Bytes, suite: nat, compression: byte, extensions: Bytes): Bytes
    requires |session| < 256
  {
    [3, 3] + random + [|session|] + session + Encode(2, suite) + [compression] + extensions
  }

  function KeyExchangeBody(curve: byte, group: nat, pub: Bytes, algorithm: Bytes, signature: Bytes): Bytes
    requires |pub| < 256
  {
    [curve] + Encode(2, group) + [|pub|] + pub + algorithm + Encode(2, |signature|) + signature
  }

  /** The public key in a key exchange message: the first 32 bytes of what it announces. */
  function PublicKey(keyExchange: Bytes): Bytes
    requires |keyExchange| >= 8 && |keyExchange| >= 8 + keyExchange[7] as int
  {
    (keyExchange[8..8 + keyExchange[7] as int] + Zeros(32))[..32]
  }

  // ----- Keys -----

  /** The six messages of the key exchange, sent and received, and the secret of the Diffie-Hellman exchange. */
  datatype Exchange = Exchange(
    clientHello: Bytes, serverHello: Bytes, certificate: Bytes, keyExchange: Bytes, helloDone: Bytes,
    clientKeyExchange: Bytes, secret: Bytes)
  {
    function Messages(): Bytes {
      clientHello + serverHello + certificate + keyExchange + helloDone + clientKeyExchange
    }

    function MasterSecret(env: M.Env): Bytes {
      env.prf(secret, "extended master secret", env.hash(Messages()), 48)
    }

    /** Client key, server key, client IV, server IV; the randoms follow type, length and version. */
    function KeyBlock(env: M.Env): Bytes
      requires |serverHello| >= 38 && |clientHello| >= 38
    {
      env.prf(MasterSecret(env), "key expansion", serverHello[6..38] + clientHello[6..38], 40)
    }

    /** The Finished message that the client must send: type 20, twelve bytes. */
    function ClientFinished(env: M.Env): Bytes {
      [20, 0, 0, 12] + env.prf(MasterSecret(env), "client finished", env.hash(Messages()), 12)
    }
  }

  // ----- Records -----

  /** Additional data: number, type, version and length of the plaintext. */
  function Additional(number: nat, kind: byte, size: nat): Bytes {
    Encode(8, number) + [kind, 3, 3] + Encode(2, size)
  }

  /** Opens record number `number` of the client: key and fixed IV of the client's half of the block, the
      explicit IV from the record. */
  function OpenRecord(env: M.Env, block: Bytes, number: nat, r: Bytes): Bytes
    requires |block| == 40 && |r| >= 29
  {
    var text := env.open(block[..16], block[32..36] + r[5..13], Additional(number, r[0], |r| - 29), r[13..]);
    if |text| < |r| - 29 then text else text[..|r| - 29]
  }

  /** The text of consecutive records of the client, the first of which has number `first`. */
  function ReadText(env: M.Env, block: Bytes, first: nat, records: seq<Bytes>): Bytes
    requires |block| == 40
  {
    if records == [] then []
    else
      var n := |records| - 1;
      ReadText(env, block, first, records[..n])
      + if |records[n]| >= 29 then OpenRecord(env, block, first + n, records[n]) else []
  }

  /** Body of an application record of the server. */
  function SealBody(env: M.Env, block: Bytes, number: nat, iv: Bytes, plain: Bytes): Bytes
    requires |block| == 40
  {
    iv + env.seal(block[16..32], block[36..] + iv, Additional(number, 23, |plain|), plain)
  }

  // ----- The cipher -----

  /** Opening with the key, IV and additional data of the sealing gives the plaintext back. */
  ghost predicate Opens(env: M.Env) {
    forall k: Bytes, n: Bytes, a: Bytes, p: Bytes :: p <= env.open(k, n, a, env.seal(k, n, a, p))
  }

  /** The text does not depend on the additional data, which only enters the tag. */
  ghost predicate OpensAnyway(env: M.Env) {
    forall k: Bytes, n: Bytes, a: Bytes, b: Bytes, p: Bytes :: p <= env.open(k, n, a, env.seal(k, n, b, p))
  }
}
