/** Which of a server's messages the client accepts: each check it makes, as an if-and-only-if on messages that
    the server writes field by field. */
module TlsMessages {
  import opened Outcomes
  import opened Binary
  import opened TlsRecords
  import opened TlsModel
  import opened TlsHandshake
  import opened TlsRuns
  import S = TlsServer

  // ----- Handshake messages -----

  /** Suite 0xC02F, compression 0 and two further bytes; the type byte is not looked at. */
  lemma HelloAcceptedIff(
    kind: byte, random: Bytes, session: Bytes, suite: nat, compression: byte, extensions: Bytes)
    requires |random| == 32 && |session| < 256 && suite < 0x1_0000
    ensures var m := S.Message(kind, S.HelloBody(random, session, suite, compression, extensions));
            && (HelloAccepted(m) <==> suite == 0xC02F && compression == 0 && |extensions| >= 2)
            && m[6..38] == random
  {
    SmallPowers();
    StoreLoad(2, suite);
    hide Value;
    hide Encode;
    var body := S.HelloBody(random, session, suite, compression, extensions);
    var m := S.Message(kind, body);
    var size := Encode(3, |body|);
    var front := [kind] + size + [3, 3];
    assert m == front + random + [|session|] + session + Encode(2, suite) + [compression] + extensions;
    HelloParts(front, random, session, Encode(2, suite), compression, extensions);
  }

  lemma HelloParts(
    front: Bytes, random: Bytes, session: Bytes, suite: Bytes, compression: byte, extensions: Bytes)
    requires |front| == 6 && |random| == 32 && |session| < 256 && |suite| == 2
    ensures var m := front + random + [|session|] + session + suite + [compression] + extensions;
            && |m| == 42 + |session| + |extensions| && m[6..38] == random && m[38] == |session|
            && m[39 + |session|..41 + |session|] == suite && m[41 + |session|] == compression
  {
  }

  lemma CertificateAcceptedIff(kind: byte, body: Bytes)
    requires |body| < 0xFF00
    ensures GoodCertificate(S.Message(kind, body)) <==> kind == 11
  {
  }

  /** Type 12, a named curve (3), and group 29, which is X25519; algorithm and signature are not looked at. */
  lemma KeyExchangeAcceptedIff(
    kind: byte, curve: byte, group: nat, pub: Bytes, algorithm: Bytes, signature: Bytes)
    requires |pub| < 256 && group < 0x1_0000 && |algorithm| == 2 && |signature| < 0xFC00
    ensures var m := S.Message(kind, S.KeyExchangeBody(curve, group, pub, algorithm, signature));
            && KeyExchangeReading(m)
               == (if kind == 12 && curve == 3 && group == 29 then Message(|m|) else Wrong)
            && (GoodKeyExchange(m) <==> kind == 12 && curve == 3 && group == 29)
            && m[8..8 + |pub|] == pub
  {
    SmallPowers();
    StoreLoad(2, group);
    StoreLoad(2, |signature|);
    hide Value;
    hide Encode;
    var body := S.KeyExchangeBody(curve, group, pub, algorithm, signature);
    var m := S.Message(kind, body);
    var size := Encode(3, |body|);
    assert m == [kind] + size + [curve] + Encode(2, group) + [|pub|] + pub + algorithm + Encode(2, |signature|) + signature;
    KeyExchangeParts(kind, size, curve, Encode(2, group), pub, algorithm, Encode(2, |signature|), signature);
  }

  lemma KeyExchangeParts(
    kind: byte, size: Bytes, curve: byte, group: Bytes, pub: Bytes, algorithm: Bytes, length: Bytes, signature: Bytes)
    requires |size| == 3 && |group| == 2 && |pub| < 256 && |algorithm| == 2 && |length| == 2
    ensures var m := [kind] + size + [curve] + group + [|pub|] + pub + algorithm + length + signature;
            && |m| == 12 + |pub| + |signature| && m[0] == kind && m[4] == curve && m[5..7] == group
            && m[7] == |pub| && m[8..8 + |pub|] == pub && m[10 + |pub|..12 + |pub|] == length
  {
  }

  lemma DoneAcceptedIff(kind: byte, body: Bytes)
    requires |body| < 0xFF00
    ensures HelloDoneReading(S.Message(kind, body)) == (if kind == 14 then Message(4 + |body|) else Wrong)
    ensures GoodDone(S.Message(kind, body)) <==> kind == 14
  {
    SmallPowers();
    StoreLoad(3, |body|);
    var m := S.Message(kind, body);
    assert m[1..4] == Encode(3, |body|);
    hide Value;
    hide Encode;
  }

  /** So a server's flight, written field by field, is what the client's handshake is about. */
  lemma FlightAccepted(
    random: Bytes, session: Bytes, extensions: Bytes, chain: Bytes, pub: Bytes, algorithm: Bytes, signature: Bytes)
    requires |random| == 32 && |session| < 256 && 2 <= |extensions| < 0xFE00 && |chain| < 0xFF00
    requires |pub| < 256 && |algorithm| == 2 && |signature| < 0xFC00
    ensures var f := Flight(S.Message(2, S.HelloBody(random, session, 0xC02F, 0, extensions)), S.Message(11, chain),
                            S.Message(12, S.KeyExchangeBody(3, 29, pub, algorithm, signature)), S.Message(14, []));
            GoodFlight(f) && f.hello[6..38] == random && f.keyExchange[8..8 + |pub|] == pub
  {
    HelloAcceptedIff(2, random, session, 0xC02F, 0, extensions);
    CertificateAcceptedIff(11, chain);
    KeyExchangeAcceptedIff(12, 3, 29, pub, algorithm, signature);
    DoneAcceptedIff(14, []);
    hide GoodCertificate;
    hide GoodKeyExchange;
    hide GoodDone;
    hide HelloAccepted;
    hide S.KeyExchangeBody;
  }

  // ----- Records -----

  lemma PlainIsRecord(kind: byte, body: Bytes)
    ensures S.Plain(kind, body) == Record(kind, body)
  {
  }

  /** ChangeCipherSpec (20) with first byte 1, then a handshake record (22). */
  lemma ClosingAcceptedIff(first: byte, a: Bytes, second: byte, b: Bytes, rest: Bytes)
    requires |a| < 0x1_0000 && |b| < 0x1_0000
    ensures ServerClosing(S.Plain(first, a) + (S.Plain(second, b) + rest))
         == if first == 20 && a != [] && a[0] == 1 && second == 22 then Message(10 + |a| + |b|) else Wrong
  {
    var tail := S.Plain(second, b) + rest;
    var buf := S.Plain(first, a) + tail;
    RecordHeader(first, a, tail);
    RecordHeader(second, b, rest);
    var n := 5 + |a|;
    assert buf[5..][|a|..] == buf[n..] && buf[n..] == tail;
    assert a != [] ==> buf[5] == (a + tail)[0] == a[0];
    hide Record;
  }

  /** Any other version than 3.3 in a record header ends the run, whatever else has arrived. */
  lemma OtherVersionThrows(env: Env, st: Tls)
    requires |st.buf| >= 5 && (st.buf[1] != 3 || st.buf[2] != 3)
    ensures Receive(env, st) == Failed
  {
  }

  /** After the handshake a whole record of any other type than 23 does. */
  lemma OtherTypeThrows(env: Env, st: Tls, kind: byte, body: Bytes, rest: Bytes)
    requires st.phase == ServerFinished && st.buf == S.Plain(kind, body) + rest && |body| < 0x1_0000 && kind != 23
    ensures Receive(env, st) == Failed
  {
    RecordHeader(kind, body, rest);
    hide Record;
    hide ProcessHandshake;
  }

  /** In each handshake phase a whole message of the wrong type does. */
  lemma OtherMessageThrows(env: Env, st: Tls, kind: byte, outer: byte, body: Bytes, rest: Bytes)
    requires st.buf == S.Plain(outer, S.Message(kind, body)) + rest && |body| < 0xFF00
    requires || (st.phase == ServerCertificate && kind != 11)
             || (st.phase == ServerKeyExchange && kind != 12)
             || (st.phase == ServerHelloDone && kind != 14)
    ensures Receive(env, st) == Failed
  {
    var m := S.Message(kind, body);
    RecordHeader(outer, m, rest);
    assert st.buf[5..][0] == (m + rest)[0] == kind;
    hide Record;
    hide Value;
    hide SendKeyExchangeAndFinished;
  }

  /** An application record is returned if it is longer than IV and tag together, and refused if it is at
      least as long as the IV but not longer than both. */
  lemma ReturnedBySize(env: Env, st: Tls, body: Bytes, rest: Bytes)
    requires st.phase == ServerFinished && st.keys.Some?
    requires st.buf == S.Plain(23, body) + rest && |body| < 0x1_0000
    ensures Receive(env, st).Failed? <==> 8 <= |body| <= 24
    ensures Receive(env, st).Got? && Receive(env, st).out.Some? <==> |body| > 24
  {
    RecordHeader(23, body, rest);
    hide Record;
    hide Decrypted;
    hide ProcessHandshake;
  }

  // ----- Messages cut by their record -----

  /** A record that ends before its message: the header is consumed, the rest stays and is read as the next
      record. The certificate is taken as far as its record goes, if the type byte and length are there. */
  lemma CutMessageLosesHeader(env: Env, st: Tls, outer: byte, m: Bytes)
    requires st.buf == S.Plain(outer, m) && |m| < 0x1_0000
    requires || (st.phase == ServerCertificate && |m| < 4)
             || (st.phase == ServerKeyExchange && KeyExchangeReading(m) == Incomplete)
             || (st.phase == ServerHelloDone && HelloDoneReading(m) == Incomplete)
    ensures IsWhole(st.buf) && ProcessHandshake(env, st) == Ok(st.(buf := m))
  {
    RecordHeader(outer, m, []);
    assert st.buf + [] == st.buf && m + [] == m;
    hide Record;
    hide Value;
    hide KeyExchangeReading;
    hide HelloDoneReading;
    hide SendKeyExchangeAndFinished;
  }

  lemma DoneCut(body: Bytes, n: nat)
    requires |body| < 0xFF00 && n < 4 + |body|
    ensures HelloDoneReading(S.Message(14, body)[..n]) == Incomplete
  {
    var m := S.Message(14, body);
    if n >= 4 {
      assert m[..n][1..4] == m[1..4] == Encode(3, |body|);
      SmallPowers();
      StoreLoad(3, |body|);
    }
    hide Value;
    hide Encode;
  }

  lemma KeyExchangeCut(pub: Bytes, algorithm: Bytes, signature: Bytes, n: nat)
    requires |pub| < 256 && |algorithm| == 2 && |signature| < 0xFC00
    requires n < |S.Message(12, S.KeyExchangeBody(3, 29, pub, algorithm, signature))|
    ensures KeyExchangeReading(S.Message(12, S.KeyExchangeBody(3, 29, pub, algorithm, signature))[..n]) == Incomplete
  {
    var m := S.Message(12, S.KeyExchangeBody(3, 29, pub, algorithm, signature));
    KeyExchangeAcceptedIff(12, 3, 29, pub, algorithm, signature);
    var at := 10 + m[7] as int;
    var b := m[..n];
    assert n >= 8 ==> b[5..7] == m[5..7];
    assert n >= at + 2 ==> b[at..at + 2] == m[at..at + 2];
    hide S.KeyExchangeBody;
    hide Value;
  }
}
