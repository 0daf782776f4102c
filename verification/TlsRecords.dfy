/** TLS 1.2 records on the wire (sections 6.2 and 7.4 of RFC 5246) and how `receive` cuts them. */
module TlsRecords {
  import opened Binary
  import opened Scanner

  // Content types
  const CHANGE_CIPHER: byte := 0x14
  const HANDSHAKE: byte := 0x16
  const APPLICATION_DATA: byte := 0x17

  // Handshake types
  const CLIENT_HELLO: byte := 0x01
  const CERTIFICATE: byte := 0x0B
  const SERVER_KEY_EXCHANGE: byte := 0x0C
  const SERVER_HELLO_DONE: byte := 0x0E
  const CLIENT_KEY_EXCHANGE: byte := 0x10
  const FINISHED: byte := 0x14

  const HEADER_SIZE: nat := 5
  const EXPLICIT_IV_SIZE: nat := 8
  const TAG_SIZE: nat := 16

  function Record(contentType: byte, body: Bytes): Bytes {
    [contentType, 3, 3] + Encode(2, |body|) + body
  }

  function Handshake(handshakeType: byte, body: Bytes): Bytes {
    [handshakeType] + Encode(3, |body|) + body
  }

  function BodySize(buf: Bytes): (n: nat)
    requires |buf| >= 5
    ensures n < 0x1_0000
  {
    FieldBounds(buf[3..5]);
    Value(buf[3..5])
  }

  predicate IsTls12(buf: Bytes)
    requires |buf| >= 5
  {
    buf[1] == 3 && buf[2] == 3
  }

  predicate IsWhole(buf: Bytes) {
    |buf| >= 5 && |buf| >= 5 + BodySize(buf)
  }

  lemma HeaderStable(s: Bytes, t: Bytes)
    requires |s| >= 5
    ensures BodySize(s + t) == BodySize(s) && IsTls12(s + t) == IsTls12(s) && (s + t)[0] == s[0]
  {
    assert (s + t)[3..5] == s[3..5];
  }

  lemma RecordHeader(contentType: byte, body: Bytes, tail: Bytes)
    requires |body| < 0x1_0000
    ensures var r := Record(contentType, body);
            && |r| == 5 + |body| && r[0] == contentType && r[5..] == body
            && BodySize(r + tail) == |body| && IsTls12(r + tail) && IsWhole(r + tail)
            && (r + tail)[0] == contentType && (r + tail)[5..] == body + tail
  {
    var r := Record(contentType, body);
    SmallPowers();
    StoreLoad(2, |body|);
    assert (r + tail)[3..5] == Encode(2, |body|);
    assert (r + tail)[5..] == body + tail;
  }

  /** An application record too short to hold its own explicit IV. */
  predicate IsRunt(buf: Bytes) {
    IsWhole(buf) && IsTls12(buf) && buf[0] == APPLICATION_DATA && BodySize(buf) < EXPLICIT_IV_SIZE
  }

  /** How an established client cuts records: the version is checked as soon as a header is there,
      the content type and the minimum length once the record is whole. */
  function ApplicationRule(buf: Bytes): Verdict {
    if |buf| < 5 then More
    else if !IsTls12(buf) then Bad
    else if !IsWhole(buf) then More
    else if buf[0] != APPLICATION_DATA || BodySize(buf) <= EXPLICIT_IV_SIZE + TAG_SIZE then Bad
    else Take(5 + BodySize(buf))
  }

  lemma ApplicationRuleIncremental()
    ensures Incremental(ApplicationRule)
  {
    forall s: Bytes, t: Bytes
      ensures StableAt(ApplicationRule, s, t)
    {
      if |s| >= 5 {
        HeaderStable(s, t);
      }
    }
  }

  /** After a complete parse less than one record is left. */
  lemma LeftoverIsPartialRecord(s: Bytes)
    ensures var p := Parse(ApplicationRule, s);
            !p.bad ==> |p.rest| < 5 || |p.rest| < 5 + BodySize(p.rest)
  {
    ApplicationRuleIncremental();
    ParseConserves(ApplicationRule, s);
  }
}
