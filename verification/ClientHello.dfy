/** The ClientHello: the nested encoding and the patched template that produces it. */
module ClientHello {
  import opened Binary
  import opened Scanner
  import opened TlsRecords
  import opened WriteStream

  function Extension(extensionType: nat, data: Bytes): Bytes {
    Encode(2, extensionType) + Encode(2, |data|) + data
  }

  function ServerName(host: Bytes): Bytes {
    Extension(0x0000, Encode(2, |host| + 3) + [0] + Encode(2, |host|) + host)
  }

  // The signature list's own length field is left at 0 by the source.
  const GROUPS: Bytes := [0x00, 0x0A, 0, 4, 0, 2, 0x00, 0x1D]
  const EXTENDED_MASTER_SECRET: Bytes := [0x00, 0x17, 0, 0]
  const RENEGOTIATION_INFO: Bytes := [0xFF, 0x01, 0, 1, 0]
  const SIGNATURE_ALGORITHMS: Bytes := [0x00, 0x0D, 0, 4, 0, 0, 0x04, 0x01]
  const DEFAULT_EXTENSIONS: Bytes :=
    GROUPS + EXTENDED_MASTER_SECRET + RENEGOTIATION_INFO + SIGNATURE_ALGORITHMS

  function Extensions(host: Bytes): Bytes {
    ServerName(host) + DEFAULT_EXTENSIONS
  }

  /** Suites, compression methods and the extension block after the random. */
  function HelloBody(random: Bytes, host: Bytes): Bytes {
    [3, 3] + random + SUITES + Encode(2, |Extensions(host)|) + Extensions(host)
  }

  /** The handshake message, which is what the transcript hashes. */
  function HelloMessage(random: Bytes, host: Bytes): Bytes {
    Handshake(CLIENT_HELLO, HelloBody(random, host))
  }

  /** Longest host name whose lengths all fit their fields. */
  predicate HostFits(host: Bytes) {
    |host| + 81 < 0x1_0000
  }

  /** The constant message up to its last length field, with the other two lengths still zero. */
  function Front(random: Bytes): Bytes {
    [HANDSHAKE, 3, 3] + [0, 0] + ([CLIENT_HELLO] + [0, 0, 0] + ([3, 3] + random + SUITES))
  }

  function Template(): Bytes {
    Front(Zeros(32)) + [0, 0]
  }

  lemma TemplateWithRandom(random: Bytes)
    requires |random| == 32
    ensures |Template()| == 52 && |Front(random)| == 50
    ensures Patch(Template(), 11, random) == Front(random) + [0, 0]
  {
    var a: Bytes := [HANDSHAKE, 3, 3] + [0, 0] + [CLIENT_HELLO] + [0, 0, 0] + [3, 3];
    var b: Bytes := SUITES + [0, 0];
    assert Template() == a + Zeros(32) + b;
    PatchMiddle(a, Zeros(32), b, random);
  }

  /** Builds the message the way `send_client_hello` does: push the template, push the extensions,
      then go back and fill in the three lengths. The result is the exact nested encoding. */
  method Build(w: Writer, random: Bytes, host: Bytes) returns (ok: bool)
    requires w.Valid() && w.Written() == [] && |random| == 32
    requires w.bytes.Length < 0x1_0000  // the 16-bit IP length bounds every packet
    modifies w, w.bytes
    ensures w.Valid()
    ensures ok <==> 86 + |host| <= w.bytes.Length
    ensures ok ==> w.Written() == Record(HANDSHAKE, HelloMessage(random, host))
  {
    TemplateWithRandom(random);
    hide Writer.Written;
    hide Template;
    hide Front;
    hide Patch;
    hide Encode;
    hide Extensions;
    hide HelloMessage;
    hide Record;
    ok := w.Push(Template());
    if !ok {
      return;
    }
    assert w.Written() == Template();
    w.Overwrite(11, random);
    var prevSize := w.writeIt;
    ok := PushExtensions(w, host);
    if !ok {
      return;
    }
    PatchedTemplate(random, host);
    ghost var pushed := w.Written();
    assert pushed == Front(random) + [0, 0] + Extensions(host);
    FillLengths(w, w.writeIt - prevSize);
  }

  /** Stores the extensions, record and handshake lengths once the total is known. */
  method FillLengths(w: Writer, extensionsSize: nat)
    requires w.Valid() && 52 <= w.writeIt < 0x1_0000
    modifies w.bytes
    ensures w.Written() == Patch(Patch(Patch(old(w.Written()), 50, Encode(2, extensionsSize)),
                                       3, Encode(2, w.writeIt - 5)), 6, Encode(3, w.writeIt - 9))
  {
    hide Writer.Written;
    hide Patch;
    hide Encode;
    w.Overwrite(50, Encode(2, extensionsSize));
    var recordSize := (w.writeIt - HEADER_SIZE) % 0x1_0000;
    w.Overwrite(3, Encode(2, recordSize));
    w.Overwrite(6, Encode(3, recordSize - 4));
  }

  method PushExtensions(w: Writer, host: Bytes) returns (ok: bool)
    requires w.Valid()
    modifies w, w.bytes
    ensures w.Valid()
    ensures ok <==> old(w.writeIt) + 34 + |host| <= w.bytes.Length
    ensures ok ==> w.Written() == old(w.Written()) + Extensions(host)
  {
    ExtensionsShape(host);
    hide Extensions;
    hide SniHeader;
    hide Writer.Written;
    hide Writer.Valid;
    ghost var before := w.Written();
    ok := w.Push(SniHeader(|host|));
    if !ok {
      return;
    }
    ok := w.Push(host);
    if !ok {
      return;
    }
    ok := w.Push(DEFAULT_EXTENSIONS);
    if ok {
      Assoc(before, SniHeader(|host|), host);
      Assoc(before, SniHeader(|host|) + host, DEFAULT_EXTENSIONS);
    }
  }

  lemma PatchMiddle(a: Bytes, gap: Bytes, b: Bytes, fill: Bytes)
    requires |gap| == |fill|
    ensures Patch(a + gap + b, |a|, fill) == a + fill + b
  {
    var s := a + gap + b;
    assert s[..|a|] == a && s[|a| + |fill|..] == b;
  }

  /** Three patches in a layout of seven parts. */
  lemma PatchLengths(a: Bytes, b: Bytes, c: Bytes, d: Bytes, e1: Bytes, e2: Bytes, e3: Bytes,
                     z1: Bytes, z2: Bytes, z3: Bytes)
    requires |z1| == |e1| && |z2| == |e2| && |z3| == |e3|
    ensures var s := (a + z1 + (b + z2 + c)) + z3 + d;
            Patch(Patch(Patch(s, |a| + |z1| + |b| + |z2| + |c|, e3), |a|, e1), |a| + |z1| + |b|, e2)
            == a + e1 + b + e2 + c + e3 + d
  {
    var front := a + z1 + (b + z2 + c);
    PatchMiddle(front, z3, d, e3);
    var last := c + e3 + d;
    hide Patch;
    Assoc(a + z1, b + z2 + c, e3);
    Assoc(a + z1, b + z2 + c + e3, d);
    Assoc(b + z2, c, e3);
    Assoc(b + z2, c + e3, d);
    assert front + e3 + d == a + z1 + (b + z2 + last);
    PatchMiddle(a, z1, b + z2 + last, e1);
    Assoc(b, z2, last);
    Assoc(a + e1, b, z2 + last);
    Assoc(a + e1 + b, z2, last);
    assert a + e1 + (b + z2 + last) == (a + e1 + b) + z2 + last;
    PatchMiddle(a + e1 + b, z2, last, e2);
    Assoc(a + e1 + b + e2, c, e3);
    Assoc(a + e1 + b + e2, c + e3, d);
  }

  const SUITES: Bytes := [0, 0, 2, 0xC0, 0x2F, 1, 0]

  function SniHeader(n: nat): (s: Bytes)
    ensures |s| == 9
  {
    Encode(2, 0x0000) + Encode(2, 5 + n) + Encode(2, 3 + n) + [0] + Encode(2, n)
  }

  lemma ExtensionsShape(host: Bytes)
    ensures Extensions(host) == SniHeader(|host|) + host + DEFAULT_EXTENSIONS
    ensures |Extensions(host)| == 34 + |host|
  {
    var data := Encode(2, |host| + 3) + [0] + Encode(2, |host|) + host;
    assert |data| == 5 + |host|;
    assert ServerName(host) == SniHeader(|host|) + host;
  }

  /** Host and default extensions follow the fixed part; filling in the lengths gives the encoding. */
  lemma PatchedTemplate(random: Bytes, host: Bytes)
    requires |random| == 32 && HostFits(host)
    ensures var pushed := Front(random) + [0, 0] + Extensions(host);
            && |pushed| == 86 + |host|
            && Patch(Patch(Patch(pushed, 50, Encode(2, 34 + |host|)), 3, Encode(2, 81 + |host|)),
                     6, Encode(3, 77 + |host|))
               == Record(HANDSHAKE, HelloMessage(random, host))
  {
    ExtensionsShape(host);
    var exts := Extensions(host);
    var e1, e2, e3 := Encode(2, 81 + |host|), Encode(3, 77 + |host|), Encode(2, 34 + |host|);
    var c := [3, 3] + random + SUITES;
    PatchLengths([HANDSHAKE, 3, 3], [CLIENT_HELLO], c, exts, e1, e2, e3, [0, 0], [0, 0, 0], [0, 0]);
    hide Extensions;
    hide Encode;
    hide Patch;
    HelloParts([HANDSHAKE, 3, 3], e1, [CLIENT_HELLO], e2, c, e3, exts);
    assert HelloBody(random, host) == c + e3 + exts;
    hide HelloBody;
  }

  lemma HelloParts(a: Bytes, e1: Bytes, b: Bytes, e2: Bytes, c: Bytes, e3: Bytes, d: Bytes)
    ensures a + e1 + b + e2 + c + e3 + d == a + e1 + (b + e2 + (c + e3 + d))
  {
  }

  // ----- Nesting -----

  /** How a reader of the extension block cuts it: type, length, then that many bytes. */
  function ExtensionRule(s: Bytes): Verdict {
    if |s| < 4 || |s| < 4 + Value(s[2..4]) then More else Take(4 + Value(s[2..4]))
  }

  lemma ExtensionRuleIncremental()
    ensures Incremental(ExtensionRule)
  {
    forall s: Bytes, t: Bytes
      ensures StableAt(ExtensionRule, s, t)
    {
      if |s| >= 4 {
        assert (s + t)[2..4] == s[2..4];
      }
    }
  }

  lemma ExtensionIsWhole(extensionType: nat, data: Bytes)
    requires |data| < 0x1_0000
    ensures var e := Extension(extensionType, data); ExtensionRule(e) == Take(|e|)
  {
    var e := Extension(extensionType, data);
    assert e[2..4] == Encode(2, |data|);
    SmallPowers();
    StoreLoad(2, |data|);
  }

  lemma DefaultExtensionsAreWhole()
    ensures ExtensionRule(GROUPS) == Take(8) && ExtensionRule(EXTENDED_MASTER_SECRET) == Take(4)
    ensures ExtensionRule(RENEGOTIATION_INFO) == Take(5) && ExtensionRule(SIGNATURE_ALGORITHMS) == Take(8)
  {
    assert GROUPS[2..4] == [0, 4] && SIGNATURE_ALGORITHMS[2..4] == [0, 4];
    assert EXTENDED_MASTER_SECRET[2..4] == [0, 0] && RENEGOTIATION_INFO[2..4] == [0, 1];
    TwoBytes(0, 4);
    TwoBytes(0, 0);
    TwoBytes(0, 1);
  }

  lemma TwoBytes(high: byte, low: byte)
    ensures Value([high, low]) == 256 * high + low
  {
    assert [high, low][..1] == [high];
    assert Value([high]) == high by {
      assert [high][..0] == [];
    }
  }

  /** For every host name that fits: the record's length is that of the handshake message, the handshake
      length that of its body, and the extension block is exactly five whole extensions. */
  lemma LengthsNest(random: Bytes, host: Bytes)
    requires |random| == 32 && HostFits(host)
    ensures var message := HelloMessage(random, host);
            && BodySize(Record(HANDSHAKE, message)) == |message| == 81 + |host|
            && Value(message[1..4]) == |message| - 4
            && Value(message[45..47]) == |Extensions(host)| == |message| - 47
            && message[47..] == Extensions(host)
            && Parse(ExtensionRule, Extensions(host)) ==
               Parsed([ServerName(host), GROUPS, EXTENDED_MASTER_SECRET, RENEGOTIATION_INFO, SIGNATURE_ALGORITHMS],
                      [], false)
  {
    ExtensionsShape(host);
    var message := HelloMessage(random, host);
    FieldsOfMessage(random, host);
    RecordHeader(HANDSHAKE, message, []);
    assert Record(HANDSHAKE, message) + [] == Record(HANDSHAKE, message);
    ExtensionsParse(host);
    hide Parse;
    hide Extensions;
    hide HelloMessage;
  }

  /** The record written out: handshake record of version 3.3, ClientHello, no session, the one suite 0xC02F, no
      compression, then the extensions. */
  lemma HelloWrittenOut(random: Bytes, host: Bytes)
    ensures Record(HANDSHAKE, HelloMessage(random, host))
         == [22, 3, 3] + Encode(2, 49 + |random| + |host|)
            + ([1] + Encode(3, 45 + |random| + |host|) + HelloBody(random, host))
    ensures HelloBody(random, host)
         == [3, 3] + random + [0, 0, 2, 0xC0, 0x2F, 1, 0] + Encode(2, 34 + |host|) + Extensions(host)
  {
    hide Record;
    hide Handshake;
    hide Encode;
    hide Extensions;
    hide HelloBody;
    BodyWrittenOut(random, host);
    RecordOfMessage(HelloBody(random, host));
  }

  lemma RecordOfMessage(body: Bytes)
    ensures Record(HANDSHAKE, Handshake(CLIENT_HELLO, body))
         == [22, 3, 3] + Encode(2, 4 + |body|) + ([1] + Encode(3, |body|) + body)
  {
    hide Encode;
  }

  lemma BodyWrittenOut(random: Bytes, host: Bytes)
    ensures HelloBody(random, host)
         == [3, 3] + random + [0, 0, 2, 0xC0, 0x2F, 1, 0] + Encode(2, 34 + |host|) + Extensions(host)
    ensures |HelloBody(random, host)| == 45 + |random| + |host|
  {
    ExtensionsShape(host);
    hide Extensions;
    hide Encode;
  }

  /** The extensions written out: server name, group 29 (X25519), extended master secret (23), renegotiation
      info and signature algorithm 0x0401. */
  lemma ExtensionsWrittenOut(host: Bytes)
    ensures Extensions(host)
         == ([0, 0] + Encode(2, 5 + |host|) + Encode(2, 3 + |host|) + [0] + Encode(2, |host|) + host)
            + ([0, 10, 0, 4, 0, 2, 0, 29] + [0, 23, 0, 0] + [0xFF, 1, 0, 1, 0] + [0, 13, 0, 4, 0, 0, 4, 1])
  {
    ExtensionsShape(host);
    HeaderWrittenOut(|host|);
    hide Extensions;
    hide SniHeader;
    hide Encode;
  }

  lemma HeaderWrittenOut(n: nat)
    ensures SniHeader(n) == [0, 0] + Encode(2, 5 + n) + Encode(2, 3 + n) + [0] + Encode(2, n)
  {
    assert Encode(2, 0x0000) == [0, 0];
  }

  /** Inside the server-name extension every length field covers exactly what follows it, down to the name. */
  lemma ServerNameNests(host: Bytes)
    requires HostFits(host)
    ensures var name := ServerName(host);
            && |name| == 9 + |host| && Value(name[2..4]) == |name| - 4
            && Value(name[4..6]) == |name| - 6 && name[6] == 0
            && Value(name[7..9]) == |name| - 9 && name[9..] == host
  {
    ExtensionsShape(host);
    SmallPowers();
    StoreLoad(2, 5 + |host|);
    StoreLoad(2, 3 + |host|);
    StoreLoad(2, |host|);
    hide Value;
    hide Encode;
    var kind, outer, list, size := Encode(2, 0x0000), Encode(2, 5 + |host|), Encode(2, 3 + |host|), Encode(2, |host|);
    assert ServerName(host) == kind + outer + list + [0] + size + host by {
      var data := Encode(2, |host| + 3) + [0] + Encode(2, |host|) + host;
      assert |data| == 5 + |host|;
    }
    hide ServerName;
    NameParts(kind, outer, list, size, host);
  }

  lemma NameParts(kind: Bytes, outer: Bytes, list: Bytes, size: Bytes, host: Bytes)
    requires |kind| == |outer| == |list| == |size| == 2
    ensures var s := kind + outer + list + [0] + size + host;
            && |s| == 9 + |host| && s[2..4] == outer && s[4..6] == list && s[6] == 0
            && s[7..9] == size && s[9..] == host
  {
  }

  /** The group list covers its one group; the signature list announces nothing although two bytes follow. */
  lemma InnerListLengths()
    ensures Value(GROUPS[4..6]) == |GROUPS| - 6
    ensures RENEGOTIATION_INFO[4] == |RENEGOTIATION_INFO| - 5
    ensures Value(SIGNATURE_ALGORITHMS[4..6]) == 0 && |SIGNATURE_ALGORITHMS| - 6 == 2
  {
    assert GROUPS[4..6] == [0, 2] && SIGNATURE_ALGORITHMS[4..6] == [0, 0];
    TwoBytes(0, 2);
    TwoBytes(0, 0);
  }

  lemma FieldsOfMessage(random: Bytes, host: Bytes)
    requires |random| == 32 && HostFits(host)
    ensures var message := HelloMessage(random, host);
            && |message| == 81 + |host| && Value(message[1..4]) == 77 + |host|
            && Value(message[45..47]) == 34 + |host| && message[47..] == Extensions(host)
  {
    ExtensionsShape(host);
    SmallPowers();
    StoreLoad(3, 77 + |host|);
    StoreLoad(2, 34 + |host|);
    hide Value;
    hide Encode;
    hide Extensions;
    var front: Bytes := [3, 3] + random + SUITES;
    MessageParts(CLIENT_HELLO, Encode(3, 77 + |host|), front, Encode(2, 34 + |host|), Extensions(host));
    assert HelloBody(random, host) == front + Encode(2, 34 + |host|) + Extensions(host);
  }

  lemma MessageParts(kind: byte, size: Bytes, front: Bytes, inner: Bytes, rest: Bytes)
    requires |size| == 3 && |front| == 41 && |inner| == 2
    ensures var m := [kind] + size + (front + inner + rest);
            && |m| == 47 + |rest| && m[1..4] == size && m[45..47] == inner && m[47..] == rest
  {
    var m := [kind] + size + (front + inner + rest);
    assert m == ([kind] + size + front) + inner + rest;
  }

  lemma ExtensionsParse(host: Bytes)
    requires HostFits(host)
    ensures Parse(ExtensionRule, Extensions(host)) ==
            Parsed([ServerName(host), GROUPS, EXTENDED_MASTER_SECRET, RENEGOTIATION_INFO, SIGNATURE_ALGORITHMS],
                   [], false)
  {
    var name := ServerName(host);
    ExtensionIsWhole(0x0000, Encode(2, |host| + 3) + [0] + Encode(2, |host|) + host);
    DefaultExtensionsAreWhole();
    ExtensionRuleIncremental();
    hide ServerName;
    hide Value;
    var c: seq<Bytes> := [RENEGOTIATION_INFO, SIGNATURE_ALGORITHMS];
    var b: seq<Bytes> := [EXTENDED_MASTER_SECRET] + c;
    var a: seq<Bytes> := [name, GROUPS] + b;
    WholeCons(SIGNATURE_ALGORITHMS, []);
    WholeCons(RENEGOTIATION_INFO, [SIGNATURE_ALGORITHMS]);
    WholeCons(EXTENDED_MASTER_SECRET, c);
    WholeCons(GROUPS, b);
    WholeCons(name, [GROUPS] + b);
    assert a == [name] + ([GROUPS] + b);
    ParseOfWhole(ExtensionRule, a, []);
    ConcatFive(name, GROUPS, EXTENDED_MASTER_SECRET, RENEGOTIATION_INFO, SIGNATURE_ALGORITHMS);
    assert a == [name, GROUPS, EXTENDED_MASTER_SECRET, RENEGOTIATION_INFO, SIGNATURE_ALGORITHMS];
    assert Concat(a) + [] == Concat(a) == Extensions(host);
    assert Parse(ExtensionRule, []) == Parsed([], [], false);
    assert a + [] == a;
  }

  lemma WholeCons(head: Bytes, others: seq<Bytes>)
    requires ExtensionRule(head) == Take(|head|) && AllWhole(ExtensionRule, others)
    ensures AllWhole(ExtensionRule, [head] + others)
  {
    assert ([head] + others)[1..] == others;
  }

  lemma ConcatFive(a: Bytes, b: Bytes, c: Bytes, d: Bytes, e: Bytes)
    ensures Concat([a, b, c, d, e]) == a + (b + c + d + e)
  {
    ConcatOne(a);
    ConcatAppend([a], [b]);
    ConcatOne(b);
    ConcatAppend([a, b], [c]);
    ConcatOne(c);
    ConcatAppend([a, b, c], [d]);
    ConcatOne(d);
    ConcatAppend([a, b, c, d], [e]);
    ConcatOne(e);
    hide Concat;
    assert [a] + [b] == [a, b] && [a, b] + [c] == [a, b, c];
    assert [a, b, c] + [d] == [a, b, c, d] && [a, b, c, d] + [e] == [a, b, c, d, e];
  }
}
