/** WebSocket frames (section 5.2 of RFC 6455) as the client decodes them. */
module WssFrames {
  import opened Outcomes
  import opened Binary
  import opened Scanner

  const TEXT: nat := 1
  const BINARY: nat := 2

  datatype FrameHeader = FrameHeader(
    code: nat, rsv3: bool, rsv2: bool, rsv1: bool, fin: bool, mask: bool, size: nat, headerSize: nat)

  /** The basic header, with a 16-bit or a 64-bit length after it. Length byte 125 is treated like 127. */
  function HeaderSize(lengthByte: byte): nat {
    var len := lengthByte % 128;
    if len < 125 then 2 else if len == 126 then 4 else 10
  }

  function PeekHeader(buf: Bytes): (h: Option<FrameHeader>)
    ensures h.Some? ==> h.value.size < 0x1_0000_0000_0000_0000 && h.value.headerSize <= 10
  {
    if |buf| < 2 || |buf| < HeaderSize(buf[1]) then None
    else
      var n := HeaderSize(buf[1]);
      FieldBounds(buf[2..n]);
      Some(FrameHeader(buf[0] % 16, buf[0] / 16 % 2 == 1, buf[0] / 32 % 2 == 1, buf[0] / 64 % 2 == 1,
                       buf[0] / 128 == 1, buf[1] / 128 == 1,
                       if n == 2 then buf[1] % 128 else Value(buf[2..n]), n))
  }

  lemma HeaderStable(s: Bytes, t: Bytes)
    requires PeekHeader(s).Some?
    ensures PeekHeader(s + t) == PeekHeader(s)
  {
    var n := HeaderSize(s[1]);
    assert (s + t)[2..n] == s[2..n];
  }

  datatype Extracted = Nothing(rest: Bytes) | Refused | Extracted(code: nat, payload: Bytes, rest: Bytes)

  /** Header and length of a frame whose end wraps around the 64-bit size. */
  predicate Wraps(buf: Bytes) {
    PeekHeader(buf).Some? && PeekHeader(buf).value.headerSize + PeekHeader(buf).value.size >= 0x1_0000_0000_0000_0000
  }

  /** `extract_payload`: the sum of header size and payload size is taken in 64 bits. */
  function ExtractPayload(buf: Bytes): Extracted {
    var peeked := PeekHeader(buf);
    if peeked.None? then Nothing(buf)
    else
      var h := peeked.value;
      if |buf| < (h.headerSize + h.size) % 0x1_0000_0000_0000_0000 then Nothing(buf)
      else
        var b := buf[h.headerSize..];
        if |b| < h.size then Nothing(b)
        else if h.mask || h.code > 10 then Refused
        else Extracted(h.code, b[..h.size], b[h.size..])
  }

  /** How frames are cut from the stream. */
  function FrameRule(buf: Bytes): Verdict {
    var peeked := PeekHeader(buf);
    if peeked.None? then More
    else
      var h := peeked.value;
      if Wraps(buf) then Bad
      else if |buf| < h.headerSize + h.size then More
      else if h.mask || h.code > 10 then Bad
      else Take(h.headerSize + h.size)
  }

  lemma HeaderSizePositive(buf: Bytes)
    ensures PeekHeader(buf).Some? ==> 2 <= PeekHeader(buf).value.headerSize <= |buf|
  {
  }

  lemma FrameRuleIncremental()
    ensures Incremental(FrameRule)
  {
    forall s: Bytes, t: Bytes
      ensures StableAt(FrameRule, s, t)
    {
      if PeekHeader(s).Some? {
        HeaderStable(s, t);
        HeaderSizePositive(s);
      }
      hide PeekHeader;
    }
  }

  function CodeOf(frame: Bytes): nat {
    if PeekHeader(frame).Some? then PeekHeader(frame).value.code else 0
  }

  function PayloadOf(frame: Bytes): Bytes {
    if PeekHeader(frame).Some? && PeekHeader(frame).value.headerSize <= |frame|
    then frame[PeekHeader(frame).value.headerSize..] else []
  }

  /** The header of a frame does not depend on what follows the frame. */
  lemma HeaderOfFrame(buf: Bytes, n: nat)
    requires FrameRule(buf) == Take(n)
    ensures n <= |buf| && PeekHeader(buf[..n]) == PeekHeader(buf)
  {
    HeaderSizePositive(buf);
    var k := HeaderSize(buf[1]);
    assert buf[..n][2..k] == buf[2..k];
  }

  lemma FrameSlices(buf: Bytes, k: nat, n: nat)
    requires k <= n <= |buf|
    ensures buf[..n][k..] == buf[k..][..n - k] && buf[k..][n - k..] == buf[n..] && buf[..n] + buf[n..] == buf
  {
    assert buf[..n][k..] == buf[k..n];
    assert buf[k..][..n - k] == buf[k..n];
  }

  /** `extract_payload` takes the whole next frame or nothing at all, as long as lengths do not wrap. */
  lemma ExtractByRule(buf: Bytes)
    requires !Wraps(buf)
    ensures match FrameRule(buf)
            case More => ExtractPayload(buf) == Nothing(buf)
            case Bad => ExtractPayload(buf) == Refused
            case Take(n) =>
              && 0 < n <= |buf|
              && ExtractPayload(buf) == Extracted(CodeOf(buf[..n]), PayloadOf(buf[..n]), buf[n..])
              && buf[..n] + buf[n..] == buf
  {
    HeaderSizePositive(buf);
    if FrameRule(buf).Take? {
      var n := FrameRule(buf).size;
      HeaderOfFrame(buf, n);
      var k := PeekHeader(buf).value.headerSize;
      hide PeekHeader;
      FrameSlices(buf, k, n);
    }
  }

  /** In a buffer of the client's capacity, a header is consumed without its frame exactly when the
      length wraps. */
  lemma HeaderLostIff(buf: Bytes)
    requires |buf| <= 200000
    ensures ExtractPayload(buf).Nothing? && ExtractPayload(buf).rest != buf <==> Wraps(buf)
  {
    HeaderSizePositive(buf);
    if PeekHeader(buf).Some? {
      var h := PeekHeader(buf).value;
      WrappedSum(h.headerSize, h.size);
      hide PeekHeader;
    }
  }

  lemma WrappedSum(a: nat, b: nat)
    requires a <= 10 && b < 0x1_0000_0000_0000_0000
    ensures a + b < 0x1_0000_0000_0000_0000 ==> (a + b) % 0x1_0000_0000_0000_0000 == a + b
    ensures a + b >= 0x1_0000_0000_0000_0000 ==> (a + b) % 0x1_0000_0000_0000_0000 < a
  {
  }

  /** Such a buffer exists: a ten-byte header announcing 2^64 - 1 bytes is consumed without a frame. */
  lemma WrappedLengthLosesHeader()
    ensures var buf: Bytes := [0x82, 127] + Encode(8, 0xFFFF_FFFF_FFFF_FFFF);
            Wraps(buf) && ExtractPayload(buf) == Nothing([])
  {
    var field := Encode(8, 0xFFFF_FFFF_FFFF_FFFF);
    var buf: Bytes := [0x82, 127] + field;
    SmallPowers();
    StoreLoad(8, 0xFFFF_FFFF_FFFF_FFFF);
    hide Value;
    hide Encode;
    assert buf[2..10] == field;
    WrappedSum(10, 0xFFFF_FFFF_FFFF_FFFF);
    assert PeekHeader(buf).value.size == 0xFFFF_FFFF_FFFF_FFFF;
    HeaderLostIff(buf);
  }

  // ----- Encoding -----

  datatype Frame = Frame(code: nat, rsv3: bool, rsv2: bool, rsv1: bool, fin: bool, payload: Bytes)

  /** Any four-bit opcode and a length whose top bit is clear. */
  predicate Encodable(f: Frame) {
    f.code < 16 && |f.payload| < 0x8000_0000_0000_0000
  }

  /** ... with an opcode that the client does not refuse. */
  predicate Sendable(f: Frame) {
    Encodable(f) && f.code <= 10
  }

  function Bit(b: bool): nat {
    if b then 1 else 0
  }

  function FirstByte(f: Frame): byte
    requires f.code < 16
  {
    f.code + 16 * Bit(f.rsv3) + 32 * Bit(f.rsv2) + 64 * Bit(f.rsv1) + 128 * Bit(f.fin)
  }

  /** The minimal unmasked header that section 5.2 of RFC 6455 asks a server for. */
  function EncodeHeader(f: Frame): Bytes
    requires Encodable(f)
  {
    var n := |f.payload|;
    if n <= 125 then [FirstByte(f), n]
    else if n < 0x1_0000 then [FirstByte(f), 126] + Encode(2, n)
    else [FirstByte(f), 127] + Encode(8, n)
  }

  function EncodeFrame(f: Frame): Bytes
    requires Encodable(f)
  {
    EncodeHeader(f) + f.payload
  }

  /** The frame at the head of a buffer, if the client takes one. */
  function Decode(buf: Bytes): Option<Frame> {
    var v := FrameRule(buf);
    if v.Take? && v.size <= |buf| && PeekHeader(buf[..v.size]).Some? then
      var h := PeekHeader(buf).value;
      Some(Frame(h.code, h.rsv3, h.rsv2, h.rsv1, h.fin, PayloadOf(buf[..v.size])))
    else None
  }

  lemma FirstByteBits(f: Frame)
    requires f.code < 16
    ensures var b := FirstByte(f);
            && b % 16 == f.code && (b / 16 % 2 == 1) == f.rsv3 && (b / 32 % 2 == 1) == f.rsv2
            && (b / 64 % 2 == 1) == f.rsv1 && (b / 128 == 1) == f.fin
  {
    var b := FirstByte(f);
    var high := Bit(f.rsv3) + 2 * Bit(f.rsv2) + 4 * Bit(f.rsv1) + 8 * Bit(f.fin);
    assert b == 16 * high + f.code;
    assert b / 16 == high;
    assert high / 2 == Bit(f.rsv2) + 2 * Bit(f.rsv1) + 4 * Bit(f.fin);
    assert high / 4 == Bit(f.rsv1) + 2 * Bit(f.fin);
    assert high / 8 == Bit(f.fin);
    assert b / 32 == high / 2 && b / 64 == high / 4 && b / 128 == high / 8;
  }

  lemma EncodedLength(f: Frame)
    requires Encodable(f) && |f.payload| != 125
    ensures var h := EncodeHeader(f);
            && 2 <= |h| <= 10 && h[0] == FirstByte(f) && HeaderSize(h[1]) == |h| && h[1] < 128
            && (if |h| == 2 then h[1] as int else Value(h[2..])) == |f.payload|
  {
    SmallPowers();
    var n := |f.payload|;
    var h := EncodeHeader(f);
    if 125 < n < 0x1_0000 {
      StoreLoad(2, n);
      assert h[2..] == Encode(2, n);
    } else if n >= 0x1_0000 {
      StoreLoad(8, n);
      assert h[2..] == Encode(8, n);
    }
    hide Value;
    hide Encode;
    hide FirstByte;
  }

  /** The header the client reads off an encoded frame, for every length but 125. */
  lemma HeaderOfEncoding(f: Frame, tail: Bytes)
    requires Encodable(f) && |f.payload| != 125
    ensures var k := |EncodeHeader(f)|;
            && 2 <= k <= 10
            && PeekHeader(EncodeFrame(f) + tail)
               == Some(FrameHeader(f.code, f.rsv3, f.rsv2, f.rsv1, f.fin, false, |f.payload|, k))
            && EncodeFrame(f)[k..] == f.payload
  {
    FirstByteBits(f);
    EncodedLength(f);
    hide EncodeHeader;
    hide Value;
    hide FirstByte;
    var h := EncodeHeader(f);
    var buf := EncodeFrame(f) + tail;
    assert buf[2..|h|] == h[2..];
    assert buf[0] == h[0] && buf[1] == h[1];
  }

  lemma RoundTripUnless125(f: Frame, tail: Bytes)
    requires Sendable(f) && |f.payload| != 125
    ensures FrameRule(EncodeFrame(f) + tail) == Take(|EncodeFrame(f)|)
    ensures Decode(EncodeFrame(f) + tail) == Some(f)
  {
    HeaderOfEncoding(f, tail);
    var e := EncodeFrame(f);
    var buf := e + tail;
    HeaderOfEncoding(f, []);
    assert e + [] == e;
    assert buf[..|e|] == e;
    hide PeekHeader;
    hide EncodeFrame;
  }

  /** A frame comes back from its encoding exactly when its payload is not 125 bytes long and its opcode is
      at most 10. */
  lemma RoundTripIff(f: Frame)
    requires Encodable(f)
    ensures Decode(EncodeFrame(f)) == Some(f) <==> |f.payload| != 125 && f.code <= 10
  {
    var buf := EncodeFrame(f);
    assert buf + [] == buf;
    if |f.payload| == 125 {
      assert HeaderSize(buf[1]) == 10;
      assert |buf| == 127;
      hide Value;
    } else if f.code <= 10 {
      RoundTripUnless125(f, []);
    } else {
      HeaderOfEncoding(f, []);
      hide PeekHeader;
    }
  }

  ghost predicate AllSendable(fs: seq<Frame>) {
    fs != [] ==> Sendable(fs[0]) && |fs[0].payload| != 125 && AllSendable(fs[1..])
  }

  ghost function EncodeAll(fs: seq<Frame>): seq<Bytes>
    requires AllSendable(fs)
  {
    if fs == [] then [] else [EncodeFrame(fs[0])] + EncodeAll(fs[1..])
  }

  lemma {:induction false} EncodedAreWhole(fs: seq<Frame>)
    requires AllSendable(fs)
    ensures AllWhole(FrameRule, EncodeAll(fs))
  {
    if fs != [] {
      EncodedAreWhole(fs[1..]);
      RoundTripUnless125(fs[0], []);
      assert EncodeFrame(fs[0]) + [] == EncodeFrame(fs[0]);
      hide FrameRule;
      hide EncodeFrame;
      assert EncodeAll(fs)[1..] == EncodeAll(fs[1..]);
    }
  }

  /** A server's stream of frames is parsed back into exactly those frames. */
  lemma StreamRoundTrip(fs: seq<Frame>, tail: Bytes)
    requires AllSendable(fs)
    ensures Parse(FrameRule, Concat(EncodeAll(fs)) + tail) == Parse(FrameRule, tail).After(EncodeAll(fs))
  {
    FrameRuleIncremental();
    EncodedAreWhole(fs);
    ParseOfWhole(FrameRule, EncodeAll(fs), tail);
  }

  /** Payloads of the Text and Binary frames among `frames`. */
  function DataPayloads(frames: seq<Bytes>): seq<Bytes> {
    if frames == [] then []
    else
      var n := |frames| - 1;
      DataPayloads(frames[..n]) + (if IsData(frames[n]) then [PayloadOf(frames[n])] else [])
  }

  predicate IsData(frame: Bytes) {
    CodeOf(frame) == TEXT || CodeOf(frame) == BINARY
  }

  lemma DataPayloadsNext(frames: seq<Bytes>, frame: Bytes)
    ensures DataPayloads(frames + [frame])
         == DataPayloads(frames) + (if IsData(frame) then [PayloadOf(frame)] else [])
  {
    assert (frames + [frame])[..|frames|] == frames;
  }
}
