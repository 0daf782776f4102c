/** Properties of every run of the WebSocket client on top of TLS. */
module WssRuns {
  import opened Outcomes
  import opened Binary
  import opened Scanner
  import opened ByteStream
  import opened WssFrames
  import opened WssModel
  import TlsRecords
  import Tls = TlsModel
  import TlsTraffic
  import TlsRuns
  import Tcp = TcpModel

  /** The worker loop hands packets in and asks for messages. */
  datatype Event = Packet(packet: Tcp.Packet) | Ask

  function Step(env: Tls.Env, w: Wss, e: Event): Outcome<Wss> {
    match e
    case Packet(p) => ProcessPacket(w, p)
    case Ask => var n := NextMessage(env, w); if n.Next? then Ok(n.w) else Failure
  }

  function Run(env: Tls.Env, w: Wss, es: seq<Event>): Outcome<Wss> {
    if es == [] then Ok(w)
    else
      var before :- Run(env, w, es[..|es| - 1]);
      Step(env, before, es[|es| - 1])
  }

  function MessageOf(env: Tls.Env, w: Wss, e: Event): seq<Bytes> {
    if e.Ask? && NextMessage(env, w).Next? && NextMessage(env, w).message.Some?
    then [NextMessage(env, w).message.value] else []
  }

  /** Messages returned during a run. */
  ghost function Messages(env: Tls.Env, w: Wss, es: seq<Event>): seq<Bytes> {
    if es == [] || Run(env, w, es[..|es| - 1]).Failure? then []
    else Messages(env, w, es[..|es| - 1]) + MessageOf(env, Run(env, w, es[..|es| - 1]).value, es[|es| - 1])
  }

  function PlaintextsOf(env: Tls.Env, w: Wss, e: Event): seq<Bytes> {
    if e.Ask? && Tls.Drain(env, w.tls).Drained? then Tls.Drain(env, w.tls).outs else []
  }

  /** Plaintexts TLS returned during a run. */
  ghost function Plaintexts(env: Tls.Env, w: Wss, es: seq<Event>): seq<Bytes> {
    if es == [] || Run(env, w, es[..|es| - 1]).Failure? then []
    else Plaintexts(env, w, es[..|es| - 1]) + PlaintextsOf(env, Run(env, w, es[..|es| - 1]).value, es[|es| - 1])
  }

  /** Bytes the packets of a run carried. */
  function Input(es: seq<Event>): Bytes {
    if es == [] then []
    else
      var last := es[|es| - 1];
      Input(es[..|es| - 1]) + if last.Packet? then last.packet.payload else []
  }

  // ----- Where the frames start -----

  lemma FindStable(s: Bytes, t: Bytes, pattern: Bytes)
    requires Find(s, pattern).Some?
    ensures Find(s + t, pattern) == Find(s, pattern)
  {
    var k := Find(s, pattern).value;
    assert (s + t)[k..k + |pattern|] == s[k..k + |pattern|];
    forall i: nat | i < k
      ensures !OccursAt(s + t, pattern, i)
    {
      assert (s + t)[i..i + |pattern|] == s[i..i + |pattern|];
      assert !OccursAt(s, pattern, i);
    }
    FirstIsUnique(s + t, pattern, Some(k));
  }

  lemma UpgradeStable(s: Bytes, t: Bytes)
    requires Upgraded(s)
    ensures Upgraded(s + t) && AfterBlankLine(s + t) == AfterBlankLine(s) + t
  {
    FindStable(s, t, STATUS);
    FindStable(s, t, BLANK_LINE);
  }

  /** The two texts that are looked for. */
  predicate Holds(s: Bytes, text: Bytes, i: nat) {
    i + |text| <= |s| && s[i..i + |text|] == text
  }

  /** A response is accepted exactly if it holds "HTTP/1.1 101" somewhere and a blank line somewhere. */
  lemma UpgradedIff(s: Bytes)
    ensures Upgraded(s) <==>
              && (exists i: nat :: Holds(s, Ascii("HTTP/1.1 101"), i))
              && (exists i: nat :: Holds(s, Ascii("\r\n\r\n"), i))
  {
    PatternsAreTexts();
    FoundIff(s, STATUS);
    FoundIff(s, BLANK_LINE);
  }

  lemma FoundIff(s: Bytes, pattern: Bytes)
    ensures Find(s, pattern).Some? <==> exists i: nat :: Holds(s, pattern, i)
  {
    var r := Find(s, pattern);
    if r.Some? {
      assert Holds(s, pattern, r.value);
    }
    forall i: nat | Holds(s, pattern, i)
      ensures r.Some?
    {
      assert OccursAt(s, pattern, i);
    }
  }

  /** The frames are what follows the first blank line. */
  lemma FramesBegin(head: Bytes, rest: Bytes)
    requires forall i: nat :: i < |head| ==> !Holds(head + [13, 10, 13, 10] + rest, [13, 10, 13, 10], i)
    ensures var s := head + [13, 10, 13, 10] + rest; Find(s, BLANK_LINE).Some? && AfterBlankLine(s) == rest
  {
    var s := head + [13, 10, 13, 10] + rest;
    var k := |head|;
    assert s[k..k + 4] == [13, 10, 13, 10];
    forall i: nat | i < k
      ensures !OccursAt(s, BLANK_LINE, i)
    {
      assert !Holds(s, [13, 10, 13, 10], i);
    }
    FirstIsUnique(s, BLANK_LINE, Some(k));
    assert s[k + 4..] == rest;
  }

  /** The frame stream contained in everything received, once there is one: all of it for a connected
      client, what follows the first blank line for one that still waits for the upgrade. */
  function FrameStream(start: State, received: Bytes): Option<Bytes> {
    match start
    case Connected => Some(received)
    case HttpHandshake => if Upgraded(received) then Some(AfterBlankLine(received)) else None
    case Init => None
  }

  /** No frame on the way has a length that wraps. */
  predicate NoWrap(s: Bytes) {
    var p := Parse(FrameRule, s);
    !(p.bad && Wraps(p.rest))
  }

  /** ... in the frame stream of a client that started in state `start`. */
  predicate StreamSized(start: State, received: Bytes) {
    FrameStream(start, received).Some? ==> NoWrap(FrameStream(start, received).value)
  }

  /** Before the upgrade everything received is kept and nothing was returned. Afterwards the frames
      consumed, followed by what the buffer parses to, are the one-shot parse of the frame stream, and
      the messages returned are the payloads of the Text and Binary frames among those consumed. */
  ghost predicate Delivers(start: State, w: Wss, received: Bytes, messages: seq<Bytes>, frames: seq<Bytes>) {
    match FrameStream(start, received)
    case None => w.state == HttpHandshake && w.buf == received && messages == [] && frames == []
    case Some(s) =>
      && w.state == Connected
      && Parse(FrameRule, s) == Parse(FrameRule, w.buf).After(frames)
      && messages == DataPayloads(frames)
  }

  /** Taking one frame moves it from the buffer to the frames consumed. */
  lemma TakeFrameDelivers(w: Wss, s: Bytes, messages: seq<Bytes>, frames: seq<Bytes>) returns (more: seq<Bytes>)
    requires Parse(FrameRule, s) == Parse(FrameRule, w.buf).After(frames) && NoWrap(s)
    requires messages == DataPayloads(frames) && TakeFrame(w).Next?
    ensures var n := TakeFrame(w);
            && n.w == w.(buf := n.w.buf)
            && Parse(FrameRule, s) == Parse(FrameRule, n.w.buf).After(more)
            && messages + (if n.message.Some? then [n.message.value] else []) == DataPayloads(more)
  {
    hide ExtractPayload;
    hide FrameRule;
    hide PeekHeader;
    hide Parse;
    hide DataPayloads;
    NotWrapped(w.buf, s, frames);
    ExtractByRule(w.buf);
    more := frames;
    if FrameRule(w.buf).Take? {
      var n := FrameRule(w.buf).size;
      more := frames + [w.buf[..n]];
      FrameMoves(s, w.buf[..n], w.buf[n..], frames);
      DataPayloadsNext(frames, w.buf[..n]);
    }
  }

  lemma NotWrapped(buf: Bytes, s: Bytes, frames: seq<Bytes>)
    requires Parse(FrameRule, s) == Parse(FrameRule, buf).After(frames) && NoWrap(s)
    ensures !Wraps(buf)
  {
    hide Parse;
    if Wraps(buf) {
      WrapIsBad(buf);
    }
  }

  lemma FrameMoves(s: Bytes, frame: Bytes, rest: Bytes, frames: seq<Bytes>)
    requires frame != [] && FrameRule(frame + rest) == Take(|frame|)
    requires Parse(FrameRule, s) == Parse(FrameRule, frame + rest).After(frames)
    ensures Parse(FrameRule, s) == Parse(FrameRule, rest).After(frames + [frame])
  {
    hide FrameRule;
    ParseHead(FrameRule, frame, rest);
    hide Parse;
    AfterAssociates(Parse(FrameRule, rest), frames, [frame]);
  }

  lemma WrapIsBad(s: Bytes)
    requires Wraps(s)
    ensures Parse(FrameRule, s) == Parsed([], s, true)
  {
  }

  lemma EmptyParse(s: Bytes)
    ensures Parse(FrameRule, s) == Parse(FrameRule, s).After([])
  {
    AfterAssociates(Parse(FrameRule, s), [], []);
  }

  /** One call of `next_message` on an established client. */
  lemma AskDelivers(
    env: Tls.Env, start: State, w: Wss, received: Bytes, messages: seq<Bytes>, frames: seq<Bytes>)
    returns (more: seq<Bytes>)
    requires start != Init && Delivers(start, w, received, messages, frames) && NextMessage(env, w).Next?
    requires Tls.Drain(env, w.tls).Drained? && Tls.Drain(env, w.tls).st.phase == Tls.ServerFinished
    requires StreamSized(start, received + Concat(Tls.Drain(env, w.tls).outs))
    ensures Delivers(start, NextMessage(env, w).w, received + Concat(Tls.Drain(env, w.tls).outs),
                     messages + MessageOf(env, w, Ask), more)
    ensures NextMessage(env, w).w.tls == Tls.Drain(env, w.tls).st
  {
    hide Tls.Drain;
    hide Concat;
    hide TakeFrame;
    hide NoWrap;
    hide DataPayloads;
    hide Parse;
    var x := Concat(Tls.Drain(env, w.tls).outs);
    var all := received + x;
    var v := Fill(env, w).value;
    if FrameStream(start, received).Some? {
      var s := FrameStream(start, received).value;
      if start == HttpHandshake {
        UpgradeStable(received, x);
      }
      assert FrameStream(start, all) == Some(s + x);
      FrameRuleIncremental();
      ParseResumes(FrameRule, s, frames, w.buf, x);
      more := TakeFrameDelivers(v, s + x, messages, frames);
    } else if Upgraded(all) {
      var u := v.(state := Connected, buf := AfterBlankLine(v.buf));
      EmptyParse(u.buf);
      NoPayloads();
      more := TakeFrameDelivers(u, AfterBlankLine(all), messages, frames);
    } else {
      more := [];
    }
  }

  lemma NoPayloads()
    ensures DataPayloads([]) == []
  {
  }

  /** The buffer takes what TLS returned up to 200000 bytes in all. */
  lemma FillsIff(env: Tls.Env, w: Wss)
    ensures var d := Tls.Drain(env, w.tls);
            Fill(env, w).Ok? <==> d.Drained? && |w.buf| + |Concat(d.outs)| <= 200000
  {
    hide Tls.Drain;
    hide Concat;
  }

  // ----- Every run -----

  /** The whole path from packets to messages: the records returned by TLS are the one-shot parse of
      the bytes received, and the messages are those of the one-shot parse of the plaintext. */
  ghost predicate EndToEnd(
    env: Tls.Env, start: Wss, w: Wss, input: Bytes, plaintexts: seq<Bytes>, messages: seq<Bytes>,
    records: seq<Bytes>, frames: seq<Bytes>)
  {
    && start.tls.keys.Some?
    && TlsTraffic.Reassembles(env, start.tls, w.tls, input, plaintexts, records)
    && Delivers(start.state, w, start.buf + Concat(plaintexts), messages, frames)
  }

  lemma PacketEndToEnd(
    env: Tls.Env, start: Wss, w: Wss, input: Bytes, plaintexts: seq<Bytes>, messages: seq<Bytes>,
    records: seq<Bytes>, frames: seq<Bytes>, p: Tcp.Packet)
    requires EndToEnd(env, start, w, input, plaintexts, messages, records, frames) && ProcessPacket(w, p).Ok?
    ensures EndToEnd(env, start, ProcessPacket(w, p).value, input + p.payload, plaintexts, messages, records, frames)
  {
    hide TlsTraffic.Reassembles;
    hide Tls.ProcessPacket;
    TlsTraffic.PacketReassembles(env, start.tls, w.tls, input, plaintexts, records, p);
  }

  lemma AskDrains(env: Tls.Env, w: Wss)
    requires NextMessage(env, w).Next?
    ensures Tls.Drain(env, w.tls).Drained?
  {
  }

  lemma AskEndToEnd(
    env: Tls.Env, start: Wss, w: Wss, input: Bytes, plaintexts: seq<Bytes>, messages: seq<Bytes>,
    records: seq<Bytes>, frames: seq<Bytes>)
    returns (moreRecords: seq<Bytes>, moreFrames: seq<Bytes>)
    requires EndToEnd(env, start, w, input, plaintexts, messages, records, frames) && NextMessage(env, w).Next?
    requires start.state != Init
    requires TlsTraffic.NoRunt(start.tls.buf + input)
    requires StreamSized(start.state, start.buf + Concat(plaintexts + PlaintextsOf(env, w, Ask)))
    ensures EndToEnd(env, start, NextMessage(env, w).w, input, plaintexts + PlaintextsOf(env, w, Ask),
                     messages + MessageOf(env, w, Ask), moreRecords, moreFrames)
    ensures TlsRecords.ApplicationRule(NextMessage(env, w).w.tls.buf) == More
  {
    hide Delivers;
    hide Tls.Drain;
    hide Concat;
    hide StreamSized;
    hide NextMessage;
    hide TlsTraffic.NoRunt;
    hide Parse;
    AskDrains(env, w);
    moreRecords := TlsTraffic.DrainReassembles(env, start.tls, w.tls, input, plaintexts, records);
    var outs := Tls.Drain(env, w.tls).outs;
    var received := start.buf + Concat(plaintexts);
    ConcatAppend(plaintexts, outs);
    assert start.buf + Concat(plaintexts + outs) == received + Concat(outs);
    moreFrames := AskDelivers(env, start.state, w, received, messages, frames);
    hide TlsTraffic.Reassembles;
  }

  /** Hypotheses on what a run received, as far as it got: no record too short for its IV and no frame
      length that wraps. */
  ghost predicate WellSized(env: Tls.Env, start: Wss, es: seq<Event>) {
    && TlsTraffic.NoRunt(start.tls.buf + Input(es))
    && StreamSized(start.state, start.buf + Concat(Plaintexts(env, start, es)))
  }

  lemma NoWrapBefore(s: Bytes, t: Bytes)
    requires NoWrap(s + t)
    ensures NoWrap(s)
  {
    FrameRuleIncremental();
    ParseAppend(FrameRule, s, t);
    var p := Parse(FrameRule, s);
    if p.bad && Wraps(p.rest) {
      HeaderStable(p.rest, t);
    }
  }

  lemma StreamSizedBefore(start: State, s: Bytes, x: Bytes)
    requires StreamSized(start, s + x)
    ensures StreamSized(start, s)
  {
    hide NoWrap;
    if FrameStream(start, s).Some? {
      if start == HttpHandshake {
        UpgradeStable(s, x);
        NoWrapBefore(AfterBlankLine(s), x);
      } else {
        NoWrapBefore(s, x);
      }
    }
  }

  lemma WellSizedBefore(env: Tls.Env, start: Wss, es: seq<Event>)
    requires es != [] && WellSized(env, start, es) && Run(env, start, es).Ok?
    ensures WellSized(env, start, es[..|es| - 1])
  {
    hide Step;
    hide TlsTraffic.NoRunt;
    hide StreamSized;
    hide PlaintextsOf;
    hide Concat;
    var before, e := es[..|es| - 1], es[|es| - 1];
    var piece: Bytes := if e.Packet? then e.packet.payload else [];
    assert start.tls.buf + Input(es) == (start.tls.buf + Input(before)) + piece;
    TlsTraffic.NoRuntBefore(start.tls.buf + Input(before), piece);
    var outs := Plaintexts(env, start, before);
    var poured := PlaintextsOf(env, Run(env, start, before).value, e);
    ConcatAppend(outs, poured);
    assert start.buf + Concat(outs + poured) == (start.buf + Concat(outs)) + Concat(poured);
    StreamSizedBefore(start.state, start.buf + Concat(outs), Concat(poured));
  }

  /** Over every run of an established client that is connected or waits for its upgrade: packets may
      be cut anywhere, questions may come at any moment and control frames may end a round early, yet
      nothing is lost, repeated or reordered between the bytes received and the messages returned. */
  lemma {:induction false} RunEndToEnd(env: Tls.Env, start: Wss, es: seq<Event>)
    returns (records: seq<Bytes>, frames: seq<Bytes>)
    requires start.tls.phase == Tls.ServerFinished && start.tls.keys.Some? && start.state != Init
    requires start.state == HttpHandshake ==> !Upgraded(start.buf)
    requires WellSized(env, start, es)
    ensures Run(env, start, es).Ok? ==>
              EndToEnd(env, start, Run(env, start, es).value, Input(es), Plaintexts(env, start, es),
                       Messages(env, start, es), records, frames)
  {
    if Run(env, start, es).Failure? {
      records, frames := [], [];
    } else if es == [] {
      records := TlsTraffic.RunReassembles(env, start.tls, []);
      frames := [];
      assert start.buf + [] == start.buf;
      EmptyParse(start.buf);
    } else {
      hide EndToEnd;
      hide NextMessage;
      hide ProcessPacket;
      hide WellSized;
      var before, e := es[..|es| - 1], es[|es| - 1];
      WellSizedBefore(env, start, es);
      records, frames := RunEndToEnd(env, start, before);
      var w := Run(env, start, before).value;
      match e
      case Packet(p) =>
        assert Plaintexts(env, start, es) == Plaintexts(env, start, before);
        assert Messages(env, start, es) == Messages(env, start, before);
        PacketEndToEnd(env, start, w, Input(before), Plaintexts(env, start, before),
                       Messages(env, start, before), records, frames, p);
      case Ask =>
        assert Input(es) == Input(before);
        WellSizedParts(env, start, es);
        records, frames := AskEndToEnd(env, start, w, Input(before), Plaintexts(env, start, before),
                                       Messages(env, start, before), records, frames);
    }
  }

  lemma WellSizedParts(env: Tls.Env, start: Wss, es: seq<Event>)
    requires WellSized(env, start, es)
    ensures TlsTraffic.NoRunt(start.tls.buf + Input(es))
    ensures StreamSized(start.state, start.buf + Concat(Plaintexts(env, start, es)))
  {
  }

  /** If nothing arrived early, leaving Init only sends the request and leaves an empty buffer. */
  lemma LeavesInitEmpty(env: Tls.Env, w: Wss)
    requires w.state == Init && w.buf == [] && NextMessage(env, w).Next?
    requires Tls.Drain(env, w.tls).st.phase == Tls.ServerFinished && Tls.Drain(env, w.tls).outs == []
    ensures var n := NextMessage(env, w);
            && n.message == None && n.w.state == HttpHandshake && n.w.buf == [] && !Upgraded(n.w.buf)
  {
    hide Tls.Drain;
    hide SendUpgrade;
    assert w.buf + Concat([]) == [];
    NothingInEmpty(STATUS);
  }

  /** Data that did arrive early is kept on leaving Init exactly when it does not hold a whole frame or
      a length that wraps. */
  lemma LeavingInitKeepsIff(env: Tls.Env, w: Wss)
    requires w.state == Init && NextMessage(env, w).Next? && Fill(env, w).value.tls.phase == Tls.ServerFinished
    ensures NextMessage(env, w).w.buf == Fill(env, w).value.buf <==> FrameRule(Fill(env, w).value.buf) == More
  {
    hide Tls.Drain;
    hide SendUpgrade;
    hide Concat;
    var buf := Fill(env, w).value.buf;
    if Wraps(buf) {
      HeaderLostIff(buf);
    } else {
      ExtractByRule(buf);
    }
    hide ExtractPayload;
    hide PeekHeader;
  }

  /** An early response does: "HT" reads as the header of a Close frame with 84 bytes of payload. */
  lemma EarlyResponseLost(env: Tls.Env, w: Wss)
    requires w.state == Init && NextMessage(env, w).Next? && Fill(env, w).value.tls.phase == Tls.ServerFinished
    requires |Fill(env, w).value.buf| >= 86 && STATUS <= Fill(env, w).value.buf
    ensures NextMessage(env, w).w.buf == Fill(env, w).value.buf[86..]
  {
    hide Tls.Drain;
    hide SendUpgrade;
    hide Concat;
    ReadsAsClose(Fill(env, w).value.buf);
    hide ExtractPayload;
  }

  lemma ReadsAsClose(buf: Bytes)
    requires |buf| >= 86 && STATUS <= buf
    ensures ExtractPayload(buf) == Extracted(8, buf[2..86], buf[86..])
  {
    assert buf[0] == STATUS[0] == 72 && buf[1] == STATUS[1] == 84;
    assert buf[2..][84..] == buf[86..] && buf[2..][..84] == buf[2..86];
    hide Value;
  }

  lemma NothingInEmpty(pattern: Bytes)
    requires pattern != []
    ensures Find([], pattern) == None
  {
    FirstIsUnique([], pattern, None);
  }

  /** Upgrade boundary: over every cut of the response, the client is connected exactly when status and
      blank line have both arrived, has consumed exactly the bytes through the first blank line by
      then, and every message it ever returns is a frame after them. */
  lemma UpgradeBoundary(env: Tls.Env, start: Wss, es: seq<Event>) returns (frames: seq<Bytes>)
    requires start.tls.phase == Tls.ServerFinished && start.tls.keys.Some?
    requires start.state == HttpHandshake && start.buf == [] && WellSized(env, start, es)
    ensures Run(env, start, es).Ok? ==>
            var received := Concat(Plaintexts(env, start, es));
            var w := Run(env, start, es).value;
            && (w.state == Connected <==> Upgraded(received))
            && (w.state != Connected ==> w.buf == received && Messages(env, start, es) == [])
            && (w.state == Connected ==>
                  && Parse(FrameRule, AfterBlankLine(received)) == Parse(FrameRule, w.buf).After(frames)
                  && Messages(env, start, es) == DataPayloads(frames))
  {
    NothingInEmpty(STATUS);
    var records;
    records, frames := RunEndToEnd(env, start, es);
    hide Run;
    hide Messages;
    hide TlsTraffic.Reassembles;
    hide Parse;
    hide Upgraded;
    var received := Concat(Plaintexts(env, start, es));
    assert start.buf + received == received;
  }

  // ----- Messages of a server's frames -----

  /** One call on a server's frame, with the opcodes of section 5.2 of RFC 6455: Text (0x1) and Binary (0x2)
      are handed on, every other opcode up to 10 is consumed without a message, and the rest are refused. */
  lemma TakesByOpcode(w: Wss, f: Frame, tail: Bytes)
    requires Encodable(f) && |f.payload| != 125 && w.buf == EncodeFrame(f) + tail
    ensures TakeFrame(w) == if f.code > 10 then Aborted
                            else Next(if f.code == 0x1 || f.code == 0x2 then Some(f.payload) else None,
                                      w.(buf := tail))
  {
    HeaderOfEncoding(f, tail);
    var k, n := |EncodeHeader(f)|, |f.payload|;
    WrappedSum(k, n);
    hide PeekHeader;
    var e := EncodeFrame(f);
    assert |e| == k + n;
    hide EncodeFrame;
    hide EncodeHeader;
    assert w.buf[k..] == e[k..] + tail;
    assert (f.payload + tail)[..n] == f.payload && (f.payload + tail)[n..] == tail;
  }

  /** A frame with the mask bit set is refused, whatever its opcode. */
  lemma MaskedIsRefused(w: Wss, first: byte, n: nat, rest: Bytes)
    requires n < 125 && n <= |rest| && w.buf == [first, 128 + n] + rest
    ensures TakeFrame(w) == Aborted
  {
    assert w.buf[0] == first && w.buf[1] == 128 + n;
    hide Value;
  }

  /** Payloads of the Text and Binary frames a server sent. */
  function SentMessages(fs: seq<Frame>): seq<Bytes> {
    if fs == [] then []
    else (if fs[0].code == 0x1 || fs[0].code == 0x2 then [fs[0].payload] else []) + SentMessages(fs[1..])
  }

  lemma {:induction false} DataPayloadsAppend(a: seq<Bytes>, b: seq<Bytes>)
    ensures DataPayloads(a + b) == DataPayloads(a) + DataPayloads(b)
  {
    if b == [] {
      assert a + b == a;
    } else {
      var front, last := b[..|b| - 1], b[|b| - 1];
      DataPayloadsAppend(a, front);
      DataPayloadsNext(a + front, last);
      DataPayloadsNext(front, last);
      hide DataPayloads;
      assert a + b == (a + front) + [last] && b == front + [last];
    }
  }

  lemma PayloadOfEncoding(f: Frame)
    requires Sendable(f) && |f.payload| != 125
    ensures CodeOf(EncodeFrame(f)) == f.code && PayloadOf(EncodeFrame(f)) == f.payload
  {
    HeaderOfEncoding(f, []);
    hide PeekHeader;
    assert EncodeFrame(f) + [] == EncodeFrame(f);
  }

  lemma {:induction false} PayloadsOfEncoding(fs: seq<Frame>)
    requires AllSendable(fs)
    ensures DataPayloads(EncodeAll(fs)) == SentMessages(fs)
  {
    if fs != [] {
      var head := EncodeFrame(fs[0]);
      PayloadsOfEncoding(fs[1..]);
      PayloadOfEncoding(fs[0]);
      DataPayloadsAppend([head], EncodeAll(fs[1..]));
      DataPayloadsNext([], head);
      assert [] + [head] == [head];
      hide DataPayloads;
      hide EncodeFrame;
      NoPayloads();
    }
  }

  /** When the plaintext received is a server's frames, the messages returned so far followed by those
      of the frames still buffered are exactly the Text and Binary payloads the server sent, in order. */
  lemma MessagesAreThoseSent(env: Tls.Env, start: Wss, es: seq<Event>, fs: seq<Frame>)
    requires start.tls.phase == Tls.ServerFinished && start.tls.keys.Some?
    requires start.state == Connected && start.buf == [] && WellSized(env, start, es)
    requires AllSendable(fs) && Concat(Plaintexts(env, start, es)) == Concat(EncodeAll(fs))
    ensures Run(env, start, es).Ok? ==>
              Messages(env, start, es) + DataPayloads(Parse(FrameRule, Run(env, start, es).value.buf).items)
              == SentMessages(fs)
  {
    hide Run;
    hide Messages;
    hide TlsTraffic.Reassembles;
    hide DataPayloads;
    hide Parse;
    hide Plaintexts;
    hide Concat;
    hide WellSized;
    var records, frames := RunEndToEnd(env, start, es);
    var received := Concat(Plaintexts(env, start, es));
    assert start.buf + received == received;
    if Run(env, start, es).Ok? {
      SentFromParse(fs, Run(env, start, es).value.buf, frames);
    }
  }

  lemma SentFromParse(fs: seq<Frame>, buf: Bytes, frames: seq<Bytes>)
    requires AllSendable(fs)
    requires Parse(FrameRule, Concat(EncodeAll(fs))) == Parse(FrameRule, buf).After(frames)
    ensures DataPayloads(frames) + DataPayloads(Parse(FrameRule, buf).items) == SentMessages(fs)
  {
    StreamRoundTrip(fs, []);
    PayloadsOfEncoding(fs);
    var sent := Concat(EncodeAll(fs));
    assert sent + [] == sent;
    assert Parse(FrameRule, []).items == [];
    hide DataPayloads;
    hide EncodeAll;
    hide Concat;
    hide Parse;
    var left := Parse(FrameRule, buf).items;
    assert frames + left == EncodeAll(fs) + [] == EncodeAll(fs);
    DataPayloadsAppend(frames, left);
  }

  // ----- The worker's inner loop -----

  datatype Looped = LoopAborted | Looped(messages: seq<Bytes>, w: Wss)

  function Buffered(w: Wss): nat {
    |w.tls.buf| + |w.buf|
  }

  /** Asks until there is no message. */
  function Loop(env: Tls.Env, w: Wss): Looped
    decreases Buffered(w)
  {
    var n := NextMessage(env, w);
    if n.Aborted? then LoopAborted
    else if n.message.None? then Looped([], n.w)
    else if Buffered(n.w) >= Buffered(w) then LoopAborted
    else
      var later := Loop(env, n.w);
      if later.LoopAborted? then LoopAborted else later.(messages := [n.message.value] + later.messages)
  }

  lemma AskShrinks(env: Tls.Env, w: Wss)
    requires Tls.EnvOk(env) && TlsRuns.KeysInv(w.tls) && NextMessage(env, w).Next?
    ensures NextMessage(env, w).message.Some? ==> Buffered(NextMessage(env, w).w) < Buffered(w)
    ensures TlsRuns.KeysInv(NextMessage(env, w).w.tls)
  {
    AskDrains(env, w);
    TlsTraffic.DrainShrinks(env, w.tls);
    hide Tls.Drain;
    hide Concat;
    hide TlsRuns.KeysInv;
    var v := Fill(env, w).value;
    TakeShrinks(v);
    if v.tls.phase == Tls.ServerFinished {
      if v.state == Init && SendUpgrade(env, v.tls).Ok? {
        UpgradeKeeps(env, v.tls);
        TakeShrinks(v.(state := HttpHandshake, tls := SendUpgrade(env, v.tls).value));
      } else if v.state == HttpHandshake && Upgraded(v.buf) {
        TakeShrinks(v.(state := Connected, buf := AfterBlankLine(v.buf)));
      }
    }
    hide TakeFrame;
    hide SendUpgrade;
  }

  lemma TakeShrinks(w: Wss)
    ensures var n := TakeFrame(w);
            n.Next? ==>
              && n.w == w.(buf := n.w.buf) && |n.w.buf| <= |w.buf|
              && (n.message.Some? ==> |n.w.buf| < |w.buf|)
  {
    HeaderSizePositive(w.buf);
    hide PeekHeader;
  }

  lemma UpgradeKeeps(env: Tls.Env, tls: Tls.Tls)
    requires TlsRuns.KeysInv(tls) && SendUpgrade(env, tls).Ok?
    ensures TlsRuns.KeysInv(SendUpgrade(env, tls).value) && SendUpgrade(env, tls).value.buf == tls.buf
  {
    var pushed := Tls.Push(tls, env.request).value;
    TlsRuns.AnyStep(env, tls, TlsRuns.Write(env.request));
    TlsRuns.AnyStep(env, pushed, TlsRuns.Send);
    hide Tcp.Transmit;
    hide TlsRuns.KeysInv;
    hide Tls.SealedRecord;
  }

  /** The worker's inner loop ends: every message it returns takes bytes out of the two buffers. */
  lemma {:induction false} LoopEnds(env: Tls.Env, w: Wss)
    requires Tls.EnvOk(env) && TlsRuns.KeysInv(w.tls)
    ensures Loop(env, w).LoopAborted? ==> exists n: nat :: NthAsk(env, w, n).Aborted?
    decreases Buffered(w)
  {
    hide NextMessage;
    var n := NextMessage(env, w);
    assert NthAsk(env, w, 0) == n;
    if n.Next? && n.message.Some? {
      AskShrinks(env, w);
      hide TlsRuns.KeysInv;
      hide Tls.EnvOk;
      LoopEnds(env, n.w);
      if Loop(env, w).LoopAborted? {
        var k: nat :| NthAsk(env, n.w, k).Aborted?;
        assert NthAsk(env, w, k + 1).Aborted?;
      }
    }
  }

  /** The result of the `n + 1`-th question, asked only while messages come. */
  ghost function NthAsk(env: Tls.Env, w: Wss, n: nat): Next
    decreases n
  {
    var first := NextMessage(env, w);
    if n == 0 || first.Aborted? || first.message.None? then first else NthAsk(env, first.w, n - 1)
  }

  /** Number of data frames before the first other frame. */
  function LeadingData(frames: seq<Bytes>): nat {
    if frames == [] || !IsData(frames[0]) then 0 else 1 + LeadingData(frames[1..])
  }

  /** Frames left when the loop stops: those after the first one that is not data. */
  function Leftover(frames: seq<Bytes>): seq<Bytes> {
    if frames == [] then [] else if !IsData(frames[0]) then frames[1..] else Leftover(frames[1..])
  }

  lemma FillAgain(env: Tls.Env, w: Wss)
    requires w.tls.phase == Tls.ServerFinished && w.tls.keys.Some? && |w.buf| <= STREAM_SIZE
    requires TlsRecords.ApplicationRule(w.tls.buf) == More
    ensures Fill(env, w) == Ok(w)
  {
    TlsTraffic.PollApplication(env, w.tls);
    hide Tls.Receive;
    assert Tls.Drain(env, w.tls) == Tls.Drained([], w.tls);
    assert w.buf + Concat([]) == w.buf;
  }

  lemma {:induction false} DrainedLoop(env: Tls.Env, w: Wss)
    requires w.tls.phase == Tls.ServerFinished && w.tls.keys.Some? && w.state == Connected
    requires TlsRecords.ApplicationRule(w.tls.buf) == More && |w.buf| <= STREAM_SIZE
    requires NoWrap(w.buf) && Loop(env, w).Looped?
    ensures var items := Parse(FrameRule, w.buf).items;
            && Parse(FrameRule, Loop(env, w).w.buf).items == Leftover(items)
            && Loop(env, w).messages == LeadingPayloads(items)
    decreases Buffered(w)
  {
    FillAgain(env, w);
    hide Fill;
    var n := TakeFrame(w);
    assert NextMessage(env, w) == n;
    TakeFirst(w);
    hide TakeFrame;
    hide FrameRule;
    hide Parse;
    hide NoWrap;
    hide NextMessage;
    if n.message.Some? {
      DrainedLoop(env, n.w);
    }
  }

  /** What the first call of a round buffers is all that TLS has to offer. */
  lemma FillDrains(env: Tls.Env, w: Wss)
    requires w.tls.phase == Tls.ServerFinished && w.tls.keys.Some? && TlsTraffic.NoRunt(w.tls.buf)
    requires Fill(env, w).Ok?
    ensures var v := Fill(env, w).value;
            && v.tls.phase == Tls.ServerFinished && v.tls.keys.Some? && v.state == w.state
            && TlsRecords.ApplicationRule(v.tls.buf) == More && |v.buf| <= STREAM_SIZE
  {
    hide Tls.Drain;
    hide TlsTraffic.NoRunt;
    assert w.tls.buf + [] == w.tls.buf;
    var records := TlsTraffic.RunReassembles(env, w.tls, []);
    assert TlsTraffic.Reassembles(env, w.tls, w.tls, [], [], records);
    records := TlsTraffic.DrainReassembles(env, w.tls, w.tls, [], [], records);
  }

  /** A round of the worker's loop on a connected client, right after a packet: the first call buffers
      everything TLS has; of the complete frames then buffered, the round returns the data frames up to
      the first control frame and leaves everything after that frame buffered. */
  lemma LoopStopsAtControl(env: Tls.Env, w: Wss)
    requires w.tls.phase == Tls.ServerFinished && w.tls.keys.Some? && w.state == Connected
    requires TlsTraffic.NoRunt(w.tls.buf) && Loop(env, w).Looped?
    requires Fill(env, w).Ok? ==> NoWrap(Fill(env, w).value.buf)
    ensures Fill(env, w).Ok?
    ensures var items := Parse(FrameRule, Fill(env, w).value.buf).items;
            && Parse(FrameRule, Loop(env, w).w.buf).items == Leftover(items)
            && Loop(env, w).messages == LeadingPayloads(items)
  {
    FillDrains(env, w);
    var v := Fill(env, w).value;
    hide Fill;
    var n := TakeFrame(v);
    assert NextMessage(env, w) == n;
    TakeFirst(v);
    hide TakeFrame;
    hide FrameRule;
    hide Parse;
    hide NoWrap;
    hide NextMessage;
    if n.message.Some? {
      DrainedLoop(env, n.w);
    }
  }

  function LeadingPayloads(frames: seq<Bytes>): seq<Bytes> {
    if frames == [] || !IsData(frames[0]) then [] else [PayloadOf(frames[0])] + LeadingPayloads(frames[1..])
  }

  lemma TakeFirst(w: Wss)
    requires NoWrap(w.buf) && TakeFrame(w).Next?
    ensures var n := TakeFrame(w);
            var items := Parse(FrameRule, w.buf).items;
            && n.w == w.(buf := n.w.buf) && |n.w.buf| <= |w.buf| && NoWrap(n.w.buf)
            && (items == [] ==> n.message == None && n.w == w)
            && (items != [] ==>
                  && Parse(FrameRule, n.w.buf).items == items[1..]
                  && n.message == (if IsData(items[0]) then Some(PayloadOf(items[0])) else None))
  {
    if Wraps(w.buf) {
      WrapIsBad(w.buf);
      hide Parse;
      assert false;
    }
    ExtractByRule(w.buf);
    hide ExtractPayload;
    if FrameRule(w.buf).Take? {
      var n := FrameRule(w.buf).size;
      ParseHead(FrameRule, w.buf[..n], w.buf[n..]);
      hide FrameRule;
    }
  }

  /** So a round delivers every complete frame exactly when no control frame precedes another frame. */
  lemma RoundDeliversAllIff(env: Tls.Env, w: Wss)
    requires w.tls.phase == Tls.ServerFinished && w.tls.keys.Some? && w.state == Connected
    requires TlsTraffic.NoRunt(w.tls.buf) && Loop(env, w).Looped?
    requires Fill(env, w).Ok? ==> NoWrap(Fill(env, w).value.buf)
    ensures Fill(env, w).Ok?
    ensures var items := Parse(FrameRule, Fill(env, w).value.buf).items;
            Parse(FrameRule, Loop(env, w).w.buf).items == [] <==> |items| <= LeadingData(items) + 1
  {
    hide Loop;
    hide Parse;
    hide NoWrap;
    LoopStopsAtControl(env, w);
    hide Fill;
    LeftoverEmptyIff(Parse(FrameRule, Fill(env, w).value.buf).items);
  }

  /** Such a round: a Ping with a Text frame behind it returns nothing and leaves the Text frame. */
  lemma RoundLeavesFrame(env: Tls.Env, w: Wss)
    requires w.tls.phase == Tls.ServerFinished && w.tls.keys.Some? && w.tls.buf == []
    requires w.state == Connected && w.buf == [0x89, 0, 0x81, 1, 65]
    ensures Loop(env, w) == Looped([], w.(buf := [0x81, 1, 65]))
    ensures FrameRule([0x81, 1, 65]) == Take(3) && IsData([0x81, 1, 65])
  {
    FillAgain(env, w);
    hide Fill;
    assert w.buf[2..] == [0x81, 1, 65] && w.buf[2..][0..] == [0x81, 1, 65];
    assert TakeFrame(w) == Next(None, w.(buf := [0x81, 1, 65]));
    hide TakeFrame;
  }

  lemma {:induction false} LeftoverEmptyIff(frames: seq<Bytes>)
    ensures Leftover(frames) == [] <==> |frames| <= LeadingData(frames) + 1
  {
    hide IsData;
    if frames != [] && IsData(frames[0]) {
      LeftoverEmptyIff(frames[1..]);
    }
  }
}
