/** Traffic of an established TLS client: reassembly of records from packets, what TCP has to do with it,
    and the records sent. */
module TlsTraffic {
  import opened Outcomes
  import opened Binary
  import opened Scanner
  import opened TlsRecords
  import opened TlsModel
  import opened TlsRuns
  import opened TlsHandshake
  import Tcp = TcpModel
  import TcpRuns
  import SeqNumbers

  // ----- Reassembly -----

  /** Plaintexts of consecutive records, the first of which has number `from`. */
  function OpenAll(env: Env, keys: Keys, from: uint64, records: seq<Bytes>): seq<Bytes> {
    if records == [] then []
    else
      var n := |records| - 1;
      var body := if |records[n]| > 29 then records[n][5..] else Zeros(25);
      OpenAll(env, keys, from, records[..n]) + [Decrypted(env, keys, Number(from + n), body)]
  }

  /** What one `receive` of an established client does, in terms of the record rule. */
  lemma PollApplication(env: Env, st: Tls)
    requires st.phase == ServerFinished && st.keys.Some? && !IsRunt(st.buf)
    ensures match ApplicationRule(st.buf)
            case More => Receive(env, st) == Got(None, st)
            case Bad => Receive(env, st) == Failed
            case Take(n) =>
              && 29 < n <= |st.buf|
              && Receive(env, st) ==
                 Got(Some(Decrypted(env, st.keys.value, st.readSeq, st.buf[5..n])),
                     st.(buf := st.buf[n..], readSeq := (st.readSeq + 1) % 0x1_0000_0000_0000_0000))
  {
    hide Decrypted;
    hide ProcessHandshake;
    if IsWhole(st.buf) {
      var n := BodySize(st.buf);
      assert st.buf[5..][..n] == st.buf[5..5 + n] && st.buf[5..][n..] == st.buf[5 + n..];
    }
  }

  /** Plaintext returned by one step. */
  function Output(env: Env, st: Tls, e: Event): seq<Bytes> {
    if e.Poll? && Receive(env, st).Got? && Receive(env, st).out.Some? then [Receive(env, st).out.value] else []
  }

  ghost function Outputs(env: Env, st: Tls, es: seq<Event>): seq<Bytes> {
    if es == [] || Run(env, st, es[..|es| - 1]).Failure? then []
    else Outputs(env, st, es[..|es| - 1]) + Output(env, Run(env, st, es[..|es| - 1]).value, es[|es| - 1])
  }

  /** No record on the way is too short for its explicit IV. */
  predicate NoRunt(s: Bytes) {
    var p := Parse(ApplicationRule, s);
    !(p.bad && IsRunt(p.rest))
  }

  /** How a run's state relates to the bytes received since it was established: the records already
      returned, in order, followed by what the buffer still parses to, are the one-shot parse. */
  ghost predicate Reassembles(env: Env, start: Tls, st: Tls, input: Bytes, outs: seq<Bytes>, records: seq<Bytes>)
    requires start.keys.Some?
  {
    && st.phase == ServerFinished && st.keys == start.keys
    && Parse(ApplicationRule, start.buf + input) == Parse(ApplicationRule, st.buf).After(records)
    && outs == OpenAll(env, start.keys.value, start.readSeq, records)
    && st.readSeq == Number(start.readSeq + |records|)
  }

  lemma RuntIsBad(s: Bytes)
    requires IsRunt(s)
    ensures Parse(ApplicationRule, s) == Parsed([], s, true)
  {
  }

  lemma OpenNext(env: Env, keys: Keys, from: uint64, records: seq<Bytes>, record: Bytes)
    requires |record| > 29
    ensures OpenAll(env, keys, from, records + [record])
         == OpenAll(env, keys, from, records) + [Decrypted(env, keys, Number(from + |records|), record[5..])]
  {
    assert (records + [record])[..|records|] == records;
  }

  /** One poll, at any moment: returns the next whole record, or nothing if there is none. */
  lemma PollReassembles(
    env: Env, start: Tls, st: Tls, input: Bytes, outs: seq<Bytes>, records: seq<Bytes>) returns (more: seq<Bytes>)
    requires start.keys.Some? && Reassembles(env, start, st, input, outs, records)
    requires NoRunt(start.buf + input) && Receive(env, st).Got?
    ensures st.keys.Some? && !IsRunt(st.buf)
    ensures Reassembles(env, start, Receive(env, st).st, input, outs + Output(env, st, Poll), more)
  {
    hide Receive;
    hide Decrypted;
    hide IsRunt;
    hide OpenAll;
    hide ApplicationRule;
    more := records;
    if IsRunt(st.buf) {
      RuntIsBad(st.buf);
      assert false;
    }
    PollApplication(env, st);
    if ApplicationRule(st.buf).Take? {
      var n := ApplicationRule(st.buf).size;
      more := records + [st.buf[..n]];
      TakeReassembles(env, start, st, input, outs, records, n);
      hide Reassembles;
    } else {
      assert outs + [] == outs;
    }
  }

  /** The record at the head of the buffer moves to those returned. */
  lemma TakeReassembles(
    env: Env, start: Tls, st: Tls, input: Bytes, outs: seq<Bytes>, records: seq<Bytes>, n: nat)
    requires start.keys.Some? && Reassembles(env, start, st, input, outs, records)
    requires ApplicationRule(st.buf) == Take(n) && 29 < n <= |st.buf|
    ensures Reassembles(env, start,
                        st.(buf := st.buf[n..], readSeq := (st.readSeq + 1) % 0x1_0000_0000_0000_0000), input,
                        outs + [Decrypted(env, st.keys.value, st.readSeq, st.buf[5..n])], records + [st.buf[..n]])
  {
    hide Decrypted;
    hide ApplicationRule;
    var record, rest := st.buf[..n], st.buf[n..];
    assert st.buf == record + rest;
    ParseHead(ApplicationRule, record, rest);
    AfterAssociates(Parse(ApplicationRule, rest), records, [record]);
    OpenNext(env, start.keys.value, start.readSeq, records, record);
    assert record[5..] == st.buf[5..n];
    NextNumber(start.readSeq + |records|);
    hide Parse;
    hide OpenAll;
    hide Number;
  }

  lemma {:induction false} DrainReassembles(
    env: Env, start: Tls, st: Tls, input: Bytes, outs: seq<Bytes>, records: seq<Bytes>) returns (more: seq<Bytes>)
    requires start.keys.Some? && Reassembles(env, start, st, input, outs, records)
    requires NoRunt(start.buf + input) && Drain(env, st).Drained?
    ensures Reassembles(env, start, Drain(env, st).st, input, outs + Drain(env, st).outs, more)
    ensures ApplicationRule(Drain(env, st).st.buf) == More
    decreases |st.buf|
  {
    hide Receive;
    hide NoRunt;
    hide IsRunt;
    hide ApplicationRule;
    hide Decrypted;
    hide OpenAll;
    hide Parse;
    more := PollReassembles(env, start, st, input, outs, records);
    PollApplication(env, st);
    hide Reassembles;
    var r := Receive(env, st);
    if r.out.Some? {
      more := DrainReassembles(env, start, r.st, input, outs + [r.out.value], more);
      assert outs + Drain(env, st).outs == (outs + [r.out.value]) + Drain(env, r.st).outs;
    }
  }

  lemma PacketReassembles(
    env: Env, start: Tls, st: Tls, input: Bytes, outs: seq<Bytes>, records: seq<Bytes>, p: Tcp.Packet)
    requires start.keys.Some? && Reassembles(env, start, st, input, outs, records)
    requires ProcessPacket(st, p).Ok?
    ensures Reassembles(env, start, ProcessPacket(st, p).value, input + p.payload, outs, records)
  {
    hide Tcp.ProcessPacket;
    hide OpenAll;
    hide ApplicationRule;
    ApplicationRuleIncremental();
    var all := start.buf + input;
    assert start.buf + (input + p.payload) == all + p.payload;
    ParseResumes(ApplicationRule, all, records, st.buf, p.payload);
    hide Parse;
  }

  /** Over every run of an established client, with packets cut anywhere and polls at any moment: the
      plaintexts returned are those of the records of the one-shot parse, in order, none lost, repeated
      or split, and the rest of that parse is still in the buffer. */
  lemma {:induction false} RunReassembles(env: Env, start: Tls, es: seq<Event>) returns (records: seq<Bytes>)
    requires start.phase == ServerFinished && start.keys.Some? && NoRunt(start.buf + Input(es))
    ensures Run(env, start, es).Ok? ==>
              Reassembles(env, start, Run(env, start, es).value, Input(es), Outputs(env, start, es), records)
  {
    if Run(env, start, es).Failure? {
      records := [];
    } else if es == [] {
      records := [];
      assert start.buf + [] == start.buf;
      AfterAssociates(Parse(ApplicationRule, start.buf), [], []);
      NumberBelow(start.readSeq);
    } else {
      hide ProcessPacket;
      hide Receive;
      hide NoRunt;
      hide Reassembles;
      hide Flush;
      hide Output;
      var before, e := es[..|es| - 1], es[|es| - 1];
      if e.Packet? {
        assert start.buf + Input(es) == (start.buf + Input(before)) + e.packet.payload;
        NoRuntBefore(start.buf + Input(before), e.packet.payload);
      } else {
        assert Input(es) == Input(before);
      }
      records := RunReassembles(env, start, before);
      var st, outs := Run(env, start, before).value, Outputs(env, start, before);
      match e
      case Packet(p) =>
        PacketReassembles(env, start, st, Input(before), outs, records, p);
        NoOutput(env, st, e, outs);
      case Poll => records := PollReassembles(env, start, st, Input(es), outs, records);
      case Write(bytes) =>
        QuietReassembles(env, start, st, Input(es), outs, records, e);
        NoOutput(env, st, e, outs);
      case Send =>
        QuietReassembles(env, start, st, Input(es), outs, records, e);
        NoOutput(env, st, e, outs);
    }
  }

  lemma NoOutput(env: Env, st: Tls, e: Event, outs: seq<Bytes>)
    requires !e.Poll?
    ensures outs + Output(env, st, e) == outs
  {
  }

  lemma QuietReassembles(
    env: Env, start: Tls, st: Tls, input: Bytes, outs: seq<Bytes>, records: seq<Bytes>, e: Event)
    requires start.keys.Some? && Reassembles(env, start, st, input, outs, records)
    requires (e.Write? || e.Send?) && Step(env, st, e).Ok?
    ensures Reassembles(env, start, Step(env, st, e).value, input, outs, records)
  {
    hide Parse;
    hide OpenAll;
    hide Tcp.Transmit;
    hide SealedRecord;
  }

  lemma NoRuntBefore(s: Bytes, t: Bytes)
    requires NoRunt(s + t)
    ensures NoRunt(s)
  {
    ApplicationRuleIncremental();
    ParseAppend(ApplicationRule, s, t);
    var p := Parse(ApplicationRule, s);
    if p.bad && IsRunt(p.rest) {
      HeaderStable(p.rest, t);
    }
  }

  /** A run that ended well and was polled until no whole record was left. */
  ghost predicate IsDrained(env: Env, start: Tls, es: seq<Event>) {
    Run(env, start, es).Ok? && ApplicationRule(Run(env, start, es).value.buf) == More
  }

  /** So two runs that received the same bytes and were polled until nothing was left agree, however
      the bytes were cut into packets: same plaintexts, same partial record in the buffer. */
  lemma SegmentationIndependent(env: Env, start: Tls, es1: seq<Event>, es2: seq<Event>)
    requires start.phase == ServerFinished && start.keys.Some?
    requires Input(es1) == Input(es2) && NoRunt(start.buf + Input(es1))
    ensures IsDrained(env, start, es1) && IsDrained(env, start, es2) ==>
              var p := Parse(ApplicationRule, start.buf + Input(es1));
              && Outputs(env, start, es1) == Outputs(env, start, es2)
              && Outputs(env, start, es1) == OpenAll(env, start.keys.value, start.readSeq, p.items)
              && Run(env, start, es1).value.buf == Run(env, start, es2).value.buf == p.rest && !p.bad
  {
    hide Run;
    hide OpenAll;
    hide ApplicationRule;
    var r1 := RunReassembles(env, start, es1);
    var r2 := RunReassembles(env, start, es2);
    assert r1 + [] == r1 && r2 + [] == r2;
  }

  /** How much an established client may consume in one drain. */
  lemma {:induction false} DrainConsumes(env: Env, st: Tls)
    requires st.phase == ServerFinished && st.keys.Some? && Drain(env, st).Drained?
    ensures var n := |st.buf| - |Drain(env, st).st.buf|; n == 0 || n == 5 || n == 13 || n >= 30
    decreases |st.buf|
  {
    hide Decrypted;
    hide ProcessHandshake;
    var r := Receive(env, st);
    if r.out.Some? {
      DrainConsumes(env, r.st);
    }
  }

  // ----- Sizes -----

  lemma OnceShrinks(env: Env, st: Tls)
    requires EnvOk(env) && ReceiveOnce(env, st).Returned? && ReceiveOnce(env, st).out.Some?
    ensures |ReceiveOnce(env, st).out.value| + |ReceiveOnce(env, st).st.buf| <= |st.buf|
  {
    hide ProcessHandshake;
    hide Tcp.Transmit;
    hide Aad;
  }

  lemma {:induction false} ReceiveShrinks(env: Env, st: Tls)
    requires EnvOk(env) && KeysInv(st) && Receive(env, st).Got? && Receive(env, st).out.Some?
    ensures |Receive(env, st).out.value| + |Receive(env, st).st.buf| <= |st.buf|
    decreases |st.buf|
  {
    hide EnvOk;
    hide ReceiveOnce;
    hide KeysInv;
    OnceStep(env, st);
    var once := ReceiveOnce(env, st);
    if once.Again? {
      ReceiveShrinks(env, once.st);
    } else {
      OnceShrinks(env, st);
    }
  }

  /** Decryption never makes bytes: what a drain returns and what it leaves fit what was buffered. */
  lemma {:induction false} DrainShrinks(env: Env, st: Tls)
    requires EnvOk(env) && KeysInv(st) && Drain(env, st).Drained?
    ensures |Concat(Drain(env, st).outs)| + |Drain(env, st).st.buf| <= |st.buf|
    ensures KeysInv(Drain(env, st).st)
    decreases |st.buf|
  {
    hide EnvOk;
    hide Receive;
    hide KeysInv;
    ReceiveStep(env, st);
    var r := Receive(env, st);
    if r.out.Some? {
      ReceiveShrinks(env, st);
      DrainShrinks(env, r.st);
      ConcatAppend([r.out.value], Drain(env, r.st).outs);
      ConcatOne(r.out.value);
    }
  }

  // ----- TLS input and the stream TCP accepted -----

  /** What TCP accepted and acknowledged during a run. */
  ghost function AcceptedInput(env: Env, st: Tls, es: seq<Event>): Bytes {
    if es == [] || Run(env, st, es[..|es| - 1]).Failure? then []
    else
      var before, e := Run(env, st, es[..|es| - 1]).value, es[|es| - 1];
      AcceptedInput(env, st, es[..|es| - 1]) + AcceptedOf(before, e)
  }

  function AcceptedOf(st: Tls, e: Event): Bytes {
    if e.Packet? then TcpRuns.Accepted(st.tcp, TcpRuns.Receive(e.packet)) else []
  }

  /** Every packet with a payload was new data for a connected TCP client. */
  ghost predicate AllNew(env: Env, st: Tls, es: seq<Event>) {
    es != [] ==>
      && AllNew(env, st, es[..|es| - 1])
      && (Run(env, st, es[..|es| - 1]).Ok? && es[|es| - 1].Packet? ==>
            AcceptedOf(Run(env, st, es[..|es| - 1]).value, es[|es| - 1]) == es[|es| - 1].packet.payload)
  }

  lemma {:induction false} AcceptedAtMost(env: Env, st: Tls, es: seq<Event>)
    ensures Run(env, st, es).Ok? ==>
              && |AcceptedInput(env, st, es)| <= |Input(es)|
              && (AllNew(env, st, es) ==> AcceptedInput(env, st, es) == Input(es))
              && (!AllNew(env, st, es) ==> |AcceptedInput(env, st, es)| < |Input(es)|)
  {
    hide Step;
    if es != [] && Run(env, st, es).Ok? {
      AcceptedAtMost(env, st, es[..|es| - 1]);
      AcceptedOfIsAllOrNothing(Run(env, st, es[..|es| - 1]).value, es[|es| - 1]);
      hide AcceptedOf;
    }
  }

  lemma AcceptedOfIsAllOrNothing(st: Tls, e: Event)
    ensures e.Packet? ==> AcceptedOf(st, e) == e.packet.payload || (AcceptedOf(st, e) == [] && e.packet.payload != [])
    ensures !e.Packet? ==> AcceptedOf(st, e) == []
  {
  }

  /** The bytes handed to TLS are the stream TCP accepted if and only if no packet with a payload was
      old or came before the connection was up: the payload is buffered in any case. */
  lemma InputIsAcceptedIff(env: Env, st: Tls, es: seq<Event>)
    ensures Run(env, st, es).Ok? ==> (Input(es) == AcceptedInput(env, st, es) <==> AllNew(env, st, es))
  {
    hide Run;
    hide Input;
    hide AcceptedInput;
    AcceptedAtMost(env, st, es);
  }

  lemma {:induction false} AcceptedAppend(env: Env, st: Tls, a: seq<Event>, b: seq<Event>)
    requires Run(env, st, a).Ok? && Run(env, Run(env, st, a).value, b).Ok?
    ensures AcceptedInput(env, st, a + b) == AcceptedInput(env, st, a) + AcceptedInput(env, Run(env, st, a).value, b)
  {
    hide Step;
    hide AcceptedOf;
    if b == [] {
      assert a + b == a;
    } else {
      AcceptedAppend(env, st, a, b[..|b| - 1]);
      RunAppend(env, st, a, b[..|b| - 1]);
      assert (a + b)[..|a + b| - 1] == a + b[..|b| - 1];
    }
  }

  lemma OneEvent(env: Env, st: Tls, e: Event)
    ensures Run(env, st, [e]) == Step(env, st, e) && AcceptedInput(env, st, [e]) == AcceptedOf(st, e)
    ensures Input([e]) == if e.Packet? then e.packet.payload else []
  {
    hide Step;
    hide AcceptedOf;
    assert [e][..0] == [] && Run(env, st, []) == Ok(st);
  }

  lemma TwoEvents(env: Env, st: Tls, a: Event, b: Event)
    ensures Step(env, st, a).Ok? ==>
              && Run(env, st, [a, b]) == Step(env, Step(env, st, a).value, b)
              && AcceptedInput(env, st, [a, b]) == AcceptedOf(st, a) + AcceptedOf(Step(env, st, a).value, b)
  {
    hide Step;
    hide AcceptedOf;
    assert [a, b][..1] == [a] && [a][..0] == [];
    assert Run(env, st, []) == Ok(st) && Run(env, st, [a]) == Step(env, st, a);
    assert AcceptedInput(env, st, []) == [] && AcceptedInput(env, st, [a]) == AcceptedOf(st, a);
  }

  /** The failing input: a segment that was accepted comes a second time. TCP drops it, TLS buffers it. */
  lemma RepeatedPayloadBuffered(env: Env, st: Tls, p: Tcp.Packet)
    requires st.tcp.state == Tcp.Connected && ProcessPacket(st, p).Ok? && !Tcp.IsOld(st.tcp, p)
    requires p.payload != [] && |st.buf| + 2 * |p.payload| <= STREAM_SIZE
    requires SeqNumbers.Add(p.seqNo, |p.payload|) != 0
    ensures var es := [Packet(p), Packet(p)];
            && Run(env, st, es).Ok? && Run(env, st, es).value.buf == st.buf + Input(es)
            && Input(es) == p.payload + p.payload && AcceptedInput(env, st, es) == p.payload
  {
    TwoEvents(env, st, Packet(p), Packet(p));
    RepeatIsOld(st.tcp, p);
    hide Tcp.IsOld;
    hide Tcp.ProcessPacket;
    hide Run;
    hide AcceptedInput;
    var e := Packet(p);
    assert [e, e][..1] == [e] && [e][..0] == [];
    assert Input([]) == [] && Input([e]) == p.payload && Input([e, e]) == p.payload + p.payload;
    hide Input;
    Assoc(st.buf, p.payload, p.payload);
  }

  lemma RepeatIsOld(c: Tcp.Client, p: Tcp.Packet)
    requires c.state == Tcp.Connected && Tcp.ProcessPacket(c, p).Ok? && !Tcp.IsOld(c, p)
    requires 0 < |p.payload| <= STREAM_SIZE && SeqNumbers.Add(p.seqNo, |p.payload|) != 0
    ensures var d := Tcp.ProcessPacket(c, p).value;
            d.state == Tcp.Connected && Tcp.IsOld(d, p) && Tcp.ProcessPacket(d, p) == Ok(d)
  {
    AcceptedState(c, p);
    hide Tcp.ProcessPacket;
    hide Tcp.IsOld;
    hide SeqNumbers.Wrap;
    OldIsDropped(Tcp.ProcessPacket(c, p).value, p);
  }

  lemma OldIsDropped(d: Tcp.Client, p: Tcp.Packet)
    requires d.ack == SeqNumbers.Add(p.seqNo, |p.payload|) != 0 && 0 < |p.payload| <= STREAM_SIZE
    requires p.valid && !Tcp.HasRst(p.flags)
    ensures Tcp.IsOld(d, p) && Tcp.ProcessPacket(d, p) == Ok(d)
  {
    SeqNumbers.OrderAgrees(p.seqNo, p.seqNo + |p.payload|);
    SeqNumbers.WrapInRange(p.seqNo);
    hide SeqNumbers.Wrap;
    hide SeqNumbers.Less;
  }

  lemma AcceptedState(c: Tcp.Client, p: Tcp.Packet)
    requires c.state == Tcp.Connected && Tcp.ProcessPacket(c, p).Ok? && !Tcp.IsOld(c, p) && p.payload != []
    ensures var d := Tcp.ProcessPacket(c, p).value;
            && d.state == Tcp.Connected && d.ack == SeqNumbers.Add(p.seqNo, |p.payload|)
            && p.valid && !Tcp.HasRst(p.flags)
  {
    hide Tcp.IsOld;
    hide Tcp.AcceptsAck;
    hide Tcp.HasRst;
    hide SeqNumbers.Wrap;
  }

  // ----- Records sent -----

  /** Any encrypted record: the length field covers exactly what follows it, and the explicit IV is the
      number in the nonce and at the start of the AAD. */
  lemma SealedShape(env: Env, contentType: byte, keys: Keys, number: uint64, plain: Bytes)
    requires EnvOk(env) && |keys.clientIv| == 4 && |plain| + 24 < 0x1_0000
    ensures var s := SealingOf(keys, number, contentType, plain);
            var r := SealedRecord(env, contentType, number, s);
            && |r| == 29 + |plain| && |r| == 5 + BodySize(r) && r[0] == contentType
            && r[5..13] == s.nonce[4..] == s.aad[..8] && r[13..] == Ciphertext(env, s)
  {
    var s := SealingOf(keys, number, contentType, plain);
    var iv, cipher := Encode(8, number), Ciphertext(env, s);
    var body := iv + cipher;
    assert |cipher| == |plain| + 16;
    var r := Record(contentType, body);
    RecordHeader(contentType, body, []);
    assert r + [] == r;
    assert r[5..13] == r[5..][..8] == iv && r[13..] == r[5..][8..] == cipher;
    assert s.nonce[4..] == iv && s.aad[..8] == iv;
  }

  /** A flushed record: the length field covers exactly what follows it, the explicit IV is the number
      in nonce and AAD, and a peer cutting records by the same rule takes it whole. */
  lemma FlushedRecord(env: Env, st: Tls)
    requires EnvOk(env) && KeysInv(st) && Flush(env, st).Ok?
    ensures var after := Flush(env, st).value;
            var n := |after.tcp.sent| - 1;
            && n >= 0 && |after.sealings| == |st.sealings| + 1
            && var r := after.tcp.sent[n].payload;
               var s := after.sealings[|st.sealings|];
               && |r| == 29 + |st.sendBuf| && |r| == 5 + BodySize(r)
               && r[5..13] == s.nonce[4..] == s.aad[..8]
               && r[13..] == Ciphertext(env, s) && s.plain == st.sendBuf
               && (st.sendBuf != [] ==> ApplicationRule(r) == Take(|r|))
  {
    SealedShape(env, APPLICATION_DATA, st.keys.value, st.writeSeq, st.sendBuf);
    hide EnvOk;
    hide Encode;
    hide SealedRecord;
    hide Ciphertext;
  }

  /** The client's last handshake packet: the key exchange record, ChangeCipherSpec, and the Finished
      record, which is encryption number 0 under the keys just installed. */
  lemma FinishedFlight(env: Env, st: Tls)
    requires EnvOk(env) && KeysInv(st) && !Installed(st) && SendKeyExchangeAndFinished(env, st).Ok?
    ensures var after := SendKeyExchangeAndFinished(env, st).value;
            var n := |after.tcp.sent| - 1;
            && n >= 0 && |after.sealings| == 1 && after.keys.Some?
            && var p := after.tcp.sent[n].payload;
               var s := after.sealings[0];
               && |p| == 93 && p[..42] == Record(HANDSHAKE, KeyExchangeMessage(env))
               && p[42..48] == CHANGE_CIPHER_RECORD
               && BodySize(p[48..]) == 40 && p[48] == HANDSHAKE
               && p[53..61] == s.nonce[4..] == s.aad[..8] == Encode(8, 0)
               && p[61..] == Ciphertext(env, s)
               && s.plain == FinishedMessage(env, after.masterSecret, after.transcript)
  {
    hide Tcp.Transmit;
    hide KeyExchangeMessage;
    hide FinishedMessage;
    hide SealedRecord;
    hide SealingOf;
    hide Record;
    hide Encode;
    hide Ciphertext;
    hide DeriveMaster;
    hide DeriveKeys;
    var transcript := st.transcript + KeyExchangeMessage(env);
    var master := DeriveMaster(env, st.serverPub, transcript);
    var keys := DeriveKeys(env, master, st.serverRandom, st.clientRandom).value;
    var finished := FinishedMessage(env, master, transcript);
    FlightSizes(env, master, st.serverRandom, st.clientRandom, transcript);
    hide EnvOk;
    SealedShape(env, HANDSHAKE, keys, 0, finished);
    PlainOf(keys, 0, HANDSHAKE, finished);
    var s := SealingOf(keys, 0, HANDSHAKE, finished);
    var front := Record(HANDSHAKE, KeyExchangeMessage(env));
    FlightParts(front, SealedRecord(env, HANDSHAKE, 0, s));
    LastSent(st.tcp, front + CHANGE_CIPHER_RECORD + SealedRecord(env, HANDSHAKE, 0, s));
  }

  lemma PlainOf(keys: Keys, number: uint64, contentType: byte, plain: Bytes)
    ensures var s := SealingOf(keys, number, contentType, plain);
            s.plain == plain && s.aad[..8] == Encode(8, number)
  {
    hide Encode;
    assert SealingOf(keys, number, contentType, plain).aad[..8] == Encode(8, number);
  }

  lemma FlightSizes(env: Env, master: Bytes, serverRandom: Bytes, clientRandom: Bytes, transcript: Bytes)
    requires EnvOk(env)
    ensures |FinishedMessage(env, master, transcript)| == 16
    ensures |Record(HANDSHAKE, KeyExchangeMessage(env))| == 42
    ensures DeriveKeys(env, master, serverRandom, clientRandom).Ok?
    ensures |DeriveKeys(env, master, serverRandom, clientRandom).value.clientIv| == 4
  {
    hide Encode;
  }

  lemma FlightParts(front: Bytes, r: Bytes)
    requires |front| == 42 && |r| == 45
    ensures var p := front + CHANGE_CIPHER_RECORD + r;
            && |p| == 93 && p[..42] == front && p[42..48] == CHANGE_CIPHER_RECORD && p[48..] == r
            && p[48] == r[0] && p[53..61] == r[5..13] && p[61..] == r[13..]
  {
    var p := front + CHANGE_CIPHER_RECORD + r;
    assert p[48..] == r;
    Slice(p, 48, 5, 8);
    Slice(p, 48, 13, 0);
  }

  lemma LastSent(c: Tcp.Client, payload: Bytes)
    ensures var t := Tcp.Transmit(c, Tcp.SendBuffer(c, Tcp.PSH_ACK, false), payload);
            t.Ok? ==> |t.value.sent| > 0 && t.value.sent[|t.value.sent| - 1].payload == payload
  {
  }

  /** The keys are the key block cut in the order client key, server key, client IV, server IV. */
  lemma KeysCoverBlock(env: Env, master: Bytes, serverRandom: Bytes, clientRandom: Bytes)
    requires EnvOk(env)
    ensures var derived := DeriveKeys(env, master, serverRandom, clientRandom);
            && derived.Ok?
            && var k := derived.value;
               && |k.clientKey| == 16 && |k.serverKey| == 16 && |k.clientIv| == 4 && |k.serverIv| == 4
               && k.clientKey + k.serverKey + k.clientIv + k.serverIv
                  == env.prf(master, "key expansion", serverRandom + clientRandom, 40)
  {
    var block := env.prf(master, "key expansion", serverRandom + clientRandom, 40);
    assert |block| == 40;
    assert block == block[..16] + block[16..32] + block[32..36] + block[36..];
  }
}
