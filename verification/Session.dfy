/** A whole session, from three new clients to the messages returned: whatever way the server's bytes are cut
    into packets, the caller gets what the server sent. */
module Session {
  import opened Outcomes
  import opened Binary
  import opened Scanner
  import opened WssFrames
  import opened WssModel
  import opened WssRuns
  import TlsRecords
  import Tls = TlsModel
  import TlsRuns
  import TlsHandshake
  import TlsTraffic
  import TlsPeer
  import TlsCuts
  import TlsServer
  import TlsAgreement
  import Tcp = TcpModel
  import TcpRuns
  import Stack
  import Transport
  import opened SeqNumbers

  // ----- Until the request is sent -----

  lemma ApplicationSizes(records: seq<Bytes>, i: nat)
    requires i <= |records|
    ensures |TlsPeer.Application(records[i..])| + 5 * i <= |TlsPeer.Application(records)|
    decreases i
  {
    if i > 0 {
      ApplicationSizes(records, i - 1);
      assert records[i - 1..][1..] == records[i..];
    } else {
      assert records[0..] == records;
    }
  }

  /** TLS is established and has no application byte yet. */
  ghost predicate AtStart(s: TlsPeer.Server, st: Tls.Tls, later: Bytes) {
    && st.phase == Tls.ServerFinished && st.buf == [] && st.readSeq == 0
    && later == TlsPeer.Application(s.records)
  }

  lemma NothingYet(env: Tls.Env, s: TlsPeer.Server, st: Tls.Tls, later: Bytes)
    requires TlsPeer.GoodServer(s) && TlsPeer.Aligned(env, s, st, later)
    requires |later| >= |TlsPeer.Application(s.records)| && st.phase == Tls.ServerFinished
    ensures AtStart(s, st, later)
  {
    hide TlsHandshake.Follows;
    var i: nat :| TlsPeer.At(s, st, later, i);
    ApplicationSizes(s.records, i);
    assert s.records[0..] == s.records;
    hide TlsPeer.Application;
    assert i == 0 && st.buf == [];
    assert [] + later == later;
  }

  lemma {:induction false} QuietReceive(env: Tls.Env, s: TlsPeer.Server, st: Tls.Tls, later: Bytes)
    requires TlsPeer.GoodServer(s) && TlsPeer.Aligned(env, s, st, later) && Tls.Receive(env, st).Got?
    requires |later| >= |TlsPeer.Application(s.records)|
    ensures Tls.Receive(env, st).out == None
    decreases |st.buf|
  {
    hide TlsPeer.Aligned;
    hide TlsPeer.Application;
    hide TlsPeer.GoodServer;
    var once := Tls.ReceiveOnce(env, st);
    if once.Again? {
      TlsPeer.OnceAligned(env, s, st, later);
      hide Tls.ReceiveOnce;
      QuietReceive(env, s, once.st, later);
    } else if st.phase == Tls.ServerFinished {
      NothingYet(env, s, st, later);
    } else {
      hide Tls.ProcessHandshake;
      hide Tls.SendClientHello;
    }
  }

  /** As long as no application byte has arrived a drain returns nothing. */
  lemma QuietDrain(env: Tls.Env, s: TlsPeer.Server, st: Tls.Tls, later: Bytes)
    requires TlsPeer.GoodServer(s) && TlsPeer.Aligned(env, s, st, later) && Tls.Drain(env, st).Drained?
    requires |later| >= |TlsPeer.Application(s.records)|
    ensures var d := Tls.Drain(env, st);
            && d.outs == [] && TlsPeer.Aligned(env, s, d.st, later)
            && (d.st.phase == Tls.ServerFinished ==> AtStart(s, d.st, later))
  {
    hide Tls.Receive;
    hide TlsPeer.Aligned;
    hide AtStart;
    QuietReceive(env, s, st, later);
    TlsPeer.DrainLeftover(env, s, st, later);
    if Tls.Drain(env, st).st.phase == Tls.ServerFinished {
      NothingYet(env, s, Tls.Drain(env, st).st, later);
    }
  }

  /** The client waits in Init, or has just sent its request; nothing was buffered or returned. */
  ghost predicate Waits(env: Tls.Env, s: TlsPeer.Server, w: Wss, later: Bytes)
    requires TlsPeer.GoodServer(s)
  {
    && TlsPeer.Aligned(env, s, w.tls, later) && w.buf == []
    && |later| >= |TlsPeer.Application(s.records)|
    && (w.state == Init || (w.state == HttpHandshake && AtStart(s, w.tls, later)))
  }

  lemma RequestKeeps(env: Tls.Env, s: TlsPeer.Server, st: Tls.Tls, later: Bytes)
    requires TlsPeer.GoodServer(s) && TlsPeer.Aligned(env, s, st, later) && AtStart(s, st, later)
    requires SendUpgrade(env, st).Ok?
    ensures TlsPeer.Aligned(env, s, SendUpgrade(env, st).value, later) && AtStart(s, SendUpgrade(env, st).value, later)
  {
    hide TlsPeer.Aligned;
    hide TlsPeer.GoodServer;
    hide TlsPeer.Application;
    var pushed := Tls.Push(st, env.request).value;
    TlsPeer.QuietAligned(env, s, st, later, TlsRuns.Write(env.request));
    TlsPeer.QuietAligned(env, s, pushed, later, TlsRuns.Send);
    hide Tcp.Transmit;
    hide Tls.SealedRecord;
    hide Tls.SealingOf;
  }

  lemma NoFrameInEmpty(w: Wss)
    requires w.buf == []
    ensures TakeFrame(w) == Next(None, w)
  {
  }

  /** One call in Init, before any application byte. */
  lemma AskWaits(env: Tls.Env, s: TlsPeer.Server, w: Wss, later: Bytes)
    requires TlsPeer.GoodServer(s) && Waits(env, s, w, later) && w.state == Init && NextMessage(env, w).Next?
    requires |later| >= |TlsPeer.Application(s.records)|
    ensures Waits(env, s, NextMessage(env, w).w, later) && NextMessage(env, w).message == None
    ensures Tls.Drain(env, w.tls).outs == []
  {
    hide TlsPeer.Aligned;
    hide AtStart;
    hide Tls.Drain;
    hide SendUpgrade;
    hide TlsPeer.GoodServer;
    AskDrains(env, w);
    QuietDrain(env, s, w.tls, later);
    var v := Fill(env, w).value;
    assert Concat([]) == [] && w.buf + [] == [];
    NoFrameInEmpty(v);
    if v.tls.phase == Tls.ServerFinished {
      RequestKeeps(env, s, v.tls, later);
      NoFrameInEmpty(v.(state := HttpHandshake, tls := SendUpgrade(env, v.tls).value));
    }
    hide TakeFrame;
  }

  /** The server keeps its application data until the request: what arrives while the client is in Init
      ends with the handshake at the latest. */
  ghost predicate AnswersRequest(env: Tls.Env, start: Wss, s: TlsPeer.Server, es: seq<Event>) {
    es != [] ==>
      var before := es[..|es| - 1];
      && AnswersRequest(env, start, s, before)
      && (Run(env, start, before).Ok? && Run(env, start, before).value.state == Init ==>
            |Input(es)| + |TlsPeer.Application(s.records)| <= |TlsPeer.Stream(s)|)
  }

  /** The first `k` events of a run: at their end the client still waits, or it has sent its request and
      all that follows in the stream is application data. */
  ghost predicate OpensWith(
    env: Tls.Env, start: Wss, s: TlsPeer.Server, es: seq<Event>, later: Bytes, k: nat)
    requires TlsPeer.GoodServer(s)
  {
    && k <= |es| && Run(env, start, es[..k]).Ok? && Messages(env, start, es[..k]) == []
    && Waits(env, s, Run(env, start, es[..k]).value, Input(es[k..]) + later)
    && (Run(env, start, es[..k]).value.state == Init ==> k == |es|)
  }

  lemma CreateWaits(env: Tls.Env, s: TlsPeer.Server, tcp: Tcp.Client)
    requires TlsPeer.GoodServer(s) && Create(env, tcp).Ok?
    ensures Waits(env, s, Create(env, tcp).value, TlsPeer.Stream(s))
  {
    hide Tls.Create;
    TlsPeer.CreateAligned(env, s, tcp);
    TlsHandshake.RemainingStart(s.flight, TlsPeer.Tail(s));
    hide TlsPeer.Aligned;
    hide TlsHandshake.Remaining;
  }

  lemma PacketWaits(env: Tls.Env, s: TlsPeer.Server, w: Wss, p: Tcp.Packet, later: Bytes)
    requires TlsPeer.GoodServer(s) && Waits(env, s, w, p.payload + later) && w.state == Init
    requires ProcessPacket(w, p).Ok? && |later| >= |TlsPeer.Application(s.records)|
    ensures Waits(env, s, ProcessPacket(w, p).value, later) && ProcessPacket(w, p).value.state == Init
  {
    hide Tls.ProcessPacket;
    TlsPeer.PacketAligned(env, s, w.tls, p, later);
    hide TlsPeer.Aligned;
  }

  /** One step of a client that waits in Init. */
  lemma StepWaits(env: Tls.Env, s: TlsPeer.Server, w: Wss, e: Event, later: Bytes)
    requires TlsPeer.GoodServer(s) && w.state == Init && Step(env, w, e).Ok?
    requires Waits(env, s, w, if e.Packet? then e.packet.payload + later else later)
    requires |later| >= |TlsPeer.Application(s.records)|
    ensures Waits(env, s, Step(env, w, e).value, later) && MessageOf(env, w, e) == []
  {
    hide Waits;
    hide NextMessage;
    hide ProcessPacket;
    hide TlsPeer.Application;
    match e
    case Packet(p) => PacketWaits(env, s, w, p, later);
    case Ask => AskWaits(env, s, w, later);
  }

  lemma {:induction false} Opening(
    env: Tls.Env, tcp: Tcp.Client, s: TlsPeer.Server, es: seq<Event>, later: Bytes) returns (k: nat)
    requires TlsPeer.GoodServer(s) && Create(env, tcp).Ok? && Run(env, Create(env, tcp).value, es).Ok?
    requires AnswersRequest(env, Create(env, tcp).value, s, es) && Input(es) + later == TlsPeer.Stream(s)
    ensures OpensWith(env, Create(env, tcp).value, s, es, later, k)
  {
    hide Waits;
    hide Step;
    hide MessageOf;
    hide TlsPeer.GoodServer;
    hide TlsPeer.Stream;
    hide TlsPeer.Application;
    var start := Create(env, tcp).value;
    if es == [] {
      k := 0;
      CreateWaits(env, s, tcp);
      hide Create;
      assert es[..0] == [] && es[0..] == [] && [] + later == later;
    } else {
      hide Create;
      var before, e := es[..|es| - 1], es[|es| - 1];
      var piece: Bytes := if e.Packet? then e.packet.payload else [];
      Assoc(Input(before), piece, later);
      assert e.Ask? ==> piece + later == later;
      k := Opening(env, tcp, s, before, piece + later);
      if Run(env, start, before[..k]).value.state == Init {
        assert before[..k] == before && before[k..] == [] && [] + (piece + later) == piece + later;
        StepWaits(env, s, Run(env, start, before).value, e, later);
        k := |es|;
        assert es[..k] == es && es[k..] == [] && [] + later == later;
      } else {
        assert es[..k] == before[..k] && es[k..][..|es[k..]| - 1] == before[k..];
        Assoc(Input(before[k..]), piece, later);
      }
    }
  }

  // ----- Runs in two parts -----

  lemma {:induction false} RunSplits(env: Tls.Env, w: Wss, es: seq<Event>, k: nat)
    requires k <= |es| && Run(env, w, es).Ok?
    ensures Run(env, w, es[..k]).Ok?
    ensures var mid := Run(env, w, es[..k]).value;
            && Run(env, mid, es[k..]) == Run(env, w, es)
            && Messages(env, w, es) == Messages(env, w, es[..k]) + Messages(env, mid, es[k..])
  {
    hide Step;
    hide MessageOf;
    if k == |es| {
      assert es[..k] == es && es[k..] == [];
    } else {
      var before, rest := es[..|es| - 1], es[k..];
      RunSplits(env, w, before, k);
      assert before[..k] == es[..k] && rest[..|rest| - 1] == before[k..];
    }
  }

  // ----- The application records -----

  lemma AskTls(env: Tls.Env, w: Wss)
    requires w.state != Init && NextMessage(env, w).Next?
    ensures NextMessage(env, w).w.tls == Tls.Drain(env, w.tls).st && NextMessage(env, w).w.state != Init
  {
    hide Tls.Drain;
    hide Concat;
    hide ExtractPayload;
  }

  /** The TLS half of a run past Init. */
  lemma {:induction false} RunRecords(env: Tls.Env, start: Wss, es: seq<Event>) returns (records: seq<Bytes>)
    requires start.tls.phase == Tls.ServerFinished && start.tls.keys.Some? && start.state != Init
    requires TlsTraffic.NoRunt(start.tls.buf + Input(es)) && Run(env, start, es).Ok?
    ensures var w := Run(env, start, es).value;
            && w.state != Init
            && TlsTraffic.Reassembles(env, start.tls, w.tls, Input(es), Plaintexts(env, start, es), records)
            && (es != [] && es[|es| - 1].Ask? ==> TlsRecords.ApplicationRule(w.tls.buf) == More)
  {
    if es == [] {
      records := TlsTraffic.RunReassembles(env, start.tls, []);
    } else {
      hide TlsTraffic.Reassembles;
      hide TlsTraffic.NoRunt;
      hide NextMessage;
      hide Tls.ProcessPacket;
      hide Tls.Drain;
      var before, e := es[..|es| - 1], es[|es| - 1];
      var piece: Bytes := if e.Packet? then e.packet.payload else [];
      Assoc(start.tls.buf, Input(before), piece);
      TlsTraffic.NoRuntBefore(start.tls.buf + Input(before), piece);
      records := RunRecords(env, start, before);
      var w, outs := Run(env, start, before).value, Plaintexts(env, start, before);
      match e
      case Packet(p) =>
        TlsTraffic.PacketReassembles(env, start.tls, w.tls, Input(before), outs, records, p);
        assert outs + [] == outs;
      case Ask =>
        assert Input(before) + [] == Input(before);
        AskDrains(env, w);
        AskTls(env, w);
        records := TlsTraffic.DrainReassembles(env, start.tls, w.tls, Input(before), outs, records);
    }
  }

  function Wire(bodies: seq<Bytes>): seq<Bytes> {
    if bodies == [] then [] else [TlsRecords.Record(TlsRecords.APPLICATION_DATA, bodies[0])] + Wire(bodies[1..])
  }

  lemma RecordTaken(body: Bytes)
    requires 24 < |body| < 0x1_0000
    ensures var r := TlsRecords.Record(TlsRecords.APPLICATION_DATA, body); TlsRecords.ApplicationRule(r) == Take(|r|)
  {
    TlsRecords.RecordHeader(TlsRecords.APPLICATION_DATA, body, []);
    var r := TlsRecords.Record(TlsRecords.APPLICATION_DATA, body);
    assert r + [] == r;
  }

  lemma {:induction false} WireIsWhole(bodies: seq<Bytes>)
    requires TlsPeer.Fillable(bodies)
    ensures AllWhole(TlsRecords.ApplicationRule, Wire(bodies))
    ensures Concat(Wire(bodies)) == TlsPeer.Application(bodies)
  {
    if bodies != [] {
      WireIsWhole(bodies[1..]);
      RecordTaken(bodies[0]);
      var head, rest := TlsRecords.Record(TlsRecords.APPLICATION_DATA, bodies[0]), Wire(bodies[1..]);
      assert ([head] + rest)[1..] == rest;
      ConcatAppend([head], rest);
      ConcatOne(head);
      hide Concat;
      hide TlsRecords.ApplicationRule;
      hide TlsRecords.Record;
    }
  }

  lemma ApplicationParses(bodies: seq<Bytes>)
    requires TlsPeer.Fillable(bodies)
    ensures Parse(TlsRecords.ApplicationRule, TlsPeer.Application(bodies)) == Parsed(Wire(bodies), [], false)
  {
    WireIsWhole(bodies);
    TlsRecords.ApplicationRuleIncremental();
    ParseOfWhole(TlsRecords.ApplicationRule, Wire(bodies), []);
    var all := Concat(Wire(bodies));
    assert all + [] == all && Wire(bodies) + [] == Wire(bodies);
    assert Parse(TlsRecords.ApplicationRule, []) == Parsed([], [], false);
    hide Parse;
  }

  // ----- What the session delivers -----

  /** The keys are those of the server: its key block, cut in four. */
  ghost predicate SessionKeys(env: Tls.Env, f: TlsHandshake.Flight, keys: Tls.Keys)
    requires TlsHandshake.GoodFlight(f)
  {
    var x := TlsHandshake.Exchanged(env, f);
    |x.clientHello| >= 38 && TlsAgreement.CutFrom(keys, x.KeyBlock(env))
  }

  /** Bodies of records in which the server sealed `plains`, one each. */
  ghost predicate SealsAll(env: Tls.Env, block: Bytes, bodies: seq<Bytes>, plains: seq<Bytes>)
    requires |block| == 40
  {
    |plains| == |bodies| && forall i :: 0 <= i < |bodies| ==> TlsAgreement.Seals(env, block, bodies[i], plains[i])
  }

  /** A cipher whose opening gives back what was sealed under the same key and IV. */
  ghost predicate Invertible(env: Tls.Env) {
    Tls.EnvOk(env) && TlsServer.OpensAnyway(env)
  }

  /** The server's application records hold `plain`: it sealed it, in pieces, under its half of the key block
      that it derives from the six messages of the handshake. */
  ghost predicate Carries(env: Tls.Env, s: TlsPeer.Server, plain: Bytes)
    requires TlsPeer.GoodServer(s)
  {
    var x := TlsHandshake.Exchanged(env, s.flight);
    && Invertible(env) && |x.clientHello| >= 38 && |x.KeyBlock(env)| == 40
    && exists plains: seq<Bytes> :: SealsAll(env, x.KeyBlock(env), s.records, plains) && Concat(plains) == plain
  }

  lemma {:induction false} OpensAll(
    env: Tls.Env, keys: Tls.Keys, block: Bytes, from: Tls.uint64, bodies: seq<Bytes>, plains: seq<Bytes>)
    requires Invertible(env) && TlsAgreement.CutFrom(keys, block) && SealsAll(env, block, bodies, plains)
    ensures TlsPeer.Fillable(bodies) && TlsTraffic.OpenAll(env, keys, from, Wire(bodies)) == plains
    decreases bodies
  {
    hide Invertible;
    hide TlsAgreement.Seals;
    hide TlsRecords.Record;
    if bodies == [] {
      assert Wire(bodies) == [] && plains == [];
    } else {
      hide TlsTraffic.OpenAll;
      SealsAllRest(env, block, bodies, plains);
      hide SealsAll;
      OpensAll(env, keys, block, TlsRuns.Number(from + 1), bodies[1..], plains[1..]);
      OpensFirst(env, keys, block, from, bodies[0], plains[0]);
      var record := TlsRecords.Record(TlsRecords.APPLICATION_DATA, bodies[0]);
      TlsCuts.OpenAllAppend(env, keys, from, [record], Wire(bodies[1..]));
      assert plains == [plains[0]] + plains[1..];
      assert forall i :: 1 <= i < |bodies| ==> bodies[i] == bodies[1..][i - 1];
    }
  }

  lemma SealsAllRest(env: Tls.Env, block: Bytes, bodies: seq<Bytes>, plains: seq<Bytes>)
    requires |block| == 40 && bodies != [] && SealsAll(env, block, bodies, plains)
    ensures plains != [] && TlsAgreement.Seals(env, block, bodies[0], plains[0])
    ensures SealsAll(env, block, bodies[1..], plains[1..])
  {
    hide TlsAgreement.Seals;
  }

  lemma OpensFirst(env: Tls.Env, keys: Tls.Keys, block: Bytes, from: Tls.uint64, body: Bytes, plain: Bytes)
    requires Invertible(env) && TlsAgreement.CutFrom(keys, block) && TlsAgreement.Seals(env, block, body, plain)
    ensures 24 < |body| < 0x1_0000
    ensures var record := TlsRecords.Record(TlsRecords.APPLICATION_DATA, body);
            TlsTraffic.OpenAll(env, keys, from, [record]) == [plain]
  {
    TlsAgreement.SealsOpens(env, keys, block, from, body, plain);
    hide Tls.Decrypted;
    var record := TlsRecords.Record(TlsRecords.APPLICATION_DATA, body);
    TlsRecords.RecordHeader(TlsRecords.APPLICATION_DATA, body, []);
    hide TlsRecords.Record;
    TlsCuts.OneOpened(env, keys, from, record);
  }

  lemma CarriesOpens(env: Tls.Env, s: TlsPeer.Server, plain: Bytes, keys: Tls.Keys)
    requires TlsPeer.GoodServer(s) && Carries(env, s, plain) && SessionKeys(env, s.flight, keys)
    ensures TlsPeer.Fillable(s.records)
    ensures Concat(TlsTraffic.OpenAll(env, keys, 0, Wire(s.records))) == plain
  {
    var block := TlsHandshake.Exchanged(env, s.flight).KeyBlock(env);
    var plains: seq<Bytes> :| SealsAll(env, block, s.records, plains) && Concat(plains) == plain;
    OpensAll(env, keys, block, 0, s.records, plains);
  }

  lemma CarriesFills(env: Tls.Env, s: TlsPeer.Server, plain: Bytes)
    requires TlsPeer.GoodServer(s) && Carries(env, s, plain)
    ensures TlsPeer.Fillable(s.records) && Tls.EnvOk(env) && (plain != [] ==> s.records != [])
  {
    var block := TlsHandshake.Exchanged(env, s.flight).KeyBlock(env);
    var plains: seq<Bytes> :| SealsAll(env, block, s.records, plains) && Concat(plains) == plain;
    OpensAll(env, Tls.Keys(block[..16], block[16..32], block[32..36], block[36..]), block, 0, s.records, plains);
  }

  /** A response that accepts the upgrade and ends with its first blank line. */
  predicate IsResponse(response: Bytes) {
    Upgraded(response) && AfterBlankLine(response) == []
  }

  lemma KeysOfSession(env: Tls.Env, s: TlsPeer.Server, st: Tls.Tls, later: Bytes)
    requires TlsPeer.GoodServer(s) && TlsPeer.Aligned(env, s, st, later) && st.phase == Tls.ServerFinished
    requires Tls.EnvOk(env)
    ensures st.keys.Some? && SessionKeys(env, s.flight, st.keys.value)
  {
    hide TlsHandshake.Master;
    hide TlsPeer.At;
    hide Tls.EnvOk;
    hide TlsHandshake.Transcript;
    TlsHandshake.DerivedAgrees(env, s.flight, st);
    hide TlsHandshake.Derived;
    hide TlsHandshake.GoodFlight;
    hide TlsHandshake.Exchanged;
  }

  lemma NoRuntYet(bodies: seq<Bytes>, input: Bytes, later: Bytes)
    requires TlsPeer.Fillable(bodies) && input + later == TlsPeer.Application(bodies)
    ensures TlsTraffic.NoRunt(input) && !Parse(TlsRecords.ApplicationRule, input).bad
    ensures Parse(TlsRecords.ApplicationRule, input).items <= Wire(bodies)
    ensures later == [] ==> Parse(TlsRecords.ApplicationRule, input) == Parsed(Wire(bodies), [], false)
  {
    ApplicationParses(bodies);
    TlsRecords.ApplicationRuleIncremental();
    ParseOfPrefix(TlsRecords.ApplicationRule, input, later);
    assert input + [] == input;
    hide Parse;
    hide TlsRecords.IsRunt;
  }

  lemma OpenedPrefix(env: Tls.Env, keys: Tls.Keys, a: seq<Bytes>, b: seq<Bytes>)
    requires a <= b
    ensures Concat(TlsTraffic.OpenAll(env, keys, 0, a)) <= Concat(TlsTraffic.OpenAll(env, keys, 0, b))
  {
    hide TlsTraffic.OpenAll;
    hide Concat;
    var rest := b[|a|..];
    assert b == a + rest;
    TlsCuts.OpenAllAppend(env, keys, 0, a, rest);
    ConcatAppend(TlsTraffic.OpenAll(env, keys, 0, a), TlsTraffic.OpenAll(env, keys, TlsRuns.Number(|a|), rest));
  }

  /** From the request on, what TLS returns is the beginning of the server's plaintext, and all of it once
      everything has arrived and been asked for. */
  lemma PlaintextOfSession(
    env: Tls.Env, s: TlsPeer.Server, start: Wss, es: seq<Event>, later: Bytes, plain: Bytes)
    requires TlsPeer.GoodServer(s) && Carries(env, s, plain) && start.state == HttpHandshake
    requires TlsPeer.Aligned(env, s, start.tls, Input(es) + later)
    requires AtStart(s, start.tls, Input(es) + later) && Run(env, start, es).Ok?
    ensures start.tls.keys.Some? && TlsTraffic.NoRunt(start.tls.buf + Input(es))
    ensures Concat(Plaintexts(env, start, es)) <= plain
    ensures later == [] && es != [] && es[|es| - 1].Ask? ==> Concat(Plaintexts(env, start, es)) == plain
  {
    hide Carries;
    hide Tls.EnvOk;
    hide TlsPeer.Aligned;
    hide TlsPeer.GoodServer;
    hide SessionKeys;
    hide Run;
    hide Plaintexts;
    hide Concat;
    hide TlsTraffic.NoRunt;
    hide TlsTraffic.OpenAll;
    CarriesFills(env, s, plain);
    KeysOfSession(env, s, start.tls, Input(es) + later);
    CarriesOpens(env, s, plain, start.tls.keys.value);
    assert start.tls.buf + Input(es) == Input(es);
    NoRuntYet(s.records, Input(es), later);
    hide TlsPeer.Fillable;
    hide TlsPeer.Application;
    var records := RunRecords(env, start, es);
    var w := Run(env, start, es).value;
    if later == [] && es != [] && es[|es| - 1].Ask? {
      assert Parse(TlsRecords.ApplicationRule, w.tls.buf).items == [];
      assert records + [] == records;
    }
    hide Parse;
    OpenedPrefix(env, start.tls.keys.value, records, Wire(s.records));
  }

  /** The frames begin after the response, wherever the plaintext was cut. */
  lemma FramesAfterResponse(response: Bytes, frames: Bytes, received: Bytes, z: Bytes)
    requires IsResponse(response) && received + z == response + frames
    ensures Upgraded(received) ==> AfterBlankLine(received) + z == frames
    ensures z == [] ==> Upgraded(received)
  {
    UpgradeStable(response, frames);
    if Upgraded(received) {
      UpgradeStable(received, z);
    }
    if z == [] {
      assert received == response + frames;
    }
    hide Upgraded;
    hide AfterBlankLine;
  }

  lemma FramesSoFar(fs: seq<Frame>, some: Bytes, z: Bytes)
    requires AllSendable(fs) && some + z == Concat(EncodeAll(fs))
    ensures NoWrap(some) && Parse(FrameRule, some).items <= EncodeAll(fs)
    ensures z == [] ==> Parse(FrameRule, some).items == EncodeAll(fs)
  {
    StreamRoundTrip(fs, []);
    var all := Concat(EncodeAll(fs));
    assert all + [] == all && EncodeAll(fs) + [] == EncodeAll(fs);
    assert Parse(FrameRule, []) == Parsed([], [], false);
    FrameRuleIncremental();
    ParseOfPrefix(FrameRule, some, z);
    assert some + [] == some;
    hide Parse;
    hide Wraps;
  }

  lemma PayloadsSoFar(fs: seq<Frame>, frames: seq<Bytes>, left: seq<Bytes>)
    requires AllSendable(fs) && frames + left <= EncodeAll(fs)
    ensures DataPayloads(frames) + DataPayloads(left) <= SentMessages(fs)
    ensures frames + left == EncodeAll(fs) ==> DataPayloads(frames) + DataPayloads(left) == SentMessages(fs)
  {
    hide DataPayloads;
    PayloadsOfEncoding(fs);
    DataPayloadsAppend(frames, left);
    var all := EncodeAll(fs);
    var rest := all[|frames + left|..];
    assert all == (frames + left) + rest;
    DataPayloadsAppend(frames + left, rest);
  }

  /** Messages returned, followed by those of the frames still buffered. */
  ghost function Delivered(w: Wss, messages: seq<Bytes>): seq<Bytes> {
    messages + if w.state == Connected then DataPayloads(Parse(FrameRule, w.buf).items) else []
  }

  /** A run from the request on, with the server's remaining bytes. */
  ghost predicate Proceeds(
    env: Tls.Env, s: TlsPeer.Server, start: Wss, es: seq<Event>, later: Bytes)
    requires TlsPeer.GoodServer(s)
  {
    && start.state == HttpHandshake && start.buf == [] && Run(env, start, es).Ok?
    && TlsPeer.Aligned(env, s, start.tls, Input(es) + later) && AtStart(s, start.tls, Input(es) + later)
  }

  /** Everything has arrived and was asked for. */
  predicate Complete(es: seq<Event>, later: Bytes) {
    later == [] && es != [] && es[|es| - 1].Ask?
  }

  /** The frames among `received` are the first of the server's, or all of them. */
  lemma FramesReceived(response: Bytes, fs: seq<Frame>, received: Bytes, plain: Bytes)
    requires IsResponse(response) && AllSendable(fs) && plain == response + Concat(EncodeAll(fs)) && received <= plain
    ensures Upgraded(received) ==>
              NoWrap(AfterBlankLine(received)) && Parse(FrameRule, AfterBlankLine(received)).items <= EncodeAll(fs)
    ensures received == plain ==>
              Upgraded(received) && Parse(FrameRule, AfterBlankLine(received)).items == EncodeAll(fs)
  {
    hide IsResponse;
    hide Concat;
    hide Find;
    hide AfterBlankLine;
    hide NoWrap;
    hide Parse;
    hide EncodeAll;
    var z := plain[|received|..];
    assert received + z == plain;
    FramesAfterResponse(response, Concat(EncodeAll(fs)), received, z);
    if Upgraded(received) {
      FramesSoFar(fs, AfterBlankLine(received), z);
    }
  }

  lemma SessionWellSized(
    env: Tls.Env, s: TlsPeer.Server, start: Wss, es: seq<Event>, later: Bytes, response: Bytes, fs: seq<Frame>)
    requires TlsPeer.GoodServer(s) && IsResponse(response) && AllSendable(fs)
    requires Carries(env, s, response + Concat(EncodeAll(fs))) && Proceeds(env, s, start, es, later)
    ensures WellSized(env, start, es) && start.tls.phase == Tls.ServerFinished && start.tls.keys.Some?
    ensures var received := Concat(Plaintexts(env, start, es));
            && (Upgraded(received) ==> Parse(FrameRule, AfterBlankLine(received)).items <= EncodeAll(fs))
            && (Complete(es, later) ==>
                  Upgraded(received) && Parse(FrameRule, AfterBlankLine(received)).items == EncodeAll(fs))
  {
    hide Run;
    hide Plaintexts;
    hide Concat;
    hide Carries;
    hide IsResponse;
    hide TlsPeer.Aligned;
    hide TlsPeer.GoodServer;
    hide Upgraded;
    hide AfterBlankLine;
    hide NoWrap;
    hide Parse;
    hide TlsTraffic.NoRunt;
    var plain := response + Concat(EncodeAll(fs));
    PlaintextOfSession(env, s, start, es, later, plain);
    var received := Concat(Plaintexts(env, start, es));
    assert start.buf + received == received;
    FramesReceived(response, fs, received, plain);
  }

  lemma AfterRequest(
    env: Tls.Env, s: TlsPeer.Server, start: Wss, es: seq<Event>, later: Bytes, response: Bytes, fs: seq<Frame>)
    requires TlsPeer.GoodServer(s) && IsResponse(response) && AllSendable(fs)
    requires Carries(env, s, response + Concat(EncodeAll(fs))) && Proceeds(env, s, start, es, later)
    ensures var all := Delivered(Run(env, start, es).value, Messages(env, start, es));
            all <= SentMessages(fs) && (Complete(es, later) ==> all == SentMessages(fs))
  {
    hide Run;
    hide Messages;
    hide Plaintexts;
    hide Concat;
    hide Carries;
    hide IsResponse;
    hide TlsPeer.Aligned;
    hide TlsPeer.GoodServer;
    hide AtStart;
    hide Upgraded;
    hide AfterBlankLine;
    hide WellSized;
    hide Parse;
    hide DataPayloads;
    hide SentMessages;
    hide Complete;
    hide EncodeAll;
    SessionWellSized(env, s, start, es, later, response, fs);
    var taken := UpgradeBoundary(env, start, es);
    var w := Run(env, start, es).value;
    if w.state == Connected {
      PayloadsSoFar(fs, taken, Parse(FrameRule, w.buf).items);
    }
  }

  /** From three new clients to the messages. Over every run, with the server's bytes cut into packets
      anywhere and questions at any moment, if the server speaks only when asked: the messages returned
      and those still buffered are the beginning of what the server sent, in order, and all of it as soon
      as everything has arrived and the caller has asked once more. */
  lemma SessionDelivers(
    env: Tls.Env, tcp: Tcp.Client, s: TlsPeer.Server, response: Bytes, fs: seq<Frame>, es: seq<Event>, later: Bytes)
    requires TlsPeer.GoodServer(s) && IsResponse(response) && AllSendable(fs)
    requires Carries(env, s, response + Concat(EncodeAll(fs)))
    requires Create(env, tcp).Ok? && AnswersRequest(env, Create(env, tcp).value, s, es)
    requires Input(es) + later == TlsPeer.Stream(s)
    ensures var r := Run(env, Create(env, tcp).value, es);
            r.Ok? ==>
              var all := Delivered(r.value, Messages(env, Create(env, tcp).value, es));
              all <= SentMessages(fs) && (Complete(es, later) ==> all == SentMessages(fs))
  {
    hide Run;
    hide Messages;
    hide Carries;
    hide IsResponse;
    hide Concat;
    hide TlsPeer.Stream;
    hide TlsPeer.GoodServer;
    hide AnswersRequest;
    hide TlsPeer.Aligned;
    hide AtStart;
    hide SentMessages;
    hide DataPayloads;
    var start := Create(env, tcp).value;
    hide Create;
    if Run(env, start, es).Ok? {
      var k := Opening(env, tcp, s, es, later);
      RunSplits(env, start, es, k);
      var mid := Run(env, start, es[..k]).value;
      if mid.state == Init {
        assert es[..k] == es && es[k..] == [] && [] + later == later;
        SomethingToCome(env, s, response, Concat(EncodeAll(fs)));
      } else {
        AfterRequest(env, s, mid, es[k..], later, response, fs);
        if k == |es| {
          assert es[k..] == [] && [] + later == later;
          SomethingToCome(env, s, response, Concat(EncodeAll(fs)));
        } else {
          assert es[k..][|es[k..]| - 1] == es[|es| - 1];
        }
        assert [] + Messages(env, mid, es[k..]) == Messages(env, mid, es[k..]);
      }
    }
  }

  /** A response takes at least one record. */
  lemma SomethingToCome(env: Tls.Env, s: TlsPeer.Server, response: Bytes, frames: Bytes)
    requires TlsPeer.GoodServer(s) && IsResponse(response) && Carries(env, s, response + frames)
    ensures |TlsPeer.Application(s.records)| > 0
  {
    NothingInEmpty(STATUS);
    CarriesFills(env, s, response + frames);
  }

  // ----- The runs of TLS and TCP inside a session -----

  function Polls(n: nat): seq<TlsRuns.Event> {
    if n == 0 then [] else [TlsRuns.Poll] + Polls(n - 1)
  }

  lemma {:induction false} NoInput(n: nat)
    ensures TlsHandshake.Input(Polls(n)) == []
  {
    if n > 0 {
      NoInput(n - 1);
      TlsHandshake.InputAppend([TlsRuns.Poll], Polls(n - 1));
      assert [TlsRuns.Poll][..0] == [];
    }
  }

  /** A drain is a run of polls. */
  lemma {:induction false} DrainIsPolls(env: Tls.Env, st: Tls.Tls)
    requires Tls.Drain(env, st).Drained?
    ensures var d := Tls.Drain(env, st); TlsRuns.Run(env, st, Polls(|d.outs| + 1)) == Ok(d.st)
    decreases |st.buf|
  {
    hide Tls.Receive;
    var r := Tls.Receive(env, st);
    TlsTraffic.OneEvent(env, st, TlsRuns.Poll);
    if r.out.Some? {
      DrainIsPolls(env, r.st);
      var n := |Tls.Drain(env, r.st).outs| + 1;
      hide TlsRuns.Run;
      TlsRuns.RunAppend(env, st, [TlsRuns.Poll], Polls(n));
    } else {
      assert Polls(1) == [TlsRuns.Poll] + Polls(0) == [TlsRuns.Poll];
    }
  }

  /** TLS events behind one event of the WebSocket client. */
  function TlsEvents(env: Tls.Env, w: Wss, e: Event): seq<TlsRuns.Event> {
    if e.Packet? then [TlsRuns.Packet(e.packet)]
    else
      var d := Tls.Drain(env, w.tls);
      if d.Aborted? then []
      else Polls(|d.outs| + 1)
           + (if w.state == Init && d.st.phase == Tls.ServerFinished
              then [TlsRuns.Write(env.request), TlsRuns.Send] else [])
  }

  ghost function TlsTrace(env: Tls.Env, start: Wss, es: seq<Event>): seq<TlsRuns.Event> {
    if es == [] || Run(env, start, es[..|es| - 1]).Failure? then []
    else TlsTrace(env, start, es[..|es| - 1]) + TlsEvents(env, Run(env, start, es[..|es| - 1]).value, es[|es| - 1])
  }

  lemma RequestEvents(env: Tls.Env, st: Tls.Tls)
    ensures TlsRuns.Run(env, st, [TlsRuns.Write(env.request), TlsRuns.Send]) == SendUpgrade(env, st)
    ensures TlsHandshake.Input([TlsRuns.Write(env.request), TlsRuns.Send]) == []
  {
    var a, b := TlsRuns.Write(env.request), TlsRuns.Send;
    hide Tls.Flush;
    assert [a, b][..1] == [a] && [a][..0] == [];
    assert TlsRuns.Run(env, st, []) == Ok(st) && TlsRuns.Run(env, st, [a]) == TlsRuns.Step(env, st, a);
    assert TlsHandshake.Input([]) == [] && TlsHandshake.Input([a]) == [];
  }

  /** What a call does to TLS. */
  lemma AskIsTlsRun(env: Tls.Env, w: Wss)
    requires NextMessage(env, w).Next?
    ensures TlsRuns.Run(env, w.tls, TlsEvents(env, w, Ask)) == Ok(NextMessage(env, w).w.tls)
    ensures TlsHandshake.Input(TlsEvents(env, w, Ask)) == []
  {
    AskDrains(env, w);
    var d := Tls.Drain(env, w.tls);
    DrainIsPolls(env, w.tls);
    NoInput(|d.outs| + 1);
    hide Tls.Drain;
    hide TlsRuns.Run;
    hide TlsHandshake.Input;
    hide Concat;
    hide ExtractPayload;
    if w.state == Init && d.st.phase == Tls.ServerFinished {
      RequestEvents(env, d.st);
      TlsRuns.RunAppend(env, w.tls, Polls(|d.outs| + 1), [TlsRuns.Write(env.request), TlsRuns.Send]);
      TlsHandshake.InputAppend(Polls(|d.outs| + 1), [TlsRuns.Write(env.request), TlsRuns.Send]);
    } else {
      assert Polls(|d.outs| + 1) + [] == Polls(|d.outs| + 1);
    }
  }

  /** The TLS part of every run of the WebSocket client is a run of the TLS client on the same bytes. */
  lemma {:induction false} TlsTraceRuns(env: Tls.Env, start: Wss, es: seq<Event>)
    requires Run(env, start, es).Ok?
    ensures TlsRuns.Run(env, start.tls, TlsTrace(env, start, es)) == Ok(Run(env, start, es).value.tls)
    ensures TlsHandshake.Input(TlsTrace(env, start, es)) == Input(es)
  {
    if es != [] {
      hide NextMessage;
      hide Tls.ProcessPacket;
      hide TlsEvents;
      hide TlsRuns.Run;
      hide TlsHandshake.Input;
      var before, e := es[..|es| - 1], es[|es| - 1];
      TlsTraceRuns(env, start, before);
      var w, ts := Run(env, start, before).value, TlsTrace(env, start, before);
      if e.Packet? {
        PacketEvents(env, w, e);
      } else {
        AskIsTlsRun(env, w);
      }
      TlsRuns.RunAppend(env, start.tls, ts, TlsEvents(env, w, e));
      TlsHandshake.InputAppend(ts, TlsEvents(env, w, e));
    }
  }

  lemma PacketEvents(env: Tls.Env, w: Wss, e: Event)
    requires e.Packet?
    ensures TlsEvents(env, w, e) == [TlsRuns.Packet(e.packet)]
    ensures TlsRuns.Run(env, w.tls, TlsEvents(env, w, e)) == Tls.ProcessPacket(w.tls, e.packet)
    ensures TlsHandshake.Input(TlsEvents(env, w, e)) == e.packet.payload
  {
    hide Tls.ProcessPacket;
    TlsTraffic.OneEvent(env, w.tls, TlsRuns.Packet(e.packet));
    hide TlsRuns.Run;
  }

  /** The packets of a session. */
  function PacketsIn(es: seq<Event>): seq<Tcp.Packet> {
    if es == [] then []
    else
      var last := es[|es| - 1];
      PacketsIn(es[..|es| - 1]) + if last.Packet? then [last.packet] else []
  }

  lemma {:induction false} NoPackets(ts: seq<TlsRuns.Event>)
    requires forall i :: 0 <= i < |ts| ==> !ts[i].Packet?
    ensures Transport.PacketsOf(ts) == []
  {
    if ts != [] {
      NoPackets(ts[..|ts| - 1]);
    }
  }

  lemma {:induction false} PollsAreNoPackets(n: nat)
    ensures forall i :: 0 <= i < |Polls(n)| ==> !Polls(n)[i].Packet?
  {
    if n > 0 {
      PollsAreNoPackets(n - 1);
    }
  }

  lemma EventPackets(env: Tls.Env, w: Wss, e: Event)
    ensures Transport.PacketsOf(TlsEvents(env, w, e)) == if e.Packet? then [e.packet] else []
  {
    var more := TlsEvents(env, w, e);
    if e.Packet? {
      assert more[..0] == [] && Transport.PacketsOf([]) == [];
    } else {
      if Tls.Drain(env, w.tls).Drained? {
        PollsAreNoPackets(|Tls.Drain(env, w.tls).outs| + 1);
      }
      hide Tls.Drain;
      hide Polls;
      NoPackets(more);
    }
  }

  /** TLS sees the same packets. */
  lemma {:induction false} TracePackets(env: Tls.Env, start: Wss, es: seq<Event>)
    requires Run(env, start, es).Ok?
    ensures Transport.PacketsOf(TlsTrace(env, start, es)) == PacketsIn(es)
  {
    if es != [] {
      hide Step;
      hide TlsEvents;
      hide Transport.PacketsOf;
      var before, e := es[..|es| - 1], es[|es| - 1];
      TracePackets(env, start, before);
      var w := Run(env, start, before).value;
      EventPackets(env, w, e);
      Transport.PacketsAppend(TlsTrace(env, start, before), TlsEvents(env, w, e));
    }
  }

  /** The same from the peer's segments on: if the packets are those of a peer whose stream is the server's,
      and their payloads come in sequence, the session delivers what the server sent. */
  lemma SessionOverTcp(
    env: Tls.Env, isn: uint32, id: Tcp.uint16, peerIsn: uint32, s: TlsPeer.Server, response: Bytes, fs: seq<Frame>,
    es: seq<Event>)
    requires TlsPeer.GoodServer(s) && IsResponse(response) && AllSendable(fs)
    requires Carries(env, s, response + Concat(EncodeAll(fs))) && Create(env, Tcp.Fresh(isn, id)).Ok?
    requires AnswersRequest(env, Create(env, Tcp.Fresh(isn, id)).value, s, es)
    requires Transport.PeerPackets(peerIsn, TlsPeer.Stream(s), PacketsIn(es))
    requires Transport.InSequence(peerIsn, PacketsIn(es))
    ensures var start := Create(env, Tcp.Fresh(isn, id)).value;
            var r := Run(env, start, es);
            r.Ok? ==>
              var all := Delivered(r.value, Messages(env, start, es));
              && Input(es) <= TlsPeer.Stream(s) && all <= SentMessages(fs)
              && (Input(es) == TlsPeer.Stream(s) && Complete(es, []) ==> all == SentMessages(fs))
  {
    hide Run;
    hide Messages;
    hide Carries;
    hide IsResponse;
    hide Concat;
    hide TlsPeer.Stream;
    hide TlsPeer.GoodServer;
    hide AnswersRequest;
    hide SentMessages;
    hide Delivered;
    hide TlsRuns.Run;
    hide TlsTrace;
    hide Tls.Create;
    hide Input;
    hide TlsHandshake.Input;
    hide Transport.PeerPackets;
    hide Transport.InSequence;
    var start := Create(env, Tcp.Fresh(isn, id)).value;
    if Run(env, start, es).Ok? {
      TlsTraceRuns(env, start, es);
      TracePackets(env, start, es);
      Transport.TlsReceivesPrefix(env, isn, id, peerIsn, TlsPeer.Stream(s), TlsTrace(env, start, es));
      var later := TlsPeer.Stream(s)[|Input(es)|..];
      assert Input(es) + later == TlsPeer.Stream(s);
      SessionDelivers(env, Tcp.Fresh(isn, id), s, response, fs, es, later);
    }
  }

  // ----- The request -----

  lemma {:induction false} PollsWriteNothing(n: nat)
    ensures TlsAgreement.Written(Polls(n)) == []
  {
    if n > 0 {
      PollsWriteNothing(n - 1);
      TlsAgreement.WrittenAppend([TlsRuns.Poll], Polls(n - 1));
      assert [TlsRuns.Poll][..0] == [];
    }
  }

  lemma {:induction false} DrainSendBuf(env: Tls.Env, st: Tls.Tls)
    requires Tls.Drain(env, st).Drained?
    ensures Tls.Drain(env, st).st.sendBuf == st.sendBuf
    decreases |st.buf|
  {
    hide Tls.Receive;
    TlsAgreement.ReceiveSendBuf(env, st);
    if Tls.Receive(env, st).out.Some? {
      DrainSendBuf(env, Tls.Receive(env, st).st);
    }
  }

  /** What a client has written: nothing in Init, and the request from then on; nothing waits for a flush. */
  ghost predicate Requested(env: Tls.Env, w: Wss, written: Bytes) {
    w.tls.sendBuf == [] && written == if w.state == Init then [] else env.request
  }

  /** What a call does to TLS and to the state of the connection. */
  lemma AskState(env: Tls.Env, w: Wss)
    requires NextMessage(env, w).Next?
    ensures Tls.Drain(env, w.tls).Drained?
    ensures var d, after := Tls.Drain(env, w.tls).st, NextMessage(env, w).w;
            if w.state == Init && d.phase == Tls.ServerFinished
            then after.state == HttpHandshake && SendUpgrade(env, d) == Ok(after.tls)
            else after.tls == d && (after.state == Init <==> w.state == Init)
  {
    AskDrains(env, w);
    hide Tls.Drain;
    hide SendUpgrade;
    hide Concat;
    hide ExtractPayload;
    hide Find;
  }

  lemma UpgradeEmpties(env: Tls.Env, st: Tls.Tls)
    requires SendUpgrade(env, st).Ok?
    ensures SendUpgrade(env, st).value.sendBuf == []
  {
    hide Tcp.Transmit;
    hide Tls.SealedRecord;
    hide Tls.SealingOf;
  }

  lemma AskWrites(env: Tls.Env, w: Wss)
    requires Tls.Drain(env, w.tls).Drained?
    ensures TlsAgreement.Written(TlsEvents(env, w, Ask))
         == if w.state == Init && Tls.Drain(env, w.tls).st.phase == Tls.ServerFinished then env.request else []
  {
    hide Tls.Drain;
    hide Polls;
    hide TlsAgreement.Written;
    var n := |Tls.Drain(env, w.tls).outs| + 1;
    var request := [TlsRuns.Write(env.request), TlsRuns.Send];
    PollsWriteNothing(n);
    RequestWrites(env);
    TlsAgreement.WrittenAppend(Polls(n), request);
    assert Polls(n) + [] == Polls(n);
    assert [] + env.request == env.request;
  }

  lemma RequestWrites(env: Tls.Env)
    ensures TlsAgreement.Written([TlsRuns.Write(env.request), TlsRuns.Send]) == env.request
  {
    var a, b := TlsRuns.Write(env.request), TlsRuns.Send;
    assert [a, b][..1] == [a] && [a][..0] == [];
    assert TlsAgreement.Written([]) == [] && TlsAgreement.Written([a]) == env.request;
  }

  lemma AskRequests(env: Tls.Env, w: Wss, written: Bytes)
    requires Requested(env, w, written) && NextMessage(env, w).Next?
    ensures Requested(env, NextMessage(env, w).w, written + TlsAgreement.Written(TlsEvents(env, w, Ask)))
  {
    hide NextMessage;
    hide TlsEvents;
    hide TlsAgreement.Written;
    hide Tls.Drain;
    hide SendUpgrade;
    AskState(env, w);
    DrainSendBuf(env, w.tls);
    AskWrites(env, w);
    var d := Tls.Drain(env, w.tls).st;
    assert written + [] == written;
    if w.state == Init && d.phase == Tls.ServerFinished {
      UpgradeEmpties(env, d);
      assert [] + env.request == env.request;
    }
  }

  lemma {:induction false} RunRequests(env: Tls.Env, tcp: Tcp.Client, es: seq<Event>)
    requires Create(env, tcp).Ok? && Run(env, Create(env, tcp).value, es).Ok?
    ensures var start := Create(env, tcp).value;
            Requested(env, Run(env, start, es).value, TlsAgreement.Written(TlsTrace(env, start, es)))
  {
    hide Tls.Create;
    if es == [] {
      assert TlsAgreement.Written([]) == [];
      CreateWritesNothing(env, tcp);
    } else {
      hide NextMessage;
      hide TlsEvents;
      hide TlsAgreement.Written;
      hide Requested;
      var start, before, e := Create(env, tcp).value, es[..|es| - 1], es[|es| - 1];
      hide Create;
      RunRequests(env, tcp, before);
      var w, ts := Run(env, start, before).value, TlsTrace(env, start, before);
      TlsAgreement.WrittenAppend(ts, TlsEvents(env, w, e));
      if e.Packet? {
        PacketRequests(env, w, e.packet, TlsAgreement.Written(ts));
      } else {
        AskRequests(env, w, TlsAgreement.Written(ts));
      }
    }
  }

  lemma CreateWritesNothing(env: Tls.Env, tcp: Tcp.Client)
    requires Tls.Create(env, tcp).Ok?
    ensures Tls.Create(env, tcp).value.sendBuf == []
  {
    hide Tcp.Connect;
  }

  lemma PacketRequests(env: Tls.Env, w: Wss, p: Tcp.Packet, written: Bytes)
    requires Requested(env, w, written) && ProcessPacket(w, p).Ok?
    ensures Requested(env, ProcessPacket(w, p).value, written + TlsAgreement.Written(TlsEvents(env, w, Packet(p))))
  {
    hide Tcp.ProcessPacket;
    var more := TlsEvents(env, w, Packet(p));
    assert TlsAgreement.Written(more) == [] by {
      assert more[..0] == [];
    }
    assert written + [] == written;
  }

  /** From new clients, over every run past Init: what the server opens after the Finished message is exactly
      the upgrade request. */
  lemma ServerReadsRequest(
    env: Tls.Env, isn: uint32, id: Tcp.uint16, s: TlsPeer.Server, es: seq<Event>, later: Bytes)
    requires TlsPeer.GoodServer(s) && Tls.EnvOk(env) && TlsServer.Opens(env)
    requires Create(env, Tcp.Fresh(isn, id)).Ok? && Input(es) + later == TlsPeer.Stream(s)
    ensures var r := Run(env, Create(env, Tcp.Fresh(isn, id)).value, es);
            r.Ok? && r.value.state != Init && TlsRuns.Installed(r.value.tls)
            && |r.value.tls.sealings| <= 0x1_0000_0000_0000_0000 ==>
              var data := TlsAgreement.Data(r.value.tls.tcp.sent);
              && |data| >= 2 && |data[0]| >= 43 && |data[1]| >= 77
              && var x := TlsAgreement.OnWire(env, s.flight, data);
                 && |x.KeyBlock(env)| == 40
                 && TlsServer.OpenRecord(env, x.KeyBlock(env), 0, data[1][48..]) == x.ClientFinished(env)
                 && TlsServer.ReadText(env, x.KeyBlock(env), 1, data[2..]) == env.request
  {
    hide Run;
    hide TlsRuns.Run;
    hide Tls.Create;
    hide TlsTrace;
    hide TlsPeer.Stream;
    hide Input;
    hide TlsHandshake.Input;
    hide TlsHandshake.Remaining;
    hide TlsAgreement.Written;
    hide TlsAgreement.Data;
    hide TlsServer.OpenRecord;
    hide Tls.EnvOk;
    hide TlsServer.Opens;
    var start := Create(env, Tcp.Fresh(isn, id)).value;
    if Run(env, start, es).Ok? {
      var w := Run(env, start, es).value;
      TlsTraceRuns(env, start, es);
      RunRequests(env, Tcp.Fresh(isn, id), es);
      StreamIsFlight(s);
      TlsAgreement.ServerAgrees(env, isn, id, s.flight, TlsPeer.Tail(s), TlsTrace(env, start, es), later);
      if w.state != Init && TlsRuns.Installed(w.tls) && |w.tls.sealings| <= 0x1_0000_0000_0000_0000 {
        var data := TlsAgreement.Data(w.tls.tcp.sent);
        var block := TlsAgreement.OnWire(env, s.flight, data).KeyBlock(env);
        assert TlsServer.ReadText(env, block, 1, data[2..]) + [] == TlsServer.ReadText(env, block, 1, data[2..]);
      }
    }
  }

  lemma StreamIsFlight(s: TlsPeer.Server)
    ensures TlsPeer.Stream(s) == TlsHandshake.Remaining(Tls.ServerHello, s.flight, TlsPeer.Tail(s))
  {
  }

  // ----- Numbers of the segments sent -----

  lemma {:induction false} TraceBegins(env: Tls.Env, start: Wss, a: seq<Event>, b: seq<Event>)
    requires Run(env, start, a + b).Ok?
    ensures Run(env, start, a).Ok? && TlsTrace(env, start, a) <= TlsTrace(env, start, a + b)
  {
    hide Step;
    hide TlsEvents;
    if b == [] {
      assert a + b == a;
    } else {
      assert (a + b)[..|a + b| - 1] == a + b[..|b| - 1];
      TraceBegins(env, start, a, b[..|b| - 1]);
    }
  }

  /** The first round of the worker loop, with a packet that carries no data, is one `receive`. */
  lemma FirstRound(env: Tls.Env, tcp: Tcp.Client, p: Tcp.Packet)
    requires Create(env, tcp).Ok? && Run(env, Create(env, tcp).value, [Packet(p), Ask]).Ok? && p.payload == []
    ensures TlsTrace(env, Create(env, tcp).value, [Packet(p), Ask]) == [TlsRuns.Packet(p), TlsRuns.Poll]
  {
    var start := Create(env, tcp).value;
    var es := [Packet(p), Ask];
    assert es[..1] == [Packet(p)] && [Packet(p)][..0] == [];
    assert Run(env, start, []) == Ok(start) && Run(env, start, [Packet(p)]) == ProcessPacket(start, p);
    assert TlsTrace(env, start, []) == [];
    PacketEvents(env, start, Packet(p));
    assert TlsTrace(env, start, [Packet(p)]) == [TlsRuns.Packet(p)];
    HelloIsOnePoll(env, tcp, p);
    hide TlsEvents;
    hide Step;
  }

  lemma HelloIsOnePoll(env: Tls.Env, tcp: Tcp.Client, p: Tcp.Packet)
    requires Create(env, tcp).Ok? && p.payload == [] && ProcessPacket(Create(env, tcp).value, p).Ok?
    requires NextMessage(env, ProcessPacket(Create(env, tcp).value, p).value).Next?
    ensures TlsEvents(env, ProcessPacket(Create(env, tcp).value, p).value, Ask) == [TlsRuns.Poll]
  {
    var w := ProcessPacket(Create(env, tcp).value, p).value;
    AskDrains(env, w);
    hide Tcp.ProcessPacket;
    hide Tcp.Connect;
    hide Tcp.Transmit;
    hide NextMessage;
    hide TlsRecords.Record;
    assert w.tls.buf == [] && w.tls.phase == Tls.ClientHelloToSend;
    assert Tls.Drain(env, w.tls).outs == [];
    assert Polls(1) == [TlsRuns.Poll] + Polls(0) == [TlsRuns.Poll];
  }

  /** A session's data segments are numbered ISN + 1 + bytes sent before if and only if the first packet,
      which carries no data, is the SYN-ACK. */
  lemma SessionNumberedIff(env: Tls.Env, isn: uint32, id: Tcp.uint16, p: Tcp.Packet, es: seq<Event>)
    requires Create(env, Tcp.Fresh(isn, id)).Ok? && p.payload == []
    ensures var r := Run(env, Create(env, Tcp.Fresh(isn, id)).value, [Packet(p), Ask] + es);
            r.Ok? ==> (TcpRuns.Contiguous(isn, r.value.tls.tcp.sent) <==> p.flags == Tcp.SYN_ACK)
  {
    hide Run;
    hide TlsRuns.Run;
    hide TlsTrace;
    hide Tls.Create;
    hide TcpRuns.Contiguous;
    var start := Create(env, Tcp.Fresh(isn, id)).value;
    var first := [Packet(p), Ask];
    if Run(env, start, first + es).Ok? {
      TlsTraceRuns(env, start, first + es);
      TraceBegins(env, start, first, es);
      FirstRound(env, Tcp.Fresh(isn, id), p);
      var ts := TlsTrace(env, start, first + es);
      assert ts == [TlsRuns.Packet(p), TlsRuns.Poll] + ts[2..];
      Stack.ContiguousIffSynAckFirst(env, isn, id, p, ts[2..]);
    }
  }
}
