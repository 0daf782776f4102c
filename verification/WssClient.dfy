/** The WebSocket client object. */
module WssClient {
  import opened Outcomes
  import opened Binary
  import opened ByteStream
  import opened WssFrames
  import M = WssModel
  import Tls = TlsModel
  import TlsRuns
  import Tcp = TcpModel
  import opened TlsClient

  datatype Answer = Aborted | NoMessage | Message(view: View)

  method PeekFrameHeader(stream: Stream) returns (h: Option<FrameHeader>)
    requires stream.Valid()
    ensures h == WssFrames.PeekHeader(stream.Contents())
  {
    hide Stream.Contents;
    hide Stream.Bytes;
    hide Stream.Valid;
    hide Value;
    var basic := stream.Peek(2);
    if basic.None? {
      return None;
    }
    var two := stream.Bytes(basic.value);
    var n := HeaderSize(two[1]);
    var whole := stream.Peek(n);
    if whole.None? {
      return None;
    }
    var bytes := stream.Bytes(whole.value);
    assert bytes[2..] == stream.Contents()[2..n];
    FieldBounds(bytes[2..]);
    var size := if n == 2 then two[1] % 128 else Value(bytes[2..]);
    return Some(FrameHeader(bytes[0] % 16, bytes[0] / 16 % 2 == 1, bytes[0] / 32 % 2 == 1,
                            bytes[0] / 64 % 2 == 1, bytes[0] / 128 == 1, bytes[1] / 128 == 1, size, n));
  }

  datatype Taken = Empty | Refuse | Take(code: nat, payload: View)

  /** Takes a whole frame or nothing; the payload stays readable in the popped span. */
  method ExtractFrame(stream: Stream) returns (r: Taken)
    requires stream.Valid()
    modifies stream
    ensures stream.Valid()
    ensures match WssFrames.ExtractPayload(old(stream.Contents()))
            case Nothing(rest) => r == Empty && stream.Contents() == rest
            case Refused => r == Refuse
            case Extracted(code, payload, rest) =>
              && r.Take? && r.code == code && stream.Contents() == rest
              && r.payload.start + r.payload.size <= stream.buffer.Length && stream.Bytes(r.payload) == payload
  {
    hide Stream.Contents;
    hide Stream.Bytes;
    hide Stream.Valid;
    hide WssFrames.PeekHeader;
    HeaderSizePositive(stream.Contents());
    var peeked := PeekFrameHeader(stream);
    if peeked.None? {
      return Empty;
    }
    var h := peeked.value;
    var whole := stream.Peek((h.headerSize + h.size) % 0x1_0000_0000_0000_0000);
    if whole.None? {
      return Empty;
    }
    var _ := stream.Pop(h.headerSize);
    var payload := stream.Pop(h.size);
    if payload.None? {
      return Empty;
    }
    if h.mask || h.code > 10 {
      return Refuse;
    }
    return Take(h.code, payload.value);
  }

  class WssConnection {
    const tls: TlsConnection
    const stream: Stream
    var state: M.State

    ghost predicate Separate()
      reads this
    {
      && stream != tls.stream && stream != tls.sendBuffer
      && stream.buffer != tls.stream.buffer && stream.buffer != tls.sendBuffer.buffer
      && stream.buffer.Length == M.STREAM_SIZE
    }

    ghost predicate Valid()
      reads this, stream, tls, tls.stream, tls.stream.buffer, tls.sendBuffer, tls.sendBuffer.buffer, tls.tcp
    {
      Separate() && tls.Valid() && TlsRuns.KeysInv(tls.View()) && stream.Valid()
    }

    ghost function View(): M.Wss
      requires tls.Valid() && stream.Valid()
      reads this, stream, stream.buffer, tls, tls.stream, tls.stream.buffer, tls.sendBuffer,
            tls.sendBuffer.buffer, tls.tcp
    {
      M.Wss(state, stream.Contents(), tls.View())
    }

    constructor (tls: TlsConnection)
      requires tls.Valid() && TlsRuns.KeysInv(tls.View())
      ensures Valid() && View() == M.Wss(M.Init, [], tls.View()) && this.tls == tls
      ensures fresh(stream) && fresh(stream.buffer)
    {
      this.tls := tls;
      stream := new Stream(M.STREAM_SIZE);
      state := M.Init;
    }

    method ProcessPacket(p: Tcp.Packet) returns (ok: bool)
      requires Valid()
      modifies tls.tcp, tls.stream, tls.stream.buffer
      ensures ok <==> M.ProcessPacket(old(View()), p).Ok?
      ensures ok ==> Valid() && View() == M.ProcessPacket(old(View()), p).value
    {
      hide Tls.ProcessPacket;
      hide TlsRuns.KeysInv;
      ok := tls.ProcessPacket(p);
      if ok {
        TlsRuns.AnyStep(tls.env, old(tls.View()), TlsRuns.Packet(p));
      }
    }

    /** Moves everything TLS has to offer into the stream, shifting before every push. */
    method Fill() returns (ok: bool)
      requires Valid()
      modifies stream, stream.buffer, tls, tls.stream, tls.stream.buffer, tls.tcp
      ensures ok <==> M.Fill(tls.env, old(View())).Ok?
      ensures ok ==> Valid() && View() == M.Fill(tls.env, old(View())).value
    {
      hide Tls.Receive;
      hide Tls.Drain;
      hide TlsRuns.KeysInv;
      hide Ahead;
      hide Stream.Contents;
      hide Stream.Bytes;
      hide Stream.Valid;
      hide TlsConnection.Valid;
      hide TlsConnection.View;
      hide Concat;
      ghost var start := tls.View();
      ghost var spec := Tls.Drain(tls.env, start);
      ghost var buf := stream.Contents();
      ghost var poured: seq<Bytes> := [];
      AheadAtStart(tls.env, start);
      EmptyPour(buf);
      PollAhead(tls.env, spec, start, poured);
      var r := tls.Receive();
      while r.Data?
        invariant (r != TlsClient.Failed ==> tls.Valid()) && stream.Valid() && Separate()
        invariant stream.Contents() == buf + Concat(poured)
        invariant r.Data? ==>
          && r.view.start + r.view.size <= tls.stream.buffer.Length
          && TlsRuns.KeysInv(tls.View())
          && Ahead(tls.env, spec, tls.View(), poured + [tls.stream.Bytes(r.view)])
        invariant r.Failed? || r.Spins? ==> spec.Aborted?
        invariant r.Nothing? ==> TlsRuns.KeysInv(tls.View()) && spec == Tls.Drained(poured, tls.View())
        decreases if r.Data? then 1 + |tls.View().buf| else 0
      {
        ghost var st := tls.View();
        var x := tls.stream.Bytes(r.view);
        PourMore(buf, poured, x);
        stream.Shift();
        ok := stream.PushBytes(x);
        if !ok {
          OverflowFails(tls.env, spec, st, buf, poured, x);
          return;
        }
        poured := poured + [x];
        assert tls.View() == st;
        PollAhead(tls.env, spec, st, poured);
        r := tls.Receive();
      }
      ok := r.Nothing? && stream.Size() <= M.STREAM_SIZE;
    }

    /** Takes one frame from the stream; only Text and Binary frames are handed on. */
    method TakeFrame() returns (r: Answer)
      requires Valid()
      modifies stream
      ensures Separate() && stream.Valid() && Matches(M.TakeFrame(old(View())), r)
    {
      hide Stream.Contents;
      hide Stream.Bytes;
      hide Stream.Valid;
      hide TlsConnection.Valid;
      hide TlsConnection.View;
      hide WssFrames.ExtractPayload;
      var taken := ExtractFrame(stream);
      match taken
      case Empty => return NoMessage;
      case Refuse => return Aborted;
      case Take(code, payload) =>
        return if code == TEXT || code == BINARY then Message(payload) else NoMessage;
    }

    /** `r` and the current state are what the specification says. */
    ghost predicate Matches(spec: M.Next, r: Answer)
      requires tls.Valid() && stream.Valid()
      reads this, stream, stream.buffer, tls, tls.stream, tls.stream.buffer, tls.sendBuffer,
            tls.sendBuffer.buffer, tls.tcp
    {
      match spec
      case Aborted => r == Aborted
      case Next(message, w) =>
        && View() == w
        && (message.None? ==> r == NoMessage)
        && (message.Some? ==>
              && r.Message? && r.view.start + r.view.size <= stream.buffer.Length
              && stream.Bytes(r.view) == message.value)
    }

    method GenerateUpgradeRequest() returns (ok: bool)
      requires Valid()
      modifies tls, tls.tcp, tls.sendBuffer, tls.sendBuffer.buffer
      ensures ok <==> M.SendUpgrade(tls.env, old(tls.View())).Ok?
      ensures ok ==> Valid() && tls.View() == M.SendUpgrade(tls.env, old(tls.View())).value
    {
      hide Tls.Push;
      hide Tls.Flush;
      hide TlsRuns.KeysInv;
      hide TlsConnection.View;
      ghost var start := tls.View();
      ok := tls.PushBytes(tls.env.request);
      if ok {
        TlsRuns.AnyStep(tls.env, start, TlsRuns.Write(tls.env.request));
        ghost var pushed := tls.View();
        ok := tls.Flush();
        if ok {
          TlsRuns.AnyStep(tls.env, pushed, TlsRuns.Send);
        }
      }
    }

    /** Looks for the status anywhere and the first blank line, and drops everything through the latter. */
    method AcceptHandshake() returns (ok: bool)
      requires stream.Valid()
      modifies stream
      ensures stream.Valid() && (ok <==> M.Upgraded(old(stream.Contents())))
      ensures stream.Contents() ==
              if ok then M.AfterBlankLine(old(stream.Contents())) else old(stream.Contents())
    {
      hide Stream.Contents;
      hide Stream.Valid;
      ghost var buf := stream.Contents();
      var prefix := stream.Search(M.STATUS);
      var suffix := stream.Search(M.BLANK_LINE);
      M.FirstIsUnique(buf, M.STATUS, prefix);
      M.FirstIsUnique(buf, M.BLANK_LINE, suffix);
      if prefix.None? || suffix.None? {
        return false;
      }
      var _ := stream.Pop(suffix.value + 4);
      return true;
    }

    method Advance() returns (ok: bool, ready: bool)
      requires Valid()
      modifies this, stream, tls, tls.tcp, tls.sendBuffer, tls.sendBuffer.buffer
      ensures match M.Advance(tls.env, old(View()))
              case Broken => !ok
              case Waiting => ok && !ready && Valid() && View() == old(View())
              case Ready(w) => ok && ready && Valid() && View() == w
    {
      hide M.SendUpgrade;
      hide M.Upgraded;
      hide TlsRuns.KeysInv;
      hide Stream.Contents;
      hide Stream.Valid;
      ok, ready := true, true;
      if tls.phase == Tls.ServerFinished {
        if state == M.Init {
          ok := GenerateUpgradeRequest();
          if ok {
            state := M.HttpHandshake;
          }
        } else if state == M.HttpHandshake {
          ready := AcceptHandshake();
          if ready {
            state := M.Connected;
          }
        }
      }
    }

    method NextMessage() returns (r: Answer)
      requires Valid()
      modifies this, stream, stream.buffer, tls, tls.stream, tls.stream.buffer, tls.tcp, tls.sendBuffer,
               tls.sendBuffer.buffer
      ensures M.NextMessage(tls.env, old(View())).Aborted? <==> r == Aborted
      ensures r != Aborted ==> Valid() && Matches(M.NextMessage(tls.env, old(View())), r)
    {
      hide M.Fill;
      hide M.Advance;
      hide M.TakeFrame;
      hide TlsRuns.KeysInv;
      hide TlsConnection.Valid;
      hide TlsConnection.View;
      hide Stream.Contents;
      hide Stream.Bytes;
      hide Stream.Valid;
      var ok := Fill();
      if !ok {
        return Aborted;
      }
      var ready;
      ok, ready := Advance();
      if !ok {
        return Aborted;
      }
      if !ready {
        return NoMessage;
      }
      r := TakeFrame();
    }
  }

  /** `spec` is what the whole drain gives, of which `poured` is already out and `st` is the rest. */
  ghost predicate Ahead(env: Tls.Env, spec: Tls.Drained, st: Tls.Tls, poured: seq<Bytes>) {
    var later := Tls.Drain(env, st);
    if later.Aborted? then spec.Aborted? else spec == Tls.Drained(poured + later.outs, later.st)
  }

  lemma AheadAtStart(env: Tls.Env, st: Tls.Tls)
    ensures Ahead(env, Tls.Drain(env, st), st, [])
  {
    hide Tls.Drain;
    var d := Tls.Drain(env, st);
    if d.Drained? {
      assert [] + d.outs == d.outs;
    }
  }

  /** What one more `receive` means for the drain. */
  lemma PollAhead(env: Tls.Env, spec: Tls.Drained, st: Tls.Tls, poured: seq<Bytes>)
    requires TlsRuns.KeysInv(st) && Ahead(env, spec, st, poured)
    ensures match Tls.Receive(env, st)
            case Failed => spec.Aborted?
            case Spins => spec.Aborted?
            case Got(out, next) =>
              && TlsRuns.KeysInv(next)
              && (out.None? ==> spec == Tls.Drained(poured, next))
              && (out.Some? ==> |next.buf| < |st.buf| && Ahead(env, spec, next, poured + [out.value]))
  {
    hide Tls.Receive;
    hide TlsRuns.KeysInv;
    var r := Tls.Receive(env, st);
    if r.Got? {
      TlsRuns.ReceiveStep(env, st);
      if r.out.Some? {
        var later := Tls.Drain(env, r.st);
        if later.Drained? {
          assert poured + ([r.out.value] + later.outs) == poured + [r.out.value] + later.outs;
        }
      } else {
        assert poured + [] == poured;
      }
    }
  }

  lemma EmptyPour(buf: Bytes)
    ensures buf + Concat([]) == buf
  {
  }

  lemma PourMore(buf: Bytes, poured: seq<Bytes>, x: Bytes)
    ensures buf + Concat(poured + [x]) == (buf + Concat(poured)) + x
  {
    ConcatAppend(poured, [x]);
    ConcatOne(x);
    hide Concat;
  }

  lemma OverflowFails(env: Tls.Env, spec: Tls.Drained, st: Tls.Tls, buf: Bytes, poured: seq<Bytes>, x: Bytes)
    requires Ahead(env, spec, st, poured + [x]) && |buf + Concat(poured)| + |x| > M.STREAM_SIZE
    ensures spec.Drained? ==> |buf + Concat(spec.outs)| > M.STREAM_SIZE
  {
    hide Tls.Drain;
    if spec.Drained? {
      PourMore(buf, poured, x);
      ConcatAppend(poured + [x], Tls.Drain(env, st).outs);
    }
  }
}
