/** The WebSocket client as steps on a value: the specification of class `WssClient`. */
module WssModel {
  import opened Outcomes
  import opened Binary
  import opened ByteStream
  import opened WssFrames
  import Tls = TlsModel
  import Tcp = TcpModel

  datatype State = Init | HttpHandshake | Connected

  /** `"HTTP/1.1 101"` and the blank line that ends the response. */
  const STATUS: Bytes := [72, 84, 84, 80, 47, 49, 46, 49, 32, 49, 48, 49]
  const BLANK_LINE: Bytes := [13, 10, 13, 10]

  /** The bytes of a text whose characters are all below 256. */
  function Ascii(text: string): Bytes
    requires forall i :: 0 <= i < |text| ==> text[i] < 256 as char
  {
    seq(|text|, i requires 0 <= i < |text| => text[i] as int)
  }

  lemma PatternsAreTexts()
    ensures STATUS == Ascii("HTTP/1.1 101") && BLANK_LINE == Ascii("\r\n\r\n")
  {
  }

  const STREAM_SIZE: nat := 200000

  datatype Wss = Wss(state: State, buf: Bytes, tls: Tls.Tls)

  /** A client is created around a TLS client, which is created around a TCP client. */
  function Create(env: Tls.Env, tcp: Tcp.Client): Outcome<Wss> {
    var tls :- Tls.Create(env, tcp);
    Ok(Wss(Init, [], tls))
  }

  /** Position of the first occurrence of `pattern`. */
  function Find(s: Bytes, pattern: Bytes): (r: Option<nat>)
    ensures IsFirst(s, pattern, r)
  {
    FindFrom(s, pattern, 0)
  }

  function FindFrom(s: Bytes, pattern: Bytes, from: nat): (r: Option<nat>)
    requires forall i: nat :: i < from ==> !OccursAt(s, pattern, i)
    ensures IsFirst(s, pattern, r)
    decreases |s| + 1 - from
  {
    if from + |pattern| > |s| then None
    else if OccursAt(s, pattern, from) then Some(from)
    else FindFrom(s, pattern, from + 1)
  }

  lemma FirstIsUnique(s: Bytes, pattern: Bytes, r: Option<nat>)
    requires IsFirst(s, pattern, r)
    ensures r == Find(s, pattern)
  {
  }

  /** Both the status and the blank line have arrived. */
  predicate Upgraded(s: Bytes) {
    Find(s, STATUS).Some? && Find(s, BLANK_LINE).Some?
  }

  function AfterBlankLine(s: Bytes): Bytes
    requires Find(s, BLANK_LINE).Some?
  {
    s[Find(s, BLANK_LINE).value + 4..]
  }

  function SendUpgrade(env: Tls.Env, tls: Tls.Tls): Outcome<Tls.Tls> {
    var pushed :- Tls.Push(tls, env.request);
    Tls.Flush(env, pushed)
  }

  datatype Next = Aborted | Next(message: Option<Bytes>, w: Wss)

  /** Takes one frame; only Text and Binary frames are handed to the caller. */
  function TakeFrame(w: Wss): Next {
    match ExtractPayload(w.buf)
    case Nothing(rest) => Next(None, w.(buf := rest))
    case Refused => Aborted
    case Extracted(code, payload, rest) =>
      Next(if code == TEXT || code == BINARY then Some(payload) else None, w.(buf := rest))
  }

  /** Buffers everything TLS has to offer. */
  function Fill(env: Tls.Env, w: Wss): Outcome<Wss> {
    var drained := Tls.Drain(env, w.tls);
    if drained.Aborted? || |w.buf + Concat(drained.outs)| > STREAM_SIZE then Failure
    else Ok(w.(buf := w.buf + Concat(drained.outs), tls := drained.st))
  }

  datatype Advanced = Broken | Waiting | Ready(w: Wss)

  /** Connection state once TLS is established: send the request, then wait for the response. */
  function Advance(env: Tls.Env, v: Wss): Advanced {
    if v.tls.phase != Tls.ServerFinished || v.state == Connected then Ready(v)
    else if v.state == Init then
      var sent := SendUpgrade(env, v.tls);
      if sent.Failure? then Broken else Ready(v.(state := HttpHandshake, tls := sent.value))
    else if !Upgraded(v.buf) then Waiting
    else Ready(v.(state := Connected, buf := AfterBlankLine(v.buf)))
  }

  function NextMessage(env: Tls.Env, w: Wss): Next {
    var filled := Fill(env, w);
    if filled.Failure? then Aborted
    else
      match Advance(env, filled.value)
      case Broken => Aborted
      case Waiting => Next(None, filled.value)
      case Ready(v) => TakeFrame(v)
  }

  function ProcessPacket(w: Wss, p: Tcp.Packet): Outcome<Wss> {
    var tls :- Tls.ProcessPacket(w.tls, p);
    Ok(w.(tls := tls))
  }
}
