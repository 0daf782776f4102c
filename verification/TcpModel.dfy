/** The TCP client as steps on a value: the specification of class `TcpClient`. */
module TcpModel {
  import opened Outcomes
  import opened Binary
  import opened SeqNumbers
  import TcpOptions

  type uint16 = x: int | 0 <= x < 0x1_0000

  datatype State = Offline | Connecting | Connected

  const WINDOW_SIZE: uint32 := 65535

  // Flag bytes
  const SYN: byte := 0x02
  const RST: byte := 0x04
  const ACK: byte := 0x10
  const SYN_ACK: byte := 0x12
  const PSH_ACK: byte := 0x18

  predicate HasRst(flags: byte) {
    flags / 4 % 2 == 1
  }

  /** A received segment; `valid` is the verdict of the IP length check. */
  datatype Packet = Packet(
    valid: bool, flags: byte, seqNo: uint32, ack: uint32, window: uint16, options: Bytes, payload: Bytes)

  /** A transmitted segment. */
  datatype Segment = Segment(
    flags: byte, id: uint16, seqNo: uint32, ack: uint32, options: bool, payload: Bytes)

  /** The client's fields and everything it handed to the device so far. */
  datatype Client = Client(
    state: State, seqNo: uint32, ack: uint32, lastAck: uint32, unacked: uint32,
    sendWnd: uint32, scale: byte, ipId: uint16, sent: seq<Segment>)

  function Fresh(isn: uint32, ipId: uint16): Client {
    Client(Offline, isn, 0, isn, 0, WINDOW_SIZE, 0, ipId, [])
  }

  /** The header is filled in when the buffer is taken, before the payload is known. */
  function SendBuffer(c: Client, flags: byte, options: bool): Segment {
    Segment(flags, c.ipId, c.seqNo, c.ack, options, [])
  }

  function Transmit(c: Client, packet: Segment, payload: Bytes): Outcome<Client> {
    if c.unacked + |payload| > c.sendWnd then Failure
    else Ok(c.(ipId := (c.ipId + 1) % 0x1_0000,
               seqNo := Add(c.seqNo, |payload|),
               unacked := Wrap(c.unacked + |payload|),
               sent := c.sent + [packet.(payload := payload)]))
  }

  function Connect(c: Client): Outcome<Client> {
    var c1 := c.(state := Connecting);
    var c2 :- Transmit(c1, SendBuffer(c1, SYN, true), []);
    Ok(c2.(unacked := 1))
  }

  function Reset(c: Client): Outcome<Client> {
    var c1 :- Transmit(c, SendBuffer(c, RST, false), []);
    Ok(c1.(state := Offline))
  }

  function Pow2(n: nat): (p: nat)
    ensures p > 0
  {
    if n == 0 then 1 else 2 * Pow2(n - 1)
  }

  /** `window << scale`, kept in 32 bits. */
  function ScaledWindow(window: uint16, scale: byte): uint32 {
    Wrap(window * Pow2(scale))
  }

  /** A segment whose number lies before the expected one is dropped without a reply. */
  predicate IsOld(c: Client, p: Packet) {
    Less(p.seqNo, c.ack) && c.ack != 0
  }

  /** A segment ahead of the expected one: the code gives up. */
  predicate IsGap(c: Client, p: Packet) {
    !IsOld(c, p) && p.seqNo != c.ack && c.ack != 0
  }

  /** The two circular checks made on an acknowledgement number. */
  predicate AcceptsAck(c: Client, ack: uint32) {
    !Greater(c.lastAck, ack) && Sub(ack, c.lastAck) <= c.unacked
  }

  function TakeAck(c: Client, p: Packet): Client
    requires AcceptsAck(c, p.ack)
  {
    var rwnd := ScaledWindow(p.window, c.scale);
    c.(sendWnd := if rwnd > 0 then rwnd else c.sendWnd,
       unacked := c.unacked - Sub(p.ack, c.lastAck),
       lastAck := p.ack)
  }

  function FinishHandshake(c: Client, p: Packet): Outcome<Client> {
    var c1 := c.(state := Connected, ack := Add(p.seqNo, 1), seqNo := Add(c.seqNo, 1), lastAck := p.ack);
    var shift :- TcpOptions.WindowScale(p.options);
    var c2 := if shift.Some? then c1.(scale := shift.value) else c1;
    Transmit(c2, SendBuffer(c2, ACK, false), [])
  }

  function AcceptPayload(c: Client, p: Packet): Outcome<Client> {
    var c1 := c.(ack := Add(p.seqNo, |p.payload|));
    Transmit(c1, SendBuffer(c1, ACK, false), [])
  }

  function ProcessPacket(c: Client, p: Packet): Outcome<Client> {
    if !p.valid || HasRst(p.flags) then Failure
    else if IsOld(c, p) then Ok(c)
    else if IsGap(c, p) || !AcceptsAck(c, p.ack) then Failure
    else
      var c1 := TakeAck(c, p);
      if c1.state == Connecting && p.flags == SYN_ACK then FinishHandshake(c1, p)
      else if c1.state == Connected && p.payload != [] then AcceptPayload(c1, p)
      else Ok(c1)
  }
}
