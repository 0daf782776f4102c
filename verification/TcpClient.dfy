/** The TCP client object. Its methods follow the step functions of `TcpModel`, and its 32-bit fields refine
    unbounded counters that the object carries along. */
module TcpClient {
  import opened Outcomes
  import opened Binary
  import opened SeqNumbers
  import opened TcpModel
  import TcpOptions
  import TcpRuns

  class TcpConnection {
    var state: State
    var seqNo: uint32
    var ack: uint32
    var lastAckNumber: uint32
    var unacknowledgedBytes: uint32
    var sendWnd: uint32
    var peerWindowScale: byte
    var ipId: uint16
    var sent: seq<Segment>  // what the device was given

    ghost const isn: uint32
    ghost var counters: TcpRuns.Counters

    /** In unbounded terms: last acknowledged number, bytes in flight and sequence number stand for the
        positions acknowledged and sent, whatever has wrapped. */
    ghost predicate Valid()
      reads this
    {
      TcpRuns.Refines(isn, View(), counters)
    }

    function View(): Client
      reads this
    {
      Client(state, seqNo, ack, lastAckNumber, unacknowledgedBytes, sendWnd, peerWindowScale, ipId, sent)
    }

    constructor (isn: uint32, id: uint16)
      ensures View() == Fresh(isn, id)
      ensures Valid() && this.isn == isn && counters == TcpRuns.Counters(0, 0, 0, 0)
    {
      this.isn := isn;
      counters := TcpRuns.Counters(0, 0, 0, 0);
      sendWnd := WINDOW_SIZE;
      state := Offline;
      unacknowledgedBytes := 0;
      seqNo := isn;
      ack := 0;
      ipId := id;
      lastAckNumber := isn;
      peerWindowScale := 0;
      sent := [];
    }

    method GetSendBuffer(flags: byte, options: bool) returns (packet: Segment)
      ensures packet == SendBuffer(View(), flags, options)
    {
      packet := Segment(flags, ipId, seqNo, ack, options, []);
    }

    method Send(packet: Segment, payload: Bytes) returns (ok: bool)
      modifies this
      ensures ok <==> Transmit(old(View()), packet, payload).Ok?
      ensures ok ==> View() == Transmit(old(View()), packet, payload).value
      ensures counters == if ok then old(counters.(data := counters.data + |payload|)) else old(counters)
      ensures ok && old(Valid()) ==> Valid()
    {
      hide TcpRuns.Refines;
      hide Wrap;
      if !(unacknowledgedBytes + |payload| <= sendWnd) {
        return false;
      }
      if Valid() {
        TcpRuns.TransmitRefines(isn, View(), counters, packet, payload);
      }
      counters := counters.(data := counters.data + |payload|);
      ipId := (ipId + 1) % 0x1_0000;
      seqNo := Add(seqNo, |payload|);
      unacknowledgedBytes := Wrap(unacknowledgedBytes + |payload|);
      sent := sent + [packet.(payload := payload)];
      return true;
    }

    method Connect() returns (ok: bool)
      modifies this
      ensures ok <==> TcpModel.Connect(old(View())).Ok?
      ensures ok ==> View() == TcpModel.Connect(old(View())).value
      ensures ok && old(Valid()) && old(unacknowledgedBytes == 0 && seqNo == lastAckNumber) ==> Valid()
    {
      ghost var before, counted := View(), counters;
      state := Connecting;
      var packet := GetSendBuffer(SYN, true);
      ok := Send(packet, []);
      if ok {
        unacknowledgedBytes := 1;
        counters := TcpRuns.Track(isn, counted, before, TcpRuns.Open);
        if old(Valid()) && TcpRuns.MayStep(before, TcpRuns.Open) {
          TcpRuns.OpenRefines(isn, before, counted);
        }
      }
    }

    method SendRst() returns (ok: bool)
      modifies this
      ensures ok <==> Reset(old(View())).Ok?
      ensures ok ==> View() == Reset(old(View())).value
      ensures ok && old(Valid()) ==> Valid()
    {
      var packet := GetSendBuffer(RST, false);
      ok := Send(packet, []);
      state := Offline;
    }

    method FinishHandshake(p: Packet) returns (ok: bool)
      modifies this
      ensures ok <==> TcpModel.FinishHandshake(old(View()), p).Ok?
      ensures ok ==> View() == TcpModel.FinishHandshake(old(View()), p).value
      ensures counters == old(counters)
    {
      hide Wrap;
      hide Transmit;
      hide TcpOptions.WindowScale;
      state := Connected;
      ack := Add(p.seqNo, 1);
      seqNo := Add(seqNo, 1);
      lastAckNumber := p.ack;
      var shift := TcpOptions.ParseOptions(p.options);
      if shift.Failure? {
        return false;
      }
      if shift.value.Some? {
        peerWindowScale := shift.value.value;
      }
      var packet := GetSendBuffer(ACK, false);
      ok := Send(packet, []);
    }

    method ProcessPacket(p: Packet) returns (ok: bool)
      modifies this
      ensures ok <==> TcpModel.ProcessPacket(old(View()), p).Ok?
      ensures ok ==> View() == TcpModel.ProcessPacket(old(View()), p).value
      ensures ok && old(Valid()) ==> Valid() && counters.acked >= old(counters).acked
    {
      ghost var before, counted := View(), counters;
      ok := HandlePacket(p);
      if ok {
        counters := TcpRuns.Track(isn, counted, before, TcpRuns.Receive(p));
        if old(Valid()) {
          TcpRuns.StepRefines(isn, before, counted, TcpRuns.Receive(p));
        }
      }
    }

    /** The steps of `ProcessPacket`, without the bookkeeping. */
    method HandlePacket(p: Packet) returns (ok: bool)
      modifies this
      ensures ok <==> TcpModel.ProcessPacket(old(View()), p).Ok?
      ensures ok ==> View() == TcpModel.ProcessPacket(old(View()), p).value
    {
      hide Wrap;
      hide Less;
      hide Greater;
      hide ScaledWindow;
      hide TcpModel.FinishHandshake;
      hide Transmit;
      hide HasRst;
      hide Sub;
      hide Add;
      if !p.valid || HasRst(p.flags) {
        return false;
      }
      if Less(p.seqNo, ack) && ack != 0 {
        return true;
      }
      if !(p.seqNo == ack || ack == 0) {
        return false;
      }
      var peerRwnd := ScaledWindow(p.window, peerWindowScale);
      if peerRwnd > 0 {
        sendWnd := peerRwnd;
      }
      if Greater(lastAckNumber, p.ack) {
        return false;
      }
      var bytesAcked := Sub(p.ack, lastAckNumber);
      if bytesAcked > unacknowledgedBytes {
        return false;
      }
      unacknowledgedBytes := unacknowledgedBytes - bytesAcked;
      lastAckNumber := p.ack;

      if state == Connecting && p.flags == SYN_ACK {
        ok := FinishHandshake(p);
        return;
      }
      if state == Connected && p.payload != [] {
        ack := Add(p.seqNo, |p.payload|);
        var packet := GetSendBuffer(ACK, false);
        ok := Send(packet, []);
        return;
      }
      return true;
    }
  }
}
