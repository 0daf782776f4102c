/** Length fields of the Ethernet, IPv4 and TCP headers of an outgoing packet. */
module PacketLengths {
  import opened Binary
  import TcpOptions

  const ETHERNET_HEADER: nat := 14
  const IP_HEADER: nat := 20
  const TCP_HEADER: nat := 20
  const OPTIONS_BLOCK: nat := 12

  function PredictSize(payload: nat, options: bool): nat {
    ETHERNET_HEADER + (IP_HEADER + (TCP_HEADER + (if options then OPTIONS_BLOCK else 0) + payload))
  }

  // Offsets of the length fields
  const IHL_AT: nat := 14
  const TOTAL_LENGTH_AT: nat := 16
  const DATA_OFFSET_AT: nat := 46
  const OPTIONS_AT: nat := 54

  class PacketView {
    const bytes: array<byte>
    var size: nat  // of the Ethernet view

    ghost predicate Valid()
      reads this
    {
      PredictSize(0, false) <= size <= bytes.Length
    }

    constructor (bytes: array<byte>)
      requires PredictSize(0, false) <= bytes.Length
      ensures Valid() && this.bytes == bytes && size == bytes.Length
    {
      this.bytes := bytes;
      size := bytes.Length;
    }

    function IpHeaderSize(): nat
      requires 54 <= bytes.Length
      reads bytes
    {
      bytes[IHL_AT] % 16 * 4
    }

    function TotalLength(): nat
      requires 54 <= bytes.Length
      reads bytes
    {
      Value(bytes[TOTAL_LENGTH_AT..TOTAL_LENGTH_AT + 2])
    }

    function DataOffset(): nat
      requires 54 <= bytes.Length
      reads bytes
    {
      bytes[DATA_OFFSET_AT] / 16 * 4
    }

    /** The check on the IP length, as the receive path applies it too. */
    predicate IsValid()
      requires 54 <= bytes.Length
      reads this, bytes
    {
      (TotalLength() < 60 || TotalLength() == size - ETHERNET_HEADER)
      && IpHeaderSize() <= size - ETHERNET_HEADER
    }

    /** Start and length of the TCP payload, from the header fields alone. */
    function Payload(): (int, int)
      requires 54 <= bytes.Length
      reads bytes
    {
      var header := ETHERNET_HEADER + IpHeaderSize();
      (header + DataOffset(), TotalLength() - IpHeaderSize() - DataOffset())
    }

    method StoreTotalLength()
      requires 14 <= size && 54 <= bytes.Length
      modifies bytes
      ensures TotalLength() == (size - ETHERNET_HEADER) % 0x1_0000
      ensures forall i :: 0 <= i < bytes.Length && i != 16 && i != 17 ==> bytes[i] == old(bytes[i])
    {
      var field := Encode(2, size - ETHERNET_HEADER);
      bytes[TOTAL_LENGTH_AT], bytes[TOTAL_LENGTH_AT + 1] := field[0], field[1];
      assert bytes[TOTAL_LENGTH_AT..TOTAL_LENGTH_AT + 2] == field;
      ValueOfEncode(2, size - ETHERNET_HEADER);
      SmallPowers();
    }

    /** Fills in the headers of a packet that may use the whole buffer. */
    method Init(options: bool) returns (ok: bool)
      requires Valid() && PredictSize(0, options) <= bytes.Length
      modifies bytes
      ensures ok <==> (size - 14) % 0x1_0000 < 60 || size - 14 < 0x1_0000
      ensures ok ==>
                && IpHeaderSize() == IP_HEADER
                && DataOffset() == TCP_HEADER + (if options then OPTIONS_BLOCK else 0)
                && (options ==> bytes[OPTIONS_AT..OPTIONS_AT + OPTIONS_BLOCK] == TcpOptions.DEFAULT_BLOCK)
      // on the wire: IPv4 with five words of header, TCP with five or eight, and the block after them
      ensures ok ==>
                && bytes[14] == 0x45 && Value(bytes[16..18]) == (size - 14) % 0x1_0000
                && bytes[46] == (if options then 0x80 else 0x50)
                && (options ==> bytes[54..66] == [2, 4, 5, 180, 4, 2, 3, 3, 0, 0, 0, 0])
    {
      bytes[IHL_AT] := 4 * 16 + 5;
      StoreTotalLength();
      ghost var field := bytes[16..18];
      if !IsValid() {
        return false;
      }
      bytes[DATA_OFFSET_AT] := TCP_HEADER / 4 * 16;
      if options {
        bytes[DATA_OFFSET_AT] := (TCP_HEADER + OPTIONS_BLOCK) / 4 * 16;
        StoreOptions();
      }
      assert bytes[16..18] == field;
      return true;
    }

    method StoreOptions()
      requires 66 <= bytes.Length
      modifies bytes
      ensures bytes[OPTIONS_AT..OPTIONS_AT + OPTIONS_BLOCK] == TcpOptions.DEFAULT_BLOCK
      ensures forall i :: 0 <= i < OPTIONS_AT ==> bytes[i] == old(bytes[i])
    {
      for k := 0 to 12
        invariant bytes[OPTIONS_AT..OPTIONS_AT + k] == TcpOptions.DEFAULT_BLOCK[..k]
        invariant forall i :: 0 <= i < OPTIONS_AT ==> bytes[i] == old(bytes[i])
      {
        bytes[OPTIONS_AT + k] := TcpOptions.DEFAULT_BLOCK[k];
      }
    }

    /** After the payload is known: the frame has exactly the predicted size, the IP length covers
        everything after the Ethernet header, and the payload read back from the fields has exactly
        the requested length and ends with the frame. */
    method ResizePayload(payload: nat, ghost options: bool)
      requires 54 <= bytes.Length && IpHeaderSize() == IP_HEADER
      requires DataOffset() == TCP_HEADER + (if options then OPTIONS_BLOCK else 0)
      requires PredictSize(payload, options) <= bytes.Length && IP_HEADER + DataOffset() + payload < 0x1_0000
      modifies this, bytes
      ensures size == PredictSize(payload, options)
      ensures TotalLength() == size - ETHERNET_HEADER && IsValid()
      ensures Payload() == (size - payload, payload)
      ensures Value(bytes[16..18]) == 20 + (if options then 32 else 20) + payload == size - 14
    {
      size := ETHERNET_HEADER + (IpHeaderSize() + (DataOffset() + payload));
      StoreTotalLength();
    }
  }
}
