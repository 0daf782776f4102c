/** Reading handshake messages from the stream, mostly inside a transaction. */
module TlsReader {
  import opened Outcomes
  import opened Binary
  import opened ByteStream
  import opened TlsRecords
  import M = TlsModel

  method PopHeader(stream: Stream) returns (size: nat)
    requires stream.Valid() && |stream.Contents()| >= 5
    modifies stream
    ensures stream.Valid() && stream.Contents() == old(stream.Contents())[5..]
    ensures size == BodySize(old(stream.Contents()))
  {
    hide Stream.Contents;
    hide Stream.Bytes;
    hide Stream.Valid;
    hide Value;
    ghost var buf := stream.Contents();
    var header := stream.Pop(5);
    size := Value(stream.Bytes(header.value)[3..5]);
    assert buf[..5][3..5] == buf[3..5];
  }

  /** Peeks into a ServerHello; the transaction is dropped without a commit. */
  method ReadHello(stream: Stream) returns (random: Option<Bytes>)
    requires stream.Valid()
    ensures random.Some? <==> M.HelloAccepted(stream.Contents())
    ensures random.Some? ==> random.value == stream.Contents()[6..38]
  {
    hide Stream.Contents;
    hide Stream.Bytes;
    hide Stream.Valid;
    hide ReadTransaction.Valid;
    hide ReadTransaction.Remaining;
    hide Value;
    ghost var b := stream.Contents();
    var read := new ReadTransaction(stream);
    var hello := read.Pop(39);
    if hello.None? {
      return None;
    }
    var fixed := stream.Bytes(hello.value);
    assert fixed == b[..39];
    var session := read.Pop(fixed[38]);
    if session.None? {
      return None;
    }
    var rest := read.Pop(5);
    if rest.None? {
      return None;
    }
    var suite := stream.Bytes(rest.value);
    ghost var at := 39 + b[38] as int;
    Slices(b, 39, b[38], 5);
    assert suite[..2] == b[at..at + 2] && suite[2] == b[at + 2];
    if Value(suite[..2]) != 0xC02F || suite[2] != 0 {
      return None;
    }
    assert fixed[6..38] == b[6..38];
    return Some(fixed[6..38]);
  }

  lemma Slices(b: Bytes, i: nat, j: nat, n: nat)
    requires i + j + n <= |b|
    ensures b[i..][j..] == b[i + j..] && b[i..][j..][..n] == b[i + j..i + j + n]
  {
  }

  /** Reads and commits a key exchange message. */
  method ReadKeyExchange(stream: Stream) returns (r: M.Reading, message: View, pub: Bytes)
    requires stream.Valid()
    modifies stream
    ensures stream.Valid() && r == M.KeyExchangeReading(old(stream.Contents()))
    ensures !r.Message? ==> stream.Contents() == old(stream.Contents())
    ensures r.Message? ==>
              var b := old(stream.Contents());
              && stream.Contents() == b[r.size..]
              && message.start + message.size <= stream.buffer.Length && stream.Bytes(message) == b[..r.size]
              && pub == b[8..8 + b[7] as int]
  {
    hide Stream.Contents;
    hide Stream.Bytes;
    hide Stream.Valid;
    hide ReadTransaction.Valid;
    hide ReadTransaction.Remaining;
    hide Value;
    message, pub := View(0, 0), [];
    ghost var b := stream.Contents();
    var read := new ReadTransaction(stream);
    var header := read.Pop(4);
    if header.None? {
      return M.Incomplete, message, pub;
    }
    if stream.Bytes(header.value)[0] != SERVER_KEY_EXCHANGE {
      return M.Wrong, message, pub;
    }
    var params := read.Pop(4);
    if params.None? {
      return M.Incomplete, message, pub;
    }
    var ecdhe := stream.Bytes(params.value);
    Slices(b, 4, 4, 0);
    assert ecdhe == b[4..8] && read.Remaining() == b[8..] && read.taken == b[..8];
    assert ecdhe[1..3] == b[5..7];
    if ecdhe[0] != 3 || Value(ecdhe[1..3]) != 0x1D {
      return M.Wrong, message, pub;
    }
    var status, key := ReadSignedKey(read, ecdhe[3]);
    ghost var k := b[7] as int;
    if !status {
      SignedIncomplete(b, k);
      return M.Incomplete, message, pub;
    }
    ghost var n := 12 + k + Value(b[8..][k + 2..k + 4]);
    SignedComplete(b, k);
    pub := key;
    message := read.Commit();
    r := M.Message(message.size);
  }

  lemma SignedComplete(b: Bytes, k: nat)
    requires |b| >= 12 + k
    ensures b[8..][k + 2..k + 4] == b[10 + k..12 + k] && b[8..][..k] == b[8..8 + k]
  {
  }

  lemma SignedIncomplete(b: Bytes, k: nat)
    requires |b| >= 8
    ensures |b| >= 12 + k ==> b[8..][k + 2..k + 4] == b[10 + k..12 + k]
  {
  }

  /** The public key of `k` bytes and the signature after it; the signature itself is ignored. */
  method ReadSignedKey(read: ReadTransaction, k: nat) returns (ok: bool, key: Bytes)
    requires read.Valid()
    modifies read
    ensures read.Valid()
    ensures var b := old(read.Remaining());
            && (ok <==> |b| >= k + 4 && |b| >= k + 4 + Value(b[k + 2..k + 4]))
            && (ok ==>
                  var n := k + 4 + Value(b[k + 2..k + 4]);
                  && key == b[..k] && read.Remaining() == b[n..] && read.taken == old(read.taken) + b[..n])
  {
    hide Stream.Contents;
    hide Stream.Bytes;
    hide Stream.Valid;
    hide ReadTransaction.Valid;
    hide ReadTransaction.Remaining;
    hide Value;
    key := [];
    ghost var b := read.Remaining();
    var pubkey := read.Pop(k);
    if pubkey.None? {
      return false, key;
    }
    key := read.stream.Bytes(pubkey.value);
    var sigInfo := read.Pop(4);
    if sigInfo.None? {
      return false, key;
    }
    var info := read.stream.Bytes(sigInfo.value);
    Slice(b, k, 0, 4);
    assert info == b[k..k + 4];
    assert info[2..4] == b[k + 2..k + 4];
    var signature := read.Pop(Value(info[2..4]));
    if signature.None? {
      return false, key;
    }
    ghost var m := Value(b[k + 2..k + 4]);
    Slice(b, k, 4, 0);
    Slice(b, k + 4, 0, m);
    Slice(b, k + 4, m, 0);
    ThreeParts(b, k, m);
    Assoc(old(read.taken), b[..k], b[k..k + 4]);
    Assoc(old(read.taken), b[..k] + b[k..k + 4], b[k + 4..k + 4 + m]);
    return true, key;
  }

  lemma ThreeParts(b: Bytes, k: nat, m: nat)
    requires k + 4 + m <= |b|
    ensures b[..k] + b[k..k + 4] + b[k + 4..k + 4 + m] == b[..k + 4 + m]
  {
  }

  method ReadHelloDone(stream: Stream) returns (r: M.Reading, message: View)
    requires stream.Valid()
    modifies stream
    ensures stream.Valid() && r == M.HelloDoneReading(old(stream.Contents()))
    ensures !r.Message? ==> stream.Contents() == old(stream.Contents())
    ensures r.Message? ==>
              && stream.Contents() == old(stream.Contents())[r.size..]
              && message.start + message.size <= stream.buffer.Length
              && stream.Bytes(message) == old(stream.Contents())[..r.size]
  {
    hide Stream.Contents;
    hide Stream.Bytes;
    hide Stream.Valid;
    hide ReadTransaction.Valid;
    hide ReadTransaction.Remaining;
    hide Value;
    message := View(0, 0);
    ghost var b := stream.Contents();
    var read := new ReadTransaction(stream);
    var header := read.Pop(4);
    if header.None? {
      return M.Incomplete, message;
    }
    var fixed := stream.Bytes(header.value);
    assert fixed[1..4] == b[1..4];
    if fixed[0] != SERVER_HELLO_DONE {
      return M.Wrong, message;
    }
    var size := Value(fixed[1..4]);
    var body := read.Pop(size);
    if body.None? {
      return M.Incomplete, message;
    }
    assert b[4..][..size] == b[4..4 + size] && b[..4] + b[4..4 + size] == b[..4 + size];
    message := read.Commit();
    r := M.Message(4 + size);
  }

  /** Pops a record header inside a transaction: content type and size. */
  method PopRecordHeader(read: ReadTransaction) returns (h: Option<(byte, nat)>)
    requires read.Valid()
    modifies read
    ensures read.Valid()
    ensures var b := old(read.Remaining());
            && (h.Some? <==> |b| >= 5)
            && (h.Some? ==> h.value == (b[0], Value(b[3..5])) && read.Remaining() == b[5..])
  {
    hide Stream.Contents;
    hide Stream.Bytes;
    hide Stream.Valid;
    hide ReadTransaction.Valid;
    hide ReadTransaction.Remaining;
    hide Value;
    ghost var b := read.Remaining();
    var popped := read.Pop(5);
    if popped.None? {
      return None;
    }
    var header := read.stream.Bytes(popped.value);
    assert header[3..5] == b[3..5];
    return Some((header[0], Value(header[3..5])));
  }

  /** Reads ChangeCipherSpec and Finished; commits only when both are complete. */
  method ReadClosing(stream: Stream) returns (r: M.Reading)
    requires stream.Valid()
    modifies stream
    ensures stream.Valid() && r == M.ServerClosing(old(stream.Contents()))
    ensures stream.Contents() == if r.Message? then old(stream.Contents())[r.size..] else old(stream.Contents())
  {
    hide Stream.Contents;
    hide Stream.Bytes;
    hide Stream.Valid;
    hide ReadTransaction.Valid;
    hide ReadTransaction.Remaining;
    hide Value;
    hide M.FinishedReading;
    ghost var b := stream.Contents();
    var read := new ReadTransaction(stream);
    var first := PopRecordHeader(read);
    if first.None? {
      return M.Incomplete;
    }
    if first.value.0 != CHANGE_CIPHER {
      return M.Wrong;
    }
    var size := first.value.1;
    var input := read.Pop(size);
    if input.None? {
      return M.Incomplete;
    }
    var change := stream.Bytes(input.value);
    assert size > 0 ==> change[0] == b[5];
    if |change| == 0 || change[0] != 1 {
      return M.Wrong;
    }
    var n := 5 + size;
    Slices(b, 5, size, 0);
    var finished := ReadFinished(read);
    match finished
    case Wrong => return M.Wrong;
    case Incomplete => return M.Incomplete;
    case Message(m) =>
      Slices(b, n, m, 0);
      var _ := read.Commit();
      return M.Message(n + m);
  }

  /** The encrypted Finished record, inside the transaction. */
  method ReadFinished(read: ReadTransaction) returns (r: M.Reading)
    requires read.Valid()
    modifies read
    ensures read.Valid()
    ensures var b := old(read.Remaining());
            r == M.FinishedReading(b) && (r.Message? ==> read.Remaining() == b[r.size..])
  {
    hide Stream.Contents;
    hide Stream.Bytes;
    hide Stream.Valid;
    hide ReadTransaction.Valid;
    hide ReadTransaction.Remaining;
    hide Value;
    ghost var b := read.Remaining();
    var header := PopRecordHeader(read);
    if header.None? {
      return M.Incomplete;
    }
    if header.value.0 != HANDSHAKE {
      return M.Wrong;
    }
    var finished := read.Pop(header.value.1);
    if finished.None? {
      return M.Incomplete;
    }
    Slices(b, 5, header.value.1, 0);
    return M.Message(5 + header.value.1);
  }

  method PeekType(stream: Stream) returns (handshakeType: Option<byte>)
    requires stream.Valid()
    ensures handshakeType.Some? <==> |stream.Contents()| >= 4
    ensures handshakeType.Some? ==> handshakeType.value == stream.Contents()[0]
  {
    var header := stream.Peek(4);
    if header.None? {
      return None;
    }
    return Some(stream.Bytes(header.value)[0]);
  }

  lemma AfterHeader(buf: Bytes, n: nat)
    requires |buf| >= 5 + n
    ensures buf[5..][..n] == buf[5..5 + n] && buf[5..][n..] == buf[5 + n..]
  {
  }

  /** A whole ServerHello record: its body and the server's random, or nothing if it is refused. */
  method TakeHello(stream: Stream) returns (ok: bool, message: Bytes, random: Bytes)
    requires stream.Valid() && IsWhole(stream.Contents())
    modifies stream
    ensures stream.Valid()
    ensures var buf := old(stream.Contents());
            var n := 5 + BodySize(buf);
            && (ok <==> M.HelloAccepted(buf[5..]))
            && (ok ==> stream.Contents() == buf[n..] && message == buf[5..n] && random == buf[5..][6..38])
  {
    hide Stream.Contents;
    hide Stream.Bytes;
    hide Stream.Valid;
    hide Value;
    hide M.HelloAccepted;
    message, random := [], [];
    ghost var buf := stream.Contents();
    var size := PopHeader(stream);
    var found := ReadHello(stream);
    if found.None? {
      return false, message, random;
    }
    var body := stream.Pop(size);
    AfterHeader(buf, size);
    return true, stream.Bytes(body.value), found.value;
  }

  /** A record whose body is taken whole if the handshake type is right. */
  method TakeTyped(stream: Stream, expected: byte) returns (r: M.Reading, message: Bytes)
    requires stream.Valid() && IsWhole(stream.Contents())
    modifies stream
    ensures stream.Valid()
    ensures var buf := old(stream.Contents());
            var n := 5 + BodySize(buf);
            && (r == M.Incomplete <==> |buf| < 9) && (r == M.Wrong <==> |buf| >= 9 && buf[5] != expected)
            && (r == M.Incomplete ==> stream.Contents() == buf[5..])
            && (r.Message? ==> stream.Contents() == buf[n..] && message == buf[5..n])
  {
    hide Stream.Contents;
    hide Stream.Bytes;
    hide Stream.Valid;
    hide Value;
    ghost var buf := stream.Contents();
    var size := PopHeader(stream);
    var handshakeType := PeekType(stream);
    if handshakeType.None? {
      return M.Incomplete, [];
    }
    if handshakeType.value != expected {
      return M.Wrong, [];
    }
    var body := stream.Pop(size);
    AfterHeader(buf, size);
    return M.Message(size), stream.Bytes(body.value);
  }

  /** A record header and the key exchange message after it. */
  method TakeKeyExchange(stream: Stream) returns (r: M.Reading, message: Bytes, pub: Bytes)
    requires stream.Valid() && IsWhole(stream.Contents())
    modifies stream
    ensures stream.Valid()
    ensures var buf := old(stream.Contents());
            && r == M.KeyExchangeReading(buf[5..])
            && (r == M.Incomplete ==> stream.Contents() == buf[5..])
            && (r.Message? ==>
                  && stream.Contents() == buf[5 + r.size..] && message == buf[5..5 + r.size]
                  && pub == buf[5..][8..8 + buf[12] as int])
  {
    hide Stream.Contents;
    hide Stream.Bytes;
    hide Stream.Valid;
    hide Value;
    hide M.KeyExchangeReading;
    message := [];
    ghost var buf := stream.Contents();
    var _ := PopHeader(stream);
    var view;
    r, view, pub := ReadKeyExchange(stream);
    if r.Message? {
      message := stream.Bytes(view);
      AfterHeader(buf, r.size);
    }
  }

  /** A record header and the ServerHelloDone after it. */
  method TakeHelloDone(stream: Stream) returns (r: M.Reading, message: Bytes)
    requires stream.Valid() && IsWhole(stream.Contents())
    modifies stream
    ensures stream.Valid()
    ensures var buf := old(stream.Contents());
            && r == M.HelloDoneReading(buf[5..])
            && (r == M.Incomplete ==> stream.Contents() == buf[5..])
            && (r.Message? ==> stream.Contents() == buf[5 + r.size..] && message == buf[5..5 + r.size])
  {
    hide Stream.Contents;
    hide Stream.Bytes;
    hide Stream.Valid;
    hide Value;
    hide M.HelloDoneReading;
    message := [];
    ghost var buf := stream.Contents();
    var _ := PopHeader(stream);
    var view;
    r, view := ReadHelloDone(stream);
    if r.Message? {
      message := stream.Bytes(view);
      AfterHeader(buf, r.size);
    }
  }
}
