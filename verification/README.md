# Verified model of a DPDK WebSocket client stack

The project models a hand-written client network stack, from received TCP segments to WebSocket messages, and
proves what whole runs of it keep. The layers follow the program:

| layer | specification on values | object | theorems about runs |
|---|---|---|---|
| sequence numbers, TCP options, TCP client | `TcpModel`, `SeqNumbers`, `TcpOptions` | `TcpClient` | `TcpRuns`, `TcpLimits`, `TcpHeaders` |
| byte stream, read transaction, packet writer | in the contracts | `ByteStream`, `WriteStream` | in the contracts |
| TLS 1.2 records and handshake | `TlsRecords`, `TlsModel`, `ClientHello` | `TlsReader`, `TlsClient` | `TlsRuns`, `TlsHandshake`, `TlsTraffic`, `TlsMessages`, `TlsAgreement`, `TlsPeer`, `TlsCalls`, `TlsCuts`, `Stack`, `Transport` |
| WebSocket frames and upgrade | `WssFrames`, `WssModel` | `WssClient` | `WssRuns`, `Session`, `Passage` |
| device queues, packet lengths | in the contracts | `BurstQueues`, `PacketLengths` | in the contracts |

Objects that the program updates in place are classes with those fields. Each method is proved equal to one step
function on values; the run theorems are about those functions, so they hold of the objects. `Scanner` holds the
theory of incremental parsing that TLS records, WebSocket frames and hello extensions share. `Binary` has the
big-endian fields, `Outcomes` the result types. `Session` joins all layers: from new TCP, TLS and WebSocket
clients to the messages the caller gets; `Passage` shows that such sessions go through. `TlsServer` is the other
side of the connection, written from the standards and the bytes on the wire: its messages, key derivation and record
protection share nothing with the client but the foreign functions, and the theorems compare the two.

`dafny verify dfyconfig.toml` checks everything.

## Conventions

- A failing check throws and ends the run; it is `Failure`, `Failed` or `Aborted`, with no state.
- `receive` may call itself forever on an unchanged state. That result is called `Spins`; `TlsRuns.ReceiveIsLimit`
  shows that it means exactly non-termination. At the WebSocket level it also counts as `Aborted`.
- Undefined behaviour is a failure: reading the first byte of an empty ChangeCipherSpec record, encrypting before
  keys exist, and writing the authentication tag past the packet's room.
- Hash, PRF, AES-GCM and X25519 are function parameters of known output length (`TlsModel.Env`). Where plaintexts are
  compared, opening is assumed to give back what was sealed under the same key and IV (`TlsServer.Opens`,
  `TlsServer.OpensAnyway`). Also parameters are the random bytes, the ephemeral key, the host name, the upgrade request and the payload room of a packet.
- What the NIC takes or returns in a burst is a parameter of the call.
- The constructor of the TLS client is split into `constructor` and `Open`, because opening can fail.

## What was found

- Connecting keeps the send-side sum only on a client whose sequence number is the last acknowledged one.
- Acknowledgements are judged exactly if and only if at most 2^31 positions are in flight. Window shifts of at most
  14 guarantee fewer than 2^30; the code does not clamp the shift, and a peer announcing 16 gets a valid
  acknowledgement refused.
- A segment from the wrong place is taken exactly when `ack` is 0, which the code reads as "not known yet". Every run
  accepts a prefix of the peer's stream if and only if the peer's numbers end before the wrap, or only one byte lies
  behind it.
- TLS buffers the payload of old segments too: its input is the stream TCP accepted if and only if the payloads come
  in sequence, each after the SYN-ACK and with the number that follows all earlier ones.
- `receive` never ends exactly when what has arrived ends between ChangeCipherSpec and the end of the Finished record,
  the hello has been sent, and the answer to the server's flight has been sent or fits packet and window. It throws
  exactly when that answer is due and does not fit.
- An application record shorter than its explicit IV can make the result depend on how packets were cut;
  `TlsCuts.CutsDoNotMatterIff` says exactly when.
- `receive` sends the ClientHello whatever TCP's state: the data segments of a session are contiguous if and only if
  its first packet is the SYN-ACK.
- Data that arrives before the upgrade request is read as a frame; an early response is lost.
- Length byte 125 is decoded as a 64-bit length, so a frame round-trips exactly when its payload is not 125 bytes.
- Frame lengths within ten of 2^64 wrap and lose the header; in the client's buffer this happens exactly then.
- A control frame ends a round of the worker loop: complete frames after it wait for the next packet.
- The send queue stays within one burst if and only if no full burst is refused when a packet is queued. Beyond a
  burst, queueing never flushes, and only explicit flushes, as the ARP handler makes them, shorten the queue.
- The type of a ServerHello is not looked at, nor are record types during the handshake before ChangeCipherSpec; every
  other check the client makes on a message is exact.
- The additional data for opening names the length of the ciphertext, not of the plaintext as the server's does, and
  the record number counts application records only. Plaintexts come out right because no tag is checked.
- A message cut by the end of its record loses the record header, and the rest is read as the next record.
- The signature-algorithms extension carries an inner list length of 0 in front of two bytes; all other lengths nest.
- The circular comparison is declared a strong ordering but is neither antisymmetric at distance 2^31 nor transitive
  beyond it.

## Model

| member | source | states |
|---|---|---|
| Binary.ValueOfEncode | src/network/type/big_endian.h:52-79 | reading back a big-endian field of any width gives the value modulo its width |
| Binary.EncodeOfValue | src/base/type/uint24.h:43-48 | storing the value just read reproduces the same bytes, for every width |
| Binary.EncodeAt | src/network/type/big_endian.h:52-79 | byte i of a stored field is the value divided by the power of 256 for its place: highest byte first |
| SeqNumbers.OrderAgrees | src/network/tcp/seq_number.h:49-64 | within 2^31, wrapped numbers compare as the unbounded positions do |
| SeqNumbers.BothLessExactlyAtHalf | src/network/tcp/seq_number.h:49-59 | two numbers are each less than the other exactly when 2^31 apart |
| SeqNumbers.OrderIsNotTransitive | src/network/tcp/seq_number.h:49-59 | the comparison returned as a strong ordering is not transitive |
| SeqNumbers.TransitiveIff | src/network/tcp/seq_number.h:49-59 | two steps upwards make one step upwards exactly when together they span at most 2^31 |
| TcpOptions.ParseOptions | src/network/tcp/packet_view.cpp:100-138 | the loop ends, reads inside the area and returns the last well-sized window scale of the option list, or throws |
| TcpOptions.TokensOfEncoding | src/network/tcp/packet_view.cpp:109-135 | every encoded option list is read back as written, whatever follows its end |
| TcpOptions.EncodingOfTokens | src/network/tcp/packet_view.cpp:109-135 | an area that parses is the encoding of the list found followed by a legal end |
| TcpOptions.ParsesExactlyEncodings | src/network/tcp/packet_view.cpp:109-135 | parsing succeeds if and only if the area is an encoded option list |
| TcpOptions.LastScaleByIndex | src/network/tcp/packet_view.cpp:109-135 | the shift found is that of the last option of kind 3 with one byte of data, or the one known before if there is none |
| TcpOptions.OptionBytes | src/network/tcp/packet_view.cpp:100-138 | padding, window scale, a window scale of the wrong size, a bad length and the end of the list, byte by byte |
| TcpOptions.DefaultBlockAnnouncesShiftZero | src/network/tcp/model.h:68-93 | the client's own block is 12 bytes, announces segment size 1460 and parses to shift 0 |
| TcpClient.TcpConnection.constructor | src/network/tcp/client.cpp:15-30 | a fresh client: last acknowledged number equals the initial number, nothing in flight, unbounded counters at zero |
| TcpClient.TcpConnection.GetSendBuffer | src/network/tcp/client.cpp:32-39 | the header carries the numbers current when the buffer is taken |
| TcpClient.TcpConnection.Send | src/network/tcp/client.cpp:41-55 | sends if the window allows, else throws; new state of all fields, which go on refining the unbounded counters |
| TcpClient.TcpConnection.Connect | src/network/tcp/client.cpp:102-109 | SYN with options, one position in flight; keeps the refinement on a client with nothing in flight |
| TcpClient.TcpConnection.SendRst | src/network/tcp/client.cpp:111-117 | RST sent, client offline, refinement kept |
| TcpClient.TcpConnection.FinishHandshake | src/network/tcp/client.cpp:81-95 | effect of the SYN-ACK, including the window scale and the ACK sent |
| TcpClient.TcpConnection.ProcessPacket | src/network/tcp/client.cpp:57-100 | effect of any packet in any state, with every throwing case; the fields go on refining the counters and the acknowledged count never decreases |
| TcpRuns.StepRefines | src/network/tcp/client.cpp:41-117 | every step of the 32-bit client matches a step of unbounded counters, and the acknowledged count never decreases |
| TcpRuns.RunRefines | src/network/tcp/client.cpp:15-117 | every run refines the unbounded counters |
| TcpRuns.SendSumInEveryRun | src/network/tcp/client.cpp:15-117 | in every reachable state `seq` is last acknowledged plus in flight, modulo 2^32, and one less while connecting |
| TcpRuns.OpenKeepsSumExactly | src/network/tcp/client.cpp:102-109 | opening keeps that sum if and only if the sequence number is the last acknowledged one |
| TcpRuns.RunStaysInWindow | src/network/tcp/client.cpp:41-79 | with shifts of at most 14 fewer than 2^30 bytes are in flight in every run |
| TcpRuns.AckExactIff | src/network/tcp/client.cpp:75-79 | the circular checks accept exactly the numbers in flight if and only if at most 2^31 positions are in flight |
| TcpRuns.AckExactInEveryRun | src/network/tcp/client.cpp:70-79 | so acknowledgements are judged exactly in every run with shifts of at most 14, and acknowledged positions move forward inside what was sent |
| TcpLimits.LargeShiftRefusesAck | src/network/tcp/client.cpp:70-79 | a run with shift 16 and more than 2^31 bytes in flight, and an acknowledgement of bytes sent that it refuses |
| TcpRuns.DataIsContiguous | src/network/tcp/client.cpp:32-55 | runs that send data only once connected number every data segment ISN + 1 + bytes sent before |
| TcpHeaders.StepAdds | src/network/tcp/client.cpp:32-117 | which segment each step sends: SYN 0x02 with options, RST 0x04, ACK 0x10 for a SYN-ACK (0x12) or data, otherwise none; its number, acknowledgement, id and payload |
| TcpHeaders.SynAckAnswered | src/network/tcp/client.cpp:81-95 | the SYN-ACK is answered by one bare ACK numbered after everything in flight and acknowledging the peer's SYN |
| TcpHeaders.HeadersInEveryRun | src/network/tcp/client.cpp:32-100 | over every run with an honest peer each segment of a connected client, bare ones included, carries ISN + 1 + payload bytes before it and the peer's ISN + 1 + bytes accepted so far; ids count up |
| TcpHeaders.OpenAndAbort | src/network/tcp/client.cpp:15-30 | fields of a new client, and all that opening and aborting change |
| TcpHeaders.ResetEndsRun | src/network/tcp/client.cpp:61-61 | any segment with bit 0x04 ends the run |
| TcpHeaders.TakenWithoutReset | src/network/tcp/client.cpp:57-79 | without that bit a valid segment in place with a fitting acknowledgement is taken |
| TcpHeaders.WindowFollows | src/network/tcp/client.cpp:70-73 | the scaled window of every segment taken replaces the old one, larger or smaller, unless it is 0 |
| TcpRuns.ReceivesPrefix | src/network/tcp/client.cpp:57-100 | with repeated segments, repeated SYN-ACKs and wrapping numbers, accepted bytes are a prefix of the peer's stream and `ack` names the next one at every moment if and only if whatever came while `ack` was 0 came in place |
| TcpLimits.InOrderIff | src/network/tcp/client.cpp:57-100 | every run with a given peer accepts a prefix of its stream if and only if its numbers end before the wrap or only one byte lies behind it |
| TcpLimits.RepeatAcceptedAtZero | src/network/tcp/client.cpp:63-68 | a run that accepts the one byte of a one-byte stream twice |
| TcpLimits.MisplacedAcceptedIffAckZero | src/network/tcp/client.cpp:57-100 | a segment that passes the other checks is taken and acknowledged if and only if it is in place or `ack` is 0; otherwise old ones are dropped and gaps throw |
| TcpLimits.UnambiguousInPlace | src/network/tcp/client.cpp:63-68 | with such numbers nothing arrives out of place while `ack` is 0, in any run |
| ByteStream.Stream.constructor | src/base/stream/stream.cpp:9-9 | an empty stream of the given capacity |
| ByteStream.Stream.Peek | src/base/stream/stream.cpp:21-27 | the first n bytes of the queue, or nothing if there are fewer |
| ByteStream.Stream.Pop | src/base/stream/stream.cpp:11-19 | removes exactly the first n bytes; the span stays readable because the buffer is not written |
| ByteStream.Stream.ShiftRead | src/base/stream/stream.cpp:46-54 | drops a prefix and rewinds an empty stream |
| ByteStream.Stream.PushBytes | src/base/stream/stream.cpp:39-44 | appends, or refuses exactly when the suffix is too small |
| ByteStream.Stream.Shift | src/base/stream/stream.h:102-107 | keeps the contents despite the overlapping copy and makes all free space usable |
| ByteStream.Stream.Search | src/base/stream/stream.h:39-51 | position of the first occurrence of the pattern, or that there is none, and the empty-pattern case |
| ByteStream.Stream.Overwrite | src/network/tls12/client.cpp:161-164 | writing into a popped span leaves the contents alone |
| ByteStream.ReadTransaction.constructor | src/base/stream/stream.h:127-129 | a transaction starts with the whole contents and nothing taken |
| ByteStream.ReadTransaction.Pop | src/base/stream/byte_view_stream.h:58-66 | takes the next n bytes without changing the stream |
| ByteStream.ReadTransaction.Commit | src/base/stream/stream.h:111-114 | removes and returns exactly the concatenation of the bytes taken |
| WriteStream.Writer.Push | src/base/stream/mutable_byte_view_stream.h:31-41 | appends, or refuses exactly when it does not fit |
| WriteStream.Writer.Reserve | src/base/stream/mutable_byte_view_stream.h:43-48 | moves the write position if there is room |
| WriteStream.Writer.Overwrite | src/base/stream/mutable_byte_view_stream.h:15-29 | a store through an earlier reference patches exactly those bytes |
| ClientHello.Build | src/network/tls12/client.cpp:240-257 | pushing the template and patching three lengths gives exactly the nested record, handshake and extension encoding |
| ClientHello.PushExtensions | src/network/tls12/client.cpp:249-251 | writes the whole extension block or refuses exactly when it does not fit |
| ClientHello.FillLengths | src/network/tls12/client.cpp:252-255 | stores the three lengths and changes nothing else |
| ClientHello.LengthsNest | src/network/tls12/messages.h:32-76 | for every host name that fits, record, handshake and block lengths agree and the block parses into exactly the five extensions |
| ClientHello.HelloWrittenOut | src/network/tls12/messages.h:16-30 | the whole record byte by byte up to the extensions |
| ClientHello.ExtensionsWrittenOut | src/network/tls12/messages.h:32-76 | the five extensions byte by byte |
| ClientHello.ServerNameNests | src/network/tls12/messages.h:32-43 | the three lengths inside the server-name extension each cover exactly what follows, down to the host name |
| ClientHello.InnerListLengths | src/network/tls12/messages.h:45-72 | group and renegotiation lists cover their contents, the signature list announces 0 of its two bytes |
| Scanner.ParseAppend | src/network/tls12/client.cpp:47-80 | parsing can stop anywhere: the rest and later bytes give the one-shot parse, bad input included |
| Scanner.ParseConserves | src/network/tls12/client.cpp:47-80 | frames followed by the rest are the input, and the rest holds no further frame |
| Scanner.ParseOfPrefix | src/network/tls12/client.cpp:47-80 | what has arrived of a stream that parses well is good so far and its frames are the first ones |
| Scanner.ParseOfWhole | src/network/wss/client.cpp:9-21 | a stream of whole frames parses back into exactly those frames |
| TlsRecords.ApplicationRuleIncremental | src/network/tls12/client.cpp:54-72 | later bytes never change a verdict on the record at the head |
| TlsRecords.LeftoverIsPartialRecord | src/network/tls12/client.cpp:54-57 | after a complete parse less than one record is left |
| TlsReader.TakeHello | src/network/tls12/client.cpp:262-282 | body and random of an accepted ServerHello record |
| TlsReader.TakeTyped | src/network/tls12/client.cpp:93-101 | the Certificate record's body, with the short-record and wrong-type cases |
| TlsReader.TakeKeyExchange | src/network/tls12/client.cpp:284-310 | the key exchange message by its inner lengths, committed whole or only the header consumed |
| TlsReader.TakeHelloDone | src/network/tls12/client.cpp:324-336 | the ServerHelloDone message, committed whole or only the header consumed |
| TlsReader.ReadClosing | src/network/tls12/client.cpp:167-182 | ChangeCipherSpec and Finished are consumed together or not at all |
| TlsClient.TlsConnection.constructor | src/network/tls12/client.cpp:22-24 | the initial TLS state around a TCP client |
| TlsClient.TlsConnection.Open | src/network/tls12/client.cpp:25-25 | construction connects the TCP client and nothing else |
| TlsClient.TlsConnection.PushBytes | src/network/tls12/client.h:44-52 | plaintext is appended to the send buffer or refused |
| TlsClient.TlsConnection.Encrypt | src/network/tls12/client.cpp:128-143 | in-place encryption: ciphertext and tag replace the plaintext, one sealing is recorded, the number advances modulo 2^64 |
| TlsClient.TlsConnection.BuildRecord | src/network/tls12/client.cpp:30-42 | the packet holds exactly the sealed record |
| TlsClient.TlsConnection.Flush | src/network/tls12/client.cpp:28-44 | all buffered plaintext leaves as one record, or the call throws |
| TlsClient.TlsConnection.SendClientHello | src/network/tls12/client.cpp:239-260 | hello sent and hashed without its record header |
| TlsClient.TlsConnection.BuildFlight | src/network/tls12/client.cpp:190-231 | the packet holds key exchange, ChangeCipherSpec and the sealed Finished record |
| TlsClient.TlsConnection.SendKeyExchangeAndFinished | src/network/tls12/client.cpp:184-236 | transcript, master secret, keys and packet after the key exchange |
| TlsClient.TlsConnection.ProcessServerHello | src/network/tls12/client.cpp:262-282 | effect of a whole first record |
| TlsClient.TlsConnection.ProcessCertificate | src/network/tls12/client.cpp:93-101 | effect of a whole second record |
| TlsClient.TlsConnection.ProcessServerKeyExchange | src/network/tls12/client.cpp:284-310 | effect of the key exchange record, including the copied public key |
| TlsClient.TlsConnection.ProcessServerHelloDone | src/network/tls12/client.cpp:108-115 | effect of ServerHelloDone, including the client's answer |
| TlsClient.TlsConnection.ProcessServerFinished | src/network/tls12/client.cpp:167-182 | effect of the server's last flight, or no change while it is incomplete |
| TlsClient.TlsConnection.ProcessHandshake | src/network/tls12/client.cpp:83-126 | dispatch on the handshake state, throwing in unexpected ones |
| TlsClient.TlsConnection.Decrypt | src/network/tls12/client.cpp:145-165 | in-place decryption of a popped span under the next read number |
| TlsClient.TlsConnection.ReceiveApplication | src/network/tls12/client.cpp:66-72 | plaintext of the next application record, with the short-record cases |
| TlsClient.TlsConnection.Receive | src/network/tls12/client.cpp:46-73 | the recursive call's result and state, or that it would never end |
| TlsClient.TlsConnection.ProcessPacket | src/network/tls12/client.cpp:75-81 | TCP step, then the payload is appended to the buffer or the call throws |
| TlsRuns.HandshakeStep | src/network/tls12/client.cpp:83-126 | a handshake step keeps the key invariant, moves forward, and consumes at least a record header unless it waits for Finished |
| TlsRuns.StuckIff | src/network/tls12/client.cpp:59-64 | the recursion repeats without progress exactly when ChangeCipherSpec is complete and Finished is not |
| TlsRuns.ReceiveIsLimit | src/network/tls12/client.cpp:46-73 | the modelled result is that of the unbounded recursion, and non-termination is reported exactly when it occurs |
| TlsRuns.SpinsIffReachesStuck | src/network/tls12/client.cpp:59-64 | a call never ends if and only if some pass reaches that situation |
| TlsRuns.ReceiveEndsIff | src/network/tls12/client.cpp:167-178 | on a client waiting for Finished, whether the call ends is decided by the buffered bytes |
| TlsRuns.LoneChangeCipherSpins | src/network/tls12/client.cpp:167-178 | a buffer holding only ChangeCipherSpec makes the call never end |
| TlsRuns.RunInv | src/network/tls12/client.cpp:128-143 | in every run encryption i uses nonce and AAD number i under the one installed key set |
| TlsRuns.RunProgress | src/network/tls12/client.cpp:83-126 | states only move forward, installed keys stay, the transcript is final once they are |
| TlsRuns.NoncesDistinctIff | src/network/tls12/client.cpp:128-143 | all nonces of a run are distinct if and only if there were at most 2^64 encryptions |
| TlsHandshake.TranscriptInEveryRun | src/network/tls12/client.cpp:83-126 | for every cut of a flight with one message per record, the transcript is exactly the six messages, and master secret, keys and Finished message are those the server derives from them |
| TlsMessages.HelloAcceptedIff | src/network/tls12/client.cpp:262-282 | a ServerHello written field by field is accepted if and only if its suite is 0xC02F, its compression 0 and two bytes follow |
| TlsMessages.KeyExchangeAcceptedIff | src/network/tls12/client.cpp:284-310 | a key exchange is read whole if it has type 12, a named curve and group 29, and is refused otherwise |
| TlsMessages.CertificateAcceptedIff | src/network/tls12/client.cpp:93-101 | only type 11 |
| TlsMessages.DoneAcceptedIff | src/network/tls12/client.cpp:324-336 | read by its length if the type is 14, refused otherwise |
| TlsMessages.FlightAccepted | src/network/tls12/client.cpp:83-115 | every flight a server writes field by field is one the handshake theorems are about |
| TlsMessages.ClosingAcceptedIff | src/network/tls12/client.cpp:167-178 | two records are taken together if and only if they are of types 20 and 22 and the first begins with 1 |
| TlsMessages.OtherVersionThrows | src/network/tls12/client.cpp:54-55 | a record header with another version than 3.3 ends the run |
| TlsMessages.OtherTypeThrows | src/network/tls12/client.cpp:66-67 | an established client refuses every record type but 23 |
| TlsMessages.OtherMessageThrows | src/network/tls12/client.cpp:93-115 | each handshake phase refuses messages of another type |
| TlsMessages.ReturnedBySize | src/network/tls12/client.cpp:66-72 | records of 8 to 24 bytes are refused, longer ones returned |
| TlsMessages.CutMessageLosesHeader | src/network/tls12/client.cpp:284-336 | a message that its record cuts short loses the record header and nothing else |
| TlsMessages.KeyExchangeCut | src/network/tls12/client.cpp:284-310 | every proper prefix of a key exchange is such a message |
| TlsMessages.DoneCut | src/network/tls12/client.cpp:324-336 | and every proper prefix of a ServerHelloDone |
| TlsAgreement.RunWired | src/network/tls12/client.cpp:28-44 | in every run the data segments are the hello, the answer and one record per further encryption, in order |
| TlsAgreement.WireHeaders | src/network/tls12/client.cpp:184-236 | the bytes of these segments that are in the clear |
| TlsAgreement.ServerAgrees | src/network/tls12/client.cpp:184-236 | over every run the server, from the bytes on the wire, derives the client's master secret and keys, opens the Finished message it expects, and then reads exactly what the application wrote |
| TlsAgreement.ServerOpens | src/network/tls12/client.cpp:128-143 | a record sealed by the client is opened by the server under its own half of the block and the record's number |
| TlsAgreement.ReceiveOpensWith | src/network/tls12/client.cpp:145-165 | key, IV and additional data with which a record is opened, written out |
| TlsAgreement.ReceiveReturns | src/network/tls12/client.cpp:145-165 | a record sealed by the server is returned as its plaintext |
| TlsHandshake.HandshakeCompletes | src/network/tls12/client.cpp:83-126 | once the whole flight has arrived, however cut, the next call that returns has installed the keys and sent Finished |
| TlsPeer.RunAligned | src/network/tls12/client.cpp:46-126 | in every run on a server's stream the buffer begins at a record of it, and the read number is that of the next application record |
| TlsCalls.SpinsIffCutInGap | src/network/tls12/client.cpp:46-64 | in every such run the next call never ends if and only if the arrived bytes end between ChangeCipherSpec and the end of Finished, the hello is out, and the answer is sent or fits |
| TlsCalls.ThrowsIffAnswerDoesNotFit | src/network/tls12/client.cpp:46-126 | once the hello is out, on records the client can decrypt, the next call throws if and only if the whole flight has arrived and the answer, not yet sent, does not fit packet or window |
| TlsCalls.ReceiveEstablishes | src/network/tls12/client.cpp:83-126 | once the whole handshake has arrived, the next call that returns has established the connection |
| TlsTraffic.PollApplication | src/network/tls12/client.cpp:54-72 | one call of an established client in terms of the record rule |
| TlsTraffic.DrainReassembles | src/network/wss/client.cpp:81-86 | a drain returns every whole record in order and leaves a partial one |
| TlsTraffic.RunReassembles | src/network/tls12/client.cpp:47-80 | over every run with any cuts and any polls, plaintexts returned plus what is buffered are the one-shot parse |
| TlsTraffic.SegmentationIndependent | src/network/tls12/client.cpp:47-80 | two drained runs on the same bytes agree in plaintexts and leftover, however packets were cut |
| TlsCuts.DrainByParse | src/network/tls12/client.cpp:47-73 | what a drain returns and leaves, from the one-shot parse of the buffer alone |
| TlsCuts.CutsDoNotMatterIff | src/network/tls12/client.cpp:66-70 | for every established client and input, all cuts give the same plaintexts and state if and only if no record is shorter than its IV, or what its loss leaves is less than a record and no cut can fall into the lost bytes |
| TlsCuts.DriveIsPieces | src/network/tls12/client.cpp:75-81 | packets of the worker loop are such pieces, with the same plaintexts; TCP has no part in what is returned |
| TlsCuts.DriveIndependent | src/network/tls12/client.cpp:75-81 | two packetings of the same bytes return the same plaintexts and leave the same TLS state under that condition |
| TlsTraffic.DrainConsumes | src/network/tls12/client.cpp:66-72 | the only byte counts a drain can consume |
| TlsTraffic.DrainShrinks | src/network/tls12/client.cpp:145-165 | plaintext returned and bytes left never exceed bytes buffered |
| TlsPeer.DrainLeftover | src/network/tls12/client.cpp:47-73 | on a server's stream with records of at most 18432 bytes a drained buffer holds less than one record |
| TlsPeer.NeverOverflows | src/network/tls12/client.h:111-111 | for every such server and every cut, from the handshake on, the next segment of at most 1460 bytes fits the 20600-byte buffer |
| TlsPeer.BuffersHold | src/network/tls12/client.h:109-111 | both buffers refuse exactly what exceeds 20600 bytes |
| Transport.ConnectedIff | src/network/tcp/client.cpp:81-95 | in every run of a new client TCP is connected if and only if a SYN-ACK packet came |
| Transport.AllNewIffInSequence | src/network/tls12/client.cpp:75-81 | with an honest peer TCP accepts every payload if and only if the packets' payloads come in sequence |
| Transport.InputIsAcceptedIffInSequence | src/network/tls12/client.cpp:75-81 | with a peer that may repeat segments, TLS is given the stream TCP accepted if and only if the payloads come in sequence |
| TlsTraffic.RepeatedPayloadBuffered | src/network/tls12/client.cpp:75-81 | any segment that is accepted and comes again is buffered twice and accepted once |
| Stack.RepeatedPayloadRun | src/network/tls12/client.cpp:75-81 | a run of a new client in which this happens |
| TlsTraffic.SealedShape | src/network/tls12/client.cpp:128-143 | the length field covers the rest and the explicit IV is the number in nonce and AAD |
| TlsTraffic.FlushedRecord | src/network/tls12/client.cpp:28-44 | bytes sent are 5 plus the length field, the explicit IV is the number in nonce and AAD, and a peer cutting by the same rule takes the record whole |
| TlsTraffic.FinishedFlight | src/network/tls12/client.cpp:184-236 | layout of the last handshake packet; Finished is encryption 0 under the new keys |
| TlsTraffic.KeysCoverBlock | src/network/tls12/client.h:127-133 | the four keys and IVs are the key block cut in order |
| Stack.TraceRuns | src/network/tls12/client.cpp:22-81 | the TCP part of every TLS run is a run of the TCP client with the same accepted bytes |
| Transport.TlsReceivesPrefix | src/network/tls12/client.cpp:75-81 | over every run from two new clients whose packets are a peer's and in sequence, also past the wrap: TLS is given a prefix of the peer's stream, it is what TCP accepted, and `ack` names the next byte |
| Transport.HeadersInSession | src/network/tcp/client.cpp:32-100 | numbers of every segment sent in such a run whose first packet is the SYN-ACK |
| Stack.SessionDataContiguous | src/network/tcp/client.cpp:32-55 | if the first packet is the SYN-ACK, hello, key exchange and all later records are numbered ISN + 1 + bytes sent before |
| Stack.ContiguousIffSynAckFirst | src/network/tls12/client.cpp:48-52 | when the first packet carries no data and is followed by a call, this holds if and only if that packet is the SYN-ACK |
| Stack.EarlyHelloOccurs | src/network/tls12/client.cpp:48-52 | a run in which a bare ACK comes first and the hello goes out with the number of the SYN |
| Stack.DataIsPushed | src/network/tls12/client.cpp:30-30 | in every run each segment with data has flags 0x18 |
| WssFrames.FrameRuleIncremental | src/network/wss/model.h:121-150 | later bytes never change a verdict on the frame at the head |
| WssFrames.ExtractByRule | src/network/wss/client.cpp:9-21 | a whole frame is taken, or nothing at all, or the call throws |
| WssFrames.HeaderLostIff | src/network/wss/client.cpp:11-14 | a header is consumed without its frame if and only if the 64-bit sum of lengths wraps |
| WssFrames.WrappedLengthLosesHeader | src/network/wss/client.cpp:11-14 | a concrete header that is lost |
| WssFrames.RoundTripIff | src/network/wss/model.h:41-69 | the minimal unmasked encoding decodes to the same frame if and only if the payload is not 125 bytes and the opcode at most 10 |
| WssFrames.StreamRoundTrip | src/network/wss/model.h:90-150 | a server's stream of such frames parses back into exactly those frames |
| WssClient.PeekFrameHeader | src/network/wss/model.h:121-150 | the decoded header of the bytes at the head, or nothing |
| WssClient.ExtractFrame | src/network/wss/client.cpp:9-21 | code, payload span and remaining contents |
| WssClient.WssConnection.Fill | src/network/wss/client.cpp:81-86 | the loop ends and the stream holds everything TLS offered, in order, or the call throws |
| WssClient.WssConnection.AcceptHandshake | src/network/wss/client.cpp:57-77 | accepts exactly when status and blank line have arrived and drops through the first blank line |
| WssClient.WssConnection.GenerateUpgradeRequest | src/network/wss/client.cpp:41-55 | the request leaves as one flushed record |
| WssClient.WssConnection.Advance | src/network/wss/client.cpp:87-97 | connection state transition once TLS is established |
| WssClient.WssConnection.TakeFrame | src/network/wss/client.cpp:99-105 | one frame, handed on only if Text or Binary |
| WssClient.WssConnection.NextMessage | src/network/wss/client.cpp:79-106 | message and state after one call |
| WssClient.WssConnection.ProcessPacket | src/network/wss/client.h:42-45 | packets go to TLS |
| WssRuns.AskDelivers | src/network/wss/client.cpp:79-106 | one call keeps frames consumed plus buffered equal to the one-shot parse |
| WssRuns.TakesByOpcode | src/network/wss/client.cpp:99-105 | a frame with opcode 0x1 or 0x2 is returned, one with another opcode up to 10 consumed, any other refused |
| WssRuns.MaskedIsRefused | src/network/wss/client.cpp:17-17 | a masked frame is refused |
| WssRuns.FillsIff | src/network/wss/client.h:53-53 | the buffer takes up to 200000 bytes |
| WssModel.PatternsAreTexts | src/network/wss/client.cpp:64-65 | status and blank line as text |
| WssRuns.RunEndToEnd | src/network/wss/client.cpp:79-106 | over every run nothing is lost, repeated or reordered between received bytes, TLS records, frames and messages |
| WssRuns.LeavesInitEmpty | src/network/wss/client.cpp:88-91 | leaving Init without early data only sends the request |
| WssRuns.LeavingInitKeepsIff | src/network/wss/client.cpp:87-99 | early data survives leaving Init if and only if it holds neither a whole frame nor a length that wraps |
| WssRuns.EarlyResponseLost | src/network/wss/client.cpp:87-99 | an early response loses its first 86 bytes as a frame |
| WssRuns.UpgradeBoundary | src/network/wss/client.cpp:57-99 | for every cut the client is connected exactly when status and blank line arrived, and frames start after the first blank line |
| WssRuns.UpgradedIff | src/network/wss/client.cpp:64-73 | a response is accepted if and only if it holds "HTTP/1.1 101" somewhere and a blank line somewhere |
| WssRuns.FramesBegin | src/network/wss/client.cpp:67-74 | the frames are what follows the first blank line |
| WssRuns.MessagesAreThoseSent | src/network/wss/client.cpp:99-105 | messages returned plus those still buffered are exactly the Text and Binary payloads the server sent |
| WssRuns.LoopEnds | src/gateway/ws_demo/service.cpp:65-69 | the worker's inner loop ends: it stops early only if some call throws |
| WssRuns.LoopStopsAtControl | src/gateway/ws_demo/service.cpp:64-69 | a round right after a packet buffers all that TLS has, returns the data frames up to the first control frame and leaves all later frames buffered |
| WssRuns.RoundDeliversAllIff | src/gateway/ws_demo/service.cpp:64-69 | a round leaves no complete frame if and only if no control frame precedes another frame |
| WssRuns.RoundLeavesFrame | src/gateway/ws_demo/service.cpp:64-69 | a round on a Ping followed by a Text frame returns nothing and leaves the Text frame |
| Session.Opening | src/network/wss/client.cpp:79-99 | over every run of a new client whose server waits for the request: nothing is buffered or returned until the request is sent, and then exactly the application records follow |
| Session.SessionDelivers | src/network/wss/client.cpp:79-106 | from new clients, over every cut and any calls: messages returned and buffered are the beginning of those in the frames that the server sealed under its own keys, and all of them once everything has arrived and was asked for |
| Session.ServerReadsRequest | src/network/wss/client.cpp:41-55 | over every run past Init the server opens Finished and then exactly the upgrade request |
| Session.SessionOverTcp | src/gateway/ws_demo/service.cpp:33-69 | the same from the packets on: if they are those of a peer whose stream is the server's and come in sequence |
| Passage.SessionSucceeds | src/gateway/ws_demo/service.cpp:33-69 | for every server and environment with enough room the session connects, shakes hands, upgrades and delivers all messages; nothing throws or hangs |
| Passage.SomeSessionSucceeds | src/gateway/ws_demo/service.cpp:33-69 | one such session, with every value given |
| Session.TlsTraceRuns | src/network/wss/client.cpp:79-106 | the TLS part of every WebSocket run is a run of the TLS client on the same bytes |
| Session.SessionNumberedIff | src/gateway/ws_demo/service.cpp:64-69 | a session's data segments are contiguous if and only if its first packet, without data, is the SYN-ACK |
| PacketLengths.PacketView.Init | src/network/tcp/packet_view.cpp:26-46 | header sizes and option block of an outgoing packet; throws exactly when the 16-bit length cannot match |
| PacketLengths.PacketView.ResizePayload | src/network/tcp/packet_view.cpp:21-24 | frame of the predicted size, IP length covering it, payload view of exactly the requested length |
| PacketLengths.PacketView.StoreTotalLength | src/network/eth_ip/ip.cpp:47-51 | the stored IP length is the view's size modulo 2^16 and nothing else changes |
| BurstQueues.Device.FlushSendQueue | src/network/dpdk/device.cpp:77-89 | accepted packets followed by the queue stay the enqueue order, for every partial acceptance |
| BurstQueues.TakesAny | src/network/dpdk/device.cpp:82-82 | the model leaves open how much of a burst the NIC takes |
| BurstQueues.Device.Compact | src/network/dpdk/device.cpp:84-88 | the overlapping copy keeps exactly the packets not sent |
| BurstQueues.Device.EnqueueForSend | src/network/dpdk/device.cpp:65-75 | the packet joins the end; a full burst is offered first |
| BurstQueues.Device.Receive | src/network/dpdk/device.cpp:23-37 | fetched packets are handed out once and in order before another burst is requested |
| BurstQueues.WithinBurstIff | src/network/dpdk/device.cpp:65-89 | over every series of enqueues and flushes the queue stays within one burst if and only if no full burst is refused at an enqueue |
| BurstQueues.OnlyFlushShrinks | src/network/dpdk/device.cpp:65-89 | while longer than a burst, its length is the packets queued minus those taken at explicit flushes |
| BurstQueues.RefusalStopsAutomaticFlush | src/network/dpdk/device.cpp:65-75 | after one refusal and without explicit flushes the queue grows with every packet |
| BurstQueues.SendsEmptyIff | src/network/arp/arp_handler.cpp:26-35 | when each packet is followed by a flush, none is left waiting if and only if the NIC takes something at every flush |
| BurstQueues.SendsCatchUp | src/network/arp/arp_handler.cpp:26-35 | after refusals one flush taken whole empties the queue |

## Left out

- Certificate, signature and authentication-tag checks: the code makes none of them.
- IP and TCP checksums, mbuf allocation and a refused single transmit: foreign calls.
- Device initialisation, ARP, logging, configuration, clocks and command line: no protocol logic.
- Window shifts of 32 and more, which are undefined in the source; the model keeps the low 32 bits of the product.
- A TCP header whose data offset is below 20; received packets are taken as well formed once the length check passed.
- `send_client_certificate`, which is never called.
- The byte order of the default extensions in memory, which the tuple type does not specify; the declared order is used.
- Explicit byte order of `BE<T>` in host memory: fields are modelled by their bytes on the wire.
- TcpRuns.ReceivesPrefix: covers runs without `send_rst`, which only the destructor calls, and segments less than 2^31 from the accepted position.
- TcpRuns.RunRefines: the connection is opened only with nothing in flight, as the TLS constructor does.
- TlsPeer.NeverOverflows: record limits of section 6.2.3 of RFC 5246 are an assumption about the peer; the code does not check them.
- WssRuns.RunEndToEnd: starts past Init, where `Session.SessionDelivers` leads to; the 200000-byte buffer may overflow, which ends the run, and the statement is about runs that do not.
- Passage.SessionSucceeds: handshake and application bytes come in one segment each, which the model does not limit to 1460 bytes; cuts are the subject of `Session.SessionDelivers`.
- Session.SessionDelivers: the server sends no application data before the request; `WssRuns.LeavingInitKeepsIff` says what happens to early data.
- ClientHello.Build: the packet is shorter than 65536 bytes, which the 16-bit IP length enforces.
- PacketLengths.PacketView.Init: the buffer must hold all headers it writes, which the source does not check.
- PacketLengths.PacketView.ResizePayload: the resized frame must fit the buffer, which the source does not check.
