# DoIP client: vehicle discovery conversation and TCP receive framing

A Dafny model of two sequential cores of a DoIP (Diagnostics over Internet
Protocol, ISO 13400-2) client library.

1. **The vehicle-discovery conversation** (`VdConversation`). It renders byte
   ranges as colon-separated lowercase hexadecimal or as one character per
   byte (`Codec`). It decodes the vehicle identification response payload
   into a vehicle record (`VehicleInfo`): VIN at bytes [0,17), logical
   address as big-endian 16 bits at [17,19), EID at [19,25), GID at [25,31).
   It keeps the records in a collection keyed by logical address. A vehicle
   identification request drains that collection into a list and reports
   `StatusOk`, `NoResponseReceived` or `TransmitFailedResult`.
2. **The TCP client socket** (`TcpFraming`, `TcpClient`). The receive cycle
   reads the 8-byte DoIP generic header. It takes the payload length from
   header bytes 4..7 (big-endian, 32 bits) and reads that many more bytes. It
   hands header plus payload to the read callback. The `running_` and
   `exit_request_` flags are driven by connect, disconnect, receive failures
   and destruction, and they gate the worker loop.

Modelling choices:

- Bytes are the subset type `Byte` (0..255). `Uint16` and `Uint32` stand for
  `std::uint16_t` and `std::uint32_t`. Strings are `seq<char>`.
- Null pointers are `Option.None`.
- Every I/O result is a parameter: the connection's transmission result, and
  the socket's open, bind, connect, shutdown and write error codes.
- The peer of the TCP socket is a `Stream`: the bytes it will still deliver,
  then how it ends (`PeerClosed` gives `Eof`, `Broken` gives any other error).
  A blocking read of `n` bytes succeeds when `n` bytes are pending. Otherwise
  it delivers what was pending and fails with the stream's end code.
- The collection is an immutable `map<Uint16, VehicleAddrInfo>`. The list
  built from it follows `std::map` iteration order, ascending by key.
- The header size `kDoipheadrSize` is defined outside the modelled files. It
  is 8 here, the DoIP generic header size, since the receive path reads
  header bytes up to index 7.

Behaviour of the code that the model keeps as written:

- `HandleMessage` stores with `std::map::emplace`, which does not replace an
  existing entry. The first response for a logical address is kept and later
  ones are dropped (`FirstResponseWins`).
- `VerifyVehicleInfoRequest` accepts every request, so `InvalidParameters` is
  never returned (`SendVehicleIdentificationRequest`).
- The vehicle list is built by iterating the `std::map`, so it is in
  ascending logical-address order (`VehicleList`).
- The decoder does no bounds check. A payload shorter than 31 bytes is
  outside what the code defines, so it is a precondition (`Decodable`).
- After a successful header read, the payload read's error code is not
  examined. The callback gets a buffer of the announced size even when the
  payload was cut short, and reading stays on (`ShortPayloadStillDelivered`).

## Model

| member | source | states |
|---|---|---|
| Codec.TripCount | diag-client-lib/appl/src/dcm/conversion/vd_conversation.cpp:25-27 | the converters' loop runs `count` times when `start + count` fits in eight bits, and not at all when the 8-bit sum wraps around |
| Codec.StreamHex | diag-client-lib/appl/src/dcm/conversion/vd_conversation.cpp:34 | `std::hex` output of a value is a non-empty string of lowercase hex digits whose numeric value is the value; it has one digit exactly below 16 and at most two below 256 |
| Codec.HexByte | diag-client-lib/appl/src/dcm/conversion/vd_conversation.cpp:29-34 | with the "0" pad for values up to 15, every byte renders as exactly two lowercase hex digits whose value is the byte |
| Codec.AppendHexGroups | diag-client-lib/appl/src/dcm/conversion/vd_conversation.cpp:27-36 | what the loop accumulates is the ':'-joined two-digit groups followed by one ':' |
| Codec.ConvertToHexString | diag-client-lib/appl/src/dcm/conversion/vd_conversation.cpp:22-39 | for a non-empty in-bounds range, the result is the groups joined by ':', has length 3·count−1 and does not end with ':' |
| Codec.ParseJoinHex | diag-client-lib/appl/src/dcm/conversion/vd_conversation.cpp:22-39 | reading back the ':'-joined rendering gives the original bytes |
| Codec.ParsedIsCanonical | diag-client-lib/appl/src/dcm/conversion/vd_conversation.cpp:22-39 | any string that reads back as bytes is exactly the rendering of those bytes (the rendering is the only form) |
| Codec.HexStringRoundTrip | diag-client-lib/appl/src/dcm/conversion/vd_conversation.cpp:22-39 | the hex converter's output reads back as exactly the bytes of the range |
| Codec.HexStringExample | diag-client-lib/appl/src/dcm/conversion/vd_conversation.cpp:22-39 | bytes 0x00, 0x1A, 0xFF render as "00:1a:ff" |
| Codec.AppendAscii | diag-client-lib/appl/src/dcm/conversion/vd_conversation.cpp:46-50 | the loop yields one character per byte, character i having code byte i |
| Codec.ConvertToAsciiString | diag-client-lib/appl/src/dcm/conversion/vd_conversation.cpp:41-52 | the result has `count` characters whose codes are the range's bytes, and is empty when `start + count` wraps around eight bits |
| Codec.AsciiStringRoundTrip | diag-client-lib/appl/src/dcm/conversion/vd_conversation.cpp:41-52 | the codes of the ASCII converter's output are exactly the bytes of the range |
| VehicleInfo.CombineLogicalAddress | diag-client-lib/appl/src/dcm/conversion/vd_conversation.cpp:172-173 | the logical address has the high byte (payload byte 17) as its upper eight bits and the low byte (payload byte 18) as its lower eight bits |
| VehicleInfo.DeserializeVehicleInfoResponse | diag-client-lib/appl/src/dcm/conversion/vd_conversation.cpp:160-183 | the key equals the record's logical address, which is payload[17]·256 + payload[18]; VIN is the characters of bytes 0..16; EID and GID read back as bytes 19..24 and 25..30; the address is the sender's |
| VehicleInfo.EncodeUint16 | diag-client-lib/appl/src/dcm/conversion/vd_conversation.cpp:172-173 | writing an address as two big-endian bytes and combining them as the decoder does gives the address back |
| VehicleInfo.DecodedFieldBytes | diag-client-lib/appl/src/dcm/conversion/vd_conversation.cpp:160-183 | each field of a decoded record writes back to the payload bytes it was decoded from: VIN to 0..16, address to 17..18, EID to 19..24, GID to 25..30 |
| VehicleInfo.EncodeDecoded | diag-client-lib/appl/src/dcm/conversion/vd_conversation.cpp:160-183 | every decoded record can be written back in the same layout, and gives the payload's first 31 bytes |
| VehicleInfo.DecodeEncoded | diag-client-lib/appl/src/dcm/conversion/vd_conversation.cpp:160-183 | decoding a written record gives back the same key and record, whatever bytes follow |
| VehicleInfo.DecodeIgnoresTrailer | diag-client-lib/appl/src/dcm/conversion/vd_conversation.cpp:160-183 | bytes from offset 31 on do not influence the decoded record |
| VehicleInfo.DecodeExample | diag-client-lib/appl/src/dcm/conversion/vd_conversation.cpp:160-183 | address bytes 0x0E, 0x80 decode to 3712; VIN "WVWZZZ1JZXW000001", EID 01..06 and GID 0a..0f come out of the example payload |
| VdConversation.HandleMessage | diag-client-lib/appl/src/dcm/conversion/vd_conversation.cpp:146-154 | a null message changes nothing; otherwise the decoded key is present afterwards, an existing record for it is kept, and no other key is added or changed |
| VdConversation.HandleMessageWellKeyed | diag-client-lib/appl/src/dcm/conversion/vd_conversation.cpp:146-154 | handling keeps every record stored under its own logical address |
| VdConversation.HandleMessageIdempotent | diag-client-lib/appl/src/dcm/conversion/vd_conversation.cpp:146-154 | handling the same response twice leaves the same collection as handling it once |
| VdConversation.FirstResponseWins | diag-client-lib/appl/src/dcm/conversion/vd_conversation.cpp:152 | after a series of responses, an address is present iff it was before or some response carried it; its record is the earlier one or the FIRST response's record |
| VdConversation.AscendingKeys | diag-client-lib/appl/src/dcm/conversion/vd_conversation.cpp:60 | the map's keys enumerated in strictly ascending order, each exactly once |
| VdConversation.VehicleList | diag-client-lib/appl/src/dcm/conversion/vd_conversation.cpp:55-61 | list entry i is the record under the i-th smallest key |
| VdConversation.VehicleListContents | diag-client-lib/appl/src/dcm/conversion/vd_conversation.cpp:55-61 | the list has one entry per map entry, contains every stored record and nothing else, and is strictly ascending by logical address |
| VdConversation.SendVehicleIdentificationRequest | diag-client-lib/appl/src/dcm/conversion/vd_conversation.cpp:103-126 | never InvalidParameters; a failed transmit gives TransmitFailedResult, no list and an untouched collection; otherwise an empty collection gives NoResponseReceived and no list, and a non-empty one gives StatusOk with exactly `VehicleList` of the collection (every record once, by ascending logical address) and an empty collection afterwards |
| VdConversation.VerifyVehicleInfoRequest | diag-client-lib/appl/src/dcm/conversion/vd_conversation.cpp:156-158 | every request passes verification, whatever its preselection mode and value |
| VdConversation.EmptyThenResponses | diag-client-lib/appl/src/dcm/conversion/vd_conversation.cpp:103-126 | a round with no response reports NoResponseReceived; responses handled after it are all returned by the next round; the round after that reports NoResponseReceived again |
| VdConversation.IndicateMessage | diag-client-lib/appl/src/dcm/conversion/vd_conversation.cpp:130-144 | an empty payload gives IndicationNOk with no message; otherwise IndicationOk with a message whose payload is `size` zero bytes |
| TcpFraming.LengthRoundTrip | diag-client-lib/lib/boost-support/socket/tcp/tcp_client.cpp:178-182 | a length written big-endian into header bytes 4..7 is read back as that length |
| TcpFraming.PayloadLength | diag-client-lib/lib/boost-support/socket/tcp/tcp_client.cpp:178-182 | the length read from header bytes 4..7 is the one 32-bit length whose big-endian encoding is those four bytes |
| TcpFraming.Frame | diag-client-lib/lib/boost-support/socket/tcp/tcp_client.cpp:178-185 | a header announcing the payload's size followed by the payload is a well-formed frame whose payload part is that payload |
| TcpFraming.ValidFrameIsFrame | diag-client-lib/lib/boost-support/socket/tcp/tcp_client.cpp:178-185 | every buffer of header plus announced payload is the framing of its own header prefix and payload |
| TcpClient.Open | diag-client-lib/lib/boost-support/socket/tcp/tcp_client.cpp:52-86 | succeeds iff both open and bind report success |
| TcpClient.ConnectToHost | diag-client-lib/lib/boost-support/socket/tcp/tcp_client.cpp:89-113 | succeeds iff the connect reports success; then the channel is running; on failure the flags are unchanged; exit is never requested |
| TcpClient.DisconnectFromHost | diag-client-lib/lib/boost-support/socket/tcp/tcp_client.cpp:116-134 | succeeds iff the shutdown reports success; then the channel is not running; on failure the flags are unchanged |
| TcpClient.Transmit | diag-client-lib/lib/boost-support/socket/tcp/tcp_client.cpp:137-158 | succeeds iff the write reports success |
| TcpClient.Destruct | diag-client-lib/lib/boost-support/socket/tcp/tcp_client.cpp:45-50 | afterwards exit is requested and the channel is not running |
| TcpClient.WorkerStep | diag-client-lib/lib/boost-support/socket/tcp/tcp_client.cpp:27-41 | the loop runs a receive cycle iff running and no exit requested, and leaves iff exit was requested |
| TcpClient.CreatedWaits | diag-client-lib/lib/boost-support/socket/tcp/tcp_client.cpp:21-34 | the constructor's flags park the worker on the condition variable; a successful connect then arms it, and destruction makes it leave |
| TcpClient.DestructStopsWorker | diag-client-lib/lib/boost-support/socket/tcp/tcp_client.cpp:45-50 | after destruction the worker loop leaves, whatever the flags were |
| TcpClient.ConnectArmsDisconnectParks | diag-client-lib/lib/boost-support/socket/tcp/tcp_client.cpp:101-124 | on a live channel a successful connect makes the worker receive, and a successful disconnect parks it |
| TcpClient.Read | diag-client-lib/lib/boost-support/socket/tcp/tcp_client.cpp:174-185 | a blocking read of `n` bytes succeeds iff `n` bytes are pending, and then delivers exactly `n`; otherwise it delivers fewer, empties the stream and reports its end code; either way the delivered bytes followed by what remains are the stream's bytes, in order |
| TcpClient.HandleMessage | diag-client-lib/lib/boost-support/socket/tcp/tcp_client.cpp:168-209 | with a full header, the callback gets one message from the peer holding a buffer of header size plus announced length whose first 8 bytes are the header, and the flags stay; with the whole payload present that buffer is exactly the next 8 + length bytes; with a short header nothing is delivered and running becomes false |
| TcpClient.PayloadSlotIndexable | diag-client-lib/lib/boost-support/socket/tcp/tcp_client.cpp:184-185 | the payload slot `&rx_buffer[kDoipheadrSize]` is a valid `operator[]` index exactly when the announced length is not zero |
| TcpClient.ResizedLength32 | diag-client-lib/lib/boost-support/socket/tcp/tcp_client.cpp:184 | with a 32-bit `std::size_t` the buffer size is header plus length exactly when the length is below 2^32 - 8, and falls below the header size otherwise |
| TcpClient.WrappedLengthEmptiesBuffer | diag-client-lib/lib/boost-support/socket/tcp/tcp_client.cpp:184 | a header announcing 0xFFFFFFF8 bytes makes that size wrap to 0 |
| TcpClient.AliveCheckIndexesPastEnd | diag-client-lib/lib/boost-support/socket/tcp/tcp_client.cpp:184-185 | an alive-check request header, which announces no payload, makes that index one past the end |
| TcpClient.ZeroLengthDeliversHeader | diag-client-lib/lib/boost-support/socket/tcp/tcp_client.cpp:184-197 | with a zero announced length the cycle reads no payload, delivers the 8 header bytes alone, keeps the flags and leaves the rest of the stream |
| TcpClient.FrameRoundTrip | diag-client-lib/lib/boost-support/socket/tcp/tcp_client.cpp:171-197 | a frame followed by anything is received as exactly that frame, leaving the rest for the next cycle |
| TcpClient.ShortPayloadStillDelivered | diag-client-lib/lib/boost-support/socket/tcp/tcp_client.cpp:183-197 | when the payload is cut short, the callback still gets header, the bytes that came and zeros up to the announced size, and running stays on |
| TcpClient.RunWorker | diag-client-lib/lib/boost-support/socket/tcp/tcp_client.cpp:27-41 | the loop keeps receiving until the worker is no longer armed, and never changes the exit flag |
| TcpClient.RunWorkerFrames | diag-client-lib/lib/boost-support/socket/tcp/tcp_client.cpp:27-41 | an armed worker reading a stream of well-formed frames delivers each frame once, in order, then stops running at the end of the stream |
| TcpClient.RunningDecidedByLastEvent | diag-client-lib/lib/boost-support/socket/tcp/tcp_client.cpp:89-134 | after any series of connects, disconnects and header-read failures, running is decided by the last successful connect or disconnect or failed read; exit is never requested |

## Left out

- Threads, the mutex and the condition variable. The worker loop is modelled by one pass (`WorkerStep`) and by its run while nothing else changes the flags (`RunWorker`). Interleavings are not modelled. This includes the drain in `SendVehicleIdentificationRequest`, which takes no lock.
- The response window. The collection is read as soon as the connection's `Transmit` returns, so any window for responses lies inside that `Transmit`, which is not part of this model. The collection is a parameter holding whatever had arrived by then, including responses left from earlier rounds.
- Socket calls that report through an error code (open, bind, connect, shutdown, write, read). Their outcomes are parameters.
- The exceptions of the throwing calls: `set_option` and `non_blocking` in `Open` (tcp_client.cpp:59, 61), `from_string` of a malformed address in `Open` and `ConnectToHost` (tcp_client.cpp:63, 93), `rx_buffer.resize` in `HandleMessage` (tcp_client.cpp:184), which throws `std::bad_alloc` when the peer announces more than can be allocated and, uncaught in the worker thread, ends the process, and `remote_endpoint()` in `HandleMessage` (tcp_client.cpp:188). The model takes each of these calls to succeed. In particular, after a payload read that failed because the peer went away, `remote_endpoint()` may throw instead of delivering; the model always delivers.
- IP-address parsing, endpoint formatting and logging.
- `Destroy` (tcp_client.cpp:161-165): it closes the socket handle and returns true. The handle is not part of the model.
- `Startup`, `Shutdown`, `RegisterConnection`, `GetDiagnosticServerList`, `GetConversationHandler` and the `VdConversationHandler` forwarding functions: wiring with no logic of their own.
- The outgoing request message (`VdMessage` built from the request and the broadcast address) and its serialization. vd_message.h is not part of this model. The request is a parameter that the conversation does not inspect.
- The enumerators of the transmission and indication results other than the ones the code tests. `SendVehicleIdentificationRequest` only tells `kTransmitFailed` apart, so `TransmitOk` stands for every other value.
- A message made by `IndicateMessage` is taken to have the empty string as its peer address and an empty payload before it is resized to `size` zero bytes. vd_message.h, which defines the default-constructed message, is not part of this model.
- udp_TransportHandler.cpp: one-line delegation to a channel and a connection that are not part of this model.
- logger.h: a logging sink with no behaviour to state.
- TcpClient.HandleMessage: a zero announced length is modelled by what happens in practice, a zero-byte read after which the header is delivered alone, although the code indexes one past the end of the buffer there (see "## Findings"). `FrameRoundTrip` and `RunWorkerFrames` cover empty payloads on the same terms. The model also assumes a 64-bit `std::size_t`, so that `kDoipheadrSize + read_next_bytes` never wraps (with a 32-bit one it wraps for lengths of 0xFFFFFFF8 or more, see "## Findings"), and a successful `resize`, so that any announced length up to 2^32 - 1 gets its buffer.
- VehicleInfo.DeserializeVehicleInfoResponse: requires a payload of at least 31 bytes. The source indexes the payload unchecked, and a shorter payload is undefined behaviour there. `VdConversation.HandleMessage` inherits this requirement for non-null messages.
- TcpFraming.PayloadLength: the shifts, masks and ORs are modelled by their arithmetic value, the big-endian reading of bytes 4..7. On byte values each mask keeps exactly the shifted byte, and the four parts occupy disjoint bits. The signed-int shift of a byte of 128 or more by 24 is taken at its intended value.
- VehicleInfo.CombineLogicalAddress: the masks and the shift-OR are likewise modelled by the value `high·256 + low`. That value fits in 16 bits, so the cast does not truncate.

## Findings

| source | as written | input that shows it | evidently intended | confidence | as-written member | corrected member |
|---|---|---|---|---|---|---|
| diag-client-lib/lib/boost-support/socket/tcp/tcp_client.cpp:184-185 | the buffer is resized to `kDoipheadrSize + read_next_bytes` and the payload read starts at `&rx_buffer[kDoipheadrSize]`, which `operator[]` allows only below the size | header `02 FD 00 07 00 00 00 00` (alive-check request, zero payload length): the index 8 is one past the end of an 8-byte buffer, undefined behaviour that aborts under `_GLIBCXX_ASSERTIONS` | a zero-byte payload read, then the header delivered alone | medium, not executed | TcpClient.PayloadSlotIndexable, TcpClient.AliveCheckIndexesPastEnd | TcpClient.ZeroLengthDeliversHeader |
| diag-client-lib/lib/boost-support/socket/tcp/tcp_client.cpp:184-185 | the buffer size `kDoipheadrSize + std::size_t(read_next_bytes)` is computed in `std::size_t`, which wraps modulo 2^32 on a 32-bit target | header `02 FD 80 01 FF FF FF F8` (announced length 0xFFFFFFF8): the size wraps to 0, the buffer is shrunk below the header, and the payload read writes past its end | the buffer holds the 8 header bytes plus the whole announced payload | low, not executed; affects 32-bit targets only | TcpClient.ResizedLength32, TcpClient.WrappedLengthEmptiesBuffer | TcpClient.HandleMessage |
