# Throughput-test protocol core, in Dafny

This project models the protocol core of a small client/server network
throughput tester. The server broadcasts an **Offer** naming its datagram and
stream ports. A client that accepts the Offer runs two kinds of test:

- **Reliable (TCP) test.** The client writes the requested size as a decimal
  line. The server answers with exactly that many `'A'` bytes, or with nothing
  when the line does not parse or the size does not fit a Py_ssize_t.
- **Datagram (UDP) test.** The client sends a **Request**. The server answers
  with `file_size // 1024` **Payload** datagrams, numbered `0 .. total-1`. The
  client is meant to collect the distinct segment indices it receives and
  report a success rate. As written it fails on the first Payload it receives
  (see Findings).

The model covers:

- the fixed-layout big-endian codec (Python `struct` with a `'!'` format) for
  the three messages;
- the acceptance filters (magic cookie `0xabcddcba` and the type byte);
- the server's segment-sending loop, with early exit when a send fails;
- the client's offer-listening loop and its loss-accounting loop;
- the decimal size line and its strip-then-int parse;
- the success-rate expression.

Files, one module each:

- `wrappers.dfy`: `Option` and `Result`, used in place of exceptions.
- `wire.dfy`: big-endian encode and decode; a generic `Pack`/`Unpack` over a
  format given as a list of field widths; the Offer, Request and Payload
  layouts; `SegmentCount`; `Repeat` (the `b'A' * n` filler).
- `tcp_line.dfy`: `str(n)`, the request line `str(n) + "\n"`, `str.strip()` and
  `int()` over ASCII.
- `server.dfy`: the Offer constants, the TCP handler, and the datagram handler
  (`SendSegments` is the inner `for`, `UdpServerHandler` the outer `while`).
- `client.dfy`: the discovery loop (`ListenForOffers`), the datagram test
  (`UdpTest`) and the success rate.
- `protocol.dfy`: lemmas that link what one side sends to what the other side
  makes of it.

Modelling conventions:

- I/O becomes parameters. A datagram is a byte sequence plus its peer address.
  A receive loop runs over a finite inbox. The one-second receive timeout is
  the inbox running out.
- A failing `sendto` on the server is an environment input. Each arrival
  carries `sendFailsAt`: the segment whose send raises, if any.
- `recvfrom(n)` and the slice `data[:n]` are both `Wire.Truncate`.
- `UdpTest` takes the length of the header slice as a parameter.
  `Client.AsWrittenSlice` (20) is what the code does.
  `Client.CorrectedSlice` (21) is what the `'!IBQQ'` format needs. See Findings.

The model follows the code in these points:

- A datagram of the wrong length makes `struct.unpack` raise.
  `listen_for_offers` does not catch this, so the discovery loop ends with that
  error (`Client.Listen`'s `failure`). Such a datagram is not silently dropped.
  Only a correctly sized datagram with the wrong cookie or type is dropped.
- There is no separate "truncated" or "bad magic" decode error. A decode either
  fails with the buffer-size error or returns the fields, and the filter is
  applied afterwards.
- `b'A' * n` takes a Py_ssize_t count. The model assumes a 64-bit CPython:
  `Server.MaxSize` is `sys.maxsize = 2^63-1`. Any count outside
  `-2^63 ..= 2^63-1` raises `OverflowError`, which `handle_client` catches
  (Server.py:32), so no reply is sent.
- Both sides compute `total_segments` / `expected_segments` as
  `file_size // 1024` (floor, not ceil), and every Payload carries 1024 filler
  bytes.

## Model

| member | source | states |
|---|---|---|
| `Wire.EncodeBE` | Server.py:16 | an integer below 256^width becomes exactly `width` big-endian bytes |
| `Wire.DecodeBE` | Client.py:20 | decoding `n` big-endian bytes gives a value below 256^n |
| `Wire.DecodeEncodeBE` | Client.py:20 | decoding the big-endian encoding of `x` gives `x` back |
| `Wire.EncodeDecodeBE` | Server.py:57 | re-encoding a decoded field gives back its original bytes |
| `Wire.Truncate` | Client.py:76 | `s[:n]` / `recvfrom(n)` returns a prefix of `s`, at most `n` long: all of `s` when it fits, exactly `n` bytes otherwise |
| `Wire.Pack` | Client.py:66 | `struct.pack` succeeds exactly when the value count matches the format and every value fits its field, and then produces `calcsize(format)` bytes |
| `Wire.Unpack` | Server.py:57 | `struct.unpack` succeeds exactly on a buffer of `calcsize(format)` bytes and otherwise raises the buffer-size error; each field is below its width's bound |
| `Wire.UnpackPack` | Client.py:66 | unpacking a packed buffer gives back the packed values |
| `Wire.PackUnpack` | Server.py:57 | packing the unpacked fields gives back the buffer |
| `Wire.CalcSize` | Server.py:57 | `struct.calcsize` of a non-empty format is at least the width of its first field |
| `Wire.CalcSizeBounds` | Server.py:57 | a format's size is at least each field's width, and at least its field count when no field is empty |
| `Wire.CalcSizeConcat` | Server.py:63 | the size of two formats one after the other is the sum of their sizes |
| `Wire.FormatSizes` | Server.py:63 | `'!IBHH'` is 9 bytes, `'!IBQ'` 13 and `'!IBQQ'` 21 |
| `Wire.MagicCookieBytes` | Client.py:6 | the cookie is sent as the bytes `ab cd dc ba` |
| `Wire.PackOffer` | Server.py:16 | the Offer packs exactly when both ports are in 0..65535, and is then 9 bytes |
| `Wire.PackRequest` | Client.py:66 | the Request packs exactly when `0 <= file_size < 2^64`, and is then 13 bytes; otherwise it raises the range error |
| `Wire.PackPayloadHeader` | Server.py:63 | the Payload header packs exactly when both counters are in 0..2^64-1, and is then 21 bytes |
| `Wire.UnpackOffer` | Client.py:20 | decoding an Offer succeeds only on exactly 9 bytes; any other length raises; decoded ports fit in 16 bits |
| `Wire.UnpackRequest` | Server.py:57 | decoding a Request succeeds only on exactly 13 bytes; the decoded size is below 2^64 |
| `Wire.UnpackPayloadHeader` | Client.py:76 | decoding a Payload header succeeds only on exactly 21 bytes, otherwise raises the buffer-size error |
| `Wire.OfferLayout` | Server.py:16 | the Offer bytes are `ab cd dc ba 02`, then `udp_port` big-endian, then `tcp_port` big-endian |
| `Wire.OfferRoundTrip` | Client.py:20 | the client's `'!IBHH'` decode of the server's Offer returns the cookie, `OFFER_TYPE` and the same `udp_port`, `tcp_port` |
| `Wire.RequestRoundTrip` | Client.py:66 | the Request bytes are `ab cd dc ba 03` and then the 8-byte big-endian `file_size`; decoding them returns the same three fields |
| `Wire.PayloadHeaderRoundTrip` | Server.py:63 | the Payload header is `ab cd dc ba 04`, then `total_segments` and `segment` as 8 big-endian bytes each; decoding returns them |
| `Wire.SegmentCount` | Server.py:60 | `file_size // 1024` is the number of whole 1024-byte segments in `file_size`: `n*1024 <= file_size < (n+1)*1024` |
| `Wire.Repeat` | Server.py:27 | `b'A' * n` has exactly `n` bytes, all `'A'`, and is empty when `n <= 0` |
| `TcpLine.Decimal` | Client.py:53 | `str(n)` for `n >= 0` is a non-empty run of ASCII digits with no leading zero (except `"0"` itself) |
| `TcpLine.Str` | Client.py:53 | `str(n)` is non-empty, ends in a digit, has only digits after its first character, and starts with `'-'` exactly when `n < 0` |
| `TcpLine.RequestLine` | Client.py:53 | the line is at least 2 bytes, ends in `"\n"` and has no other newline |
| `TcpLine.StripLeading` | Server.py:26 | removes exactly the leading whitespace: the result is a suffix, what it drops is whitespace, and it does not start with whitespace |
| `TcpLine.StripTrailing` | Server.py:26 | removes exactly the trailing whitespace: the result is a prefix, what it drops is whitespace, and it does not end with whitespace |
| `TcpLine.Strip` | Server.py:26 | `str.strip()` never lengthens its input; the result is empty or neither starts nor ends with whitespace; all-whitespace input strips to empty; input without whitespace at either end is unchanged |
| `TcpLine.StripLine` | Client.py:53 | stripping a text with no whitespace at either end, followed by `"\n"`, gives back the text |
| `TcpLine.ParseDigits` | Server.py:26 | succeeds exactly on a non-empty string of ASCII digits |
| `TcpLine.ParseInt` | Server.py:26 | `int(text.strip())` succeeds only when the stripped text is non-empty and ends in a digit; all-whitespace text raises |
| `TcpLine.DecimalValue` | Client.py:53 | the digits of `str(n)` have the value `n` |
| `TcpLine.RequestLineShape` | Client.py:53 | for `n >= 0` the line is the decimal digits of `n`, then one `"\n"`, with no other newline |
| `TcpLine.ParseRequestLine` | Server.py:26 | parsing the client's line `str(n) + "\n"` gives back `n`, for every integer `n` |
| `Server.BroadcastDatagram` | Server.py:16-18 | the Offer datagram is built exactly when both ports fit in 16 bits; it goes to port 13117 and is 9 bytes |
| `Server.ServerOffer` | Server.py:16-18 | with ports 12345 and 54321 the broadcast datagram's bytes are `ab cd dc ba 02 30 39 d4 31` |
| `Server.HandleTcpClient` | Server.py:26-27 | the reply is sent if and only if the first 1024 bytes parse as an integer `n` that fits a Py_ssize_t (`-2^63 <= n <= 2^63-1`), and is then exactly `max(n, 0)` bytes, all `'A'`; a line that does not parse ends with the `ValueError`, a larger `n` with the `OverflowError` of `b'A' * n`, and neither gets a reply |
| `Server.Payload` | Server.py:63 | every Payload datagram is 21 + 1024 = 1045 bytes |
| `Server.SentCount` | Server.py:61-67 | with no send error all `total` segments go out; if the send for segment `k < total` fails, exactly `k` go out |
| `Server.SendSegments` | Server.py:61-67 | the packets sent are a prefix of the Payloads for segments 0, 1, ..., total-1, in order, cut at the first failing send |
| `Server.Replies` | Server.py:56-67 | an arrival is answered only when it is 13 bytes long; every reply goes to the sender and is 1045 bytes |
| `Server.Served` | Server.py:54-70 | every datagram the handler sends is 1045 bytes and is one of the replies to some arrival |
| `Server.UdpServerHandler` | Server.py:54-70 | the handler's output is `Served(inbox)`: each arrival's replies, in arrival order |
| `Server.PayloadLayout` | Server.py:63 | each Payload's first 21 bytes decode to the cookie, `PAYLOAD_TYPE`, `total_segments` and its own index; the other 1024 bytes are `'A'` |
| `Server.RepliesOnlyToRequests` | Server.py:56-58 | the server answers only a datagram of exactly 13 bytes with the cookie and `REQUEST_TYPE`; every answer goes to the sender, carries the same `total_segments` and has index `i` at position `i` |
| `Client.Listen` | Client.py:18-23 | the discovery loop starts at most one session per datagram received, and an empty inbox starts none and fails with nothing |
| `Client.OfferStep` | Client.py:19-23 | one datagram either raises (exactly when its first 1024 bytes are not 9 bytes long) or starts at most one session, with the sender's host |
| `Client.ListenForOffers` | Client.py:18-23 | the loop's sessions and its ending error are those of `Listen(inbox)` |
| `Client.ListenFailsIffMalformed` | Client.py:19-20 | the discovery loop ends with an error if and only if some datagram it receives is not exactly 9 bytes |
| `Client.StopsAtMalformed` | Client.py:19-20 | a datagram that is not 9 bytes ends the loop at once with `BufferSize(9, len)`; later datagrams start nothing |
| `Client.ListenStopsAtFirstMalformed` | Client.py:18-23 | the loop stops at the first malformed datagram: its sessions are those of the datagrams before it, and its error is that datagram's buffer-size error |
| `Client.ListenSessionsFromOffers` | Client.py:21-23 | every session started comes from a received datagram that decoded and passed the cookie and `OFFER_TYPE` check |
| `Client.ListenSkipsForeign` | Client.py:21 | a 9-byte datagram with the wrong cookie or type starts nothing and changes nothing |
| `Client.OfferStartsSession` | Client.py:23 | an accepted Offer calls `handle_offer(host, tcp_port, udp_port)`: the decoded ports are swapped back into argument order |
| `Client.Header` | Client.py:75-76 | the unpacked header is a prefix of the datagram, at most `headerSlice` bytes |
| `Client.Track` | Client.py:76-78 | one datagram raises exactly when its header slice is not 21 bytes; otherwise the set only grows, by at most one; it is unchanged when the cookie or type does not match `PAYLOAD_TYPE`, and gains the decoded `current_segment` when they match |
| `Client.Collect` | Client.py:73-80 | the receive loop ends without an error if and only if every datagram's header slice is 21 bytes, and the set then only grows |
| `Client.UdpTestOutcome` | Client.py:64-86 | a size outside 0..2^64-1 fails with the pack range error; the test finishes if and only if the size packs and every header slice is 21 bytes, and then `expected` is the number of whole 1024-byte segments in `file_size` |
| `Client.UdpTest` | Client.py:64-83 | the test's outcome is `UdpTestOutcome`: a failed Request pack, the first decode error in the loop, or the set of received indices together with `file_size // 1024` |
| `Client.SuccessRate` | Client.py:83 | the rate is 0 when `expected_segments == 0`; otherwise `rate * expected == received * 100`; it lies in 0..100 when `received <= expected` |
| `Client.DuplicateKeepsSet` | Client.py:78 | adding a segment index already in `received_segments` leaves the set, and so its size, unchanged |
| `Client.CollectBound` | Client.py:69-78 | the set only grows, and its size never exceeds its start size plus the number of accepted datagrams |
| `Client.AsWrittenFailsOnAnyDatagram` | Client.py:76-86 | as written, the first datagram received ends `udp_test` with the 21-byte unpack error, and no rate is computed; only an empty inbox finishes |
| `Protocol.BroadcastStartsSession` | Client.py:20-23 | the server's Offer, from any address, starts exactly one session `(host, tcp_port, udp_port)` and no error |
| `Protocol.TcpExchange` | Server.py:26-27 | for any size whose line fits the server's 1024-byte recv, the reply to the client's line is exactly `max(n, 0)` bytes of `'A'` when `n` fits a Py_ssize_t, and the `OverflowError` with no reply otherwise |
| `Protocol.TcpOverflow` | Server.py:27 | the 20-byte line for `2^63` parses, but the server's `b'A' * n` overflows and the client gets no reply |
| `Protocol.ClientTcpExchange` | Client.py:53 | the 1 GiB line `handle_offer` uses is 11 bytes and is answered in full |
| `Protocol.ReplyToRequest` | Server.py:56-67 | the client's Request is answered with the ordered prefix of the Payload stream that precedes the first failed send, which is all `file_size // 1024` of them when no send fails |
| `Protocol.ClientExpects` | Client.py:70 | when the test finishes, the client's `expected_segments` is `file_size // 1024` |
| `Protocol.ServerTotals` | Server.py:60-63 | every Payload the server sends for a Request decodes with `total_segments == file_size // 1024` |
| `Protocol.TotalsAgree` | Server.py:60 | the server's `total_segments` in every Payload equals the client's `expected_segments` (Client.py:70) for the same `file_size` |
| `Protocol.TrackPayload` | Client.py:76-78 | with the 21-byte slice, a server Payload adds its segment index to the set |
| `Protocol.CollectDelivered` | Client.py:73-78 | with the 21-byte slice, after any loss, duplication or reordering, the set is exactly the distinct delivered indices |
| `Protocol.CollectDeliveredStep` | Client.py:73-78 | with the 21-byte slice, the loop over delivered Payloads adds the first one's index and continues with the rest |
| `Protocol.CorrectedUdpTest` | Client.py:68-83 | the corrected test finishes with the distinct delivered segments, and its success rate is at most 100 |
| `Protocol.HalfLost` | Client.py:83 | for a 2048-byte request with segment 1 lost, the corrected test reports `{0}` of 2, which is 50%; the code as written fails |
| `Protocol.HalfLostCorrected` | Client.py:76-78 | with segment 1 of a 2048-byte request lost, the corrected loop ends with `{0}` of 2 |
| `Protocol.HalfLostAsWritten` | Client.py:76 | with the same inbox, the code as written fails with the 21-versus-20-byte unpack error |
| `Protocol.AllReplies` | Server.py:60-64 | with no failed send, the bytes the server sends are the Payloads for `0, 1, ..., total-1` in order |
| `Protocol.LosslessTransfer` | Server.py:60-64 | when every Payload arrives, the corrected client's set is exactly `{0, ..., total-1}`; the code as written fails whenever `file_size >= 1024` |

## Findings

| source | as written | input that shows it | evidently intended | confidence | as-written member | corrected member |
|---|---|---|---|---|---|---|
| Client.py:76 | takes only the first 20 bytes of each received datagram and unpacks them with the 21-byte `'!IBQQ'` format, so every unpack raises; only `socket.timeout` is caught inside the loop, so the error reaches the outer handler (Client.py:86) and no segment is ever counted | segment 0 of a 2048-byte request, i.e. any 1045-byte Payload the server sends | slice the first 21 bytes | high; not executed | `Client.AsWrittenFailsOnAnyDatagram` | `Protocol.CorrectedUdpTest` |

## Left out

- Sockets, binding, socket options, broadcast flags, `accept`, `connect`, `sendto` and `sendall`. These are I/O. Datagrams and stream bytes are values passed to or returned from the model.
- The one-second broadcast repetition and `time.sleep` (Server.py:17-19). The Offer packet and its bytes are modelled; the loop that resends it is not.
- Threads: `handle_offer`'s fan-out to one TCP and two UDP workers and the join (Client.py:26-45), plus `start_server` and the per-connection threads (Server.py:46, 73-83). Only the 1 GiB request size, `Client.FileSize`, is modelled.
- `Server.HandleTcpClient`: does not model a `MemoryError` from `b'A' * n` for a size that fits a Py_ssize_t but cannot be allocated. That limit depends on the machine. Such a size gets a reply in the model and none in the server.
- `Protocol.TcpExchange`: inherits the same gap. For a size too large to allocate, the full reply it promises is not sent.
- `time.time()` and the elapsed-time reports. The model has no clock.
- `settimeout(1)`. The receive loop ends when the inbox runs out.
- `tcp_test`'s single `recv(file_size)` (Client.py:55). What it returns depends on how the OS splits the stream.
- The server's `recv(1024)` is modelled as a cut at 1024 bytes. Reads that return fewer bytes are not modelled.
- Floating-point success rate and its `:.2f` formatting (Client.py:83-85). `Client.SuccessRate` is an exact real.
- `TcpLine.ParseInt`: models `int()` only over ASCII. Underscores between digits are refused here, though Python accepts them. Non-ASCII bytes are refused here, though `.decode()` and `int()` accept some Unicode digits and whitespace. That would take UTF-8 decoding and Unicode tables.
- `str(n).encode()` and `.decode()` on ASCII text map each character to its byte, so characters and bytes are not distinguished.
- Exceptions from `recvfrom` itself, and every `print`. Logging has no effect on the protocol.
- `handle_client`'s empty UDP branch (Server.py:29-31). It does nothing.
- Session isolation between concurrent transfers. Each `UdpTest` call owns its own set, so no state is shared.
