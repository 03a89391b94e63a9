# websock in Dafny

This is a model of the protocol engine of the small C/C++ WebSocket server library `websock`. The model has five parts:

- the staging buffer of `buffer.h`: a byte region with a consumed-up-to cursor and a written-up-to cursor;
- the Base64 encoder of `base64.h`;
- the codecs of `websock.h`:
  - the HTTP Upgrade request parser and the `101 Switching Protocols` reply (section 4 of RFC 6455);
  - the frame writer and the frame decoder with its in-place unmasking (sections 5.2 and 5.3 of RFC 6455);
- the C++ `websock::Connection` of `websock.hpp`, which drives these through `process()`, `flush()` and `send()`.

The modules follow the headers:

| module | file | models |
|---|---|---|
| `Bytes` | `bytes.dfy` | `byte` (`bv8`), `Option`, the `size_t` range |
| `StagingBuffer` | `buffer.dfy` | `buffer`, `buffer_*` functions, the C++ `Buffer` wrapper |
| `Base64` | `base64.dfy` | `base64_encode`, with a decoder as its partner |
| `Frame` | `frame.dfy` | `websock_write_message_len`, `websocket_write_message`, `websocket_decode_message` |
| `Handshake` | `handshake.dfy` | `websocket_parse_handshake`, `websock_accept_key`, `websock_accept_handshake` |
| `WebSocket` | `connection.dfy` | `websock::Error`, `websock::Connection` |

**Buffers.** A buffer is an immutable record `(mem, cur, last)`. Its capacity is `|mem|`. The pending bytes are `mem[cur..last]` and the free space is `mem[last..]`.

**Parsers.** Both parsers return 0 in C for "need more data". Here they are pure functions that return `None` or `NeedMore`. The views that point into the input (path, key, payload) are offsets and lengths.

**Callbacks.**
- `Connection`'s callbacks become data.
- What `read` and `write` return is a parameter of `Process` and `Flush`.
- The calls to `onConnect`, `onMessage`, `onClose` and `onError` are returned as a trace of `Event`s, in call order. Every event is recorded as if its callback were set.
- SHA-1 (OpenSSL) is a function parameter.

**The frame loop.** `while(1)` of `process()` becomes the mutually recursive `FrameLoop`/`Dispatch`. They decrease on the number of pending input bytes: every frame consumes at least its two header bytes.

## Model

| member | source | states |
|---|---|---|
| StagingBuffer.Create | buffer.h:28-32 | a new buffer has capacity `size`, nothing pending, nothing written and `size` bytes free |
| StagingBuffer.Regions | buffer.h:44-72 | the consumed bytes, the pending view and the free space partition the allocation; `pending_len` and `space_left` are the sizes of the two views, `data_len == (cur - data) + pending_len` and `data_len + space_left == size` |
| StagingBuffer.Clear | buffer.h:39-42 | clearing drops every pending byte and frees the whole capacity; the memory is untouched |
| StagingBuffer.Skip | buffer.h:74-78 | skipping `count <= pending_len` bytes leaves exactly the pending bytes after the first `count`; free space and memory unchanged |
| StagingBuffer.Shrink | buffer.h:80-86 | compaction keeps the pending bytes byte for byte, moves them to the origin and frees the consumed prefix (`space_left` grows by `cur - data`) |
| StagingBuffer.ShrinkByCopy | buffer.h:80-86 | the `memmove` done as a forward byte copy over overlapping ranges gives the same buffer as `Shrink`, so the pending bytes survive the overlap |
| StagingBuffer.ShrinkIdempotent | buffer.h:80-86 | a second `shrink` changes nothing |
| StagingBuffer.Reserve | buffer.h:88-102 | with enough room nothing changes; otherwise capacity grows by exactly the missing amount, so `space_left == size`; cursors and pending bytes are kept |
| StagingBuffer.ReadByte | buffer.h:104-108 | the byte returned, followed by the new pending bytes, is the old pending bytes |
| StagingBuffer.Push | buffer.h:110-114 | pushing appends that byte to the pending bytes and uses one byte of free space |
| StagingBuffer.Write | buffer.h:116-121 | with a source the `len` bytes are appended; with a null source the `len` bytes already in the free space are committed; free space shrinks by `len` |
| StagingBuffer.Fill | websock.hpp:67 | a producer writing `d` through `end()` (the `read` callback) puts `d` at the start of the free space and moves no cursor, so the pending bytes are unchanged |
| StagingBuffer.FillThenCommit | buffer.h:119 | a producer writing into the free space then `write(0, n)` is the same as `write(data, n)` (how `process()` commits what `read` stored) |
| StagingBuffer.SetEnd | buffer.h:123-127 | moving the end forward commits the free-space bytes up to it; moving it back truncates the pending bytes; space left is `size - end` |
| StagingBuffer.At | buffer.h:153 | `operator[](i)` for `i < size()` is the `i`-th pending byte |
| StagingBuffer.Back | buffer.h:143 | `back()` is the last pending byte when there is one |
| Base64.EncodeLoop | base64.h:16-46 | the C loop over full groups followed by the `switch` computes the encoding `Encode` (checked by its loop invariants) |
| Base64.Encode | base64.h:9-47 | the output has `4 * ceil(len / 3)` characters; every character is a table character except exactly the last `(3 - len % 3) % 3`, which are `=` |
| Base64.EncodeFullGroup | base64.h:18-27 | the `j`-th full 3-byte group becomes the four table characters of its 6-bit fields, most significant first |
| Base64.EncodeRemainder | base64.h:29-45 | one remaining byte gives two table characters and `==`; two remaining bytes give three table characters and `=` |
| Base64.EncodeConcat | base64.h:18-27 | the encoding of whole groups followed by anything is the concatenation of the encodings |
| Base64.DigitInverse | base64.h:11-14 | the table is injective: every entry is an alphabet character whose position is its index |
| Base64.EncodeDecode | base64.h:9-47 | decoding an encoding gives back the input bytes (RFC 4648 round trip) |
| Base64.AcceptKeyShape | websock.h:55 | the encoding of a 20-byte SHA-1 digest has 28 characters: 27 that are not `=`, then one `=` |
| Frame.BigEndianRoundTrip | websock.h:88-92 | the `n` big-endian bytes the writer emits read back as the length |
| Frame.ShiftInBytes | websock.h:154-159 | one turn of the loop (`len <<= 8`, then `data[i]` OR-ed in) puts the byte in the low 8 bits and keeps the low 56 bits of the value above it; a sign-extended byte sets all the bits above it instead |
| Frame.ExtLengthBound | websock.h:154-159 | `n <= 8` extended length bytes read unsigned give a value below `256^n` |
| Frame.ReadExtLength | websock.h:154-159 | the decoder's shift-or loop computes `ExtLength` of the extended length bytes in `size_t`: their big-endian value when `char` is unsigned (see `Frame.BigEndianRoundTrip`), the fold with every byte sign-extended when it is signed |
| Frame.LengthFieldHead | websock.h:73-94 | the first length byte is the length up to 125, else 126 up to 0xFFFF, else 127; no mask bit; it announces exactly the bytes that follow |
| Frame.LengthFieldValue | websock.h:76-92 | the extension bytes of the length field decode to the length |
| Frame.LengthField | websock.h:73-94 | the length field has 1, 3 or 9 bytes as the length is at most 125, at most 0xFFFF, or larger |
| Frame.WriteMessage | websock.h:96-102 | the frame is the opcode-and-flags byte, then the length field of `len`, then the payload unchanged |
| Frame.WriteMessageSize | websock.h:96-102 | a written frame is `2`, `4` or `10` bytes longer than the payload by length class |
| Frame.Xor | websock.h:172-173 | byte `i` of the masked payload is byte `i` of the payload XOR key byte `i % 4` |
| Frame.XorInvolution | websock.h:168-174 | masking twice with the same key gives the payload back |
| Frame.UnmaskInPlace | websock.h:168-174 | the in-place loop `data[i] ^= mask[i % 4]` changes exactly the payload bytes, to their XOR with the key |
| Frame.DecodeWith | websock.h:135-179 | a decoded frame (with either signedness of `char`, exact size check) consumes between 2 and `data_len` bytes, and its payload has the announced length |
| Frame.Decode | websock.h:135-179 | the corrected decoder (unsigned length bytes, exact size check) returns "need more data" or a frame that lies within the input: offset at least 2, `offset + len == consumed <= data_len`, payload of `len` bytes |
| Frame.DecodeAsWritten | websock.h:163-178 | (finding) the decoder as written, size check in `size_t`: a frame it accepts lies within the input, but an `Overrun` reports `consumed <= data_len` while the frame it announces ends exactly 2^64 bytes later; a sum that wraps to exactly 0 is "need more data" only for an unmasked frame, since a masked one is unmasked past the input first |
| Frame.DecodeAsWrittenAgree | websock.h:165 | whenever `2 + len_len + mask_len + len` stays below 2^64, the decoder as written is the exact one |
| Frame.DecodeAssembled | websock.h:137-178 | any frame put together from a first byte, a second byte, the extended length bytes its 7-bit length calls for holding `len` big-endian, a key exactly when MASK is set and the payload masked with it, followed by anything, decodes to opcode, FIN and MASK from the header bits, payload offset `2 + len_len + mask_len`, the original payload, and consumes exactly the frame |
| Frame.DecodeExtend | websock.h:135-179 | bytes after a complete frame do not change its decoding (incremental feed) |
| Frame.PrefixNeedsMore | websock.h:137-166 | every strict prefix of a complete frame is "need more data" |
| Frame.WriteDecode | websock.h:135-179 | decoding `websocket_write_message(p, op + FIN)` followed by anything gives `op`, FIN, no mask, payload `p`, and consumes exactly the frame |
| Frame.MaskedDecode | websock.h:141-176 | a client frame masked with any key, followed by anything, decodes to the payload that was masked, with MASK set, consuming exactly the frame |
| Frame.SignedLengthStalls | websock.h:154-166 | (finding) with signed `char`, a 16-bit length whose low byte is 0x80 to 0xFC makes the decoder ask for more data although the frame is all there, while reading the bytes unsigned decodes it whole |
| Frame.SignedLengthOverrun | websock.h:154-166 | (finding) with signed `char` and a low byte of 0xFD to 0xFF, the size check's sum wraps and the frame announcing `2^64 - 256 + lo` bytes is accepted with `lo - 252` bytes reported used; read unsigned the frame decodes whole |
| Frame.SignedLengthCounterexample | websock.h:154-159 | (finding) a binary frame of 200 zero bytes: as written "need more data", corrected a 200-byte frame |
| Frame.SignedLength16 | websock.h:154-159 | a 16-bit length whose low byte is 0x80 or more reads, with signed `char`, as `2^64 - 256 + lo` |
| Frame.SignedMaskedStalls | websock.h:154-166 | (finding) with signed `char`, a client frame with a 16-bit length whose low byte is 0x80 to 0xF7 is answered with "need more data" although it is all there, while reading the bytes unsigned decodes it to the payload that was masked |
| Frame.SignedMaskedOverrun | websock.h:154-173 | (finding) with signed `char` and a low byte of 0xF8 to 0xFF, the size check's sum `8 + len` wraps to `lo - 248` and the client frame announcing `2^64 - 256 + lo` bytes is let through to the unmasking loop |
| Frame.SignedMaskedCounterexample | websock.h:154-173 | (finding) a client frame of 248 zero bytes: as written the sum wraps to 0, the frame passes the check and 0 is returned; corrected a 248-byte frame |
| Frame.LengthWrapCounterexample | websock.h:165-173 | (finding) a 14-byte masked frame announcing `2^64 - 1` bytes: the sum wraps to 13, so as written the frame is accepted and unmasked past the input; the exact check waits for the payload |
| Handshake.FindSpec | websock.h:107-129 | the `memmem`/`memchr` search returns the first occurrence at or after the start, and fails only when there is none |
| Handshake.Parse | websock.h:105-132 | a result uses between 4 and `data_len` bytes |
| Handshake.ParseHead | websock.h:112-131 | a result uses exactly the head it was given, up to and including `\r\n\r\n` |
| Handshake.ParseKey | websock.h:122-131 | a result from the key part also uses exactly the head |
| Handshake.ParseSound | websock.h:105-132 | what the parser returns is a well-formed request: the head ends at the first `\r\n\r\n`, starts with `GET `, the path runs to the first space, the key follows the first `Sec-WebSocket-Key: ` after the path and runs to the next `\r\n` |
| Handshake.ParseComplete | websock.h:105-132 | every well-formed request is what the parser returns (with `ParseSound`: the parse is exactly the well-formed request) |
| Handshake.ParseKeyDefined | websock.h:128-129 | the unchecked `\r\n` search after the key header always succeeds inside a head, so a key header is enough for a result |
| Handshake.KeyWithinHead | websock.h:115-131 | the path ends before the key, and the key and its line break lie inside the head, before the terminator |
| Handshake.ParseNeedsMore | websock.h:107-125 | the parser reports "need more data" without a terminator, without `GET `, without a space after the path, or without a key header after it |
| Handshake.ParseExtend | websock.h:105-132 | bytes after a complete head do not change the parse |
| Handshake.ParsePrefix | websock.h:107-109 | every strict prefix of a complete head is "need more data" |
| Handshake.AcceptKey | websock.h:46-56 | the accept key is 28 characters, 27 from the Base64 alphabet and a final `=`, and it decodes to `SHA-1(key ++ GUID)` |
| Handshake.AcceptResponse | websock.h:58-71 | the reply is the fixed status line and headers, then 28 bytes that spell the accept key of `key`, then `\r\n\r\n` |
| Handshake.AcceptResponseChecks | websock.h:58-71 | a client decoding the Base64 text in the reply gets back `SHA-1(key ++ GUID)` (section 4.2.2 of RFC 6455) |
| Handshake.RequestConstantsSpell | websock.h:107-112 | the byte constants the parser matches spell `GET ` and `\r\n\r\n` |
| Handshake.KeyHeaderSpells | websock.h:122 | the key header constant spells `Sec-WebSocket-Key: ` |
| WebSocket.NewConnection | websock.hpp:33-51 | a new connection is open, not established, refuses unmasked frames, and both buffers are empty with `maxMsgLen` capacity |
| WebSocket.Fail | websock.hpp:53-57 | `error` emits exactly one `onError(code)` and closes the connection; nothing else changes |
| WebSocket.ReadInput | websock.hpp:62-72 | with `read` set: full input after compaction is `TooLongMessage` once established and `HandshakeFailed` before; 0 is `UnexpectedDisconnect`, negative is `ReadFailed`; a positive count appends exactly the bytes read; the connection stays open exactly when no event is emitted |
| WebSocket.Accept | websock.hpp:76-81 | the request head is consumed, `onConnect` is the one event and receives exactly the path and key bytes the request carries, the reply for that key is appended to the output, and the connection is established |
| WebSocket.Establish | websock.hpp:73-82 | the connection becomes established exactly when a complete request is pending, and then the head is consumed, `onConnect` gets the request's path and key and the reply for that key is appended; otherwise nothing changes |
| WebSocket.EstablishAsWritten | websock.hpp:79 | (finding) whenever the unreserved reply write stays inside the output buffer, it agrees with the corrected step |
| WebSocket.EstablishOverflow | websock.hpp:79 | (finding) the unreserved reply overflows exactly when the corrected step appends more bytes than the output has free; it never does with 129 bytes free |
| WebSocket.EstablishOverflowCounterexample | websock.hpp:79 | (finding) a connection built with `maxMsgLen` below 129 overflows on any complete request; the corrected step establishes it |
| WebSocket.FrameLoop | websock.hpp:83-103 | with no complete frame pending nothing happens; after the loop no event follows an `onError`/`onClose`, the connection is closed exactly when the trace ends with one, there is no `onConnect`, no unmasked frame is delivered unless allowed, an open connection has no complete frame left, and output is only appended to |
| WebSocket.Dispatch | websock.hpp:88-102 | for a consumed frame: unmasked when not allowed is exactly `error(UnmaskedMessage)`; a close closes the connection with `onClose` as the only event; a ping appends a pong with the same payload; any other opcode gives `onMessage` first; plus the trace properties of `FrameLoop` |
| WebSocket.UnmaskedRejected | websock.hpp:89-90 | an unmasked frame on a connection that does not allow them is exactly one `UnmaskedMessage` error, whatever its opcode, with no output |
| WebSocket.PingAnswered | websock.hpp:93-95 | a ping is answered with a final pong carrying the same payload, appended before anything else the loop sends, with no event |
| WebSocket.CloseStops | websock.hpp:96-99 | a close frame the mask policy admits is consumed, closes the connection and is answered by `onClose` alone; frames behind it are left unprocessed in the input (section 1.4 of RFC 6455: data after a close frame is discarded) |
| WebSocket.MessageDelivered | websock.hpp:100-101 | any other admitted non-ping frame gives `onMessage` with its message and payload, followed by exactly the events of the loop on the rest of the input |
| WebSocket.ClientMessageDelivered | websock.hpp:100-101 | a masked client data frame reaches `onMessage` first, with its opcode and the payload the client masked |
| WebSocket.FrameLoopAsWritten | websock.hpp:83-103 | (finding) the loop as written keeps the mask policy but does not stop at a close frame |
| WebSocket.AsWrittenDelivers | websock.hpp:96-101 | (finding) as written, a delivered frame's event is followed by the rest of the loop, even after a close frame |
| WebSocket.CloseCounterexample | websock.hpp:96-99 | (finding) close then text: as written `onMessage` follows `onClose`; corrected, `onClose` is last |
| WebSocket.Process | websock.hpp:59-104 | a closed connection is left alone; otherwise the trace has nothing after a terminal event, the connection closes exactly when the trace ends with one, `onConnect` comes first and exactly when the connection became established, unmasked frames are never delivered unless allowed, and an open established connection holds no complete frame |
| WebSocket.Advance | websock.hpp:73-103 | the same, for the part after a successful read |
| WebSocket.ProcessSteps | websock.hpp:59-104 | after a successful read, an established connection runs the frame loop on the new input; otherwise an incomplete request ends the call, and a complete one is accepted and its `onConnect` precedes the frame loop on the rest of the input |
| WebSocket.Flush | websock.hpp:106-113 | nothing on a closed connection or empty output; -1 is one `WriteFailed` with the output kept; otherwise the first `sent` bytes are removed and the rest compacted to the origin |
| WebSocket.Send | websock.hpp:115-119 | the output grows by exactly the frame `websocket_write_message(data, opcode + FIN)`; nothing else changes |
| WebSocket.SendDecodes | websock.hpp:115-119 | what `send` appends decodes at the peer to one final, unmasked frame with the same opcode and payload, consuming exactly what was appended |
| WebSocket.SendAsWritten | websock.hpp:117-118 | (finding) whenever the frame fits after `reserve(len)`, the as-written `send` appends the same bytes as the corrected one |
| WebSocket.SendOverflow | websock.hpp:117-118 | (finding) the as-written `send` overflows exactly when the free space, grown to at least `len`, is less than the frame; always when the free space is at most `len` |
| WebSocket.SendOverflowCounterexample | websock.hpp:117-118 | (finding) a new connection sending a message exactly its `maxMsgLen` long overflows; the corrected `send` appends the frame |

## Left out

- SHA-1 is a function parameter `sha1`. Its computation belongs to OpenSSL and is not modelled.
- `malloc`/`realloc` failure is not modelled. `buffer_reserve` would keep the grown `size` with a null `data`. Fresh memory is modelled as zero bytes; only pending bytes are ever read.
- `buffer_destroy`, the destructor and the move constructor and move assignment of `Buffer` are not modelled. They are memory management with no effect on the bytes.
- `size_t` is 64 bits wide throughout. The wrap of the size check at websock.h:165 is modelled by `DecodeAsWritten`; what the code does after letting such a frame through (the unmasking loop writing past the input, a consumed count below the frame) is not: `DecodeAsWritten` stops at `Overrun`, including for a masked frame whose sum wraps to exactly 0, where the code returns 0 after unmasking. The corrected `Decode` checks the size exactly.
- The unmasked payload is returned as a value. The C decoder writes it back over the input bytes, which are then skipped. `UnmaskInPlace` models the in-place loop itself.
- Callbacks that are not set drop their event in C; the trace always records the event. The re-entrant calls a callback could make into the connection (`send` from `onMessage`, say) are not modelled.
- `flush()` with no `write` callback set calls an empty `std::function` in C; the model always has a `write` result.
- `Flush`: requires that `write` returns -1 or at most the bytes offered. Any other value makes `buffer_skip`'s assertion fail.
- StagingBuffer.SetEnd: requires `end >= cur` as well as the asserted `end <= data + size`. The C code does not check the lower bound; an end before `cur` would give a negative pending length.
- `ErrorText`, the text of each `Error`, is not modelled; it is only display strings.
- The example servers (`example-server.c`, `example-server.cpp`) are not modelled. Sockets, `poll` and `main` are I/O.
- `WebSocket.Send` reserves `len + 10` bytes: the payload plus the largest header. The code reserves `len` (see Findings).
- `error()` emits only `onError`, as the code does; no `onClose` follows an error.
- `WebSocket.FrameLoopAsWritten` uses the corrected decoder and the corrected `send`. Each as-written member isolates one discrepancy.
- `WebSocket.Process` composes the corrected steps (`Establish`, `FrameLoop`, `Send`), so it is `process()` with the findings fixed, not `process()` as written. The code as written differs from it exactly by the as-written members of the Findings.
- `WebSocket.Advance` composes the same corrected steps, for the same reason.

## Findings

| source | as written | input that shows it | evidently intended | confidence | as-written member | corrected member |
|---|---|---|---|---|---|---|
| websock.h:154-159 | `len = data[0]` and the `len` OR-ed with `data[i]` read `char`, which is signed on common ABIs, so a byte >= 0x80 is sign-extended into `size_t` | a binary frame of 200 zero bytes: its length bytes `0x00 0xC8` give `len = 2^64 - 56`, and the complete frame is answered with "need more data"; a masked client frame of 248 bytes: its length bytes `0x00 0xF8` make the size check's sum wrap to 0, so the check passes, the unmasking loop runs past the input and 0 is returned | the extended length read as unsigned bytes, as section 5.2 of RFC 6455 defines it | not executed | Frame.DecodeAsWritten, Frame.SignedLengthCounterexample, Frame.SignedMaskedCounterexample | Frame.Decode, Frame.WriteDecode, Frame.MaskedDecode |
| websock.hpp:117-118 | `out.reserve(len)` reserves room for the payload only, then writes header and payload past `out.end()` | a new connection with `maxMsgLen = 2048` sending 2048 bytes: 2052 bytes written into 2048 free | reserve the payload plus the largest header (10 bytes) | not executed | WebSocket.SendAsWritten, WebSocket.SendOverflowCounterexample | WebSocket.Send, WebSocket.SendDecodes |
| websock.hpp:96-99 | a close frame sets `connected = false` and calls `onClose`, but the `while(1)` loop goes on | an unmasked close frame followed by a text frame on a connection that allows unmasked frames: `onMessage` is called after `onClose` | stop processing frames at a close frame | not executed | WebSocket.FrameLoopAsWritten, WebSocket.CloseCounterexample | WebSocket.FrameLoop, WebSocket.Dispatch |
| websock.h:165 | the size check adds `2 + len_len + mask_len + len` in `size_t`, which wraps for a length near 2^64 | a masked frame of 14 bytes announcing `2^64 - 1` bytes: the sum wraps to 13, the frame is accepted, and the unmasking loop runs past the input | compare without overflow, for instance `len > data_len - (2 + len_len + mask_len)` after checking the header fits | not executed | Frame.DecodeAsWritten, Frame.LengthWrapCounterexample | Frame.Decode, Frame.DecodeAssembled |
| websock.hpp:79 | the 129-byte handshake reply is written at `out.end()` with no `reserve` | a connection built with `maxMsgLen = 100` receiving any complete request: 129 bytes written into 100 free | reserve the reply's size first, as `send` does for frames | not executed | WebSocket.EstablishAsWritten, WebSocket.EstablishOverflowCounterexample | WebSocket.Establish, WebSocket.Accept |

Which members follow the code as written and which are corrected:

- As written: `Frame.DecodeAsWritten` (the `char` signedness and the `size_t` sum of the size check), `WebSocket.SendAsWritten`, `WebSocket.EstablishAsWritten` and `WebSocket.FrameLoopAsWritten`, with the counterexample lemmas next to them.
- Corrected: `Frame.Decode` and `Frame.DecodeWith` (exact size check), `WebSocket.Send`, `WebSocket.Establish` and `WebSocket.Accept`, `WebSocket.FrameLoop` and `WebSocket.Dispatch`, and `WebSocket.Process` and `WebSocket.Advance`, which compose them. The corrected `Send` reserves the payload plus 10 bytes, the largest header `websocket_write_message` produces. The corrected `FrameLoop` stops at a close frame, as section 1.4 of RFC 6455 describes the closing handshake: after receiving a close frame a peer discards any further data.
- Every other member follows the code as written.
