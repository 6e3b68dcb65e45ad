# websock3ds in Dafny

websock3ds is a tiny WebSocket server for the Nintendo 3DS. It also ships a
browser page that shows the console's top screen and finds the console on
the local network. This project models its core and proves properties of
that model:

* **The HTTP upgrade handshake** of section 4.2.2 of RFC 6455, from
  `src/ws3ds.c`. It covers:
  * the header field finder;
  * the `Sec-WebSocket-Key` trim and the 24-character length check;
  * the accept key, which is the SHA-1 of key ‖ GUID encoded in base64 per
    section 4 of RFC 4648;
  * the request read loop over a 16384-byte buffer;
  * the write loop that retries partial writes of the 101 response.
* **The session engine**, also from `src/ws3ds.c`:
  * `ws3ds_init`, `ws3ds_poll` and `ws3ds_exit`;
  * the receive callbacks that drop the connection (`fd = -1`);
  * the send wrappers.

  This is a class whose fields are the C globals. `poll()`, the socket and
  the wslay frame codec are oracles.
* **The console application** in `src/main.c`:
  * `on_message`, which routes on opcode and exact length;
  * the accept / handshake / poll state machine of `main`, modelled over a
    sequence of ticks.
* **The pixel transforms**:
  * the Morton (Z-order) untiling of the 48×48 SMDH icon in `src/util.c`,
    in place on an array;
  * the browser's RGBA to column-major ABGR repack in `js/main.js`;
  * the browser's local-IP prefix and its 256-host scan list in
    `js/main.js`.

Files:

| file | module | contents |
|---|---|---|
| `wrappers.dfy` | `Wrappers` | `Option`, `Result`, the `byte` type |
| `http_header.dfy` | `HttpHeader` | the C-string view of the header, `strstr`, `http_header_find_field_value` |
| `base64.dfy` | `Base64` | base64 encoding, a decoder as its partner, the round trip |
| `accept_key.dfy` | `AcceptKey` | `create_accept_key` and the RFC 6455 sample key |
| `handshake.dfy` | `Handshake` | `http_handshake`: the read loop, the request checks, the response and the write loop |
| `transport.dfy` | `Transport` | the session state, the callbacks, the pump, and the class `Engine` |
| `app.dfy` | `App` | `on_message` and the application main loop |
| `morton.dfy` | `Morton` | `morton_interleave`, `get_morton_offset`, `untileIcon` |
| `web_client.dfy` | `WebClient` | the repack loop, the IP prefix and the scan targets |

Outside inputs enter as parameters, each a sequence of results. Reads,
writes and poll rounds are sequences of events. SHA-1 is a function
parameter `sha1` that returns 20 bytes. `accept()`, the handshake result and
the A key become a sequence of tick records. When such a sequence runs out,
the model treats it as the end of the stream, a failed write, a timed-out
poll or the end of the main loop.

## Model

| member | source | states |
|---|---|---|
| `Morton.MortonInterleave` | src/util.c:24-30 | The result is below 64. Bits 0, 1 and 2 of x land at bits 0, 2 and 4; bits 0, 1 and 2 of y land at bits 1, 3 and 5. |
| `Morton.MortonUsesLowBitsOnly` | src/util.c:24-30 | The interleave depends only on `x & 7` and `y & 7`. |
| `Morton.MortonOffset` | src/util.c:33-37 | For x < 48 the offset is below 384. It equals the Z-order place plus 64 for every 8-pixel tile to the left. |
| `Morton.SourceIndex` | src/util.c:47-48 | For every i, j < 48 the index read is below 2304, so every read is in bounds. It equals the Z-order place plus 64 per tile column plus 384 per tile row. |
| `Morton.SourceIndexValue` | src/util.c:24-48 | The 32-bit bit-twiddling computes exactly the tiled layout `SourceOf(i + 48*j)`: 6×6 tiles stored row by row, each in Z order. |
| `Morton.SourceOf` | src/util.c:45-48 | The source read for output position p is a valid pixel index. |
| `Morton.TargetOf` | src/util.c:45-48 | Maps a source pixel to its output position, which is a valid pixel index. |
| `Morton.TargetUndoesSource` | src/util.c:45-49 | Every output position is reached back from its source, so each of the 2304 outputs is written exactly once. |
| `Morton.SourceUndoesTarget` | src/util.c:45-49 | Every source pixel is read for exactly one output position. |
| `Morton.SourcesDistinct` | src/util.c:24-49 | Distinct output positions read distinct sources, so untiling permutes the icon. |
| `Morton.SourceOffset` | src/util.c:47-48 | The 32-bit source offset computed for (i, j) is `SourceOf(i + 48*j)`. |
| `Morton.UntileIcon` | src/util.c:39-55 | Afterwards every pixel p holds the old pixel at `SourceOf(p)`. |
| `HttpHeader.Text` | src/ws3ds.c:114 | The string the C code sees: the buffer's bytes up to the first NUL, none of them NUL. |
| `HttpHeader.FindFrom` | src/ws3ds.c:121 | `strstr` from a position: the first occurrence at or after it, or none when there is no occurrence at all. |
| `HttpHeader.FindField` | src/ws3ds.c:118-141 | A hit is an occurrence that qualifies: `\r\n` before it and `:` after it. Every earlier occurrence fails to qualify. |
| `HttpHeader.FieldSearch` | src/ws3ds.c:118-141 | The search from offset 1 finds k exactly when k is the first qualifying occurrence. It finds nothing exactly when none qualifies, so a match is never at offset 0 or 1. |
| `HttpHeader.FirstFieldUnique` | src/ws3ds.c:118-141 | At most one position is the first qualifying occurrence. |
| `HttpHeader.FindFieldValue` | src/ws3ds.c:103-169 | A returned position lies within the header text. |
| `HttpHeader.FieldNeedsCrlfBefore` | src/ws3ds.c:125-152 | A value-less hit at k + len + 1 has `\r\n` right before k. |
| `HttpHeader.ValuelessLookup` | src/ws3ds.c:143-152 | Without a value, a qualifying field followed somewhere by `\r\n` yields the position just past its `:`. |
| `HttpHeader.ValueLookupNoCrlf` | src/ws3ds.c:143-148 | A qualifying field with no `\r\n` after it yields nothing, whether or not a value is asked for. |
| `HttpHeader.ValueLookup` | src/ws3ds.c:154-168 | Only the first occurrence of the value at or after the field is examined. It is accepted exactly when it starts no later than the field's first `\r\n` and the characters on either side are not alphanumeric. On acceptance the result is the start of the value. |
| `HttpHeader.ValueLookupAbsent` | src/ws3ds.c:154-158 | When the value does not occur after the field, the lookup yields nothing. |
| `HttpHeader.FieldAbsent` | src/ws3ds.c:138-141 | When no occurrence of the field qualifies, the lookup yields nothing. |
| `HttpHeader.FirstUnique` | src/ws3ds.c:121 | `strstr` returns the first occurrence, so any position that is first is the result. |
| `HttpHeader.CrAfterValues` | src/ws3ds.c:143-152 | For a field name without `\r`, a value-less hit is followed by a `\r` in the text, so the key trim always stops inside the header. |
| `Base64.Digit` | src/ws3ds.c:75-76 | Each sextet maps to a character of the alphabet of section 4 of RFC 4648. |
| `Base64.ValueOf` | src/ws3ds.c:75-76 | Accepts exactly the alphabet's characters, and the value found maps back to the same character. |
| `Base64.ValueOfDigit` | src/ws3ds.c:75-76 | Looking up a digit's value gives back the sextet. |
| `Base64.EncodeGroup` | src/ws3ds.c:75-76 | One to three bytes become exactly four characters. |
| `Base64.EncodeFrom` | src/ws3ds.c:75-76 | Encoding the suffix from k gives 4 characters per started group. |
| `Base64.Encode` | src/ws3ds.c:75-76 | The output is `4*ceil(n/3)` characters long, so 20 bytes give 28. |
| `Base64.EncodeAlphabet` | src/ws3ds.c:75-76 | Every output character is a digit of the alphabet or `=`. |
| `Base64.DecodeGroup` | src/ws3ds.c:75-76 | An accepted group yields one to three octets, and fewer than three only as the last group. Padded groups must leave their unused bits zero, as section 3.5 of RFC 4648 allows a decoder to demand. |
| `Base64.Decode` | src/ws3ds.c:75-76 | The partner decoder: a decoded result is never longer than its text, and it is empty only for empty text. |
| `Base64.GroupRoundTrip` | src/ws3ds.c:75-76 | Decoding one encoded group gives back its bytes. |
| `Base64.RoundTripFrom` | src/ws3ds.c:75-76 | Decoding the encoding of a suffix gives back the suffix. |
| `Base64.RoundTrip` | src/ws3ds.c:75-76 | `Decode(Encode(b)) == Some(b)` for every byte string. |
| `Base64.SextetsOfOctets` | src/ws3ds.c:75-76 | Splitting the three octets of four 6-bit values gives those values back. |
| `Base64.GroupCanonical` | src/ws3ds.c:75-76 | Every group the decoder accepts is the encoding of the octets it yields. |
| `Base64.Canonical` | src/ws3ds.c:75-76 | The other direction of the round trip: `Decode(s) == Some(b)` implies `s == Encode(b)`, so each octet string has exactly one accepted text. |
| `AcceptKey.KeySource` | src/ws3ds.c:79-91 | The hashed input is exactly 60 bytes: the 24 key bytes, then the 36-byte GUID `258EAFA5-E914-47DA-95CA-C5AB0DC85B11`. |
| `AcceptKey.CreateAcceptKey` | src/ws3ds.c:87-95 | The result is 29 bytes. The first 28 are base64 digits that decode to `sha1(key ‖ GUID)`. Byte 28 is NUL. |
| `AcceptKey.AcceptKeyUnique` | src/ws3ds.c:87-95 | Any text that decodes to `sha1(key ‖ GUID)` is exactly the 28 characters `create_accept_key` writes, so the accept string is fixed byte for byte. |
| `AcceptKey.SampleEncoding` | src/ws3ds.c:75-76 | The sample digest of section 1.3 of RFC 6455 encodes to `s3pPLMBiTxaQ9kYGzzhZRbK+xOo=`. |
| `AcceptKey.SampleHandshake` | src/ws3ds.c:87-95 | For the sample key `dGhlIHNhbXBsZSBub25jZQ==` and a SHA-1 giving the digest of section 1.3 of RFC 6455, the accept key is `s3pPLMBiTxaQ9kYGzzhZRbK+xOo=` followed by NUL. |
| `Handshake.Clip` | src/ws3ds.c:188-189 | A read fills at most the room left, and takes all the data when it fits. |
| `Handshake.Accumulate` | src/ws3ds.c:187-205 | A completed request is longer than what was buffered before, at most 16384 bytes, and ends with `\r\n\r\n`. |
| `Handshake.AccumulatePrefix` | src/ws3ds.c:187-205 | A completed request is a prefix of the bytes the client sent. |
| `Handshake.Store` | src/ws3ds.c:188-197 | The chunk read lands right after the bytes already buffered. The earlier bytes and the rest of the buffer are kept. |
| `Handshake.SkipInterrupted` | src/ws3ds.c:188-189 | EINTR results are skipped without changing the outcome. |
| `Handshake.BlankLineAt` | src/ws3ds.c:198 | Reports whether the buffered bytes end with `\r\n\r\n`. |
| `Handshake.ReadRequest` | src/ws3ds.c:184-205 | The read loop yields exactly the request described by `Accumulate`. It fails on EOF, on a read error, or when 16384 bytes arrive without `\r\n\r\n`. |
| `Handshake.KeyStart` | src/ws3ds.c:213 | The first non-space position at or after the value: all before it are spaces. |
| `Handshake.KeyEnd` | src/ws3ds.c:215 | The first `\r` or space at or after the start: all before it are neither. |
| `Handshake.TrimKey` | src/ws3ds.c:213-215 | The two scanning loops find exactly `KeyStart` and `KeyEnd`, and stop inside the header. |
| `Handshake.ParseRequest` | src/ws3ds.c:207-220 | A missing `Upgrade: websocket`, `Connection: Upgrade` or `Sec-WebSocket-Key` field gives `MissingFields`, and only those do. `InvalidKey` is returned exactly when the three fields are found but the key, trimmed of leading spaces and cut at the first CR or space, is not 24 bytes long. An accepted key is that trimmed field value: exactly 24 bytes, with no NUL, CR or space among them. |
| `Handshake.KeyBytes` | src/ws3ds.c:213-216 | The trimmed key holds no NUL, CR or space. |
| `Handshake.CheckRequest` | src/ws3ds.c:207-220 | The imperative checks compute `ParseRequest`. |
| `Handshake.Response` | src/ws3ds.c:222-228 | The response is 101 bytes longer than the accept key. For a 28-byte key that is 129 bytes, well within the 256-byte buffer. |
| `Handshake.ResponseLayout` | src/ws3ds.c:222-227 | The response is the fixed 101 Switching Protocols head, then the accept key, then `\r\n\r\n`. |
| `Handshake.DeliversIff` | src/ws3ds.c:229-238 | The write loop finishes exactly when the bytes the socket accepts, with EINTR retried, cover the whole response before any error. |
| `Handshake.WriteResponse` | src/ws3ds.c:229-238 | It succeeds exactly when the response is delivered. What reaches the wire is a prefix of the response, and the whole of it on success. |
| `Handshake.ReplyCarriesAcceptKey` | src/ws3ds.c:207-228 | For an accepted request the reply is 129 bytes: the fixed head, 28 characters that decode to `sha1(key ‖ GUID)`, and `\r\n\r\n`. |
| `Handshake.HttpHandshake` | src/ws3ds.c:176-240 | Returns 0 exactly when the request is read, the checks pass and the whole response is written; otherwise -1. Nothing is written when the request is rejected, and on success the whole reply is on the wire. |
| `Transport.EventsFor` | src/ws3ds.c:358-362 | `POLLIN` is set iff the codec wants to read, `POLLOUT` iff it wants to write, and no other bit is set. |
| `Transport.Deliver` | src/ws3ds.c:277-312 | Callbacks change only `fd` and the delivered messages; `events` and the rest are untouched. |
| `Transport.StepMessages` | src/ws3ds.c:304-312 | One callback forwards data messages only when a callback is registered, and never registers or unregisters one. |
| `Transport.DeliverDrops` | src/ws3ds.c:294-309 | After a batch of callbacks, `fd` is -1 exactly when some recv returned 0 or some message was a control frame. |
| `Transport.DeliverMessages` | src/ws3ds.c:304-312 | The registered callback receives exactly the non-control messages, in order; with none registered, nothing is delivered. |
| `Transport.AfterIO` | src/ws3ds.c:350-356 | A pump round changes only `fd` and the delivered messages. |
| `Transport.PumpCode` | src/ws3ds.c:336-368 | The pump loop returns 0 or -1. |
| `Transport.PumpKeeps` | src/ws3ds.c:336-368 | When the pump tears the session down, it returns -1 with `fd` at -1. It never touches the registered callback, the log of messages the codec accepted for sending, or the poll descriptor. |
| `Transport.PollCodes` | src/ws3ds.c:333-369 | The poll outcomes, case by case. -2 with nothing changed when uninitialized. 0 with nothing changed when no I/O is wanted. Exit and -1 when `fd` is -1. -1 with no exit on a poll error. -1 with no exit when a round fails (recv or send failure, or POLLERR/POLLHUP/POLLNVAL), keeping what that round delivered. 0 after a timed-out round, with `events` set from the codec's new wants. Otherwise the next round runs with those wants. The result is always -2, -1 or 0. |
| `Transport.ExitIdempotent` | src/ws3ds.c:371-376 | Exit leaves the engine uninitialized, frees the context only when initialized, and a second exit changes nothing. |
| `Transport.Engine.constructor` | src/ws3ds.c:23-27 | The globals start uninitialized, with no context, no callback, and nothing delivered or accepted for sending. |
| `Transport.Engine.Init` | src/ws3ds.c:324-331 | Records the socket, sets `events` to `POLLIN`, creates a context and sets the initialized flag. |
| `Transport.Engine.Exit` | src/ws3ds.c:371-376 | Frees the context if initialized, then clears the flag. |
| `Transport.Engine.SetMessageCallback` | src/ws3ds.c:378-380 | Registers or clears the message callback; nothing else changes. |
| `Transport.Engine.RecvCallback` | src/ws3ds.c:277-302 | A recv of 0 sets `fd` to -1 and returns -1. A recv of -1 returns -1 and changes nothing. A positive count is returned as is. |
| `Transport.Engine.OnMsgRecvCallback` | src/ws3ds.c:304-312 | A control opcode sets `fd` to -1. Any other message goes to the registered callback, if there is one. |
| `Transport.Engine.Receive` | src/ws3ds.c:350 | Running the codec's callbacks in order gives the state `Deliver` describes. |
| `Transport.Engine.SendText` | src/ws3ds.c:382-386 | Appends one opcode-1 message holding the text to the log of accepted messages when the codec accepts it; nothing else changes. |
| `Transport.Engine.SendBinary` | src/ws3ds.c:388-392 | Appends one opcode-2 message holding the data to the log of accepted messages when the codec accepts it; nothing else changes. |
| `Transport.Engine.Poll` | src/ws3ds.c:333-369 | The pump computes exactly the outcome and state that `PollSpec` gives, whose properties are `PollCodes`, `PumpCode`, `PumpKeeps`, `DeliverDrops` and `DeliverMessages`. |
| `App.OnMessage` | src/main.c:29-43 | Opcode 1 shows the payload followed by a NUL, and only opcode 1 shows text. Opcode 2 with exactly 400×240×4 bytes replaces the framebuffer. Anything else leaves the framebuffer as it was. |
| `App.ShakeCode` | src/main.c:79 | The handshake result the loop sees is 0 or -1. |
| `App.ConnectState` | src/main.c:68-90 | A connect step keeps the session consistent: afterwards exactly one of `connected` and `connecting` holds, and while connecting there is no client, so a failed handshake has reset the client to -1. |
| `App.ConnectCalls` | src/main.c:72-89 | `accept` is called exactly when there is no client and the loop is not connected. A handshake is attempted exactly when not connected and a client socket exists. The socket is closed exactly when that handshake fails. |
| `App.ConnectStarts` | src/main.c:83-88 | The engine is started with the client's socket exactly when the step makes the loop connected. Otherwise the engine is untouched. |
| `App.InteractOutcome` | src/main.c:100-111 | Poll is called iff connected. "meow!" is queued only on A while connected. A -1 result closes the client, resets it to -1 and clears `connected`; -2 does not. |
| `App.RunConsistent` | src/main.c:66-112 | From a consistent start, every tick of the loop keeps `connected && connecting` false, and a connected session has a client. |
| `App.ConnectTurn` | src/main.c:68-90 | The connect part of a tick, run against the engine, matches `Connect`. |
| `App.InteractTurn` | src/main.c:100-111 | The connected part of a tick, run against the engine, matches `Interact`. |
| `App.MainLoop` | src/main.c:64-112 | The loop, after registering `on_message`, ends in the session, engine state and call log that `Run` gives for the ticks. |
| `WebClient.Placement` | js/main.js:127-134 | The bytes written for pixel (x, y) sit at `4*(x*height + (height-1-y))` and are in bounds: column-major, each column bottom to top. |
| `WebClient.SlotsDistinct` | js/main.js:127-130 | Distinct pixels get distinct output slots. |
| `WebClient.WritePixel` | js/main.js:130-134 | Writes `0xFF`, B, G, R for the pixel, read from source bytes offset+2, offset+1 and offset. Source alpha is ignored. The bytes after the pixel's four are unchanged. |
| `WebClient.Repack` | js/main.js:123-135 | The output is as long as the input. Every byte holds the channel that the column-major, bottom-to-top ABGR layout puts there. |
| `WebClient.LastDot` | js/main.js:92 | The index of the last `.`, with no `.` after it, or -1 when there is none. |
| `WebClient.IpPrefix` | js/main.js:92 | A prefix of the address ending with its last `.`; empty exactly when there is no `.`. |
| `WebClient.ScanPrefix` | js/main.js:5-93 | A prefix exists exactly when a non-empty local address was found, and it is the address up to its last `.`, empty when there is no `.`. Otherwise `ipPrefix` stays undefined. |
| `WebClient.Decimal` | js/main.js:96 | Host numbers are written in decimal, with no leading zeros. |
| `WebClient.DecimalValue` | js/main.js:96 | The decimal text reads back as the number. |
| `WebClient.Target` | js/main.js:96 | The i-th host is `ipPrefix + i` on port 5050. With a prefix, that is the prefix followed by digits that read back as i. With `ipPrefix` undefined, the sum is the number NaN, so the host is `NaN`. |
| `WebClient.ScanTargets` | js/main.js:95-96 | Exactly 256 targets, the i-th being `Target(prefix, i)` for i = 0..255. |
| `WebClient.ScanDistinct` | js/main.js:95-96 | With a local address, the 256 scan addresses are pairwise distinct. |
| `WebClient.ScanWithoutAddress` | js/main.js:90-96 | Without a local address, all 256 connections go to the same host, `ws://NaN:5050`. |

## Left out

- SHA-1 is a function parameter returning 20 bytes; FIPS 180-4 is not modelled. Base64 is modelled per section 4 of RFC 4648, not as nettle's code.
- `create_address`, `create_listener`, `make_socket_nonblock`, `read`, `write`, `send`, `recv`, `poll`, `accept` and `close` are not modelled as code. Their results are the oracle sequences described above.
- The wslay frame codec is not modelled. `wslay_event_want_read`/`want_write`, the results of `wslay_event_recv`/`wslay_event_send` and of `wslay_event_queue_msg`, and the callbacks it makes are oracle values. Context creation and freeing are one boolean.
- `enqueued` is the log of every message `wslay_event_queue_msg` accepted. The codec's own send queue is not modelled: neither its draining by `wslay_event_send` during the pump nor its release when `ws3ds_exit` frees the context.
- App.MainLoop: the messages the pump hands to `on_message` are recorded in the engine's `delivered` log. The loop does not apply `OnMessage` to them, so the framebuffer's contents after the loop are not stated. `App.OnMessage` states the effect of each message on its own.
- `send_callback` does not change any global, so its effect on a round is only the send status it hands the codec. The `r == -1` branches of `send_callback` and `recv_callback` cannot run because of the early returns before them, so the model does not contain them.
- The C code runs `strlen` and `strstr` on a header buffer it never NUL-terminates, and computes `field_end` from a `strstr` result that may be NULL. The model reads the header as exactly the received bytes, up to the first NUL byte. It does not reproduce the undefined behaviour.
- Handshake.KeyEnd: stops at the end of the text when no `\r` or space follows, where the C code would read past the string. `HttpHeader.CrAfterValues` shows that this cannot happen on the paths the handshake takes.
- Handshake.HttpHandshake: when the write loop fails, the contract says only that what was written is a prefix of the response, not how long the prefix is.
- Transport.Engine.Poll: the codec's wants are inputs to each pump round, not re-queried from a codec state.
- Transport.Engine.SendText: takes the text's bytes (what `strlen` covers) rather than a NUL-terminated C string.
- `printf` and `perror` logging are not modelled. Neither is `src/ws3ds.h`, which only declares.
- The 3DS platform glue is not modelled: services, graphics, HID, the applet loop and vblank waiting. A tick record stands for one pass of the loop and carries the key state and the `accept` result. `readSMDH` (file I/O) is not modelled.
- The browser's WebSocket event handlers, reconnect timers, WebRTC address discovery, jQuery handlers, canvas drawing and floating-point image scaling are not modelled. The repack runs over a given width, height and RGBA array, and the scan returns its (address, port) list instead of opening connections.
- Integer widths: sizes and counts are unbounded integers, since no value in the model comes near the C limits. Poll flags are 16-bit bit-vectors. The Morton arithmetic uses 32-bit bit-vectors as `uint32_t` does.
