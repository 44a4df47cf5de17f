# go-opc in Dafny

A model of the core of go-opc, a Go implementation of Open Pixel Control (OPC).
OPC is a protocol for driving LED pixels over a byte stream. Each message is a
four-byte header followed by a payload:

- the header holds the channel, the command, and the high and low bytes of the
  payload length;
- channel 0 broadcasts to every device;
- command 0x00 sets pixel colours, and command 0xFF is "system exclusive".

The project has two modules.

- `message.dfy`, module `OpcMessage`, is the message codec of `message.go`.
  - `Frame` is the value of a message at one moment.
  - `Message` is a class with the five Go fields, updated in place by
    `SetPixelColor`, `SystemExclusive` and `SetLength`.
  - `ByteArray` builds the wire bytes in a loop and is proved equal to the
    function `Serialize`.
  - Lengths are joined by `LengthOf` and split by `SplitLength`, and the two
    are proved inverse.
- `server.dfy`, module `OpcServer`, is the server of `server.go`.
  - The streaming decoder `ReadOpc` reads one byte at a time from a `Conn`: a
    finite byte stream with a cursor, where running out of bytes is a read
    error.
  - It is proved against `Decode`, a state machine on values: `Step` is one
    loop iteration and `Run` is the loop.
  - The `uint16` byte counter wraps around explicitly (`Inc16`, `Sub16`), as
    it does in Go.
  - The lemmas about `Decode` cover the following:
    - the header bytes are copied in order;
    - exactly the declared number of payload bytes is consumed;
    - the round trip with `Serialize`;
    - the decoder never reads ahead;
    - the corner cases of declared length 0 and 65535.
  - `Server` holds the device registry `Devs` (a map from channel to device).
    `RegisterDevice` and `UnregisterDevice` update the map.
  - `Dispatch` writes a message to its target devices. Every device `Write`
    is recorded in a ghost log `Writes`.

What the decoder does with a declared length `L`:

- `L` in 1..65532: it reads the 4 header bytes and then exactly `L` payload
  bytes. This is `DecodeMessage`. Byte 65536 arrives when the counter has
  wrapped to 0, and `0 - 5` wraps to index 65531, so `L = 65532` still works.
- `L = 65535`: the message is valid straight after the header, with the
  65535 zero bytes of the fresh buffer as its payload (`DecodeMaxLength`).
- `L = 0`: the message never becomes valid after the header. The trim test
  `n - 4 == 0` is only true inside the header, so every byte that follows, up
  to byte 65535 of the stream, is swallowed as payload, including the bytes of
  later messages (`DecodeEmptyHeader`). A length-0 message therefore does not
  survive the round trip (`DecodeZeroLength`).

## Model

| member | source | states |
|---|---|---|
| OpcMessage.LengthOfInjective | message.go:57-59 | `Length()` joins the high and low header bytes into high * 256 + low (`LengthOf`; `Frame.Length` and `Message.Length` are this join of their header fields). Two headers declare the same length exactly when both their bytes agree |
| OpcMessage.SplitLength | message.go:49-52 | the high and low bytes stored for a length join back to that length |
| OpcMessage.SplitLengthOf | message.go:49-59 | joining two bytes into a length and splitting it again gives back the same high and low bytes (quotient and remainder by 256) |
| OpcMessage.Frame.IsValid | message.go:64-66 | for a payload of at most 65535 bytes, a message is valid exactly when its declared length equals its payload size |
| OpcMessage.Frame.IsBroadcast | message.go:69-71 | a message is a broadcast exactly when its channel is 0 |
| OpcMessage.Fresh | message.go:24-26 | a new message carries the given channel and command 0, and it is not valid |
| OpcMessage.Serialize | message.go:74-81 | the wire bytes are 4 + Length() long: channel, command, then length bytes that declare the payload size, then the first Length() payload bytes |
| OpcMessage.Message.constructor | message.go:24-26 | NewMessage sets the channel, zeroes the command and both length bytes, and allocates 65535 zero payload bytes |
| OpcMessage.Message.SetPixelColor | message.go:30-35 | bytes 3p, 3p+1 and 3p+2 become r, g and b; every other payload byte, the payload size and the header are unchanged |
| OpcMessage.Message.SystemExclusive | message.go:39-45 | the command becomes 0xFF and the payload becomes the system id followed by the data; channel and length bytes are unchanged |
| OpcMessage.Message.SetLength | message.go:49-52 | afterwards Length() is the given length, the high byte is length / 256, the low byte is length % 256, and channel, command and payload are unchanged |
| OpcMessage.Message.ByteArray | message.go:74-81 | the append loop yields exactly Serialize of the current message |
| OpcMessage.ByteArrayExample | message_test.go:93-102 | channel 255, pixel 0 set to (1, 2, 3) and length 3 serialise to [255, 0, 0, 3, 1, 2, 3] |
| OpcServer.Conn.Read | server_test.go:17-21 | a read returns the byte under the cursor and advances past it; at the end of the stream it returns a read error and does not move |
| OpcServer.Initial | server.go:71-73 | the loop starts at counter 0 with `NewMessage(0)`: a 65535-byte buffer and a message that is not yet valid, so at least one byte is read |
| OpcServer.Inc16 | server.go:84 | incrementing the uint16 counter is addition modulo 2^16 |
| OpcServer.Sub16 | server.go:97-99 | uint16 subtraction of a constant is subtraction modulo 2^16 |
| OpcServer.Place | server.go:87-102 | placing a byte keeps the payload buffer at 65535 bytes unless the message has just become valid |
| OpcServer.Step | server.go:84-102 | one loop iteration advances the counter modulo 2^16 and leaves either a full buffer or a valid message |
| OpcServer.Run | server.go:75-103 | a successful run yields a valid message after consuming at most the available bytes |
| OpcServer.Decode | server.go:70-106 | whatever the decoder returns as a message is valid and consumed no more bytes than the stream holds |
| OpcServer.Store | server.go:87-102 | the in-place switch on the counter changes the message exactly as Place does |
| OpcServer.ReadOpc | server.go:70-106 | on a stream where Decode succeeds: a fresh message equal to Decode's, no error, and the cursor advanced by exactly the bytes consumed. Otherwise: no message, the end-of-stream error, and the stream used up |
| OpcServer.DecodeHeader | server.go:84-95 | the first four bytes become channel, command, high and low length in that order; length 65535 ends the call after those four bytes |
| OpcServer.DecodeShortHeader | server.go:76-82 | a stream of fewer than four bytes yields the read error |
| OpcServer.PayloadStep | server.go:96-101 | payload byte k is stored at index k, and the buffer is cut to the declared length when byte k is the last one |
| OpcServer.PayloadRun | server.go:96-103 | from payload index k the loop completes the message with one more byte or continues at index k + 1 |
| OpcServer.DecodePayload | server.go:96-103 | after the header, the decoder takes the next Length() - k bytes as the rest of the payload and stops; a shorter stream is a read error |
| OpcServer.DecodeMessage | server.go:70-106 | for a declared length L in 1..65532: the decoder consumes exactly 4 + L bytes, copies the four header bytes in order, and takes the next L bytes as the payload; with fewer bytes it is a read error |
| OpcServer.DecodeMaxLength | server.go:75-95 | declared length 65535 yields the header with the 65535 zero bytes of the fresh buffer after exactly four bytes |
| OpcServer.DecodeRoundTrip | server.go:70-106 | decoding the wire bytes of a valid message with length 1..65532 consumes exactly those bytes and yields a message with the same wire bytes (the same message when the payload holds nothing beyond the length) |
| OpcServer.DecodeExample | server_test.go:67-79 | the bytes [255, 0, 0, 3, 1, 2, 3] decode to channel 255, length 3 and payload [1, 2, 3] in seven bytes |
| OpcServer.ReadOpcExample | server_test.go:67-79 | ReadOpc on a connection carrying [255, 0, 0, 3, 1, 2, 3] returns a message whose ByteArray is those same bytes |
| OpcServer.DecodeEmptyHeader | server.go:96-101 | a header that declares length 0, followed by any stream of up to 65531 bytes, never yields a message: every following byte is read and stored as payload, and the stream runs out first |
| OpcServer.ZeroRun | server.go:75-101 | after a length-0 header, the loop reads every remaining byte before the counter wraps and never makes the message valid |
| OpcServer.ZeroStep | server.go:96-101 | after a length-0 header, byte k of the payload is stored at index k and the buffer is never trimmed |
| OpcServer.DecodeZeroLength | server.go:75-101 | the wire bytes of a length-0 message do not decode |
| OpcServer.RunIgnoresRest | server.go:75-83 | once the loop has produced a message, bytes after those it consumed do not change the result |
| OpcServer.DecodeIgnoresRest | server.go:70-83 | ReadOpc never reads ahead: any stream that starts with the consumed bytes yields the same message |
| OpcServer.Targets | server.go:114-125 | a broadcast targets every registered channel, and any other message targets only its own channel |
| OpcServer.Deliveries | server.go:117-123 | one write per listed channel, in list order, each to the device registered there |
| OpcServer.Server.constructor | server.go:17-19 | a new server has no devices and has made no writes |
| OpcServer.Server.RegisterDevice | server.go:22-24 | the device is stored under its own channel, replacing an earlier device there; every other channel is unchanged; the channel-to-device invariant is kept |
| OpcServer.Server.UnregisterDevice | server.go:27-29 | the device's channel is removed and every other channel is unchanged; removing an absent channel changes nothing |
| OpcServer.Server.Write | device.go:7 | a device write is recorded in the write log; its error is returned to the caller |
| OpcServer.Server.WriteEach | server.go:117-119 | each given channel's device is written exactly once, in some order, and nothing else is written |
| OpcServer.Server.Dispatch | server.go:114-125 | a broadcast is written exactly once to every registered device, in some order; any other message is written once to the device of its channel; errors never stop the writes. While each device is registered under the channel it reports, every device written to reports one of the message's target channels |

## Left out

- `ListenOnPort`, `HandleConn` and `Process` (server.go:34-67, 127-133) are left out. They are network listening, goroutines and Go channels. `HandleConn` calls `ReadOpc` repeatedly until an error, and `DecodeIgnoresRest` says each such call starts right after the previous message.
- `client.go` and `opc.go` are not part of this model. They only wrap network dialling and start goroutines. The bytes a client sends come from `ByteArray`.
- `device.go` is modelled as an abstract `Device` value carrying a channel. Device implementations are not part of this model.
- Map iteration order during a broadcast is not modelled. The order is a ghost result that the contract leaves unconstrained.
- Go slice aliasing in `SystemExclusive` is not modelled: `append` may write into the caller's `systemID` array. Payloads are value sequences.
- OpcServer.Conn.Read: models only two outcomes, one byte or end-of-stream. A read that returns zero bytes without an error, or a byte together with an error, is not modelled.
- OpcServer.Server.Dispatch: requires a non-broadcast message's channel to be registered. In Go, looking up a missing channel gives a nil device, and calling `Write` on it panics. A description of the protocol says such a message should be dropped; the model follows the code.
- OpcServer.DecodeMessage: characterises only declared lengths 1..65532. Lengths 0 and 65535 have their own lemmas (`DecodeEmptyHeader`, `DecodeZeroLength`, `DecodeMaxLength`). For lengths 65533 and 65534, byte 65537 wraps the counter back to 1 and overwrites the header. `Run` models this behaviour, but no lemma states what results.
- OpcMessage.Message.SetPixelColor: requires the three bytes to lie inside the payload. Go panics on an index outside it.
- OpcMessage.Message.ByteArray: requires `Length() <= |Data|`. Go panics when the declared length exceeds the payload.
- OpcMessage.LengthOf: models Go's `uint16(high) << 8 | uint16(low)` as the sum high * 256 + low, which is equal because the low byte is below 256. The equality with the bit operations is not proved.
- OpcServer.DecodeEmptyHeader: covers streams of up to 65531 bytes after a length-0 header. Longer streams wrap the counter back into the header. `Run` models this, but no lemma states what results.
- Messages are handed from `ReadOpc` to `Dispatch` over a Go channel. That hand-off is not part of this model: `Dispatch` takes a `Message` directly.
