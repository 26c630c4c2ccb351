# ITECH serial frame codec and command exchange, in Dafny

This project models the core of `itech_serial`: the `_InstrumentInterface` class that talks to ITECH
bench instruments (electronic loads and power supplies) over a serial port. The model covers four things:

- **Checksum.** The checksum is the sum of bytes 0..24 modulo 256. It is computed by a loop (`Transport.InstrumentInterface.Checksum`) that is proved against a reference sum (`FrameCodec.Sum`, `FrameCodec.ChecksumOf`).
- **Frame check.** `command_properly_formed` checks a frame with a chain of guards: length 26, start byte `0xAA`, address not `0xFF`, command in the table 0x20..0x6C plus 0x12, and a correct checksum. It is `FrameCodec.FrameDefect`, which names the first guard that fails, and `FrameCodec.CommandProperlyFormed`.
- **Frame building.** `send_command` builds a frame in steps: start byte, address, command, payload, zero padding and checksum. This is `FrameCodec.AssembleFrame`. The self-check assertion that follows it is `FrameCodec.BuildFrame`.
- **One exchange.** `send_command` writes the frame once and reads one reply of at most 26 bytes. It checks only the reply's length. `Transport.InstrumentInterface.SendCommand` is the imperative method. `Transport.CommandExchange` is the value it is proved to compute.
- **Integers.** `encode_int`/`decode_int` handle 1-, 2- and 4-byte unsigned little-endian integers (`IntegerCodec`). `send_integer_cmd` and `get_integer_cmd` combine them with the exchange.

Layout: `common.dfy` holds bytes, the error type and helpers. `integer_codec.dfy`, `frame_codec.dfy` and
`transport.dfy` hold one component each.

The serial port is the class `Transport.SerialStream`. It keeps a log of the buffers written to it and a
queue of bytes to hand back. A read returns at most the requested number of bytes. A shorter queue
stands for the port's read timeout. The port is passed to the `InstrumentInterface` constructor.

Each Python exception becomes a typed error in `Common.Error`:
- `bytearray.append` of a value outside 0..255 raises `ValueError`. Here it is `ByteOutOfRange`.
- `bytes(n)` with a negative count raises `ValueError` when the payload is longer than 22 bytes. Here it is `PayloadTooLong`.
- The failed self-check `assert` becomes `MalformedFrame`, carrying the defect.
- The `InstrumentException` for a reply of the wrong length becomes `InvalidResponseLength`, carrying the received length.
- `ValueError` for an unsupported integer width becomes `UnsupportedWidth`.
- `struct.error` for a value that does not fit the width becomes `ValueOutOfRange`.

Facts about the source that the model keeps:
- The checksum of the frame `AA 00 21 01 00…00` is 0xAA + 0x21 + 0x01 = `0xCC`, proved by `FrameCodec.OutputOnFrame`.
- `send_command` returns the whole 26-byte reply unchanged. Only `get_integer_cmd` slices it, taking bytes 3 .. 3 + n.

`get_integer_cmd` slices with Python's rules, so the model slices the same way (`Transport.PySlice`). A
width of -22 therefore decodes bytes 3..6 instead of failing (`Transport.ResponseIntegerNegativeWidth`).

## Model

| member | source | states |
|---|---|---|
| `IntegerCodec.LittleEndian` | python/src/itech_serial/itech_serial.py:174-179 | the packed form of a value under '<B'/'<H'/'<I' has exactly n bytes |
| `IntegerCodec.FromLittleEndian` | python/src/itech_serial/itech_serial.py:186-191 | an unpacked n-byte string is an unsigned value below 256^n |
| `IntegerCodec.Pack` | python/src/itech_serial/itech_serial.py:174-179 | `struct.pack` succeeds exactly when 0 <= value < 256^n, giving n bytes, and otherwise fails with the value |
| `IntegerCodec.EncodeInt` | python/src/itech_serial/itech_serial.py:169-181 | a width other than 1, 2, 4 fails with that width whatever the value; a supported width fails on a value that does not fit; otherwise the result has num_bytes bytes |
| `IntegerCodec.DecodeInt` | python/src/itech_serial/itech_serial.py:183-193 | succeeds exactly for inputs of length 1, 2 or 4, with a value below 256^len; any other length fails with that length |
| `IntegerCodec.FromLittleEndianInverse` | python/src/itech_serial/itech_serial.py:169-193 | unpacking a packed value returns the value, for every value that fits |
| `IntegerCodec.LittleEndianInverse` | python/src/itech_serial/itech_serial.py:169-193 | packing an unpacked byte string returns the byte string |
| `IntegerCodec.EncodeDecodeRoundTrip` | python/src/itech_serial/itech_serial.py:169-193 | decode_int(encode_int(v, n)) == v whenever encode_int succeeds |
| `IntegerCodec.DecodeEncodeRoundTrip` | python/src/itech_serial/itech_serial.py:169-193 | encode_int(decode_int(s), len(s)) == s whenever decode_int succeeds, so the codec is a bijection per width |
| `IntegerCodec.DecodeExample` | python/src/itech_serial/itech_serial.py:190-191 | the bytes 03 00 00 00, the reply field a 4-byte get_integer_cmd reads, decode to 3 |
| `FrameCodec.CodeRun` | python/src/itech_serial/itech_serial.py:89-97 | the run of command codes lo..hi, in order, holds lo + i at position i |
| `FrameCodec.CommandCodesRange` | python/src/itech_serial/itech_serial.py:89-98 | a code is in the command table exactly when it is in 0x20..0x6C or is 0x12 |
| `FrameCodec.ChecksumIgnoresTail` | python/src/itech_serial/itech_serial.py:123-130 | bytes from offset 25 onwards never change the checksum |
| `FrameCodec.FrameDefect` | python/src/itech_serial/itech_serial.py:99-121 | the guards in source order: wrong length, else bad start byte, else address 0xFF, else unknown command, else last byte not the checksum, each reported exactly when its test fails and the earlier ones pass |
| `FrameCodec.CommandProperlyFormed` | python/src/itech_serial/itech_serial.py:86-121 | true exactly when length is 26, byte 0 is 0xAA, byte 1 is not 0xFF, byte 2 is a command and byte 25 is the checksum of bytes 0..24 |
| `FrameCodec.FrameBody` | python/src/itech_serial/itech_serial.py:136-141 | the frame before its checksum is 25 bytes long |
| `FrameCodec.AssembleFrame` | python/src/itech_serial/itech_serial.py:136-142 | fails on an address or command outside 0..255 (in that order) or a payload over 22 bytes; otherwise the frame is 26 bytes: 0xAA, address, command, the payload, zeros up to byte 24, and the checksum of bytes 0..24 |
| `FrameCodec.BuildFrame` | python/src/itech_serial/itech_serial.py:136-144 | a frame that gets past the self-check assertion is properly formed and has the layout above |
| `FrameCodec.ChecksumOfAssembled` | python/src/itech_serial/itech_serial.py:136-142 | the checksum byte of a built frame is (0xAA + address + command + sum of payload) mod 256; the padding adds nothing |
| `FrameCodec.BuildFrameOutcome` | python/src/itech_serial/itech_serial.py:136-144 | building succeeds exactly for address in 0..254, a command in the table and a payload of at most 22 bytes; address 0xFF fails the self-check as BroadcastAddress and an unknown command as UnknownCommand, and the earlier failures pass through |
| `FrameCodec.BuiltPayload` | python/src/itech_serial/itech_serial.py:140-141 | bytes 3..24 of a built frame are the payload followed by zeros |
| `FrameCodec.WellFormedFrameRebuilds` | python/src/itech_serial/itech_serial.py:99-142 | every properly formed frame is rebuilt exactly from its own address, command and bytes 3..24 |
| `FrameCodec.TrailingZeroInvisible` | python/src/itech_serial/itech_serial.py:140-141 | a payload with a trailing zero byte gives the same frame as the payload without it |
| `FrameCodec.OneBytePayloadFrame` | python/src/itech_serial/itech_serial.py:136-144 | the whole frame for a one-byte payload: AA, address, command, the byte, 21 zeros, then (0xAA + address + command + byte) mod 256 |
| `FrameCodec.RemoteControlFrame` | python/src/itech_serial/itech_serial.py:78-81 | address 0, command 0x20, payload 01 gives aa 00 20 01 00…00 cb |
| `FrameCodec.OutputOnFrame` | python/src/itech_serial/itech_serial.py:136-142 | address 0, command 0x21, payload 01 gives aa 00 21 01 00…00 cc |
| `Transport.SerialStream.constructor` | python/src/itech_serial/itech_serial.py:74 | a port with nothing written and the given bytes queued |
| `Transport.SerialStream.Write` | python/src/itech_serial/itech_serial.py:146 | write appends the buffer to the log and leaves the queue alone |
| `Transport.SerialStream.Read` | python/src/itech_serial/itech_serial.py:147 | read returns the first min(size, queued) bytes and removes exactly those |
| `Transport.CheckResponse` | python/src/itech_serial/itech_serial.py:149-151 | a reply is accepted exactly when it has 26 bytes, and then unchanged; otherwise the error carries the received length |
| `Transport.CommandExchange` | python/src/itech_serial/itech_serial.py:132-167 | nothing is written or read unless the frame was built and passed the self-check; otherwise exactly that frame is written and min(26, available) bytes are read; success exactly when 26 bytes arrived, returning them byte for byte; a short reply fails with its length |
| `Transport.SliceBound` | python/src/itech_serial/itech_serial.py:240 | a Python slice bound counts a negative bound from the end, then clamps: above len gives len, below -len gives 0 |
| `Transport.PySlice` | python/src/itech_serial/itech_serial.py:240 | an in-range slice is the Dafny subsequence; a stop past the end stops at the end; a reversed range is empty |
| `Transport.InstrumentInterface.constructor` | python/src/itech_serial/itech_serial.py:67-75 | the interface holds the given port and address |
| `Transport.InstrumentInterface.Checksum` | python/src/itech_serial/itech_serial.py:123-130 | the running sum of bytes 0..24, reduced mod 256, equals the reference checksum |
| `Transport.InstrumentInterface.SendCommand` | python/src/itech_serial/itech_serial.py:132-167 | returns the outcome of CommandExchange, appends exactly its frames to the port's log and consumes exactly its bytes |
| `Transport.InstrumentInterface.SendIntegerCmd` | python/src/itech_serial/itech_serial.py:206-224 | an encoding failure returns that error with the port untouched; otherwise exactly the exchange of the encoded payload happens, and only its error is reported |
| `Transport.InstrumentInterface.GetIntegerCmd` | python/src/itech_serial/itech_serial.py:226-240 | exactly the exchange of an empty-payload command happens; its error is returned, or else the decoding of reply[3:3 + num_bytes] |
| `Transport.ResponseIntegerField` | python/src/itech_serial/itech_serial.py:239-240 | for width 1, 2 or 4 the value read is the little-endian value of reply bytes 3 .. 3 + n - 1 |
| `Transport.ResponseIntegerBadWidth` | python/src/itech_serial/itech_serial.py:183-193 | any other non-negative width fails after the exchange, reporting the slice length min(n, 23) |
| `Transport.ResponseIntegerNegativeWidth` | python/src/itech_serial/itech_serial.py:240 | width -22 slices reply[3:7] and decodes a 4-byte value |
| `Transport.SendIntegerWrites` | python/src/itech_serial/itech_serial.py:224 | an encoded integer always fits the payload, so the frame is written exactly when the address is 0..254 and the command is in the table |
| `Transport.SentIntegerDecodes` | python/src/itech_serial/itech_serial.py:224 | bytes 3 .. 3 + n - 1 of the frame send_integer_cmd writes decode back to the value |
| `Transport.ShortReplyScenario` | python/src/itech_serial/itech_serial.py:146-151 | a device that answers with 10 bytes: the frame aa 00 21 01 00…00 cc is written and the call fails with received length 10 |
| `Transport.QueryScenario` | python/src/itech_serial/itech_serial.py:226-240 | a reply carrying 03 00 00 00 at offset 3 makes a 4-byte get_integer_cmd return 3 |

## Left out

- `find_usb` (port enumeration through pyserial) and opening `serial.Serial` in `__init__`: foreign I/O. The port is passed in as a `SerialStream`, and the baud rate and timeout are not modelled. A timeout shows up only as a shorter read.
- Stream-level I/O errors raised by `write`/`read`: the modelled stream never fails.
- Transport.InstrumentInterface.Checksum: requires at least 25 bytes. The source raises `IndexError` on shorter input, and no call in the core passes one.
- The `debug` flag, `dump_command`, `print_command_and_response` and the diagnostic `print` calls in `command_properly_formed`: console output only. `FrameDefect` keeps the reason each diagnostic names.
- Python's `assert` is removed under `python -O`. The model always performs the self-check, as an unoptimised interpreter does.
- Type errors from non-integer arguments, such as a `float` value passed to `struct.pack`: the model's parameters are integers and byte strings.
- The `IT8500`/`IT6800` command tables, their float unit conversions, `identify` and `measure`, and all commented-out code, including the response-code table: these sit above the core or are not live.
