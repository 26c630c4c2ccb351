/** `_InstrumentInterface`: one half-duplex exchange per call over a byte
    stream. The pyserial port becomes `SerialStream`, a stream that logs what
    is written and hands back queued bytes on read. */
module Transport {
  import opened Common
  import opened IntegerCodec
  import opened FrameCodec

  /** The serial port as the core sees it: `write(data)` and a `read(size)`
      that returns at most `size` bytes (fewer when the port's timeout ends
      the read early). */
  class SerialStream {
    /** Every buffer written, in order. */
    var written: seq<seq<byte>>
    /** The bytes the device will send back, not read yet. */
    var incoming: seq<byte>

    constructor (incoming: seq<byte>)
      ensures written == [] && this.incoming == incoming
    {
      written := [];
      this.incoming := incoming;
    }

    method Write(data: seq<byte>)
      modifies this
      ensures written == old(written) + [data] && incoming == old(incoming)
    {
      written := written + [data];
    }

    /** Reads up to `size` bytes; a shorter result stands for a timeout. */
    method Read(size: nat) returns (data: seq<byte>)
      modifies this
      ensures data == old(incoming)[..Min(size, |old(incoming)|)]
      ensures incoming == old(incoming)[|data|..] && written == old(written)
    {
      var n := Min(size, |incoming|);
      data := incoming[..n];
      incoming := incoming[n..];
    }
  }

  /** What one `send_command` does to the stream and what it gives back. */
  datatype Exchange = Exchange(sent: seq<seq<byte>>, consumed: nat, outcome: Result<seq<byte>>)

  /** `send_command`'s check on the reply: only its length is checked,
      never its start byte, address, command or checksum. */
  function CheckResponse(response: seq<byte>): (r: Result<seq<byte>>)
    ensures r.Ok? <==> |response| == PacketLength
    ensures r.Ok? ==> r.value == response
    ensures r.Err? ==> r.error == InvalidResponseLength(|response|)
  {
    if |response| != PacketLength then Err(InvalidResponseLength(|response|)) else Ok(response)
  }

  /** The effect of `send_command(command, payload)` for a device whose
      pending output is `incoming`: at most one frame written, and only one
      that passed the self-check; one read of at most 26 bytes, only after the
      write; the reply returned byte for byte. */
  function CommandExchange(address: int, command: int, payload: seq<byte>, incoming: seq<byte>): (x: Exchange)
    ensures x.sent == [] <==> BuildFrame(address, command, payload).Err?
    ensures x.sent == [] ==> x.consumed == 0 && x.outcome == Err(BuildFrame(address, command, payload).error)
    ensures x.sent != [] ==>
      x.sent == [BuildFrame(address, command, payload).value] && CommandProperlyFormed(x.sent[0]) &&
      x.consumed == Min(PacketLength, |incoming|)
    ensures x.outcome.Ok? <==> x.sent != [] && |incoming| >= PacketLength
    ensures x.outcome.Ok? ==> x.outcome.value == incoming[..PacketLength]
    ensures x.sent != [] && |incoming| < PacketLength ==>
      x.outcome == Err(InvalidResponseLength(|incoming|))
  {
    match BuildFrame(address, command, payload)
    case Err(e) => Exchange([], 0, Err(e))
    case Ok(frame) =>
      var reply := incoming[..Min(PacketLength, |incoming|)];
      Exchange([frame], |reply|, CheckResponse(reply))
  }

  /** Python's clamping of a slice bound `i` on a sequence of length `len`:
      a negative bound counts from the end. */
  function SliceBound(i: int, len: nat): (k: nat)
    ensures k <= len
    ensures 0 <= i <= len ==> k == i
    ensures i < 0 && 0 <= i + len ==> k == i + len
    ensures i > len ==> k == len
    ensures i + len < 0 ==> k == 0
  {
    if i < 0 then (if i + len < 0 then 0 else i + len)
    else if i > len then len
    else i
  }

  /** `s[start:stop]` with Python's semantics: out-of-range bounds are
      clamped, negative ones count from the end, and a reversed range is empty. */
  function PySlice(s: seq<byte>, start: int, stop: int): (r: seq<byte>)
    ensures 0 <= start <= stop <= |s| ==> r == s[start..stop]
    ensures 0 <= start <= |s| && stop > |s| ==> r == s[start..]
    ensures 0 <= stop <= start ==> r == []
  {
    var lo := SliceBound(start, |s|);
    var hi := SliceBound(stop, |s|);
    if lo <= hi then s[lo..hi] else []
  }

  /** `get_integer_cmd` after the exchange: decode `response[3:3 + num_bytes]`. */
  function ResponseInteger(response: seq<byte>, numBytes: int): Result<int> {
    DecodeInt(PySlice(response, 3, 3 + numBytes))
  }

  class InstrumentInterface {
    /** The port; it is given, not opened, by the constructor. */
    const serial: SerialStream
    /** The device address put in byte 1 of every frame. */
    var address: int

    constructor (serial: SerialStream, address: int)
      ensures this.serial == serial && this.address == address
    {
      this.serial := serial;
      this.address := address;
    }

    /** `checksum(cmd)`: a running sum of bytes 0..24, reduced modulo 256. */
    method Checksum(cmd: seq<byte>) returns (checksum: byte)
      requires |cmd| >= PacketLength - 1
      ensures checksum == ChecksumOf(cmd)
    {
      var sum: nat := 0;
      for i := 0 to PacketLength - 1
        invariant sum == Sum(cmd[..i])
      {
        assert cmd[..i + 1][..i] == cmd[..i];
        sum := sum + cmd[i];
      }
      checksum := sum % 256;
    }

    /** `send_command(command, payload)`: build the frame byte by byte,
        self-check it, write it, read one reply and check only its length. */
    method SendCommand(command: int, payload: seq<byte> := []) returns (r: Result<seq<byte>>)
      modifies serial
      ensures var x := CommandExchange(address, command, payload, old(serial.incoming));
        r == x.outcome &&
        serial.written == old(serial.written) + x.sent &&
        serial.incoming == old(serial.incoming)[x.consumed..]
    {
      var cmd: seq<byte> := [];
      cmd := cmd + [StartByte];
      if !(0 <= address < 256) {
        return Err(ByteOutOfRange(address));
      }
      cmd := cmd + [address];
      if !(0 <= command < 256) {
        return Err(ByteOutOfRange(command));
      }
      cmd := cmd + [command];
      cmd := cmd + payload;
      var padCount := PacketLength - 1 - |cmd|;
      if padCount < 0 {
        return Err(PayloadTooLong(|payload|));
      }
      cmd := cmd + Zeros(padCount);
      assert cmd == FrameBody(address, command, payload);
      var checksum := Checksum(cmd);
      cmd := cmd + [checksum];
      assert AssembleFrame(address, command, payload) == Ok(cmd);

      var defect := FrameDefect(cmd);
      if defect.Some? {
        return Err(MalformedFrame(defect.value));
      }

      serial.Write(cmd);
      var response := serial.Read(PacketLength);
      if |response| != PacketLength {
        return Err(InvalidResponseLength(|response|));
      }
      return Ok(response);
    }

    /** `send_integer_cmd(command, value, num_bytes)`: encode first, so a bad
        width or value fails before anything is written; the reply is dropped. */
    method SendIntegerCmd(command: int, value: int, numBytes: int) returns (r: Result<()>)
      modifies serial
      ensures EncodeInt(value, numBytes).Err? ==>
        r == Err(EncodeInt(value, numBytes).error) &&
        serial.written == old(serial.written) && serial.incoming == old(serial.incoming)
      ensures EncodeInt(value, numBytes).Ok? ==>
        var x := CommandExchange(address, command, EncodeInt(value, numBytes).value, old(serial.incoming));
        r == (if x.outcome.Ok? then Ok(()) else Err(x.outcome.error)) &&
        serial.written == old(serial.written) + x.sent &&
        serial.incoming == old(serial.incoming)[x.consumed..]
    {
      var payload := EncodeInt(value, numBytes);
      if payload.Err? {
        return Err(payload.error);
      }
      var response := SendCommand(command, payload.value);
      if response.Err? {
        return Err(response.error);
      }
      return Ok(());
    }

    /** `get_integer_cmd(command, num_bytes)`: a command with an empty
        payload, then the reply's bytes 3 .. 3 + num_bytes decoded. The width
        is only looked at after the exchange has happened. */
    method GetIntegerCmd(command: int, numBytes: int := 4) returns (r: Result<int>)
      modifies serial
      ensures var x := CommandExchange(address, command, [], old(serial.incoming));
        r == (if x.outcome.Ok? then ResponseInteger(x.outcome.value, numBytes) else Err(x.outcome.error)) &&
        serial.written == old(serial.written) + x.sent &&
        serial.incoming == old(serial.incoming)[x.consumed..]
    {
      var response := SendCommand(command);
      if response.Err? {
        return Err(response.error);
      }
      return ResponseInteger(response.value, numBytes);
    }
  }

  /** For a supported width, the integer read back is the little-endian value
      of the reply's bytes 3 .. 3 + n - 1. */
  lemma ResponseIntegerField(response: seq<byte>, numBytes: int)
    requires |response| == PacketLength && SupportedWidth(numBytes)
    ensures ResponseInteger(response, numBytes) == Ok(FromLittleEndian(response[3..3 + numBytes]))
  {
  }

  /** Any other non-negative width fails, after the exchange, with the length
      of the slice that was handed to `decode_int`. */
  lemma ResponseIntegerBadWidth(response: seq<byte>, numBytes: int)
    requires |response| == PacketLength && numBytes >= 0 && !SupportedWidth(numBytes)
    ensures ResponseInteger(response, numBytes) == Err(UnsupportedWidth(Min(numBytes, PacketLength - 3)))
  {
  }

  /** Python slicing lets a negative width through: `response[3:3 - 22]`
      is `response[3:7]`, so num_bytes == -22 decodes a 4-byte integer. */
  lemma ResponseIntegerNegativeWidth(response: seq<byte>)
    requires |response| == PacketLength
    ensures ResponseInteger(response, -22) == Ok(FromLittleEndian(response[3..7]))
  {
  }

  /** An encoded integer always fits in the payload, so `send_integer_cmd`
      writes its frame exactly when the address and command are valid. */
  lemma SendIntegerWrites(address: int, command: int, value: int, numBytes: int, incoming: seq<byte>)
    requires EncodeInt(value, numBytes).Ok?
    ensures CommandExchange(address, command, EncodeInt(value, numBytes).value, incoming).sent != [] <==>
      0 <= address < 256 && address != BroadcastAddr && IsCommand(command)
  {
  }

  /** The frame `send_integer_cmd` writes carries the encoded value at bytes
      3 .. 3 + n - 1, and the device side decodes it back to the value. */
  lemma SentIntegerDecodes(address: int, command: int, value: int, numBytes: int, incoming: seq<byte>)
    requires EncodeInt(value, numBytes).Ok?
    requires CommandExchange(address, command, EncodeInt(value, numBytes).value, incoming).sent != []
    ensures var frame := CommandExchange(address, command, EncodeInt(value, numBytes).value, incoming).sent[0];
      DecodeInt(frame[3..3 + numBytes]) == Ok(value)
  {
    EncodeDecodeRoundTrip(value, numBytes);
  }

  /** A device that answers with only 10 bytes: the exchange fails with the
      received length, after the frame was written. */
  method ShortReplyScenario() returns (r: Result<seq<byte>>, written: seq<seq<byte>>)
    ensures r == Err(InvalidResponseLength(10))
    ensures written == [[0xAA, 0x00, 0x21, 0x01] + Zeros(21) + [0xCC]]
  {
    var stream := new SerialStream(Zeros(10));
    var instrument := new InstrumentInterface(stream, 0);
    OutputOnFrame();
    r := instrument.SendCommand(0x21, [1]);
    written := stream.written;
  }

  /** A device that answers a query with 03 00 00 00 at offset 3: a 4-byte
      `get_integer_cmd` returns 3. */
  method QueryScenario() returns (r: Result<int>)
    ensures r == Ok(3)
  {
    var reply: seq<byte> := [0xAA, 0x00, 0x5F, 3, 0, 0, 0] + Zeros(19);
    var stream := new SerialStream(reply);
    var instrument := new InstrumentInterface(stream, 0);
    CommandCodesRange(0x5F);
    BuildFrameOutcome(0, 0x5F, []);
    r := instrument.GetIntegerCmd(0x5F);
    assert reply[..PacketLength][3..7] == [3, 0, 0, 0];
    DecodeExample();
  }
}
