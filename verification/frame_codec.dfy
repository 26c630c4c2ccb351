/** The 26-byte request frame of `_InstrumentInterface`: its checksum, the
    well-formedness check `command_properly_formed`, and the layout that
    `send_command` builds before it writes anything.

      offset 0      start byte 0xAA
      offset 1      device address (0xFF is refused)
      offset 2      command code (one of CommandCodes)
      offset 3..24  payload, zero padded
      offset 25     checksum: sum of bytes 0..24 modulo 256
*/
module FrameCodec {
  import opened Common

  /** PACKET_LENGTH: every frame, in either direction, is this long. */
  const PacketLength: nat := 26

  /** Room for payload between the command byte and the checksum byte. */
  const MaxPayload: nat := PacketLength - 4

  const StartByte: byte := 0xAA

  const BroadcastAddr: byte := 0xFF

  /** The command table of `command_properly_formed`, in its own order: the
      codes 0x20, 0x21, ..., 0x6C one after another, then 0x12. */
  const CommandCodes: seq<byte> := CodeRun(0x20, 0x6C) + [0x12]

  /** The consecutive codes lo, lo + 1, ..., hi. */
  function CodeRun(lo: byte, hi: byte): (s: seq<byte>)
    requires lo <= hi
    ensures |s| == hi - lo + 1
    ensures forall i :: 0 <= i < |s| ==> s[i] == lo + i
  {
    if lo == hi then [lo] else CodeRun(lo, hi - 1) + [hi]
  }

  predicate IsCommand(code: int) {
    code in CommandCodes
  }

  /** The table is exactly the contiguous block 0x20..0x6C plus 0x12. */
  lemma CommandCodesRange(code: int)
    ensures IsCommand(code) <==> 0x20 <= code <= 0x6C || code == 0x12
  {
    if 0x20 <= code <= 0x6C {
      assert CommandCodes[code - 0x20] == code;
    }
    assert CommandCodes[|CommandCodes| - 1] == 0x12;
  }

  /** Plain sum of a byte string, the reference the checksum is defined by. */
  function Sum(s: seq<byte>): (n: nat)
    ensures n <= 255 * |s|
  {
    if s == [] then 0 else Sum(s[..|s| - 1]) + s[|s| - 1]
  }

  /** `checksum(cmd)`: the sum of bytes 0..24 modulo 256; whatever follows
      byte 24 (the checksum slot itself, or anything longer) is not read. */
  function ChecksumOf(cmd: seq<byte>): byte
    requires |cmd| >= PacketLength - 1
  {
    Sum(cmd[..PacketLength - 1]) % 256
  }

  lemma {:induction false} SumAppend(a: seq<byte>, b: seq<byte>)
    ensures Sum(a + b) == Sum(a) + Sum(b)
  {
    if b != [] {
      var b' := b[..|b| - 1];
      assert (a + b)[..|a + b| - 1] == a + b';
      assert (a + b)[|a + b| - 1] == b[|b| - 1];
      SumAppend(a, b');
    } else {
      assert a + b == a;
    }
  }

  lemma {:induction false} SumZeros(n: nat)
    ensures Sum(Zeros(n)) == 0
  {
    if n > 0 {
      assert Zeros(n)[..n - 1] == Zeros(n - 1);
      SumZeros(n - 1);
    }
  }

  /** Bytes at offset 25 and beyond never affect the checksum. */
  lemma ChecksumIgnoresTail(cmd: seq<byte>, tail: seq<byte>)
    requires |cmd| >= PacketLength - 1
    ensures ChecksumOf(cmd + tail) == ChecksumOf(cmd)
  {
    assert (cmd + tail)[..PacketLength - 1] == cmd[..PacketLength - 1];
  }

  /** The first guard of `command_properly_formed` that a frame fails, with
      the reason its diagnostic names; None when every guard passes. */
  function FrameDefect(cmd: seq<byte>): (d: Option<Defect>)
    ensures d == Some(WrongLength(|cmd|)) <==> |cmd| != PacketLength
    ensures |cmd| == PacketLength ==>
      (d == Some(BadStartByte(cmd[0])) <==> cmd[0] != StartByte)
    ensures |cmd| == PacketLength && cmd[0] == StartByte ==>
      (d == Some(BroadcastAddress) <==> cmd[1] == BroadcastAddr)
    ensures |cmd| == PacketLength && cmd[0] == StartByte && cmd[1] != BroadcastAddr ==>
      (d == Some(UnknownCommand(cmd[2])) <==> !IsCommand(cmd[2]))
    ensures |cmd| == PacketLength && cmd[0] == StartByte && cmd[1] != BroadcastAddr && IsCommand(cmd[2]) ==>
      (d == Some(BadChecksum(cmd[|cmd| - 1], ChecksumOf(cmd))) <==> cmd[|cmd| - 1] != ChecksumOf(cmd))
  {
    if |cmd| != PacketLength then Some(WrongLength(|cmd|))
    else if cmd[0] != StartByte then Some(BadStartByte(cmd[0]))
    else if cmd[1] == BroadcastAddr then Some(BroadcastAddress)
    else if !IsCommand(cmd[2]) then Some(UnknownCommand(cmd[2]))
    else if ChecksumOf(cmd) != cmd[|cmd| - 1] then Some(BadChecksum(cmd[|cmd| - 1], ChecksumOf(cmd)))
    else None
  }

  /** `command_properly_formed(cmd)`: true exactly when no guard fails. Being a
      function, it has no effect and repeated calls agree. */
  function CommandProperlyFormed(cmd: seq<byte>): (ok: bool)
    ensures ok <==>
      |cmd| == PacketLength && cmd[0] == StartByte && cmd[1] != BroadcastAddr &&
      IsCommand(cmd[2]) && cmd[PacketLength - 1] == ChecksumOf(cmd)
  {
    FrameDefect(cmd).None?
  }

  /** The byte layout that `send_command` produces for (address, command, payload). */
  predicate FrameLayout(f: seq<byte>, address: int, command: int, payload: seq<byte>) {
    |payload| <= MaxPayload &&
    |f| == PacketLength &&
    f[0] == StartByte && f[1] == address && f[2] == command &&
    f[3..3 + |payload|] == payload &&
    (forall i :: 3 + |payload| <= i < PacketLength - 1 ==> f[i] == 0) &&
    f[PacketLength - 1] == ChecksumOf(f)
  }

  /** The first 25 bytes of a frame: start byte, address, command, payload
      and zero padding. */
  function FrameBody(address: byte, command: byte, payload: seq<byte>): (body: seq<byte>)
    requires |payload| <= MaxPayload
    ensures |body| == PacketLength - 1
  {
    [StartByte, address, command] + payload + Zeros(MaxPayload - |payload|)
  }

  /** `send_command`'s frame assembly: append 0xAA, the address and the
      command, extend by the payload and by `bytes(25 - len(cmd))` zeros, then
      append the checksum. `bytearray.append` refuses a value outside 0..255
      and `bytes` refuses a negative count. */
  function AssembleFrame(address: int, command: int, payload: seq<byte>): (r: Result<seq<byte>>)
    ensures r.Ok? <==> 0 <= address < 256 && 0 <= command < 256 && |payload| <= MaxPayload
    ensures !(0 <= address < 256) ==> r == Err(ByteOutOfRange(address))
    ensures 0 <= address < 256 && !(0 <= command < 256) ==> r == Err(ByteOutOfRange(command))
    ensures 0 <= address < 256 && 0 <= command < 256 && |payload| > MaxPayload ==>
      r == Err(PayloadTooLong(|payload|))
    ensures r.Ok? ==> FrameLayout(r.value, address, command, payload)
  {
    if !(0 <= address < 256) then Err(ByteOutOfRange(address))
    else if !(0 <= command < 256) then Err(ByteOutOfRange(command))
    else if |payload| > MaxPayload then Err(PayloadTooLong(|payload|))
    else
      var body := FrameBody(address, command, payload);
      assert body[3..3 + |payload|] == payload;
      ChecksumIgnoresTail(body, [ChecksumOf(body)]);
      Ok(body + [ChecksumOf(body)])
  }

  /** `send_command`'s frame assembly and self-check: the assembled frame must pass the
      `command_properly_formed` self-check; the assertion becomes an error. */
  function BuildFrame(address: int, command: int, payload: seq<byte>): (r: Result<seq<byte>>)
    ensures r.Ok? ==> CommandProperlyFormed(r.value) && FrameLayout(r.value, address, command, payload)
  {
    match AssembleFrame(address, command, payload)
    case Err(e) => Err(e)
    case Ok(f) =>
      match FrameDefect(f)
      case Some(d) => Err(MalformedFrame(d))
      case None => Ok(f)
  }

  /** The checksum byte of a built frame depends only on the header and the
      payload: the zero padding adds nothing. */
  lemma ChecksumOfAssembled(address: int, command: int, payload: seq<byte>)
    requires AssembleFrame(address, command, payload).Ok?
    ensures AssembleFrame(address, command, payload).value[PacketLength - 1] ==
      (StartByte + address + command + Sum(payload)) % 256
  {
    var header: seq<byte> := [StartByte, address, command];
    var pad := Zeros(MaxPayload - |payload|);
    var body := FrameBody(address, command, payload);
    assert body == (header + payload) + pad;
    assert Sum(body) == StartByte + address + command + Sum(payload) by {
      SumAppend(header + payload, pad);
      SumZeros(MaxPayload - |payload|);
      SumAppend(header, payload);
      SumHeader(address, command);
    }
    assert ChecksumOf(body) == Sum(body) % 256 by {
      assert body[..PacketLength - 1] == body;
    }
    assert AssembleFrame(address, command, payload) == Ok(body + [ChecksumOf(body)]);
  }

  lemma SumHeader(address: byte, command: byte)
    ensures Sum([StartByte, address, command]) == StartByte + address + command
  {
    var h3: seq<byte> := [StartByte, address, command];
    var h2: seq<byte> := [StartByte, address];
    var h1: seq<byte> := [StartByte];
    assert h3[..2] == h2 && h2[..1] == h1 && h1[..0] == [];
    assert Sum(h1) == StartByte;
    assert Sum(h2) == Sum(h1) + address;
  }

  /** The self-check can only fail on a reserved address or an unknown
      command: the length, start byte and checksum that `send_command` lays
      out are always right. So every valid (address, command, payload) builds. */
  lemma BuildFrameOutcome(address: int, command: int, payload: seq<byte>)
    ensures BuildFrame(address, command, payload).Ok? <==>
      0 <= address < 256 && address != BroadcastAddr && IsCommand(command) && |payload| <= MaxPayload
    ensures 0 <= command < 256 && |payload| <= MaxPayload && address == BroadcastAddr ==>
      BuildFrame(address, command, payload) == Err(MalformedFrame(BroadcastAddress))
    ensures (0 <= address < 256 && address != BroadcastAddr && 0 <= command < 256 &&
      !IsCommand(command) && |payload| <= MaxPayload) ==>
      BuildFrame(address, command, payload) == Err(MalformedFrame(UnknownCommand(command)))
    ensures !AssembleFrame(address, command, payload).Ok? ==>
      BuildFrame(address, command, payload) == Err(AssembleFrame(address, command, payload).error)
  {
  }

  /** The payload region of a built frame is the payload followed by zeros. */
  lemma BuiltPayload(address: int, command: int, payload: seq<byte>)
    requires BuildFrame(address, command, payload).Ok?
    ensures BuildFrame(address, command, payload).value[3..PacketLength - 1] ==
      payload + Zeros(MaxPayload - |payload|)
  {
  }

  /** Every well-formed frame is one that `send_command` can build: its own
      address, command and 22 payload bytes rebuild it exactly. */
  lemma WellFormedFrameRebuilds(f: seq<byte>)
    requires CommandProperlyFormed(f)
    ensures BuildFrame(f[1], f[2], f[3..PacketLength - 1]) == Ok(f)
  {
    var payload := f[3..PacketLength - 1];
    var g := AssembleFrame(f[1], f[2], payload).value;
    assert Zeros(0) == [];
    assert g[..PacketLength - 1] == f[..PacketLength - 1];
    assert g == g[..PacketLength - 1] + [g[PacketLength - 1]];
    assert f == f[..PacketLength - 1] + [f[PacketLength - 1]];
  }

  /** Trailing zero bytes of a payload are indistinguishable from padding:
      the frame does not record the payload's length. */
  lemma TrailingZeroInvisible(address: int, command: int, payload: seq<byte>)
    requires |payload| < MaxPayload
    ensures AssembleFrame(address, command, payload + [0]) == AssembleFrame(address, command, payload)
  {
    if 0 <= address < 256 && 0 <= command < 256 {
      var lhs := [StartByte, address, command] + (payload + [0]) + Zeros(MaxPayload - |payload| - 1);
      var rhs := [StartByte, address, command] + payload + Zeros(MaxPayload - |payload|);
      assert lhs == rhs;
    }
  }

  /** The whole frame for a one-byte payload, the shape of every 1-byte
      `send_integer_cmd`. */
  lemma OneBytePayloadFrame(address: byte, command: byte, b: byte)
    requires address != BroadcastAddr && IsCommand(command)
    ensures BuildFrame(address, command, [b]) ==
      Ok([StartByte, address, command, b] + Zeros(MaxPayload - 1) + [(StartByte + address + command + b) % 256])
  {
    BuildFrameOutcome(address, command, [b]);
    ChecksumOfAssembled(address, command, [b]);
    BuiltPayload(address, command, [b]);
    var f := BuildFrame(address, command, [b]).value;
    assert Sum([b]) == b by {
      assert [b][..0] == [];
    }
    var header: seq<byte> := [StartByte, address, command];
    assert f[..3] == header;
    assert f == f[..3] + f[3..PacketLength - 1] + [f[PacketLength - 1]];
    assert header + ([b] + Zeros(MaxPayload - 1)) == [StartByte, address, command, b] + Zeros(MaxPayload - 1);
  }

  /** The frame dumped in the source's own comment: address 0, command 0x20,
      payload 01 gives aa 00 20 01 00 .. 00 cb (0xAA + 0x20 + 0x01 = 0xCB). */
  lemma RemoteControlFrame()
    ensures BuildFrame(0, 0x20, [1]) == Ok([0xAA, 0x00, 0x20, 0x01] + Zeros(21) + [0xCB])
  {
    CommandCodesRange(0x20);
    OneBytePayloadFrame(0, 0x20, 1);
    assert (StartByte + 0 + 0x20 + 1) % 256 == 0xCB;
  }

  /** The same payload with command 0x21 (output on): checksum 0xCC. */
  lemma OutputOnFrame()
    ensures BuildFrame(0, 0x21, [1]) == Ok([0xAA, 0x00, 0x21, 0x01] + Zeros(21) + [0xCC])
  {
    CommandCodesRange(0x21);
    OneBytePayloadFrame(0, 0x21, 1);
    assert (StartByte + 0 + 0x21 + 1) % 256 == 0xCC;
  }
}
