/** Shared vocabulary of the ITECH serial frame protocol: bytes, the error
    taxonomy that replaces the Python exceptions, and small sequence helpers. */
module Common {

  /** One octet, as stored in a Python `bytes`/`bytearray`. */
  type byte = x: int | 0 <= x < 256

  /** Why `command_properly_formed` rejects a frame; one constructor per guard,
      in the order the guards are tried. */
  datatype Defect =
    | WrongLength(length: nat)     // length is not PACKET_LENGTH
    | BadStartByte(found: byte)    // byte 0 is not 0xAA
    | BroadcastAddress             // byte 1 is 0xFF
    | UnknownCommand(code: byte)   // byte 2 is not in the command table
    | BadChecksum(found: byte, expected: byte)  // last byte is not the checksum

  /** The failures of the core, each standing for the exception the source raises. */
  datatype Error =
    | ByteOutOfRange(value: int)         // ValueError from bytearray.append
    | PayloadTooLong(length: nat)        // ValueError from bytes(<negative count>)
    | MalformedFrame(defect: Defect)     // AssertionError from the self-check
    | InvalidResponseLength(received: nat)  // InstrumentException
    | UnsupportedWidth(width: int)       // ValueError from encode_int/decode_int
    | ValueOutOfRange(value: int)        // struct.error from struct.pack

  datatype Result<+T> = Ok(value: T) | Err(error: Error)

  datatype Option<+T> = None | Some(value: T)

  function Min(a: int, b: int): (m: int)
    ensures m <= a && m <= b && (m == a || m == b)
  {
    if a <= b then a else b
  }

  /** `bytes(n)` in Python: n zero bytes. */
  function Zeros(n: nat): (z: seq<byte>)
    ensures |z| == n && forall i :: 0 <= i < n ==> z[i] == 0
  {
    seq(n, _ => 0)
  }
}
