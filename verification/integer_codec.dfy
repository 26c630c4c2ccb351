/** `encode_int` / `decode_int`: unsigned little-endian integers of 1, 2 or 4
    bytes, as `struct.pack`/`struct.unpack` with the formats '<B', '<H', '<I'. */
module IntegerCodec {
  import opened Common

  /** The widths the codec accepts. */
  predicate SupportedWidth(n: int) {
    n == 1 || n == 2 || n == 4
  }

  /** 256^n: the number of distinct values that fit in n bytes. */
  function Pow256(n: nat): (p: nat)
    ensures p >= 1
  {
    if n == 0 then 1 else 256 * Pow256(n - 1)
  }

  /** The n least significant bytes of v, least significant first. */
  function LittleEndian(v: nat, n: nat): (r: seq<byte>)
    ensures |r| == n
  {
    if n == 0 then [] else [v % 256] + LittleEndian(v / 256, n - 1)
  }

  /** The unsigned value of a little-endian byte string; it always fits in
      as many bytes as were read. */
  function FromLittleEndian(s: seq<byte>): (v: nat)
    ensures v < Pow256(|s|)
  {
    if s == [] then 0 else s[0] + 256 * FromLittleEndian(s[1..])
  }

  /** One `struct.pack` call with a fixed-width unsigned format: a value that
      does not fit raises struct.error instead of wrapping. */
  function Pack(value: int, n: nat): (r: Result<seq<byte>>)
    ensures r.Ok? <==> 0 <= value < Pow256(n)
    ensures r.Ok? ==> |r.value| == n
    ensures r.Err? ==> r.error == ValueOutOfRange(value)
  {
    if 0 <= value < Pow256(n) then Ok(LittleEndian(value, n)) else Err(ValueOutOfRange(value))
  }

  /** `encode_int(value, num_bytes)`: the width is dispatched first, so an
      unsupported width fails whatever the value. */
  function EncodeInt(value: int, numBytes: int): (r: Result<seq<byte>>)
    ensures !SupportedWidth(numBytes) ==> r == Err(UnsupportedWidth(numBytes))
    ensures SupportedWidth(numBytes) && !(0 <= value < Pow256(numBytes)) ==> r == Err(ValueOutOfRange(value))
    ensures r.Ok? <==> SupportedWidth(numBytes) && 0 <= value < Pow256(numBytes)
    ensures r.Ok? ==> |r.value| == numBytes
  {
    if numBytes == 1 then Pack(value, 1)
    else if numBytes == 2 then Pack(value, 2)
    else if numBytes == 4 then Pack(value, 4)
    else Err(UnsupportedWidth(numBytes))
  }

  /** `decode_int(value)`: the width is the length of the input. */
  function DecodeInt(s: seq<byte>): (r: Result<int>)
    ensures r.Ok? <==> SupportedWidth(|s|)
    ensures r.Err? ==> r.error == UnsupportedWidth(|s|)
    ensures r.Ok? ==> 0 <= r.value < Pow256(|s|)
  {
    if |s| == 1 then Ok(FromLittleEndian(s))
    else if |s| == 2 then Ok(FromLittleEndian(s))
    else if |s| == 4 then Ok(FromLittleEndian(s))
    else Err(UnsupportedWidth(|s|))
  }

  /** Splitting off the low byte: the quotient and remainder by 256 of
      lo + 256 * hi are hi and lo. */
  lemma DivModByte(lo: byte, hi: nat)
    ensures (lo + 256 * hi) % 256 == lo && (lo + 256 * hi) / 256 == hi
  {
  }

  /** Decoding undoes packing for every value that fits. */
  lemma {:induction false} FromLittleEndianInverse(v: nat, n: nat)
    requires v < Pow256(n)
    ensures FromLittleEndian(LittleEndian(v, n)) == v
  {
    if n > 0 {
      var lo, hi := v % 256, v / 256;
      assert v == lo + 256 * hi;
      assert hi < Pow256(n - 1);
      FromLittleEndianInverse(hi, n - 1);
      assert LittleEndian(v, n)[1..] == LittleEndian(hi, n - 1);
    }
  }

  /** Packing undoes decoding: every byte string is the encoding of its value. */
  lemma {:induction false} LittleEndianInverse(s: seq<byte>)
    ensures LittleEndian(FromLittleEndian(s), |s|) == s
  {
    if s != [] {
      var hi := FromLittleEndian(s[1..]);
      DivModByte(s[0], hi);
      LittleEndianInverse(s[1..]);
    }
  }

  /** decode_int(encode_int(v, n)) == v whenever the encoding succeeds. */
  lemma EncodeDecodeRoundTrip(value: int, numBytes: int)
    requires EncodeInt(value, numBytes).Ok?
    ensures DecodeInt(EncodeInt(value, numBytes).value) == Ok(value)
  {
    FromLittleEndianInverse(value, numBytes);
  }

  /** encode_int(decode_int(s), len(s)) == s whenever the decoding succeeds:
      together with the round trip above, the codec is a bijection between
      0 .. 256^n - 1 and the n-byte strings. */
  lemma DecodeEncodeRoundTrip(s: seq<byte>)
    requires DecodeInt(s).Ok?
    ensures EncodeInt(DecodeInt(s).value, |s|) == Ok(s)
  {
    LittleEndianInverse(s);
  }

  /** Bytes 03 00 00 00 decode to 3: the reply field a 4-byte
      `get_integer_cmd` reads. */
  lemma DecodeExample()
    ensures DecodeInt([3, 0, 0, 0]) == Ok(3)
  {
  }
}
