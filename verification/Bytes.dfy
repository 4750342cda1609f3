/** Bytes, optional values and results shared by every other module. */
module Bytes {

  datatype Option<+T> = None | Some(value: T)

  datatype Result<+T, +E> = Ok(value: T) | Err(error: E)

  type byte = b: int | 0 <= b < 256

  const U32_SIZE: nat := 0x1_0000_0000
  const U64_MAX: nat := 0xFFFF_FFFF_FFFF_FFFF

  /** The ASCII bytes of a string literal. */
  function Ascii(s: string): (r: seq<byte>)
    requires forall i :: 0 <= i < |s| ==> s[i] as int < 128
    ensures |r| == |s|
    ensures forall i :: 0 <= i < |s| ==> r[i] == s[i] as int
  {
    seq(|s|, i requires 0 <= i < |s| => var b: byte := s[i] as int; b)
  }

  /** Big-endian bytes of a 16-bit length field. */
  function U16Bytes(n: nat): (r: seq<byte>)
    requires n < 0x1_0000
  {
    [n / 256, n % 256]
  }

  /** Big-endian bytes of a 32-bit length field. */
  function U32Bytes(n: nat): (r: seq<byte>)
    requires n < U32_SIZE
  {
    [n / 0x100_0000, n / 0x1_0000 % 256, n / 256 % 256, n % 256]
  }

  function U16Value(b0: byte, b1: byte): nat {
    b0 * 256 + b1
  }

  function U32Value(b0: byte, b1: byte, b2: byte, b3: byte): nat {
    b0 * 0x100_0000 + b1 * 0x1_0000 + b2 * 256 + b3
  }

  lemma U16OfBytes(b0: byte, b1: byte)
    ensures U16Value(b0, b1) < 0x1_0000 && U16Bytes(U16Value(b0, b1)) == [b0, b1]
  {}

  /** Digit by digit, since one division by a large constant is harder than three by 256. */
  lemma U32OfBytes(b0: byte, b1: byte, b2: byte, b3: byte)
    ensures U32Value(b0, b1, b2, b3) < U32_SIZE && U32Bytes(U32Value(b0, b1, b2, b3)) == [b0, b1, b2, b3]
  {
    var n := U32Value(b0, b1, b2, b3);
    var q := (b0 * 256 + b1) * 256 + b2;
    assert n == q * 256 + b3 && n / 256 == q && n % 256 == b3;
    assert q / 256 == b0 * 256 + b1 && q % 256 == b2;
    assert n / 0x1_0000 == b0 * 256 + b1;
    assert n / 0x100_0000 == b0;
  }

  lemma U32RoundTrip(n: nat)
    requires n < U32_SIZE
    ensures var b := U32Bytes(n); U32Value(b[0], b[1], b[2], b[3]) == n
  {
    var q := n / 256;
    assert n == q * 256 + n % 256;
    assert q == q / 256 * 256 + q % 256;
    assert n / 0x1_0000 == q / 256;
    assert n / 0x100_0000 == q / 256 / 256;
  }

  /** Length fields are big-endian. */
  lemma LengthFieldsAreBigEndian(n: nat)
    requires n < U32_SIZE
    ensures |U32Bytes(n)| == 4
    ensures var b: seq<int> := U32Bytes(n); b[0] * 16_777_216 + b[1] * 65_536 + b[2] * 256 + b[3] == n
    ensures n < 65_536 ==> var b: seq<int> := U16Bytes(n); |b| == 2 && b[0] * 256 + b[1] == n
  {
    U32RoundTrip(n);
    assert n / 256 * 256 + n % 256 == n;
  }
}
