// Bytes, and the little-endian 32-bit words of the wire headers.

module Bytes {

  type byte = x: int | 0 <= x < 0x100

  type uint32 = x: int | 0 <= x < 0x1_0000_0000

  function Low(n: nat): byte {
    n % 0x100
  }

  function PutU32(n: uint32): (b: seq<byte>)
    ensures |b| == 4
  {
    [Low(n), Low(n / 0x100), Low(n / 0x100 / 0x100), Low(n / 0x100 / 0x100 / 0x100)]
  }

  function GetU32(b: seq<byte>, at: nat): uint32
    requires at + 4 <= |b|
  {
    b[at] as int + b[at + 1] as int * 0x100 + b[at + 2] as int * 0x1_0000 + b[at + 3] as int * 0x100_0000
  }

  lemma U32RoundTrip(n: uint32, b: seq<byte>, at: nat)
    requires at + 4 <= |b| && b[at..at + 4] == PutU32(n)
    ensures GetU32(b, at) == n
  {
    assert b[at] == b[at..at + 4][0] && b[at + 1] == b[at..at + 4][1];
    assert b[at + 2] == b[at..at + 4][2] && b[at + 3] == b[at..at + 4][3];
    Split(n);
    Split(n / 0x100);
    Split(n / 0x100 / 0x100);
    Split(n / 0x100 / 0x100 / 0x100);
    hide Low;
  }

  /** The bytes are the digits in base 256, the lowest first. */
  lemma U32Digits(n: uint32)
    ensures var b := PutU32(n);
            n == b[0] as int + 256 * b[1] as int + 65536 * b[2] as int + 16777216 * b[3] as int
  {
    Split(n);
    Split(n / 0x100);
    Split(n / 0x100 / 0x100);
    Split(n / 0x100 / 0x100 / 0x100);
    hide Low;
  }

  lemma Split(n: nat)
    ensures n == Low(n) as int + 0x100 * (n / 0x100)
  {
  }
}
