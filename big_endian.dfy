/**
 * Unsigned big-endian integers of 8, 16 and 32 bits, as the wire layouts
 * of the RRC measurement messages use them (`UBInt8`, `UBInt16`, `UBInt32`).
 */
module BigEndian {

  /** One octet on the wire. */
  type byte = x: int | 0 <= x < 0x100

  predicate FitsU8(x: int) { 0 <= x < 0x100 }
  predicate FitsU16(x: int) { 0 <= x < 0x1_0000 }
  predicate FitsU32(x: int) { 0 <= x < 0x1_0000_0000 }

  function U8(x: int): (b: seq<byte>)
    requires FitsU8(x)
    ensures |b| == 1
  {
    [x]
  }

  /** Most significant octet first. */
  function U16(x: int): (b: seq<byte>)
    requires FitsU16(x)
    ensures |b| == 2
  {
    [x / 0x100, x % 0x100]
  }

  /** The high half-word first, then the low one. */
  function U32(x: int): (b: seq<byte>)
    requires FitsU32(x)
    ensures |b| == 4
  {
    U16(x / 0x1_0000) + U16(x % 0x1_0000)
  }

  function ReadU8(b: seq<byte>, at: nat): (x: nat)
    requires at + 1 <= |b|
    ensures FitsU8(x)
  {
    b[at]
  }

  function ReadU16(b: seq<byte>, at: nat): (x: nat)
    requires at + 2 <= |b|
    ensures FitsU16(x)
  {
    (b[at] as int) * 0x100 + b[at + 1]
  }

  function ReadU32(b: seq<byte>, at: nat): (x: nat)
    requires at + 4 <= |b|
    ensures FitsU32(x)
  {
    ReadU16(b, at) * 0x1_0000 + ReadU16(b, at + 2)
  }

  /** Encoding what was read gives back the octets that were read. */
  lemma U16OfRead(b: seq<byte>, at: nat)
    requires at + 2 <= |b|
    ensures U16(ReadU16(b, at)) == b[at..at + 2]
  {
  }

  lemma U32OfRead(b: seq<byte>, at: nat)
    requires at + 4 <= |b|
    ensures U32(ReadU32(b, at)) == b[at..at + 4]
  {
  }

  /** Reading where a value was encoded gives back the value. */
  lemma ReadOfU8(b: seq<byte>, at: nat, x: int)
    requires FitsU8(x) && at + 1 <= |b| && b[at..at + 1] == U8(x)
    ensures ReadU8(b, at) == x
  {
    assert b[at] == b[at..at + 1][0];
  }

  lemma ReadOfU16(b: seq<byte>, at: nat, x: int)
    requires FitsU16(x) && at + 2 <= |b| && b[at..at + 2] == U16(x)
    ensures ReadU16(b, at) == x
  {
    assert b[at] == b[at..at + 2][0] && b[at + 1] == b[at..at + 2][1];
  }

  lemma ReadOfU32(b: seq<byte>, at: nat, x: int)
    requires FitsU32(x) && at + 4 <= |b| && b[at..at + 4] == U32(x)
    ensures ReadU32(b, at) == x
  {
    assert b[at..at + 2] == b[at..at + 4][..2] == U16(x / 0x1_0000);
    assert b[at + 2..at + 4] == b[at..at + 4][2..] == U16(x % 0x1_0000);
    ReadOfU16(b, at, x / 0x1_0000);
    ReadOfU16(b, at + 2, x % 0x1_0000);
  }
}
