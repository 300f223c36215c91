/** Numbers stored as bytes, the lowest byte first. */
module LittleEndian {
  import opened BlockDevice

  function U16(b: seq<Byte>, at: nat): nat
    requires at + 2 <= |b|
  {
    b[at] as int + 256 * (b[at + 1] as int)
  }

  function U32(b: seq<Byte>, at: nat): nat
    requires at + 4 <= |b|
  {
    b[at] as int + 256 * (b[at + 1] as int) + 65536 * (b[at + 2] as int) + 16777216 * (b[at + 3] as int)
  }

  function Bytes16(v: nat): (r: seq<Byte>)
    ensures |r| == 2
  {
    [v % 256, v / 256 % 256]
  }

  function Bytes32(v: nat): (r: seq<Byte>)
    ensures |r| == 4
  {
    [v % 256, v / 256 % 256, v / 65536 % 256, v / 16777216 % 256]
  }

  lemma ReadBack16(b: seq<Byte>, at: nat, v: nat)
    requires at + 2 <= |b| && v < 65536 && b[at..at + 2] == Bytes16(v)
    ensures U16(b, at) == v
  {
    assert b[at] == b[at..at + 2][0] && b[at + 1] == b[at..at + 2][1];
  }

  lemma ReadBack32(b: seq<Byte>, at: nat, v: nat)
    requires at + 4 <= |b| && v < 0x1_0000_0000 && b[at..at + 4] == Bytes32(v)
    ensures U32(b, at) == v
  {
    assert b[at] == b[at..at + 4][0] && b[at + 1] == b[at..at + 4][1];
    assert b[at + 2] == b[at..at + 4][2] && b[at + 3] == b[at..at + 4][3];
    FourBytes(v);
  }

  lemma FourBytes(v: nat)
    requires v < 0x1_0000_0000
    ensures v == v % 256 + 256 * (v / 256 % 256) + 65536 * (v / 65536 % 256) + 16777216 * (v / 16777216 % 256)
  {
    var x, y, z := v / 256, v / 65536, v / 16777216;
    assert y == x / 256 && z == y / 256 && z < 256;
  }

  /** A number read and written again is the same two bytes. */
  lemma WriteBack16(b: seq<Byte>, at: nat)
    requires at + 2 <= |b|
    ensures U16(b, at) < 65536 && b[at..at + 2] == Bytes16(U16(b, at))
  {
    var x, y := b[at] as int, b[at + 1] as int;
    assert (x + 256 * y) % 256 == x && (x + 256 * y) / 256 == y;
  }
}
