/**
 * Big-endian (network order) reading and writing of 16- and 32-bit unsigned
 * integers, as Go's encoding/binary BigEndian.Uint16/Uint32 and
 * PutUint16/PutUint32 do. Values are kept as bounded naturals.
 */
module BigEndian {

  import opened Bytes

  type uint16 = x: nat | x < 0x1_0000
  type uint32 = x: nat | x < 0x1_0000_0000

  /** b[0] is the most significant byte. */
  function Uint16(b: seq<Byte>): (v: uint16)
    requires |b| == 2
    ensures v / 0x100 == b[0] as int && v % 0x100 == b[1] as int
  {
    b[0] as int * 0x100 + b[1] as int
  }

  function Uint32(b: seq<Byte>): (v: uint32)
    requires |b| == 4
    ensures v / 0x1_0000 == Uint16(b[..2]) && v % 0x1_0000 == Uint16(b[2..])
  {
    Uint16(b[..2]) * 0x1_0000 + Uint16(b[2..])
  }

  function PutUint16(v: uint16): (b: seq<Byte>)
    ensures |b| == 2
  {
    [(v / 0x100) as Byte, (v % 0x100) as Byte]
  }

  function PutUint32(v: uint32): (b: seq<Byte>)
    ensures |b| == 4
  {
    PutUint16(v / 0x1_0000) + PutUint16(v % 0x1_0000)
  }

  /** Writing then reading a 16-bit value gives it back, and so does reading then writing two bytes. */
  lemma Uint16RoundTrip(v: uint16, b: seq<Byte>)
    requires |b| == 2
    ensures Uint16(PutUint16(v)) == v
    ensures PutUint16(Uint16(b)) == b
  {
  }


  lemma Uint32RoundTrip(v: uint32, b: seq<Byte>)
    requires |b| == 4
    ensures Uint32(PutUint32(v)) == v
    ensures PutUint32(Uint32(b)) == b
  {
    var p := PutUint32(v);
    assert p[..2] == PutUint16(v / 0x1_0000) && p[2..] == PutUint16(v % 0x1_0000);
    Uint16RoundTrip(v / 0x1_0000, b[..2]);
    Uint16RoundTrip(v % 0x1_0000, b[2..]);
    assert b == b[..2] + b[2..];
  }
}
