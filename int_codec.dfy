/** The `struct` code `i`: a signed 32-bit integer stored as four bytes,
    little-endian, two's complement (the native layout on the platforms the
    program targets). */
module IntCodec {
  import opened Bytes

  const Int32Min: int := -0x8000_0000
  const Int32Max: int := 0x7FFF_FFFF
  const TwoTo32: int := 0x1_0000_0000

  /** The values `struct.pack('i', v)` accepts; any other raises `struct.error`. */
  predicate InInt32(v: int) {
    Int32Min <= v <= Int32Max
  }

  /** The four bytes `struct.pack('<i', v)` produces: the two's complement
      of `v` modulo 2^32, least significant byte first. */
  function EncodeInt32(v: int): (r: seq<Byte>)
    requires InInt32(v)
    ensures |r| == 4
  {
    var u := if v < 0 then v + TwoTo32 else v;
    var q1 := u / 0x100;
    var q2 := q1 / 0x100;
    [(u % 0x100) as Byte, (q1 % 0x100) as Byte, (q2 % 0x100) as Byte, (q2 / 0x100) as Byte]
  }

  /** `struct.unpack('<i', b)`: the bytes read as an unsigned number, then
      reinterpreted as signed when the top bit is set. */
  function DecodeInt32(b: seq<Byte>): (v: int)
    requires |b| == 4
    ensures InInt32(v)
  {
    var u := b[0] as int + 0x100 * (b[1] as int + 0x100 * (b[2] as int + 0x100 * b[3] as int));
    if u > Int32Max then u - TwoTo32 else u
  }

  /** Reading back a packed 32-bit integer gives the integer. */
  lemma Int32RoundTrip(v: int)
    requires InInt32(v)
    ensures DecodeInt32(EncodeInt32(v)) == v
  {
  }

  /** Every four-byte pattern is the packing of exactly one 32-bit integer. */
  lemma Int32Surjective(b: seq<Byte>)
    requires |b| == 4
    ensures EncodeInt32(DecodeInt32(b)) == b
  {
    var t2 := b[2] as int + 0x100 * b[3] as int;
    var t1 := b[1] as int + 0x100 * t2;
    var u := b[0] as int + 0x100 * t1;
    DigitSplit(u, t1, b[0] as int);
    DigitSplit(t1, t2, b[1] as int);
    DigitSplit(t2, b[3] as int, b[2] as int);
    var r := EncodeInt32(DecodeInt32(b));
    assert r[0] == b[0] && r[1] == b[1] && r[2] == b[2] && r[3] == b[3];
  }

  /** One base-256 digit split off a number. */
  lemma DigitSplit(x: int, q: int, r: int)
    requires 0 <= r < 0x100 && x == r + 0x100 * q
    ensures x % 0x100 == r && x / 0x100 == q
  {
  }
}
