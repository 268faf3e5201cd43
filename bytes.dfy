/** Bytes and the big-endian 16-bit codec of Go's `encoding/binary.BigEndian`. */
module Bytes {

  /** Go's `byte`. */
  type byte = bv8

  /** Go's `uint16`. */
  type uint16 = x: int | 0 <= x < 0x1_0000

  /** The conversion `uint16(n)` of a non-negative Go `int`: keeps n modulo 2^16. */
  function TruncateToUint16(n: nat): (v: uint16)
    ensures n < 0x1_0000 ==> v == n
    ensures (n - v) % 0x1_0000 == 0
  {
    n % 0x1_0000
  }

  /** The byte whose unsigned value is n. */
  function ByteOf(n: int): (b: byte)
    requires 0 <= n < 256
    ensures b as int == n
  {
    n as byte
  }

  /** `binary.BigEndian.Uint16`: the first byte is the high-order one. */
  function Uint16(hi: byte, lo: byte): uint16
  {
    hi as int * 256 + lo as int
  }

  /** `binary.BigEndian.PutUint16`: the two bytes written, high-order first. */
  function PutUint16(v: uint16): (b: seq<byte>)
    ensures |b| == 2
    ensures b[0] as int * 256 + b[1] as int == v
  {
    [ByteOf(v / 256), ByteOf(v % 256)]
  }

  /** The high-order byte is the quotient by 256, the low-order byte the remainder. */
  lemma Uint16Digits(hi: byte, lo: byte)
    ensures Uint16(hi, lo) / 256 == hi as int && Uint16(hi, lo) % 256 == lo as int
  {
  }

  /** Reading back what PutUint16 wrote gives the value. */
  lemma ReadPut(v: uint16)
    ensures Uint16(PutUint16(v)[0], PutUint16(v)[1]) == v
  {
  }

  /** Writing back what Uint16 read gives the same two bytes. */
  lemma PutRead(hi: byte, lo: byte)
    ensures PutUint16(Uint16(hi, lo)) == [hi, lo]
  {
    var b := PutUint16(Uint16(hi, lo));
    Uint16Digits(hi, lo);
    assert b[0] as int == hi as int;
    assert b[1] as int == lo as int;
  }

  /** n zero bytes. */
  function Zeros(n: nat): (z: seq<byte>)
    ensures |z| == n
    ensures forall i :: 0 <= i < n ==> z[i] == 0
  {
    seq(n, _ => 0)
  }
}
