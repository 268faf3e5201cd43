/**
 * The `EthernetHeader` byte view: a raw Ethernet header (destination MAC,
 * source MAC, Length/Type field) read and rewritten in place.
 *
 * Offsets follow clause 3.2 of IEEE 802.3: bytes 0..5 hold the destination
 * address, bytes 6..11 the source address and bytes 12..13 the Length/Type
 * field, high-order byte first.
 *
 * The queries are functions of the header's bytes; the mutators are methods
 * on an `array<byte>` whose new contents are given by a function of the old.
 * Each `requires` on a length is the bound below which the Go slice
 * expression of the source would panic.
 */
module EthernetHeader {
  import opened Bytes

  /** `EthernetBroadcast`, the all-ones MAC address. */
  const EthernetBroadcast: seq<byte> := [0xff, 0xff, 0xff, 0xff, 0xff, 0xff]

  /** The number of bytes Go's `copy` moves into a slot of `room` bytes. */
  function CopyCount(room: nat, src: seq<byte>): (n: nat)
    ensures n <= room && n <= |src|
    ensures n == room || n == |src|
  {
    if |src| < room then |src| else room
  }

  /** The bytes of h after Go's `copy(h[lo:hi], src)`. */
  function CopiedInto(h: seq<byte>, lo: nat, hi: nat, src: seq<byte>): (r: seq<byte>)
    requires lo <= hi <= |h|
    ensures |r| == |h|
    ensures r[..lo] == h[..lo]
    ensures r[lo..lo + CopyCount(hi - lo, src)] == src[..CopyCount(hi - lo, src)]
    ensures r[lo + CopyCount(hi - lo, src)..] == h[lo + CopyCount(hi - lo, src)..]
  {
    var n := CopyCount(hi - lo, src);
    h[..lo] + src[..n] + h[lo + n..]
  }

  /** Go's `copy(dst[lo:hi], src)` on an array: moves as many bytes as fit. */
  method Copy(dst: array<byte>, lo: nat, hi: nat, src: seq<byte>) returns (n: nat)
    requires lo <= hi <= dst.Length
    modifies dst
    ensures n == CopyCount(hi - lo, src)
    ensures dst[..] == CopiedInto(old(dst[..]), lo, hi, src)
  {
    n := CopyCount(hi - lo, src);
    forall i | lo <= i < lo + n {
      dst[i] := src[i - lo];
    }
  }

  // ---------------------------------------------------------------------
  // Queries
  // ---------------------------------------------------------------------

  /** `GetNextProtocol`: the Length/Type field, big-endian. */
  function GetNextProtocol(h: seq<byte>): uint16
    requires |h| >= 14
  {
    Uint16(h[12], h[13])
  }

  /** `GetSrcAddress`: the source MAC (a copy; the source returns a sub-slice). */
  function GetSrcAddress(h: seq<byte>): seq<byte>
    requires |h| >= 12
  {
    h[6..12]
  }

  /** `GetDestAddress`: the destination MAC (a copy; the source returns a sub-slice). */
  function GetDestAddress(h: seq<byte>): seq<byte>
    requires |h| >= 6
  {
    h[0..6]
  }

  /** `IsBroadcast`: the destination equals the broadcast address. */
  predicate IsBroadcast(h: seq<byte>)
    requires |h| >= 6
  {
    h[0..6] == EthernetBroadcast
  }

  /** `IsMcast`: the Individual/Group bit (the low-order bit of the first byte,
      clause 3.2.3 of IEEE 802.3) of the destination is set. */
  predicate IsMcast(h: seq<byte>)
    requires |h| >= 1
  {
    h[0] & 0x1 == 0x1
  }

  // ---------------------------------------------------------------------
  // The effect of each mutator, as a function of the old bytes
  // ---------------------------------------------------------------------

  /** Bytes after `SwapSrcDst`. */
  function SwappedSrcDst(h: seq<byte>): (r: seq<byte>)
    requires |h| >= 12
    ensures |r| == |h|
    ensures GetDestAddress(r) == GetSrcAddress(h) && GetSrcAddress(r) == GetDestAddress(h)
    ensures r[12..] == h[12..]
  {
    var m := CopiedInto(h, 0, 6, h[6..12]);
    assert m[6..] == h[6..];
    CopiedInto(m, 6, 12, h[0..6])
  }

  /** Bytes after `SetSrcAddress(d)`. */
  function WithSrcAddress(h: seq<byte>, d: seq<byte>): (r: seq<byte>)
    requires |h| >= 12
    ensures |r| == |h|
    ensures GetDestAddress(r) == GetDestAddress(h) && r[12..] == h[12..]
  {
    CopiedInto(h, 6, 12, d)
  }

  /** Bytes after `SetDestAddress(d)`. */
  function WithDestAddress(h: seq<byte>, d: seq<byte>): (r: seq<byte>)
    requires |h| >= 6
    ensures |r| == |h|
    ensures r[6..] == h[6..]
  {
    CopiedInto(h, 0, 6, d)
  }

  /** Bytes after `SetBroadcast`. */
  function WithBroadcast(h: seq<byte>): (r: seq<byte>)
    requires |h| >= 6
    ensures |r| == |h|
    ensures GetDestAddress(r) == EthernetBroadcast && r[6..] == h[6..]
  {
    CopiedInto(h, 0, 6, EthernetBroadcast)
  }

  // ---------------------------------------------------------------------
  // Mutators, in place
  // ---------------------------------------------------------------------

  /** `SwapSrcDst`: exchanges the two addresses through a 6-byte temporary. */
  method SwapSrcDst(o: array<byte>)
    requires o.Length >= 12
    modifies o
    ensures o[..] == SwappedSrcDst(old(o[..]))
  {
    var tmp := o[0..6];
    var _ := Copy(o, 0, 6, o[6..12]);
    var _ := Copy(o, 6, 12, tmp[0..6]);
  }

  /** `SetSrcAddress`: copies d over the source address. */
  method SetSrcAddress(o: array<byte>, d: seq<byte>)
    requires o.Length >= 12
    modifies o
    ensures o[..] == WithSrcAddress(old(o[..]), d)
  {
    var _ := Copy(o, 6, 12, d);
  }

  /** `SetDestAddress`: copies d over the destination address. */
  method SetDestAddress(o: array<byte>, d: seq<byte>)
    requires o.Length >= 6
    modifies o
    ensures o[..] == WithDestAddress(old(o[..]), d)
  {
    var _ := Copy(o, 0, 6, d);
  }

  /** `SetBroadcast`: overwrites the destination with the broadcast address. */
  method SetBroadcast(o: array<byte>)
    requires o.Length >= 6
    modifies o
    ensures o[..] == WithBroadcast(old(o[..]))
    ensures IsBroadcast(o[..]) && IsMcast(o[..])
  {
    var _ := Copy(o, 0, 6, EthernetBroadcast);
    SetBroadcastMakesBroadcast(old(o[..]));
  }

  // ---------------------------------------------------------------------
  // Properties
  // ---------------------------------------------------------------------

  /** Swapping twice restores the header. */
  lemma SwapTwiceIsIdentity(h: seq<byte>)
    requires |h| >= 12
    ensures SwappedSrcDst(SwappedSrcDst(h)) == h
  {
    var r := SwappedSrcDst(SwappedSrcDst(h));
    assert r == r[..6] + r[6..12] + r[12..];
    assert h == h[..6] + h[6..12] + h[12..];
  }

  /** SetSrcAddress with a 6-byte address: GetSrcAddress reads it back, and
      the destination and the Length/Type field are unchanged. */
  lemma SetSrcThenGet(h: seq<byte>, d: seq<byte>)
    requires |h| >= 12 && |d| == 6
    ensures GetSrcAddress(WithSrcAddress(h, d)) == d
  {
  }

  /** SetDestAddress with a 6-byte address: GetDestAddress reads it back, and
      the rest of the header is unchanged. */
  lemma SetDestThenGet(h: seq<byte>, d: seq<byte>)
    requires |h| >= 6 && |d| == 6
    ensures GetDestAddress(WithDestAddress(h, d)) == d
  {
  }

  /** A shorter address overwrites only its own length; a longer one only
      six bytes (Go's `copy` stops at the shorter operand). */
  lemma SetSrcPartial(h: seq<byte>, d: seq<byte>)
    requires |h| >= 12
    ensures |d| < 6 ==> GetSrcAddress(WithSrcAddress(h, d)) == d + h[6 + |d|..12]
    ensures |d| >= 6 ==> GetSrcAddress(WithSrcAddress(h, d)) == d[..6]
  {
    var r := WithSrcAddress(h, d);
    var n := CopyCount(6, d);
    assert r[6..12] == r[6..6 + n] + r[6 + n..12];
  }

  /** After SetBroadcast the header is both broadcast and multicast, and
      bytes 6 onward are unchanged. */
  lemma SetBroadcastMakesBroadcast(h: seq<byte>)
    requires |h| >= 6
    ensures IsBroadcast(WithBroadcast(h))
    ensures IsMcast(WithBroadcast(h))
    ensures WithBroadcast(h)[6..] == h[6..]
  {
  }

  /** The broadcast address is a group address. */
  lemma BroadcastIsMulticast(h: seq<byte>)
    requires |h| >= 6
    ensures IsBroadcast(h) ==> IsMcast(h)
  {
    if IsBroadcast(h) {
      assert h[0] == h[0..6][0] == 0xff;
    }
  }

  /** IsMcast tests the low-order bit: the first byte is odd. */
  lemma McastIsOddFirstByte(h: seq<byte>)
    requires |h| >= 1
    ensures IsMcast(h) <==> h[0] as int % 2 == 1
  {
  }
}
