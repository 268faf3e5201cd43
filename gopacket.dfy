/**
 * Stand-ins for the two gopacket interfaces the Ethernet layer talks to:
 * the serialize buffer it prepends its header to, and the packet builder
 * (which is also the decode feedback) it reports to while decoding.
 * Only what the Ethernet layer relies on is modelled.
 */
module Gopacket {
  import opened Bytes
  import opened Results

  /** A `SerializeBuffer`: bytes that grow at the front (headers, written
      outside-in) and at the back (trailers, padding). */
  class SerializeBuffer {
    var data: seq<byte>

    constructor (initial: seq<byte>)
      ensures data == initial
    {
      data := initial;
    }

    /** `Bytes`: the current contents, front to back. */
    function Bytes(): seq<byte>
      reads this
    {
      data
    }

    /** `PrependBytes(n)`: n new bytes in front of the old contents. Their
        values are unspecified (a reused buffer may hold stale bytes); the
        caller overwrites them through Write. */
    method PrependBytes(n: nat)
      modifies this
      ensures |data| == |old(data)| + n
      ensures data[n..] == old(data)
    {
      data := Zeros(n) + data;
    }

    /** `AppendBytes(n)`: n new bytes after the old contents, values
        unspecified as for PrependBytes. */
    method AppendBytes(n: nat)
      modifies this
      ensures |data| == |old(data)| + n
      ensures data[..|old(data)|] == old(data)
    {
      data := data + Zeros(n);
    }

    /** Writing src through the slice that PrependBytes or AppendBytes
        returned, starting at offset off of the whole buffer. */
    method Write(off: nat, src: seq<byte>)
      requires off + |src| <= |data|
      modifies this
      ensures data == old(data)[..off] + src + old(data)[off + |src|..]
      ensures |data| == |old(data)|
      ensures data[..off] == old(data)[..off]
      ensures data[off..off + |src|] == src
      ensures data[off + |src|..] == old(data)[off + |src|..]
    {
      data := data[..off] + src + data[off + |src|..];
    }
  }

  /** What a decoder reports to the packet builder, in order. */
  datatype BuilderEvent<L> =
    | AddLayer(layer: L)
    | SetLinkLayer(layer: L)
    | NextDecoder(next: uint16)

  /** A `PacketBuilder`, which is also the `DecodeFeedback` of a decode.
      The decoders that NextDecoder would run are not part of this model:
      their combined result is the constant `downstream`. */
  class PacketBuilder<L, E> {
    var truncated: bool
    var log: seq<BuilderEvent<L>>
    const downstream: Outcome<E>

    constructor (downstream: Outcome<E>)
      ensures !truncated && log == [] && this.downstream == downstream
    {
      truncated := false;
      log := [];
      this.downstream := downstream;
    }

    /** `SetTruncated`: once set, the flag stays set for the whole decode. */
    method SetTruncated()
      modifies this
      ensures truncated && log == old(log)
    {
      truncated := true;
    }

    /** `AddLayer`: appends a decoded layer to the packet. */
    method AddLayer(layer: L)
      modifies this
      ensures log == old(log) + [BuilderEvent.AddLayer(layer)]
      ensures truncated == old(truncated)
    {
      log := log + [BuilderEvent.AddLayer(layer)];
    }

    /** `SetLinkLayer`: records the packet's link layer. */
    method SetLinkLayer(layer: L)
      modifies this
      ensures log == old(log) + [BuilderEvent.SetLinkLayer(layer)]
      ensures truncated == old(truncated)
    {
      log := log + [BuilderEvent.SetLinkLayer(layer)];
    }

    /** `NextDecoder`: hands the rest of the packet to the decoder for `next`
        and returns what the rest of the chain returns. */
    method NextDecoder(next: uint16) returns (err: Outcome<E>)
      modifies this
      ensures log == old(log) + [BuilderEvent.NextDecoder(next)]
      ensures truncated == old(truncated)
      ensures err == downstream
    {
      log := log + [BuilderEvent.NextDecoder(next)];
      err := downstream;
    }
  }
}
