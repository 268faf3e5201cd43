/**
 * The `Ethernet` layer: decoding a frame header from bytes, serializing it
 * in front of an already serialized payload, and the `decodeEthernet` step
 * of a decode chain.
 *
 * The Length/Type field has two meanings (clause 3.2.6 of IEEE 802.3):
 * below 0x0600 it is the length of an 802.3 LLC payload, otherwise it is the
 * EtherType of the next protocol. `llc` is the value of `EthernetTypeLLC`,
 * the EtherType given to length-delimited frames; it is defined outside this
 * file, so it is a parameter here.
 */
module Ethernet {
  import opened Bytes
  import opened Results
  import opened Gopacket
  import EthernetHeader

  /** Size of the header: two MACs and the Length/Type field. */
  const HeaderSize: nat := 14
  /** Values of the Length/Type field from here on are EtherTypes. */
  const TypeThreshold: uint16 := 0x0600
  /** Minimum frame size without the frame check sequence (clause 4.4.2 of IEEE 802.3). */
  const MinFrameSize: nat := 60

  /** A gopacket `LayerType`. */
  type LayerType = int

  /** The value of an `Ethernet` layer: its fields and its header/payload split. */
  datatype Frame = Frame(
    dstMAC: seq<byte>,
    srcMAC: seq<byte>,
    ethernetType: uint16,
    length: uint16,
    contents: seq<byte>,
    payload: seq<byte>)
  {
    /** `NextLayerType`: the layer type registered for the EtherType; the
        registry is the parameter `layerOf`. */
    function NextLayerType(layerOf: uint16 -> LayerType): LayerType
    {
      layerOf(ethernetType)
    }
  }

  /** A successful decode: the layer, and whether the frame declared more
      payload than it carried (reported through `SetTruncated`). */
  datatype Decoded = Decoded(frame: Frame, truncated: bool)

  datatype DecodeError =
    | TooSmall          // fewer than 14 bytes
    | LaterLayerFailed  // a decoder further down the chain failed

  datatype SerializeError =
    | InvalidDstMAC          // destination MAC is not 6 bytes
    | InvalidSrcMAC          // source MAC is not 6 bytes
    | LengthWithoutLLCType   // a length is set but the EtherType is not EthernetTypeLLC
    | InvalidLength          // the length exceeds 0x0600

  // ---------------------------------------------------------------------
  // Decoding
  // ---------------------------------------------------------------------

  /** `DecodeFromBytes`, as a function of the input bytes. */
  function Decode(data: seq<byte>, llc: uint16): (r: Result<Decoded, DecodeError>)
    ensures r.Err? <==> |data| < HeaderSize
    ensures r.Err? ==> r.error == TooSmall
  {
    if |data| < HeaderSize then Err(TooSmall)
    else
      var raw := Uint16(data[12], data[13]);
      var payload := data[HeaderSize..];
      if raw < TypeThreshold then
        var cmp := |payload| - raw;
        var kept := if cmp > 0 then payload[..|payload| - cmp] else payload;
        Ok(Decoded(Frame(data[0..6], data[6..12], llc, raw, data[..HeaderSize], kept), cmp < 0))
      else
        Ok(Decoded(Frame(data[0..6], data[6..12], raw, 0, data[..HeaderSize], payload), false))
  }

  // ---------------------------------------------------------------------
  // Serializing
  // ---------------------------------------------------------------------

  /** The header carries a length rather than an EtherType. */
  predicate LengthMode(f: Frame, llc: uint16)
  {
    f.length != 0 || f.ethernetType == llc
  }

  /** The layer's Length after SerializeTo has passed the MAC checks: with
      FixLengths, in length mode, the payload size truncated to 16 bits. */
  function FixedLength(f: Frame, payloadSize: nat, fixLengths: bool, llc: uint16): uint16
  {
    if LengthMode(f, llc) && fixLengths then TruncateToUint16(payloadSize) else f.length
  }

  /** The value written to the Length/Type field, or the error that stops
      SerializeTo before it is written. Note the bound: a length of exactly
      0x0600 is accepted. */
  function LengthTypeField(f: Frame, payloadSize: nat, fixLengths: bool, llc: uint16): Result<uint16, SerializeError>
  {
    if LengthMode(f, llc) then
      var length := FixedLength(f, payloadSize, fixLengths, llc);
      if f.ethernetType != llc then Err(LengthWithoutLLCType)
      else if length > TypeThreshold then Err(InvalidLength)
      else Ok(length)
    else Ok(f.ethernetType)
  }

  /** Zero bytes appended so that the buffer holds at least MinFrameSize bytes. */
  function Padded(s: seq<byte>): (r: seq<byte>)
    ensures |r| == if |s| < MinFrameSize then MinFrameSize else |s|
    ensures r[..|s|] == s
    ensures forall i :: |s| <= i < |r| ==> r[i] == 0
  {
    if |s| < MinFrameSize then s + Zeros(MinFrameSize - |s|) else s
  }

  /** `SerializeTo`: the whole buffer afterwards, given the buffer before. */
  function Serialize(f: Frame, buffer: seq<byte>, fixLengths: bool, llc: uint16): Result<seq<byte>, SerializeError>
  {
    if |f.dstMAC| != 6 then Err(InvalidDstMAC)
    else if |f.srcMAC| != 6 then Err(InvalidSrcMAC)
    else
      match LengthTypeField(f, |buffer|, fixLengths, llc)
      case Err(e) => Err(e)
      case Ok(field) => Ok(Padded(f.dstMAC + f.srcMAC + PutUint16(field) + buffer))
  }

  /** The layer's Length after SerializeTo: unchanged if a MAC check fails,
      otherwise FixedLength, even when a later check fails. */
  function LengthAfterSerialize(f: Frame, payloadSize: nat, fixLengths: bool, llc: uint16): uint16
  {
    if |f.dstMAC| != 6 || |f.srcMAC| != 6 then f.length
    else FixedLength(f, payloadSize, fixLengths, llc)
  }

  // ---------------------------------------------------------------------
  // The layer object
  // ---------------------------------------------------------------------

  /** The `Ethernet` layer struct, with the `BaseLayer` it embeds. */
  class Ethernet {
    var DstMAC: seq<byte>
    var SrcMAC: seq<byte>
    var EthernetType: uint16
    var Length: uint16
    var Contents: seq<byte>
    var Payload: seq<byte>

    /** `&Ethernet{}`: every field at its zero value. */
    constructor ()
      ensures Value() == Frame([], [], 0, 0, [], [])
    {
      DstMAC, SrcMAC := [], [];
      EthernetType, Length := 0, 0;
      Contents, Payload := [], [];
    }

    /** The layer's fields as a value. */
    function Value(): Frame
      reads this
    {
      Frame(DstMAC, SrcMAC, EthernetType, Length, Contents, Payload)
    }

    /** `NextLayerType`. */
    function NextLayerType(layerOf: uint16 -> LayerType): LayerType
      reads this
    {
      Value().NextLayerType(layerOf)
    }

    /** `DecodeFromBytes`: fills in the fields from data and reports
        truncation to df. On a short input nothing changes. */
    method DecodeFromBytes<L, E>(data: seq<byte>, df: PacketBuilder<L, E>, llc: uint16)
      returns (err: Outcome<DecodeError>)
      modifies this, df
      ensures |data| < HeaderSize ==>
        err == Fail(TooSmall) && Value() == old(Value()) && df.truncated == old(df.truncated)
      ensures |data| >= HeaderSize ==>
        err == Pass && Value() == Decode(data, llc).value.frame &&
        df.truncated == (old(df.truncated) || Decode(data, llc).value.truncated)
      ensures df.log == old(df.log)
    {
      if |data| < HeaderSize {
        return Fail(TooSmall);
      }
      DstMAC := data[0..6];
      SrcMAC := data[6..12];
      EthernetType := Uint16(data[12], data[13]);
      Contents, Payload := data[..HeaderSize], data[HeaderSize..];
      Length := 0;
      if EthernetType < TypeThreshold {
        Length := EthernetType;
        EthernetType := llc;
        var cmp := |Payload| - Length;
        if cmp < 0 {
          df.SetTruncated();
        } else if cmp > 0 {
          Payload := Payload[..|Payload| - cmp];
        }
      }
      return Pass;
    }

    /** `SerializeTo`: prepends the header to b and pads b to the minimum
        frame size. The MAC checks come before anything is written; the
        length-mode checks come after the header has been prepended. */
    method SerializeTo(b: SerializeBuffer, fixLengths: bool, llc: uint16)
      returns (err: Outcome<SerializeError>)
      modifies this, b
      ensures var s := Serialize(old(Value()), old(b.data), fixLengths, llc);
        (err == Pass <==> s.Ok?) &&
        (s.Ok? ==> b.data == s.value) &&
        (s.Err? ==> err == Fail(s.error))
      ensures err == Fail(InvalidDstMAC) || err == Fail(InvalidSrcMAC) ==> b.data == old(b.data)
      ensures err == Fail(LengthWithoutLLCType) || err == Fail(InvalidLength) ==>
        |b.data| == |old(b.data)| + HeaderSize &&
        b.data[..6] == DstMAC && b.data[6..12] == SrcMAC &&
        b.data[HeaderSize..] == old(b.data)
      ensures Length == LengthAfterSerialize(old(Value()), |old(b.data)|, fixLengths, llc)
      ensures DstMAC == old(DstMAC) && SrcMAC == old(SrcMAC) && EthernetType == old(EthernetType)
      ensures Contents == old(Contents) && Payload == old(Payload)
    {
      if |DstMAC| != 6 {
        return Fail(InvalidDstMAC);
      }
      if |SrcMAC| != 6 {
        return Fail(InvalidSrcMAC);
      }
      var payload := b.Bytes();
      b.PrependBytes(HeaderSize);
      ghost var grown := b.data;
      b.Write(0, DstMAC);
      assert b.data[6..] == grown[6..];
      b.Write(6, SrcMAC);
      assert b.data[12..] == grown[12..];
      assert b.data[HeaderSize..] == grown[12..][2..] == payload;
      ghost var field: uint16;
      if Length != 0 || EthernetType == llc {
        if fixLengths {
          Length := TruncateToUint16(|payload|);
        }
        if EthernetType != llc {
          return Fail(LengthWithoutLLCType);
        } else if Length > TypeThreshold {
          return Fail(InvalidLength);
        }
        field := Length;
        b.Write(12, PutUint16(Length));
      } else {
        field := EthernetType;
        b.Write(12, PutUint16(EthernetType));
      }
      assert LengthTypeField(old(Value()), |payload|, fixLengths, llc) == Ok(field);
      HeaderLayout(b.data, DstMAC, SrcMAC, field, payload);
      PadToMinimum(b);
      return Pass;
    }
  }

  /** The bytes of a buffer whose header slots have been filled in. */
  lemma HeaderLayout(d: seq<byte>, dst: seq<byte>, src: seq<byte>, field: uint16, payload: seq<byte>)
    requires |dst| == 6 && |src| == 6 && |d| == HeaderSize + |payload|
    requires d[..6] == dst && d[6..12] == src && d[12..14] == PutUint16(field) && d[HeaderSize..] == payload
    ensures d == dst + src + PutUint16(field) + payload
  {
    assert d == d[..6] + d[6..12] + d[12..14] + d[HeaderSize..];
  }

  /** The last step of SerializeTo: zero padding up to the minimum frame size. */
  method PadToMinimum(b: SerializeBuffer)
    modifies b
    ensures b.data == Padded(old(b.data))
  {
    var length := |b.Bytes()|;
    if length < MinFrameSize {
      b.AppendBytes(MinFrameSize - length);
      b.Write(length, Zeros(MinFrameSize - length));
      assert b.data == b.data[..length] + b.data[length..];
    }
  }

  /** `decodeEthernet`: decodes a fresh layer; on success adds it to the
      packet, makes it the link layer and continues with the decoder for its
      EtherType, returning what that returns. */
  method DecodeEthernet(data: seq<byte>, p: PacketBuilder<Frame, DecodeError>, llc: uint16)
    returns (err: Outcome<DecodeError>)
    modifies p
    ensures |data| < HeaderSize ==>
      err == Fail(TooSmall) && p.log == old(p.log) && p.truncated == old(p.truncated)
    ensures |data| >= HeaderSize ==>
      var d := Decode(data, llc).value;
      err == p.downstream &&
      p.log == old(p.log) + [AddLayer(d.frame), SetLinkLayer(d.frame), NextDecoder(d.frame.ethernetType)] &&
      p.truncated == (old(p.truncated) || d.truncated)
  {
    var eth := new Ethernet();
    err := eth.DecodeFromBytes(data, p, llc);
    if err.Fail? {
      return;
    }
    p.AddLayer(eth.Value());
    p.SetLinkLayer(eth.Value());
    err := p.NextDecoder(eth.EthernetType);
  }
}
