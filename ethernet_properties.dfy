/**
 * What the Ethernet layer promises across its operations: how decoding
 * splits a frame and resolves the Length/Type field, what serializing
 * writes, and the round trips between the two.
 */
module EthernetProperties {
  import opened Bytes
  import opened Results
  import opened Ethernet
  import EthernetHeader

  // ---------------------------------------------------------------------
  // Decoding
  // ---------------------------------------------------------------------

  /** The header and the payload are consecutive pieces of the input: the
      header is its first 14 bytes and header plus payload is a prefix of it,
      all of it unless bytes were trimmed. */
  lemma DecodeSplitsInput(data: seq<byte>, llc: uint16)
    requires |data| >= HeaderSize
    ensures Decode(data, llc).Ok?
    ensures var f := Decode(data, llc).value.frame;
      f.contents == data[..HeaderSize] &&
      f.contents + f.payload <= data &&
      (|f.contents + f.payload| < |data| ==> f.length < |data| - HeaderSize)
  {
    var f := Decode(data, llc).value.frame;
    assert data == data[..HeaderSize] + data[HeaderSize..];
    if Uint16(data[12], data[13]) < TypeThreshold && |data| - HeaderSize > f.length {
      assert f.payload == data[HeaderSize..][..f.length];
    }
  }

  /** Decode reads the addresses and the Length/Type field where the header
      view does, and resolves the field at the 0x0600 threshold. */
  lemma DecodeResolvesLengthType(data: seq<byte>, llc: uint16)
    requires |data| >= HeaderSize
    ensures Decode(data, llc).Ok?
    ensures var f := Decode(data, llc).value.frame;
      var raw := EthernetHeader.GetNextProtocol(data);
      f.dstMAC == EthernetHeader.GetDestAddress(data) &&
      f.srcMAC == EthernetHeader.GetSrcAddress(data) &&
      (raw >= 0x0600 ==> f.ethernetType == raw && f.length == 0) &&
      (raw < 0x0600 ==> f.ethernetType == llc && f.length == raw)
  {
  }

  /** An EtherType frame: the payload is everything after the header and
      nothing is truncated. */
  lemma DecodeTypeFrame(data: seq<byte>, llc: uint16)
    requires |data| >= HeaderSize && EthernetHeader.GetNextProtocol(data) >= 0x0600
    ensures Decode(data, llc).Ok?
    ensures Decode(data, llc).value.frame.payload == data[HeaderSize..]
    ensures !Decode(data, llc).value.truncated
  {
  }

  /** A length frame: truncated exactly when fewer bytes follow the header
      than the length declares; the payload is then all that follows,
      otherwise exactly the declared number of bytes. */
  lemma DecodeLengthFrame(data: seq<byte>, llc: uint16)
    requires |data| >= HeaderSize && EthernetHeader.GetNextProtocol(data) < 0x0600
    ensures Decode(data, llc).Ok?
    ensures var d := Decode(data, llc).value;
      var declared := EthernetHeader.GetNextProtocol(data);
      (d.truncated <==> |data| - HeaderSize < declared) &&
      (|data| - HeaderSize < declared ==> d.frame.payload == data[HeaderSize..]) &&
      (|data| - HeaderSize >= declared ==> d.frame.payload == data[HeaderSize..HeaderSize + declared])
  {
    var declared := EthernetHeader.GetNextProtocol(data);
    var payload := data[HeaderSize..];
    assert declared == Uint16(data[12], data[13]);
    if |payload| > declared {
      assert payload[..declared] == data[HeaderSize..HeaderSize + declared];
    }
  }

  /** The next decoder is chosen by the resolved field: EthernetTypeLLC for
      a length frame, the field itself otherwise. */
  lemma DecodeChoosesNextLayer(data: seq<byte>, llc: uint16, layerOf: uint16 -> LayerType)
    requires |data| >= HeaderSize
    ensures Decode(data, llc).Ok?
    ensures var raw := EthernetHeader.GetNextProtocol(data);
      Decode(data, llc).value.frame.NextLayerType(layerOf) ==
        if raw < 0x0600 then layerOf(llc) else layerOf(raw)
  {
  }

  /** A type frame: 6 x 0xAA, 6 x 0xBB, EtherType 0x0800 (IPv4), 46 zero bytes. */
  lemma DecodeExampleIPv4(llc: uint16)
    ensures var data := seq(6, _ => 0xAA) + seq(6, _ => 0xBB) + [0x08, 0x00] + Zeros(46);
      Decode(data, llc) == Ok(Decoded(
        Frame(seq(6, _ => 0xAA), seq(6, _ => 0xBB), 0x0800, 0, data[..HeaderSize], Zeros(46)), false))
  {
    var data := seq(6, _ => 0xAA) + seq(6, _ => 0xBB) + [0x08, 0x00] + Zeros(46);
    assert data[12] == 0x08 && data[13] == 0x00;
    assert data[..6] == seq(6, _ => 0xAA) && data[6..12] == seq(6, _ => 0xBB);
    assert data[HeaderSize..] == Zeros(46);
  }

  /** A length frame declaring 5 bytes but carrying 10: five are dropped,
      nothing is flagged. */
  lemma DecodeExampleTrim(dst: seq<byte>, src: seq<byte>, rest: seq<byte>, llc: uint16)
    requires |dst| == 6 && |src| == 6 && |rest| == 10
    ensures var data := dst + src + [0x00, 0x05] + rest;
      Decode(data, llc) == Ok(Decoded(Frame(dst, src, llc, 5, data[..HeaderSize], rest[..5]), false))
  {
    var data := dst + src + [0x00, 0x05] + rest;
    assert data[12] == 0x00 && data[13] == 0x05;
    assert data[..6] == dst && data[6..12] == src;
    assert data[HeaderSize..] == rest;
  }

  // ---------------------------------------------------------------------
  // Serializing
  // ---------------------------------------------------------------------

  /** A MAC that is not six bytes is rejected, the destination first. */
  lemma SerializeChecksMACs(f: Frame, buffer: seq<byte>, fixLengths: bool, llc: uint16)
    ensures |f.dstMAC| != 6 ==> Serialize(f, buffer, fixLengths, llc) == Err(InvalidDstMAC)
    ensures |f.dstMAC| == 6 && |f.srcMAC| != 6 ==> Serialize(f, buffer, fixLengths, llc) == Err(InvalidSrcMAC)
  {
  }

  /** What the Length/Type field receives, and when SerializeTo refuses.
      Length mode (a non-zero Length, or the EtherType EthernetTypeLLC) writes
      the Length, recomputed from the old buffer size modulo 2^16 under
      FixLengths, and requires the EtherType EthernetTypeLLC and a Length
      of at most 0x0600; otherwise the EtherType is written. */
  lemma SerializeLengthTypeField(f: Frame, buffer: seq<byte>, fixLengths: bool, llc: uint16)
    requires |f.dstMAC| == 6 && |f.srcMAC| == 6
    ensures var r := Serialize(f, buffer, fixLengths, llc);
      var length := if fixLengths then |buffer| % 0x1_0000 else f.length;
      (f.length != 0 || f.ethernetType == llc ==>
        (r.Ok? <==> f.ethernetType == llc && length <= 0x0600) &&
        (r.Ok? ==> r.value[12..14] == PutUint16(length)) &&
        (r.Err? ==> r.error == if f.ethernetType != llc then LengthWithoutLLCType else InvalidLength)) &&
      (f.length == 0 && f.ethernetType != llc ==>
        r.Ok? && r.value[12..14] == PutUint16(f.ethernetType))
  {
    var t := LengthTypeField(f, |buffer|, fixLengths, llc);
    if t.Ok? {
      SerializedHeader(f, buffer, fixLengths, llc, t.value);
      var out := Serialize(f, buffer, fixLengths, llc).value;
      assert out[12..14] == [out[12], out[13]];
    }
  }

  /** A successful SerializeTo leaves the destination, the source, the field,
      the old contents and then zero padding, max(60, 14 + old size) bytes
      in all: padding only when the frame is under 60 bytes. */
  lemma SerializeLayout(f: Frame, buffer: seq<byte>, fixLengths: bool, llc: uint16)
    requires Serialize(f, buffer, fixLengths, llc).Ok?
    ensures var out := Serialize(f, buffer, fixLengths, llc).value;
      |out| == (if HeaderSize + |buffer| < MinFrameSize then MinFrameSize else HeaderSize + |buffer|) &&
      out[..6] == f.dstMAC && out[6..12] == f.srcMAC &&
      out[HeaderSize..HeaderSize + |buffer|] == buffer &&
      (forall i :: HeaderSize + |buffer| <= i < |out| ==> out[i] == 0)
  {
    var field := LengthTypeField(f, |buffer|, fixLengths, llc).value;
    var header := f.dstMAC + f.srcMAC + PutUint16(field) + buffer;
    var out := Serialize(f, buffer, fixLengths, llc).value;
    assert out[..|header|] == header;
    assert out[..6] == header[..6];
    assert out[6..12] == header[6..12];
    assert out[HeaderSize..HeaderSize + |buffer|] == header[HeaderSize..];
  }

  // ---------------------------------------------------------------------
  // Round trips
  // ---------------------------------------------------------------------

  /** The bytes of a successful Serialize, before padding. */
  lemma SerializedHeader(f: Frame, buffer: seq<byte>, fixLengths: bool, llc: uint16, field: uint16)
    requires |f.dstMAC| == 6 && |f.srcMAC| == 6
    requires LengthTypeField(f, |buffer|, fixLengths, llc) == Ok(field)
    ensures Serialize(f, buffer, fixLengths, llc).Ok?
    ensures var out := Serialize(f, buffer, fixLengths, llc).value;
      |out| >= HeaderSize + |buffer| &&
      out[..6] == f.dstMAC && out[6..12] == f.srcMAC &&
      out[12] == PutUint16(field)[0] && out[13] == PutUint16(field)[1] &&
      out[HeaderSize..HeaderSize + |buffer|] == buffer
  {
    var header := f.dstMAC + f.srcMAC + PutUint16(field) + buffer;
    var out := Serialize(f, buffer, fixLengths, llc).value;
    assert out[..|header|] == header;
    assert out[..6] == header[..6];
    assert out[6..12] == header[6..12];
    assert out[HeaderSize..HeaderSize + |buffer|] == header[HeaderSize..];
  }

  /** Without FixLengths, the field a decoded frame would be serialized
      with is the raw field it was decoded from. */
  lemma DecodedFieldIsRaw(data: seq<byte>, payloadSize: nat, llc: uint16)
    requires |data| >= HeaderSize && llc < 0x0600
    ensures Decode(data, llc).Ok?
    ensures var f := Decode(data, llc).value.frame;
      f.dstMAC == data[..6] && f.srcMAC == data[6..12] &&
      LengthTypeField(f, payloadSize, false, llc) == Ok(Uint16(data[12], data[13]))
  {
    var f := Decode(data, llc).value.frame;
    var raw := Uint16(data[12], data[13]);
    if raw < TypeThreshold {
      assert f.ethernetType == llc && f.length == raw;
    } else {
      assert f.ethernetType == raw && f.length == 0;
    }
  }

  /** Decoding a frame and serializing the result without FixLengths writes
      back the original 14 header bytes, in front of any buffer. */
  lemma {:induction false} DecodeSerializeRoundTrip(data: seq<byte>, buffer: seq<byte>, llc: uint16)
    requires |data| >= HeaderSize && llc < 0x0600
    ensures Decode(data, llc).Ok?
    ensures var f := Decode(data, llc).value.frame;
      Serialize(f, buffer, false, llc).Ok? &&
      Serialize(f, buffer, false, llc).value[..HeaderSize] == data[..HeaderSize]
  {
    DecodedFieldIsRaw(data, |buffer|, llc);
    var f := Decode(data, llc).value.frame;
    SerializedHeader(f, buffer, false, llc, Uint16(data[12], data[13]));
    PutRead(data[12], data[13]);
    var out := Serialize(f, buffer, false, llc).value;
    assert out[..HeaderSize] == out[..6] + out[6..12] + [out[12], out[13]];
    assert data[..HeaderSize] == data[..6] + data[6..12] + [data[12], data[13]];
  }

  /** Serializing a type frame and decoding the bytes gives back its
      addresses and EtherType; the payload is the old buffer and the padding. */
  lemma {:induction false} SerializeDecodeTypeFrame(f: Frame, buffer: seq<byte>, fixLengths: bool, llc: uint16)
    requires |f.dstMAC| == 6 && |f.srcMAC| == 6
    requires f.length == 0 && f.ethernetType >= 0x0600 && llc < 0x0600
    ensures Serialize(f, buffer, fixLengths, llc).Ok?
    ensures var out := Serialize(f, buffer, fixLengths, llc).value;
      Decode(out, llc) == Ok(Decoded(
        Frame(f.dstMAC, f.srcMAC, f.ethernetType, 0, out[..HeaderSize], out[HeaderSize..]), false)) &&
      out[HeaderSize..][..|buffer|] == buffer
  {
    SerializedHeader(f, buffer, fixLengths, llc, f.ethernetType);
    ReadPut(f.ethernetType);
  }

  /** Serializing a length frame with FixLengths over a payload of fewer than
      0x0600 bytes and decoding the bytes gives back the addresses, the
      length and exactly the payload: the padding is trimmed off. */
  lemma {:induction false} SerializeDecodeLengthFrame(f: Frame, buffer: seq<byte>, llc: uint16)
    requires |f.dstMAC| == 6 && |f.srcMAC| == 6
    requires f.ethernetType == llc && |buffer| < 0x0600
    ensures Serialize(f, buffer, true, llc).Ok?
    ensures var out := Serialize(f, buffer, true, llc).value;
      Decode(out, llc) == Ok(Decoded(
        Frame(f.dstMAC, f.srcMAC, llc, |buffer|, out[..HeaderSize], buffer), false))
  {
    SerializedHeader(f, buffer, true, llc, |buffer|);
    ReadPut(|buffer|);
    var out := Serialize(f, buffer, true, llc).value;
    assert out[HeaderSize..][..|buffer|] == out[HeaderSize..HeaderSize + |buffer|];
  }

  /** The two thresholds differ by one: with FixLengths over exactly 0x0600
      payload bytes, SerializeTo accepts the length (it refuses only above
      0x0600) but decoding reads the field back as the EtherType 0x0600. */
  lemma {:induction false} LengthThresholdMismatch(f: Frame, buffer: seq<byte>, llc: uint16)
    requires |f.dstMAC| == 6 && |f.srcMAC| == 6
    requires f.ethernetType == llc && |buffer| == 0x0600
    ensures Serialize(f, buffer, true, llc).Ok?
    ensures var d := Decode(Serialize(f, buffer, true, llc).value, llc).value.frame;
      d.ethernetType == 0x0600 && d.length == 0
  {
    SerializedHeader(f, buffer, true, llc, 0x0600);
    ReadPut(0x0600);
  }
}
