# Ethernet layer of gopacket, modelled in Dafny

This project models the Ethernet link-layer codec of the gopacket `layers`
package (`src/external/google/gopacket/layers/ethernet.go`):

- the `EthernetHeader` byte view: reading the Length/Type field, reading,
  setting and swapping the two MAC addresses, forcing the broadcast
  destination, and the broadcast and multicast (Individual/Group bit) tests;
- `Ethernet.DecodeFromBytes`: splitting at least 14 bytes into destination,
  source, Length/Type field, header and payload, and resolving the
  dual-meaning Length/Type field at 0x0600 (clause 3.2.6 of IEEE 802.3):
  below it the field is an 802.3 length, the EtherType becomes
  `EthernetTypeLLC`, and the payload is trimmed to the length or, when
  shorter, reported as truncated;
- `Ethernet.SerializeTo`: checking that both MACs are 6 bytes, prepending
  the 14-byte header to the serialize buffer, writing the length (recomputed
  under `FixLengths` as the buffer size modulo 2^16, and refused when the
  EtherType is not `EthernetTypeLLC` or the length exceeds 0x0600) or the
  EtherType, then zero-padding to the 60-byte minimum frame without FCS
  (clause 4.4.2 of IEEE 802.3);
- `NextLayerType` and `decodeEthernet`, the step that adds the layer to the
  packet, makes it the link layer and hands over to the next decoder.

Files:

- `bytes.dfy` (`Bytes`): bytes as `bv8`, `uint16`, Go's `uint16(n)` truncation,
  and `encoding/binary.BigEndian` for 16-bit values.
- `results.dfy` (`Results`): `Result` and `Outcome` for Go's error returns.
- `ethernet_header.dfy` (`EthernetHeader`): the header view. Queries are
  functions of the bytes; each mutator is a method on an `array<bv8>` whose
  new contents are given by a function of the old ones; Go's `copy` is the
  method `Copy`.
- `gopacket.dfy` (`Gopacket`): minimal stand-ins for gopacket's
  `SerializeBuffer` and `PacketBuilder` (which is also the `DecodeFeedback`).
- `ethernet.dfy` (`Ethernet`): the `Ethernet` class with the struct's
  fields, its `DecodeFromBytes` and `SerializeTo` methods, their
  specification functions `Decode` and `Serialize`, and `DecodeEthernet`.
- `ethernet_properties.dfy` (`EthernetProperties`): what decoding and
  serializing promise, and the round trips between them.

`EthernetTypeLLC` is declared outside this file (gopacket gives it the value
0); here it is the parameter `llc`, and the lemmas that need it to be a
length value require `llc < 0x0600`.

The two thresholds differ by one, as written: decoding reads a field of
exactly 0x0600 as an EtherType (`ethernet.go:100`), while `SerializeTo`
refuses only lengths above 0x0600 (`ethernet.go:137`). The model keeps both;
`LengthThresholdMismatch` shows that a length-mode frame whose payload is
exactly 0x0600 bytes serializes without error and decodes back as the
EtherType 0x0600.

## Model

| member | source | states |
|---|---|---|
| Bytes.TruncateToUint16 | src/external/google/gopacket/layers/ethernet.go:133 | `uint16(len(payload))` keeps the size modulo 2^16 and is the size itself below 2^16 |
| Bytes.PutUint16 | src/external/google/gopacket/layers/ethernet.go:140-142 | the two bytes written are high-order first and their big-endian value is the value written |
| Bytes.Uint16Digits | src/external/google/gopacket/layers/ethernet.go:25 | the field read big-endian has the first byte as quotient by 256 and the second as remainder |
| Bytes.ReadPut | src/external/google/gopacket/layers/ethernet.go:140 | reading back a written 16-bit field gives the value written |
| Bytes.PutRead | src/external/google/gopacket/layers/ethernet.go:97 | writing back a field that was read gives the same two bytes |
| Bytes.Zeros | src/external/google/gopacket/layers/ethernet.go:151 | the padding copied from `lotsOfZeros` is n zero bytes |
| EthernetHeader.CopyCount | src/external/google/gopacket/layers/ethernet.go:36 | Go's `copy` moves the smaller of the slot size and the source size |
| EthernetHeader.CopiedInto | src/external/google/gopacket/layers/ethernet.go:36 | after `copy(h[lo:hi], src)` the bytes before lo and after the copied part are unchanged and the copied part is the head of src |
| EthernetHeader.Copy | src/external/google/gopacket/layers/ethernet.go:30-32 | `copy` into an array returns the count moved and leaves the array as CopiedInto says |
| EthernetHeader.SwappedSrcDst | src/external/google/gopacket/layers/ethernet.go:28-33 | after a swap the destination read is the old source and the source read the old destination; bytes 12 onward are unchanged |
| EthernetHeader.WithSrcAddress | src/external/google/gopacket/layers/ethernet.go:35-37 | setting the source leaves the destination and bytes 12 onward unchanged |
| EthernetHeader.WithDestAddress | src/external/google/gopacket/layers/ethernet.go:39-41 | setting the destination leaves bytes 6 onward unchanged |
| EthernetHeader.WithBroadcast | src/external/google/gopacket/layers/ethernet.go:51-53 | the destination becomes ff:ff:ff:ff:ff:ff and bytes 6 onward are unchanged |
| EthernetHeader.SwapSrcDst | src/external/google/gopacket/layers/ethernet.go:28-33 | the array afterwards is SwappedSrcDst of the array before |
| EthernetHeader.SetSrcAddress | src/external/google/gopacket/layers/ethernet.go:35-37 | the array afterwards is WithSrcAddress of the array before |
| EthernetHeader.SetDestAddress | src/external/google/gopacket/layers/ethernet.go:39-41 | the array afterwards is WithDestAddress of the array before |
| EthernetHeader.SetBroadcast | src/external/google/gopacket/layers/ethernet.go:51-53 | the array afterwards is WithBroadcast of the array before, and is both broadcast and multicast |
| EthernetHeader.SwapTwiceIsIdentity | src/external/google/gopacket/layers/ethernet.go:28-33 | swapping twice restores the header |
| EthernetHeader.SetSrcThenGet | src/external/google/gopacket/layers/ethernet.go:35-44 | a 6-byte source set is read back by GetSrcAddress |
| EthernetHeader.SetDestThenGet | src/external/google/gopacket/layers/ethernet.go:39-49 | a 6-byte destination set is read back by GetDestAddress |
| EthernetHeader.SetSrcPartial | src/external/google/gopacket/layers/ethernet.go:35-37 | a shorter address overwrites only its own length of the source, a longer one only its first six bytes |
| EthernetHeader.SetBroadcastMakesBroadcast | src/external/google/gopacket/layers/ethernet.go:51-69 | after SetBroadcast, IsBroadcast and IsMcast hold and bytes 6 onward are unchanged |
| EthernetHeader.BroadcastIsMulticast | src/external/google/gopacket/layers/ethernet.go:55-69 | a broadcast destination has the Individual/Group bit set |
| EthernetHeader.McastIsOddFirstByte | src/external/google/gopacket/layers/ethernet.go:63-69 | IsMcast holds exactly when the first byte is odd |
| Gopacket.SerializeBuffer.PrependBytes | src/external/google/gopacket/layers/ethernet.go:125 | n bytes are added in front; the old contents follow unchanged |
| Gopacket.SerializeBuffer.AppendBytes | src/external/google/gopacket/layers/ethernet.go:147 | n bytes are added at the back; the old contents precede unchanged |
| Gopacket.SerializeBuffer.Write | src/external/google/gopacket/layers/ethernet.go:129-130 | writing through a returned slice replaces exactly those bytes |
| Gopacket.PacketBuilder.SetTruncated | src/external/google/gopacket/layers/ethernet.go:104 | the truncated flag is set and the layer log unchanged |
| Gopacket.PacketBuilder.AddLayer | src/external/google/gopacket/layers/ethernet.go:170 | the layer is appended to the packet's log |
| Gopacket.PacketBuilder.SetLinkLayer | src/external/google/gopacket/layers/ethernet.go:171 | the link-layer choice is appended to the log |
| Gopacket.PacketBuilder.NextDecoder | src/external/google/gopacket/layers/ethernet.go:172 | the hand-over is logged and the rest of the chain's result returned |
| Ethernet.Decode | src/external/google/gopacket/layers/ethernet.go:91-94 | decoding fails, with TooSmall, exactly when there are fewer than 14 bytes |
| Ethernet.Padded | src/external/google/gopacket/layers/ethernet.go:144-152 | the result has max(60, size) bytes: the input followed by zeros |
| Ethernet.Ethernet.constructor | src/external/google/gopacket/layers/ethernet.go:165 | a new layer has every field at its zero value |
| Ethernet.Ethernet.DecodeFromBytes | src/external/google/gopacket/layers/ethernet.go:91-112 | on fewer than 14 bytes: TooSmall, nothing changed; otherwise the fields become Decode's frame and the feedback's truncated flag is or-ed with Decode's |
| Ethernet.Ethernet.SerializeTo | src/external/google/gopacket/layers/ethernet.go:117-154 | succeeds exactly when Serialize does and leaves its bytes; a MAC error leaves the buffer untouched; a length-mode error leaves the prepended MACs before the old contents; Length becomes the recomputed length under FixLengths, even on a length-mode error |
| Ethernet.PadToMinimum | src/external/google/gopacket/layers/ethernet.go:144-152 | the buffer becomes Padded of itself |
| Ethernet.HeaderLayout | src/external/google/gopacket/layers/ethernet.go:129-143 | the filled header slots are destination, source, field, then the old contents |
| Ethernet.DecodeEthernet | src/external/google/gopacket/layers/ethernet.go:164-173 | on a decode error the error is returned and nothing is logged; otherwise AddLayer, SetLinkLayer and NextDecoder(EtherType) are logged in that order and the next decoder's result returned |
| EthernetProperties.DecodeSplitsInput | src/external/google/gopacket/layers/ethernet.go:98-108 | the header is the first 14 bytes; header plus payload is a prefix of the input, shorter only when the declared length was shorter than what followed |
| EthernetProperties.DecodeResolvesLengthType | src/external/google/gopacket/layers/ethernet.go:95-102 | destination and source are bytes 0..5 and 6..11; a field of at least 0x0600 is the EtherType with Length 0, a smaller one is the Length with EtherType EthernetTypeLLC |
| EthernetProperties.DecodeTypeFrame | src/external/google/gopacket/layers/ethernet.go:95-100 | with an EtherType the payload is everything after the header and nothing is truncated |
| EthernetProperties.DecodeLengthFrame | src/external/google/gopacket/layers/ethernet.go:100-108 | with a length: truncated exactly when fewer bytes follow; the payload is then all of them, otherwise exactly the declared length |
| EthernetProperties.DecodeChoosesNextLayer | src/external/google/gopacket/layers/ethernet.go:160-162 | the next layer type is the registry's entry for EthernetTypeLLC after a length, for the field itself after an EtherType |
| EthernetProperties.DecodeExampleIPv4 | src/external/google/gopacket/layers/ethernet.go:95-100 | a 60-byte IPv4 frame decodes to EtherType 0x0800, Length 0, the 46 payload bytes, not truncated |
| EthernetProperties.DecodeExampleTrim | src/external/google/gopacket/layers/ethernet.go:100-108 | a frame declaring 5 bytes and carrying 10 keeps the first 5, not truncated |
| EthernetProperties.SerializeChecksMACs | src/external/google/gopacket/layers/ethernet.go:118-123 | a destination that is not 6 bytes is refused first, then a source that is not |
| EthernetProperties.SerializeLengthTypeField | src/external/google/gopacket/layers/ethernet.go:131-143 | in length mode the written field is Length (under FixLengths the old buffer size mod 2^16), refused unless the EtherType is EthernetTypeLLC and Length is at most 0x0600; otherwise the EtherType is written |
| EthernetProperties.SerializeLayout | src/external/google/gopacket/layers/ethernet.go:124-152 | a success leaves destination, source, field, the old contents and zeros, max(60, 14 + old size) bytes in all |
| EthernetProperties.SerializedHeader | src/external/google/gopacket/layers/ethernet.go:124-143 | when both MACs are valid and the field is accepted, the bytes hold the MACs, the field and the old contents |
| EthernetProperties.DecodedFieldIsRaw | src/external/google/gopacket/layers/ethernet.go:131-143 | without FixLengths a decoded frame is accepted and serialized with the raw field it was decoded from |
| EthernetProperties.DecodeSerializeRoundTrip | src/external/google/gopacket/layers/ethernet.go:95-143 | decoding then serializing without FixLengths writes back the original 14 header bytes |
| EthernetProperties.SerializeDecodeTypeFrame | src/external/google/gopacket/layers/ethernet.go:129-143 | serializing an EtherType frame then decoding gives back its MACs and EtherType, the old contents heading the payload |
| EthernetProperties.SerializeDecodeLengthFrame | src/external/google/gopacket/layers/ethernet.go:131-140 | serializing a length frame under FixLengths over fewer than 0x0600 bytes then decoding gives back the MACs, the length and exactly the old contents, the padding trimmed |
| EthernetProperties.LengthThresholdMismatch | src/external/google/gopacket/layers/ethernet.go:137 | a 0x0600-byte payload in length mode is accepted by SerializeTo but decodes back as EtherType 0x0600 with Length 0 |

## Left out

- `LayerType` and `CanDecode` (`ethernet.go:85`, `ethernet.go:156-158`): they return the constant `LayerTypeEthernet`, declared outside this file.
- `LinkFlow` (`ethernet.go:87-89`): a wrapper over `gopacket.NewFlow`, which is not part of this model.
- The EtherType registry behind `EthernetType.LayerType()` is not part of this model; `NextLayerType` takes it as the function parameter `layerOf`.
- The value of `EthernetTypeLLC` is not part of this model; it is the parameter `llc`.
- The error returns of `PrependBytes` and `AppendBytes` (`ethernet.go:126-128`, `ethernet.go:148-150`): the buffer is modelled as never failing to grow.
- Error message text: errors are the variants of `DecodeError` and `SerializeError`.
- Go slice aliasing: the decoded MACs, header and payload, and the results of `GetSrcAddress` and `GetDestAddress`, are value copies, so later writes to the underlying bytes are not reflected in them.
- `SerializeOptions.ComputeChecksums`: the Ethernet layer does not read it; only `FixLengths` is a parameter.
- The rest of the decode chain run by `NextDecoder` is not part of this model: its result is the builder's `downstream` value.
- Ethernet.Ethernet.SerializeTo: after a length-mode error the two Length/Type bytes of the prepended header are left unspecified, because `PrependBytes` does not say what new bytes hold.
