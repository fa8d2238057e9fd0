# Tunnel frame codec

A Dafny model of the protobuf codec that carries the reverse-tunnel
protocol: `lib/tunnel/api/tunnel.pb.go`, generated by gogo-protobuf. It
defines four messages:

- `Frame` holds a oneof `Message`, which is either `DialRequest` (field 1)
  or `Data` (field 2).
- `DialRequest` has `ServerID` (1), `ConnType` (2) and `To` (3), an `Addr`.
- `Addr` has `Network` (1) and `Address` (2).
- `Data` has `Bytes` (1).

Every message keeps the fields it does not know in `XXX_unrecognized`.

The model covers the varint writer and `sovTunnel`, the `Size()` methods,
`Marshal` and `MarshalToSizedBuffer` (the buffer is filled from its end),
the four `Unmarshal` loops, `skipTunnel`, and the oneof getters.

## Layout

- `wrappers.dfy`: `Option` and `Result`.
- `wire.dfy` (`Wire`): bytes, Go's integer limits, the error values, `int32`
  truncation, `sovTunnel`, the varint image and the varint reading loop.
- `varint_lemmas.dfy` (`VarintLemmas`): size bounds and round trip of the
  varint, plus the truncated and over-long cases.
- `skip.dfy` (`Skip`): `skipTunnel` as a step function and a loop with
  its group depth.
- `unknown_fields.dfy` (`UnknownFields`): a datatype of well-formed unknown
  fields, nested groups included. Their wire image, and what `skipTunnel`
  makes of it.
- `messages.dfy` (`Messages`): the four messages and the getters.
- `encoding.dfy` (`Encoding`): the wire image each `Marshal` produces, and
  each `Size()`.
- `marshal.dfy` (`Marshal`): `encodeVarintTunnel` and the
  `MarshalToSizedBuffer` methods as they run, over an explicit buffer.
- `decode.dfy` (`Decode`): the four `Unmarshal` loops.
- `merge.dfy` (`Merge`): what `Unmarshal` does to a receiver that already
  holds a message.
- `decode_steps.dfy` (`DecodeSteps`): one loop pass of each decoder, per
  kind of record.
- `roundtrip.dfy` (`RoundTrip`): decode after encode, and the
  last-one-wins behaviour.
- `errors.dfy` (`DecodeErrors`): the rejections, and a few inputs that are
  easy to misread.
- `truncation.dfy` (`Truncation`): any unknown field cut off by the end of
  the buffer is `io.ErrUnexpectedEOF`, in every message.

## Conventions

- A Go `[]byte` or `string` is a sequence of bytes (0..255).
- A nil pointer is `None`:
  - for the oneof wrapper and the messages it wraps;
  - for `To`;
  - for `Data.Bytes`, where nil and empty differ on decode.
- The varint reader adds the 7-bit groups into an unbounded accumulator
  and reduces it modulo 2^64. This matches Go's `|=`, because the groups
  cover disjoint bits.
- A length that is negative as a Go `int` is a uint64 pattern above
  2^63 - 1, and is reported as `ErrInvalidLengthTunnel`. So is an end index
  past 2^63 - 1.
- `Unmarshal` does not reset its receiver. The decoders therefore take the
  message decoded so far and return it with the buffer merged in:
  - scalar fields and `Bytes` are replaced;
  - `To` is merged into the existing `Addr`;
  - the oneof is replaced by a fresh message;
  - unknown fields are appended.

## Behaviour at the edges of the wire format

These follow from how gogo-protobuf generates proto3 code, and the model
keeps each of them.

- **Empty buffer:** a zero-length buffer is a valid proto3 message with
  every field at its default, so it decodes to an empty `Frame` and does
  not fail (`DecodeFrame`).
- **Unknown fields:** a field number the message does not declare is not
  an error. Its bytes are kept verbatim in `XXX_unrecognized`, in all four
  messages, and `Marshal` writes them back after the known fields.
- **Padded varints:** the varint reader accepts a value written in more
  bytes than it needs (`0x80 0x00` for 0). Such a field is skipped and
  kept like any other (`DecodeErrors.PaddedVarintKept`).
- **Round trip:** proto3 does not write default values, so a round trip is
  exact only for canonical Frames (`RoundTrip.DecodeEncodeFrame`). Two
  things do not survive:
  - a nil oneof wrapper is not written, so it comes back as no message at all;
  - a present but empty `Bytes` is not written, so it comes back nil.
- **Frame size:** the codec has no maximum message size; any limit belongs
  to the transport.

## Model

| member | source | states |
|---|---|---|
| Wire.Int32 | lib/tunnel/api/tunnel.pb.go:767 | `int32(wire >> 3)` lies in the int32 range and agrees with the field number modulo 2^32 |
| Wire.EncodeVarint | lib/tunnel/api/tunnel.pb.go:631-641 | a varint is never empty |
| Wire.ReadVarint | lib/tunnel/api/tunnel.pb.go:752-766 | a read varint is a uint64 that ends after its start, at most ten bytes on and inside the buffer |
| Wire.ReadVarintFrom | lib/tunnel/api/tunnel.pb.go:753-766 | the read loop resumed after `k` bytes keeps the same bounds |
| Wire.Sov | lib/tunnel/api/tunnel.pb.go:741-743 | `sovTunnel` is at least 1: the `x|1` makes 0 take one byte |
| VarintLemmas.SovIsEncodedLength | lib/tunnel/api/tunnel.pb.go:741-743 | `sovTunnel(v)` equals the number of bytes `encodeVarintTunnel` writes for `v`, for every `v` |
| VarintLemmas.VarintSizeBounds | lib/tunnel/api/tunnel.pb.go:741-743 | every uint64 takes 1 to 10 bytes |
| VarintLemmas.ContinuationBits | lib/tunnel/api/tunnel.pb.go:634-639 | every written byte but the last has the 0x80 bit; the last does not |
| VarintLemmas.ShortestForm | lib/tunnel/api/tunnel.pb.go:631-641 | the writer never ends a varint of two or more bytes with 0x00: it writes the shortest form |
| VarintLemmas.ReadEncodedVarint | lib/tunnel/api/tunnel.pb.go:753-766 | reading what `encodeVarintTunnel` wrote gives back the value and the index past it |
| VarintLemmas.ReadTruncatedVarint | lib/tunnel/api/tunnel.pb.go:757-759 | a varint cut off by the buffer end is `io.ErrUnexpectedEOF` |
| VarintLemmas.ReadOverlongVarint | lib/tunnel/api/tunnel.pb.go:753-756 | ten continuation bytes in a row are `ErrIntOverflowTunnel` |
| Skip.SkipStep | lib/tunnel/api/tunnel.pb.go:1224-1290 | one pass of `skipTunnel`'s loop always moves forward |
| Skip.SkipLoop | lib/tunnel/api/tunnel.pb.go:1223-1295 | a successful skip ends past its start and within Go's `int` |
| Skip.SkipTunnel | lib/tunnel/api/tunnel.pb.go:1219-1296 | a successful skip is positive; an empty buffer is `io.ErrUnexpectedEOF` |
| UnknownFields.SkipTunnelField | lib/tunnel/api/tunnel.pb.go:1219-1296 | `skipTunnel` on any well-formed field returns exactly that field's length, whatever follows; this includes nested groups of any depth |
| UnknownFields.SkipFieldsAt | lib/tunnel/api/tunnel.pb.go:1276-1295 | inside a group, a run of well-formed fields is skipped as a whole at the same depth |
| UnknownFields.SkipTunnelStrayEndGroup | lib/tunnel/api/tunnel.pb.go:1278-1281 | an end-group tag at depth 0 is `ErrUnexpectedEndOfGroupTunnel` |
| UnknownFields.SkipTunnelIllegalWireType | lib/tunnel/api/tunnel.pb.go:1285-1286 | wire types 6 and 7 are an illegal wire type |
| Messages.GetDialRequest | lib/tunnel/api/tunnel.pb.go:95-100 | the DialRequest when the oneof holds that wrapper, otherwise nil |
| Messages.GetData | lib/tunnel/api/tunnel.pb.go:102-107 | the Data when the oneof holds that wrapper, otherwise nil |
| Messages.OneofGettersExclusive | lib/tunnel/api/tunnel.pb.go:88-107 | at most one of the two getters returns non-nil |
| Messages.GetBytes | lib/tunnel/api/tunnel.pb.go:275-280 | `GetBytes` returns the slice when it is set and reads nil as empty |
| Encoding.AddrSizeIsLength | lib/tunnel/api/tunnel.pb.go:705-723 | `Addr.Size()` is the length of the marshalled Addr |
| Encoding.DialRequestSizeIsLength | lib/tunnel/api/tunnel.pb.go:681-703 | `DialRequest.Size()` is the length of the marshalled DialRequest, with `To` counted by its own size |
| Encoding.DataSizeIsLength | lib/tunnel/api/tunnel.pb.go:725-739 | `Data.Size()` is the length of the marshalled Data |
| Encoding.PayloadSizeIsLength | lib/tunnel/api/tunnel.pb.go:657-680 | a oneof wrapper's size is the length of what it writes, 0 for a nil message |
| Encoding.FrameSizeIsLength | lib/tunnel/api/tunnel.pb.go:642-655 | `Frame.Size()` is the length of the marshalled Frame |
| Encoding.AddrSize | lib/tunnel/api/tunnel.pb.go:705-723 | `Addr.Size()` is 0 exactly when no field is set and there are no unknown bytes |
| Encoding.DialRequestSize | lib/tunnel/api/tunnel.pb.go:681-703 | `DialRequest.Size()` is 0 exactly when no scalar is set, `To` is nil and there are no unknown bytes; a `To` pointing at an empty Addr still counts |
| Encoding.DataSize | lib/tunnel/api/tunnel.pb.go:725-739 | `Data.Size()` is 0 exactly when `Bytes` is nil or empty and there are no unknown bytes |
| Encoding.PayloadSize | lib/tunnel/api/tunnel.pb.go:657-680 | a oneof wrapper around a non-nil message takes at least two bytes, tag and length, even when the message is empty |
| Encoding.FrameSize | lib/tunnel/api/tunnel.pb.go:642-655 | `Frame.Size()` counts at least the unknown bytes, and only them when the oneof is nil |
| Encoding.AddrImage | lib/tunnel/api/tunnel.pb.go:571-595 | `Addr.MarshalToSizedBuffer` writes the unknown bytes last, and writes nothing exactly when no field is set |
| Encoding.ToImage | lib/tunnel/api/tunnel.pb.go:527-538 | `To` is written exactly when the pointer is set, even to an empty Addr, and starts with tag 0x1a |
| Encoding.DialRequestImage | lib/tunnel/api/tunnel.pb.go:518-554 | `DialRequest.MarshalToSizedBuffer` writes the unknown bytes last, and writes nothing exactly when no field is set |
| Encoding.DataImage | lib/tunnel/api/tunnel.pb.go:612-629 | `Data.MarshalToSizedBuffer` writes the unknown bytes last, and writes nothing exactly when `Bytes` is nil or empty and there are no unknown bytes |
| Encoding.PayloadImage | lib/tunnel/api/tunnel.pb.go:461-502 | a oneof wrapper writes nothing exactly when its message is nil, and otherwise starts with tag 0x0a or 0x12 by variant |
| Encoding.FrameImage | lib/tunnel/api/tunnel.pb.go:440-459 | `Frame.MarshalToSizedBuffer` writes the oneof record, if any, then the unknown bytes |
| Marshal.EncodeVarintTunnel | lib/tunnel/api/tunnel.pb.go:631-641 | the loop writes exactly the varint of `v` into the `sovTunnel(v)` bytes before `offset`, changes no other byte, and returns where it starts |
| Marshal.PutScalar | lib/tunnel/api/tunnel.pb.go:539-545 | a string or bytes field is copied, then its length and tag go in front; nothing is written when it is empty |
| Marshal.MarshalAddrTo | lib/tunnel/api/tunnel.pb.go:571-595 | `Addr.MarshalToSizedBuffer` leaves the Addr's wire image in the last `Size()` bytes, returns `Size()` and changes nothing else |
| Marshal.PutTo | lib/tunnel/api/tunnel.pb.go:527-538 | a non-nil `To` is marshalled first, then prefixed with its size and tag 0x1a; a nil one writes nothing |
| Marshal.MarshalDialRequestTo | lib/tunnel/api/tunnel.pb.go:518-554 | `DialRequest.MarshalToSizedBuffer` leaves the wire image with fields in order 1, 2, 3, then the unknown bytes, and returns `Size()` |
| Marshal.MarshalDataTo | lib/tunnel/api/tunnel.pb.go:612-629 | `Data.MarshalToSizedBuffer` leaves the wire image and returns `Size()` |
| Marshal.MarshalDialRequestPayloadTo | lib/tunnel/api/tunnel.pb.go:466-481 | the DialRequest wrapper writes tag 0x0a, the length and the message; a nil message writes nothing |
| Marshal.MarshalDataPayloadTo | lib/tunnel/api/tunnel.pb.go:487-502 | the Data wrapper writes tag 0x12, the length and the message; a nil message writes nothing |
| Marshal.PutDialRequestRecord | lib/tunnel/api/tunnel.pb.go:468-478 | a non-nil DialRequest is marshalled, then prefixed with its size and tag 0x0a |
| Marshal.PutDataRecord | lib/tunnel/api/tunnel.pb.go:489-499 | a non-nil Data is marshalled, then prefixed with its size and tag 0x12 |
| Marshal.MarshalPayloadTo | lib/tunnel/api/tunnel.pb.go:461-502 | the oneof's `MarshalTo` writes the wrapper's image and returns its size |
| Marshal.MarshalFrameTo | lib/tunnel/api/tunnel.pb.go:440-459 | `Frame.MarshalToSizedBuffer` writes the oneof, then the unknown bytes, and returns `Size()` |
| Marshal.MarshalFrame | lib/tunnel/api/tunnel.pb.go:425-433 | `Frame.Marshal` fills a buffer of exactly `Size()` bytes with the Frame's wire image |
| Marshal.MarshalDialRequest | lib/tunnel/api/tunnel.pb.go:503-511 | `DialRequest.Marshal` returns exactly `Size()` bytes, the DialRequest's wire image |
| Marshal.MarshalAddr | lib/tunnel/api/tunnel.pb.go:556-564 | `Addr.Marshal` returns exactly `Size()` bytes, the Addr's wire image |
| Marshal.MarshalData | lib/tunnel/api/tunnel.pb.go:597-605 | `Data.Marshal` returns exactly `Size()` bytes, the Data's wire image |
| Decode.ReadTag | lib/tunnel/api/tunnel.pb.go:752-774 | a tag that is accepted has a positive field number and a wire type other than 4; wire type 4 is "end group for non-group" |
| Decode.ReadLengthDelimited | lib/tunnel/api/tunnel.pb.go:776-804 | any wire type other than 2 is a wrong wire type for the named field; an accepted payload is exactly the declared number of bytes right after the length varint; a payload whose end index fits Go's `int` but lies past the buffer end is `io.ErrUnexpectedEOF` |
| Decode.SkipField | lib/tunnel/api/tunnel.pb.go:846-859 | the `default:` branch moves past the skipped field and stays inside the buffer; at the buffer end it is `io.ErrUnexpectedEOF` |
| Decode.UnmarshalAddrFrom | lib/tunnel/api/tunnel.pb.go:1019-1133 | unknown bytes are only appended, and grow by at most the bytes left to read |
| Decode.UnmarshalAddr | lib/tunnel/api/tunnel.pb.go:1019-1133 | an empty buffer leaves the receiver as it was; unknown bytes are only ever appended |
| Decode.UnmarshalDialRequestFrom | lib/tunnel/api/tunnel.pb.go:868-1018 | unknown bytes are only appended; once `To` is set it stays set |
| Decode.UnmarshalDialRequest | lib/tunnel/api/tunnel.pb.go:868-1018 | an empty buffer leaves the receiver as it was; unknown bytes are only appended |
| Decode.UnmarshalDataFrom | lib/tunnel/api/tunnel.pb.go:1134-1218 | a `Bytes` field once seen stays non-nil, even when empty |
| Decode.UnmarshalData | lib/tunnel/api/tunnel.pb.go:1134-1218 | an empty buffer leaves the receiver as it was; unknown bytes are only appended |
| Decode.UnmarshalFrameFrom | lib/tunnel/api/tunnel.pb.go:750-861 | unknown bytes are only appended; a decoded oneof never holds a nil wrapper |
| Decode.UnmarshalFrame | lib/tunnel/api/tunnel.pb.go:747-867 | an empty buffer leaves the receiver as it was; unknown bytes are only appended |
| Decode.DecodeFrame | lib/tunnel/api/tunnel.pb.go:747-867 | a fresh decode of an empty buffer is the empty Frame, and a decoded Frame never holds a nil wrapper |
| Merge.MergeDataIntoEmpty | lib/tunnel/api/tunnel.pb.go:1192-1195 | a Data decoded into an empty receiver is unchanged exactly when it holds no present but empty `Bytes` |
| Merge.MergeFrameIntoEmpty | lib/tunnel/api/tunnel.pb.go:805-809 | a Frame decoded into an empty receiver is unchanged exactly when it is canonical |
| RoundTrip.AddrDecodes | lib/tunnel/api/tunnel.pb.go:1019-1133 | `Unmarshal(Marshal(x))` into any Addr merges `x` into it, with unknown fields preserved |
| RoundTrip.DialRequestDecodes | lib/tunnel/api/tunnel.pb.go:868-1018 | `Unmarshal(Marshal(x))` into any DialRequest merges `x` into it, with `To` merged field by field |
| RoundTrip.DataDecodes | lib/tunnel/api/tunnel.pb.go:1134-1218 | `Unmarshal(Marshal(x))` into any Data merges `x` into it |
| RoundTrip.FrameDecodes | lib/tunnel/api/tunnel.pb.go:747-867 | `Unmarshal(Marshal(x))` into any Frame merges `x` into it |
| RoundTrip.DecodeEncodeFrame | lib/tunnel/api/tunnel.pb.go:425-433 | a fresh decode of a marshalled Frame returns it, if and only if it is canonical |
| RoundTrip.LastOneWins | lib/tunnel/api/tunnel.pb.go:805-845 | two Frames back to back decode as the second merged over the first |
| RoundTrip.LastOneofWins | lib/tunnel/api/tunnel.pb.go:840-844 | after a Data record, `GetData` returns that Data and `GetDialRequest` returns nil, whatever came before |
| DecodeErrors.EndGroupRejected | lib/tunnel/api/tunnel.pb.go:769-771 | an end-group tag where a field should start is rejected |
| DecodeErrors.IllegalTagRejected | lib/tunnel/api/tunnel.pb.go:772-774 | a field number that is not positive after the `int32` conversion is an illegal tag |
| DecodeErrors.WrongWireTypeRejected | lib/tunnel/api/tunnel.pb.go:776-779 | fields 1 and 2 of a Frame with a wire type other than 2 are rejected, naming the field |
| DecodeErrors.OverlongTagRejected | lib/tunnel/api/tunnel.pb.go:753-756 | ten continuation bytes at the start are `ErrIntOverflowTunnel` |
| DecodeErrors.TruncatedRecordRejected | lib/tunnel/api/tunnel.pb.go:781-804 | a oneof record cut off anywhere after its tag is `io.ErrUnexpectedEOF` |
| DecodeErrors.TruncatedRecordInDialRequest | lib/tunnel/api/tunnel.pb.go:897-989 | a `ServerID`, `ConnType` or `To` record cut off anywhere after its tag is `io.ErrUnexpectedEOF` |
| DecodeErrors.TruncatedRecordInAddr | lib/tunnel/api/tunnel.pb.go:1048-1109 | a `Network` or `Address` record cut off anywhere after its tag is `io.ErrUnexpectedEOF` |
| DecodeErrors.TruncatedRecordInData | lib/tunnel/api/tunnel.pb.go:1163-1191 | a `Bytes` record cut off anywhere after its tag is `io.ErrUnexpectedEOF` |
| DecodeErrors.SkippedFieldOverrun | lib/tunnel/api/tunnel.pb.go:855-857 | an unknown fixed64 field with fewer than eight bytes left is `io.ErrUnexpectedEOF` |
| DecodeErrors.EmptyDataRecord | lib/tunnel/api/tunnel.pb.go:840-844 | `0x12 0x00` decodes to the Data variant holding an empty Data with nil `Bytes` |
| DecodeErrors.PresentEmptyBytes | lib/tunnel/api/tunnel.pb.go:1192-1195 | a present `Bytes` of length 0 decodes to a non-nil empty slice, which `Marshal` does not write back |
| DecodeErrors.FieldNumberAliasing | lib/tunnel/api/tunnel.pb.go:767 | field number 2^32 + 1 is read as field 1 |
| DecodeErrors.PaddedVarintKept | lib/tunnel/api/tunnel.pb.go:846-859 | `0x18 0x80 0x00`, field 3 holding 0 in a padded varint, is skipped and kept as unrecognized |
| DecodeErrors.PaddedVarintUnencoded | lib/tunnel/api/tunnel.pb.go:631-641 | no unknown field the encoder writes has the image `0x18 0x80 0x00` |
| Truncation.CutField | lib/tunnel/api/tunnel.pb.go:1219-1296 | `skipTunnel`'s loop on any well-formed field cut off by the buffer end runs out of bytes, or at depth 0 returns an index past the end |
| Truncation.CutGroupField | lib/tunnel/api/tunnel.pb.go:1276-1295 | a group cut off anywhere, in its start tag, its body or its end tag, always runs out of bytes |
| Truncation.CutFields | lib/tunnel/api/tunnel.pb.go:1276-1295 | inside a group, a run of fields cut off anywhere runs out of bytes |
| Truncation.SkipFieldCut | lib/tunnel/api/tunnel.pb.go:846-857 | the `default:` branch on a buffer that ends inside the field is `io.ErrUnexpectedEOF`, by `skipTunnel` or by the bounds test after it |
| Truncation.TruncatedUnknownRejected | lib/tunnel/api/tunnel.pb.go:846-857 | a Frame's unknown field cut off after any number of its bytes is `io.ErrUnexpectedEOF`, for every wire type, groups included |
| Truncation.TruncatedUnknownInDialRequest | lib/tunnel/api/tunnel.pb.go:997-1008 | the same for an unknown field of a DialRequest |
| Truncation.TruncatedUnknownInAddr | lib/tunnel/api/tunnel.pb.go:1112-1123 | the same for an unknown field of an Addr |
| Truncation.TruncatedUnknownInData | lib/tunnel/api/tunnel.pb.go:1197-1208 | the same for an unknown field of a Data |

## Left out

- The gRPC client and server stubs (`TunnelerService`): transport code that
  only forwards Frames.
- The gogo-protobuf runtime hooks (`XXX_*`, `Reset`, `String`,
  `ProtoMessage`, `Descriptor`, `init`): they call into a library this
  model does not include.
- `sozTunnel`: no field of these messages uses zig-zag encoding.
- The `MarshalTo` wrappers of the four messages (`Frame`, `DialRequest`,
  `Addr`, `Data`): each only calls `Size()` and then
  `MarshalToSizedBuffer`. This is modelled for the oneof wrappers, which
  `Frame` calls.
- The error returns of `MarshalToSizedBuffer`: the nested calls never fail
  when the buffer has `Size()` bytes. The methods here require that much
  room.
- The `m == nil` branch of each `Size()`: a nil message is `None` here and
  is never sized.
- Marshal.MarshalFrame, Marshal.MarshalDialRequest, Marshal.MarshalAddr,
  Marshal.MarshalData: these require the size to be at most 2^63 - 1.
  Go's `make` would panic on more.
- RoundTrip.FrameDecodes, RoundTrip.DecodeEncodeFrame,
  RoundTrip.LastOneWins: the round trips are stated for messages whose
  unknown bytes are complete, well-formed fields with numbers the message
  does not know, written in shortest form, and whose total size fits in
  Go's `int`. A decoder can also store fields whose varints are padded
  (`DecodeErrors.PaddedVarintKept`); messages holding those, and any other
  contents of `XXX_unrecognized`, are not covered.
- UnknownFields.SkipTunnelField, UnknownFields.SkipFieldsAt,
  Truncation.TruncatedUnknownRejected, Truncation.TruncatedUnknownInDialRequest,
  Truncation.TruncatedUnknownInAddr, Truncation.TruncatedUnknownInData: the unknown-field grammar
  (`UnknownField`) encodes every varint in shortest form, so these are
  stated for fields the encoder would write. `skipTunnel` also accepts
  tags, values and lengths with padded varints, which the grammar cannot
  express (`DecodeErrors.PaddedVarintUnencoded`).
- The receiver after a failed `Unmarshal`: the Go decoders assign each
  field as soon as it is read (tunnel.pb.go lines 809, 844, 927, 959,
  990-993, 1078, 1110, 1192-1195 and the appends to `XXX_unrecognized`)
  and do not undo them when a later record fails. The model returns only the error, so
  what a failed call leaves in the receiver is not modelled.
- The session logic around the codec is not part of this model:
  multiplexing, dialing and the data pump.
- `lib/auditd/auditd.go` and `lib/labels/cloud_test.go` are not part of this
  model.
