/**
  The four generated `Unmarshal` methods. Each one is a loop over the buffer
  that reads a tag, rejects wire type 4 and field numbers that are not
  positive, and then either decodes a field it knows (every known field is
  length-delimited) or hands the whole field to `skipTunnel` and keeps its
  bytes in `XXX_unrecognized`.

  Go's `Unmarshal` works on the receiver it is given and does not reset it,
  so each loop here takes the message decoded so far and returns the
  message after the buffer has been merged into it. A nested message is
  decoded from its own sub-slice, so its indices start again at zero.
*/
module Decode {
  import opened Wrappers
  import opened Wire
  import opened Skip
  import opened Messages

  /** A validated tag: `fieldNum` as Go's `int32(wire >> 3)`, and `wire & 7`. */
  datatype Tag = Tag(fieldNum: int, wireType: nat, next: nat)

  /** The half-open range `dAtA[start:end]` of a length-delimited payload. */
  datatype Span = Span(start: nat, end: nat)

  /**
    The tag read at the top of every loop pass of the message called
    `message`: an end-group tag and a field number that is zero or negative
    after the `int32` conversion are errors before any field is looked at.
  */
  function ReadTag(data: Bytes, i: nat, message: string): (r: Result<Tag, Error>)
    ensures r.Success? ==> r.value.fieldNum > 0 && r.value.wireType < 8 && r.value.wireType != 4
    ensures r.Success? ==> i < r.value.next <= |data|
    ensures ReadVarint(data, i).Success? && ReadVarint(data, i).value.value % 8 == 4
            ==> r == Failure(EndGroupForNonGroup(message))
  {
    var wire :- ReadVarint(data, i);
    var fieldNum := Int32(wire.value / 8);
    var wireType := wire.value % 8;
    if wireType == 4 then Failure(EndGroupForNonGroup(message))
    else if fieldNum <= 0 then Failure(IllegalTag(message, fieldNum, wire.value))
    else Success(Tag(fieldNum, wireType, wire.next))
  }

  /**
    The payload of a length-delimited field: the wire type must be 2, the
    length must not be negative as a Go `int` (a uint64 pattern above
    MaxInt), the end index must not overflow, and the payload must fit in
    the buffer.
  */
  function ReadLengthDelimited(data: Bytes, tag: Tag, field: string): (r: Result<Span, Error>)
    ensures r.Success? ==> tag.wireType == 2 && tag.next < r.value.start <= r.value.end <= |data|
    ensures tag.wireType != 2 ==> r == Failure(WrongWireType(field, tag.wireType))
    ensures r.Success? ==> var v := ReadVarint(data, tag.next);
      v.Success? && r.value.start == v.value.next && r.value.end - r.value.start == v.value.value
    ensures var v := ReadVarint(data, tag.next);
      tag.wireType == 2 && v.Success? && |data| < v.value.next + v.value.value <= MaxInt
      ==> r == Failure(UnexpectedEOF)
  {
    if tag.wireType != 2 then Failure(WrongWireType(field, tag.wireType))
    else
      var length :- ReadVarint(data, tag.next);
      if length.value > MaxInt then Failure(InvalidLength)
      else if length.next + length.value > MaxInt then Failure(InvalidLength)
      else if length.next + length.value > |data| then Failure(UnexpectedEOF)
      else Success(Span(length.next, length.next + length.value))
  }

  /**
    The `default:` branch: the field starting at `i` is measured by
    `skipTunnel` on the rest of the buffer; the index past it must not
    overflow and must lie inside the buffer.
  */
  function SkipField(data: Bytes, i: nat): (r: Result<nat, Error>)
    requires i <= |data|
    ensures r.Success? ==> i < r.value <= |data|
    ensures i == |data| ==> r == Failure(UnexpectedEOF)
  {
    var n :- SkipTunnel(data[i..]);
    if i + n > MaxInt then Failure(InvalidLength)
    else if i + n > |data| then Failure(UnexpectedEOF)
    else Success(i + n)
  }

  /** `Addr.Unmarshal` from index `i` on, into the Addr `m` decoded so far. */
  function UnmarshalAddrFrom(m: Addr, data: Bytes, i: nat): (r: Result<Addr, Error>)
    requires i <= |data|
    ensures i == |data| ==> r == Success(m)
    ensures r.Success? ==> m.unrecognized <= r.value.unrecognized
    ensures r.Success? ==> |r.value.unrecognized| <= |m.unrecognized| + |data| - i
    decreases |data| - i
  {
    if i == |data| then Success(m)
    else
      var tag :- ReadTag(data, i, "Addr");
      if tag.fieldNum == 1 then
        var s :- ReadLengthDelimited(data, tag, "Network");
        UnmarshalAddrFrom(m.(network := data[s.start .. s.end]), data, s.end)
      else if tag.fieldNum == 2 then
        var s :- ReadLengthDelimited(data, tag, "Address");
        UnmarshalAddrFrom(m.(address := data[s.start .. s.end]), data, s.end)
      else
        var end :- SkipField(data, i);
        UnmarshalAddrFrom(m.(unrecognized := m.unrecognized + data[i .. end]), data, end)
  }

  /** `(*Addr).Unmarshal(dAtA)` on the receiver `m`. */
  function UnmarshalAddr(m: Addr, data: Bytes): (r: Result<Addr, Error>)
    ensures |data| == 0 ==> r == Success(m)
    ensures r.Success? ==> m.unrecognized <= r.value.unrecognized
  {
    UnmarshalAddrFrom(m, data, 0)
  }

  /**
    `DialRequest.Unmarshal` from index `i` on. Field 3 merges into the
    existing `To`, allocating an empty Addr first when it is nil.
  */
  function UnmarshalDialRequestFrom(m: DialRequest, data: Bytes, i: nat): (r: Result<DialRequest, Error>)
    requires i <= |data|
    ensures i == |data| ==> r == Success(m)
    ensures r.Success? ==> m.unrecognized <= r.value.unrecognized
    ensures r.Success? && m.to.Some? ==> r.value.to.Some?
    decreases |data| - i
  {
    if i == |data| then Success(m)
    else
      var tag :- ReadTag(data, i, "DialRequest");
      if tag.fieldNum == 1 then
        var s :- ReadLengthDelimited(data, tag, "ServerID");
        UnmarshalDialRequestFrom(m.(serverID := data[s.start .. s.end]), data, s.end)
      else if tag.fieldNum == 2 then
        var s :- ReadLengthDelimited(data, tag, "ConnType");
        UnmarshalDialRequestFrom(m.(connType := data[s.start .. s.end]), data, s.end)
      else if tag.fieldNum == 3 then
        var s :- ReadLengthDelimited(data, tag, "To");
        var to :- UnmarshalAddr(m.to.GetOr(EmptyAddr), data[s.start .. s.end]);
        UnmarshalDialRequestFrom(m.(to := Some(to)), data, s.end)
      else
        var end :- SkipField(data, i);
        UnmarshalDialRequestFrom(m.(unrecognized := m.unrecognized + data[i .. end]), data, end)
  }

  function UnmarshalDialRequest(m: DialRequest, data: Bytes): (r: Result<DialRequest, Error>)
    ensures |data| == 0 ==> r == Success(m)
    ensures r.Success? ==> m.unrecognized <= r.value.unrecognized
  {
    UnmarshalDialRequestFrom(m, data, 0)
  }

  /**
    `Data.Unmarshal` from index `i` on. A present `Bytes` field replaces the
    old slice with a copy of the payload that is never nil, even when the
    payload is empty.
  */
  function UnmarshalDataFrom(m: Data, data: Bytes, i: nat): (r: Result<Data, Error>)
    requires i <= |data|
    ensures i == |data| ==> r == Success(m)
    ensures r.Success? ==> m.unrecognized <= r.value.unrecognized
    ensures r.Success? && m.bytes.Some? ==> r.value.bytes.Some?
    decreases |data| - i
  {
    if i == |data| then Success(m)
    else
      var tag :- ReadTag(data, i, "Data");
      if tag.fieldNum == 1 then
        var s :- ReadLengthDelimited(data, tag, "Bytes");
        UnmarshalDataFrom(m.(bytes := Some(data[s.start .. s.end])), data, s.end)
      else
        var end :- SkipField(data, i);
        UnmarshalDataFrom(m.(unrecognized := m.unrecognized + data[i .. end]), data, end)
  }

  function UnmarshalData(m: Data, data: Bytes): (r: Result<Data, Error>)
    ensures |data| == 0 ==> r == Success(m)
    ensures r.Success? ==> m.unrecognized <= r.value.unrecognized
  {
    UnmarshalDataFrom(m, data, 0)
  }

  /** Decoding never leaves a oneof wrapper around a nil message. */
  predicate NoNilPayload(f: Frame)
  {
    match f.message
    case Some(DialRequestPayload(None)) => false
    case Some(DataPayload(None)) => false
    case _ => true
  }

  /**
    `Frame.Unmarshal` from index `i` on. Each oneof field decodes into a
    fresh message and replaces whatever the oneof held, of either variant.
  */
  function UnmarshalFrameFrom(m: Frame, data: Bytes, i: nat): (r: Result<Frame, Error>)
    requires i <= |data|
    ensures i == |data| ==> r == Success(m)
    ensures r.Success? ==> m.unrecognized <= r.value.unrecognized
    ensures r.Success? && NoNilPayload(m) ==> NoNilPayload(r.value)
    decreases |data| - i
  {
    if i == |data| then Success(m)
    else
      var tag :- ReadTag(data, i, "Frame");
      if tag.fieldNum == 1 then
        var s :- ReadLengthDelimited(data, tag, "DialRequest");
        var v :- UnmarshalDialRequest(EmptyDialRequest, data[s.start .. s.end]);
        UnmarshalFrameFrom(m.(message := Some(DialRequestPayload(Some(v)))), data, s.end)
      else if tag.fieldNum == 2 then
        var s :- ReadLengthDelimited(data, tag, "Data");
        var v :- UnmarshalData(EmptyData, data[s.start .. s.end]);
        UnmarshalFrameFrom(m.(message := Some(DataPayload(Some(v)))), data, s.end)
      else
        var end :- SkipField(data, i);
        UnmarshalFrameFrom(m.(unrecognized := m.unrecognized + data[i .. end]), data, end)
  }

  function UnmarshalFrame(m: Frame, data: Bytes): (r: Result<Frame, Error>)
    ensures |data| == 0 ==> r == Success(m)
    ensures r.Success? ==> m.unrecognized <= r.value.unrecognized
  {
    UnmarshalFrameFrom(m, data, 0)
  }

  /** Decoding into a freshly allocated message: `f := &Frame{}; f.Unmarshal(b)`. */
  function DecodeFrame(data: Bytes): (r: Result<Frame, Error>)
    ensures |data| == 0 ==> r == Success(EmptyFrame)
    ensures r.Success? ==> NoNilPayload(r.value)
  {
    UnmarshalFrame(EmptyFrame, data)
  }
}
