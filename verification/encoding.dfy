/**
  `Size()` and the byte image that `Marshal` produces, for every message and
  both oneof wrappers. Fields come out in ascending field-number order,
  scalar fields that are empty are omitted (proto3), and unrecognized bytes
  are re-emitted verbatim at the end.
*/
module Encoding {
  import opened Wrappers
  import opened Wire
  import opened Messages
  import VarintLemmas

  /** Tag bytes `field << 3 | 2` of the length-delimited fields. */
  const TagField1: Byte := 0x0a
  const TagField2: Byte := 0x12
  const TagField3: Byte := 0x1a

  /** One length-delimited record: tag, varint length, payload. */
  function LengthDelimited(tag: Byte, payload: Bytes): Bytes
  {
    [tag] + EncodeVarint(|payload|) + payload
  }

  /** A proto3 string or bytes field: written only when non-empty. */
  function ScalarField(tag: Byte, value: Bytes): Bytes
  {
    if |value| > 0 then LengthDelimited(tag, value) else []
  }

  function EncodeAddr(a: Addr): Bytes
  {
    ScalarField(TagField1, a.network) + ScalarField(TagField2, a.address) + a.unrecognized
  }

  function EncodeTo(to: Option<Addr>): Bytes
  {
    match to
    case None => []
    case Some(a) => LengthDelimited(TagField3, EncodeAddr(a))
  }

  function EncodeDialRequest(d: DialRequest): Bytes
  {
    ScalarField(TagField1, d.serverID) + ScalarField(TagField2, d.connType)
      + EncodeTo(d.to) + d.unrecognized
  }

  function EncodeData(d: Data): Bytes
  {
    ScalarField(TagField1, GetBytes(d)) + d.unrecognized
  }

  /** The oneof wrappers: nothing at all when the wrapped pointer is nil. */
  function EncodePayload(p: Payload): Bytes
  {
    match p
    case DialRequestPayload(None) => []
    case DialRequestPayload(Some(d)) => LengthDelimited(TagField1, EncodeDialRequest(d))
    case DataPayload(None) => []
    case DataPayload(Some(d)) => LengthDelimited(TagField2, EncodeData(d))
  }

  /** The oneof part of a Frame: nothing when the interface is nil. */
  function EncodeOneof(message: Option<Payload>): Bytes
  {
    match message
    case None => []
    case Some(p) => EncodePayload(p)
  }

  function EncodeFrame(f: Frame): Bytes
  {
    EncodeOneof(f.message) + f.unrecognized
  }

  /** The `n += 1 + l + sovTunnel(uint64(l))` term of every `Size()`. */
  function FieldSize(l: nat): nat
  {
    1 + l + Sov(l)
  }

  function ScalarSize(value: Bytes): nat
  {
    if |value| > 0 then FieldSize(|value|) else 0
  }

  function AddrSize(a: Addr): (r: nat)
    ensures r == 0 <==> a.network == [] && a.address == [] && a.unrecognized == []
  {
    ScalarSize(a.network) + ScalarSize(a.address) + |a.unrecognized|
  }

  function DialRequestSize(d: DialRequest): (r: nat)
    ensures r == 0 <==> d.serverID == [] && d.connType == [] && d.to.None? && d.unrecognized == []
  {
    ScalarSize(d.serverID) + ScalarSize(d.connType)
      + (if d.to.Some? then FieldSize(AddrSize(d.to.value)) else 0)
      + |d.unrecognized|
  }

  function DataSize(d: Data): (r: nat)
    ensures r == 0 <==> GetBytes(d) == [] && d.unrecognized == []
  {
    ScalarSize(GetBytes(d)) + |d.unrecognized|
  }

  /** `Frame_DialRequest.Size` and `Frame_Data.Size`. */
  function PayloadSize(p: Payload): (r: nat)
    ensures (p.DialRequestPayload? && p.dialRequest.Some?) || (p.DataPayload? && p.data.Some?) ==> r >= 2
  {
    match p
    case DialRequestPayload(None) => 0
    case DialRequestPayload(Some(d)) => FieldSize(DialRequestSize(d))
    case DataPayload(None) => 0
    case DataPayload(Some(d)) => FieldSize(DataSize(d))
  }

  function FrameSize(f: Frame): (r: nat)
    ensures r >= |f.unrecognized|
    ensures f.message.None? ==> r == |f.unrecognized|
  {
    (if f.message.Some? then PayloadSize(f.message.value) else 0) + |f.unrecognized|
  }

  lemma LengthDelimitedLength(tag: Byte, payload: Bytes)
    ensures |LengthDelimited(tag, payload)| == FieldSize(|payload|)
  {
    VarintLemmas.SovIsEncodedLength(|payload|);
  }

  lemma ScalarFieldLength(tag: Byte, value: Bytes)
    ensures |ScalarField(tag, value)| == ScalarSize(value)
  {
    if |value| > 0 {
      LengthDelimitedLength(tag, value);
    }
  }

  /** `Addr.Size()` is the length of the marshalled Addr. */
  lemma AddrSizeIsLength(a: Addr)
    ensures |EncodeAddr(a)| == AddrSize(a)
  {
    ScalarFieldLength(TagField1, a.network);
    ScalarFieldLength(TagField2, a.address);
  }

  /** `DialRequest.Size()` is the length of the marshalled DialRequest. */
  lemma DialRequestSizeIsLength(d: DialRequest)
    ensures |EncodeDialRequest(d)| == DialRequestSize(d)
  {
    ScalarFieldLength(TagField1, d.serverID);
    ScalarFieldLength(TagField2, d.connType);
    if d.to.Some? {
      AddrSizeIsLength(d.to.value);
      LengthDelimitedLength(TagField3, EncodeAddr(d.to.value));
    }
  }

  /** `Data.Size()` is the length of the marshalled Data. */
  lemma DataSizeIsLength(d: Data)
    ensures |EncodeData(d)| == DataSize(d)
  {
    ScalarFieldLength(TagField1, GetBytes(d));
  }

  /** A wrapper's size is `1 + l + sov(l)` for a non-nil payload of size `l`, else 0. */
  lemma PayloadSizeIsLength(p: Payload)
    ensures |EncodePayload(p)| == PayloadSize(p)
  {
    match p
    case DialRequestPayload(Some(d)) =>
      DialRequestSizeIsLength(d);
      LengthDelimitedLength(TagField1, EncodeDialRequest(d));
    case DataPayload(Some(d)) =>
      DataSizeIsLength(d);
      LengthDelimitedLength(TagField2, EncodeData(d));
    case _ =>
  }

  /** `Frame.Size()` is the length of the marshalled Frame. */
  lemma FrameSizeIsLength(f: Frame)
    ensures |EncodeFrame(f)| == FrameSize(f)
  {
    if f.message.Some? {
      PayloadSizeIsLength(f.message.value);
    }
  }

  /**
    An Addr's image ends with its unknown bytes, written last, and is empty
    exactly when no field is set.
  */
  lemma AddrImage(a: Addr)
    ensures |a.unrecognized| <= |EncodeAddr(a)|
    ensures EncodeAddr(a)[|EncodeAddr(a)| - |a.unrecognized| ..] == a.unrecognized
    ensures EncodeAddr(a) == [] <==> a.network == [] && a.address == [] && a.unrecognized == []
  {
  }

  /**
    A `To` field is written exactly when the pointer is set, even to an
    empty Addr, and then starts with the tag 0x1a.
  */
  lemma ToImage(to: Option<Addr>)
    ensures EncodeTo(to) == [] <==> to.None?
    ensures to.Some? ==> EncodeTo(to)[0] == TagField3
  {
  }

  /**
    A DialRequest's image ends with its unknown bytes and is empty exactly
    when no field is set.
  */
  lemma DialRequestImage(d: DialRequest)
    ensures |d.unrecognized| <= |EncodeDialRequest(d)|
    ensures EncodeDialRequest(d)[|EncodeDialRequest(d)| - |d.unrecognized| ..] == d.unrecognized
    ensures EncodeDialRequest(d) == [] <==> d.serverID == [] && d.connType == [] && d.to.None? && d.unrecognized == []
  {
    ToImage(d.to);
  }

  /**
    A Data's image ends with its unknown bytes and is empty exactly when
    `Bytes` is nil or empty and there are no unknown bytes.
  */
  lemma DataImage(d: Data)
    ensures |d.unrecognized| <= |EncodeData(d)|
    ensures EncodeData(d)[|EncodeData(d)| - |d.unrecognized| ..] == d.unrecognized
    ensures EncodeData(d) == [] <==> GetBytes(d) == [] && d.unrecognized == []
  {
  }

  /**
    A oneof wrapper writes nothing exactly when its message is nil, and
    otherwise starts with the tag of its field: 0x0a or 0x12.
  */
  lemma PayloadImage(p: Payload)
    ensures EncodePayload(p) == [] <==> p == DialRequestPayload(None) || p == DataPayload(None)
    ensures EncodePayload(p) != [] ==> EncodePayload(p)[0] == (if p.DialRequestPayload? then TagField1 else TagField2)
  {
  }

  /** A Frame's image is the oneof record, if any, followed by the unknown bytes. */
  lemma FrameImage(f: Frame)
    ensures |f.unrecognized| <= |EncodeFrame(f)|
    ensures EncodeFrame(f)[|EncodeFrame(f)| - |f.unrecognized| ..] == f.unrecognized
    ensures f.message.None? ==> EncodeFrame(f) == f.unrecognized
    ensures EncodeFrame(f) != [] && f.unrecognized == [] ==> EncodeFrame(f)[0] == TagField1 || EncodeFrame(f)[0] == TagField2
  {
    if f.message.Some? {
      PayloadImage(f.message.value);
    }
  }
}
