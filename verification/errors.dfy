/**
  How `Frame.Unmarshal` rejects malformed input, and what it makes of a few
  inputs whose meaning is easy to get wrong: an empty oneof record, a
  present but empty `Bytes`, and a field number that only the `int32`
  conversion makes known.
*/
module DecodeErrors {
  import opened Wrappers
  import opened Wire
  import opened Skip
  import opened Messages
  import opened Encoding
  import opened UnknownFields
  import opened Decode
  import opened DecodeSteps
  import VarintLemmas

  /** The tag `EncodeTag(num, wireType)` at the start of `data` reads back as written. */
  lemma LeadingTag(data: Bytes, rest: Bytes, num: nat, wireType: nat) returns (j: nat)
    requires wireType < 8 && TagValue(num, wireType) < Two64
    requires data == EncodeTag(num, wireType) + rest
    ensures j == |EncodeTag(num, wireType)| <= |data|
    ensures ReadVarint(data, 0) == Success(VarintRead(TagValue(num, wireType), j))
    ensures TagValue(num, wireType) % 8 == wireType && TagValue(num, wireType) / 8 == num
  {
    j := |EncodeTag(num, wireType)|;
    assert data[0 .. j] == EncodeTag(num, wireType);
    ReadTagOf(data, 0, j, num, wireType);
  }

  /** An end-group tag where a field should start: "wiretype end group for non-group". */
  lemma EndGroupRejected(m: Frame, num: nat, rest: Bytes)
    requires TagValue(num, 4) < Two64
    ensures UnmarshalFrame(m, EncodeTag(num, 4) + rest) == Failure(EndGroupForNonGroup("Frame"))
  {
    var data := EncodeTag(num, 4) + rest;
    var j := LeadingTag(data, rest, num, 4);
    assert ReadTag(data, 0, "Frame") == Failure(EndGroupForNonGroup("Frame"));
  }

  /**
    A field number that is zero or negative after the `int32` conversion is
    an illegal tag, reported with the converted number and the whole tag.
  */
  lemma IllegalTagRejected(m: Frame, num: nat, wireType: nat, rest: Bytes)
    requires wireType < 8 && wireType != 4 && TagValue(num, wireType) < Two64
    requires Int32(num) <= 0
    ensures UnmarshalFrame(m, EncodeTag(num, wireType) + rest)
         == Failure(IllegalTag("Frame", Int32(num), TagValue(num, wireType)))
  {
    var data := EncodeTag(num, wireType) + rest;
    var j := LeadingTag(data, rest, num, wireType);
    assert ReadTag(data, 0, "Frame") == Failure(IllegalTag("Frame", Int32(num), TagValue(num, wireType)));
  }

  /** Fields 1 and 2 of a Frame must be length-delimited; any other wire type is refused by name. */
  lemma WrongWireTypeRejected(m: Frame, num: nat, wireType: nat, rest: Bytes)
    requires wireType < 8 && wireType != 4 && wireType != 2 && TagValue(num, wireType) < Two64
    requires Int32(num) == 1 || Int32(num) == 2
    ensures UnmarshalFrame(m, EncodeTag(num, wireType) + rest)
         == Failure(WrongWireType(if Int32(num) == 1 then "DialRequest" else "Data", wireType))
  {
    var data := EncodeTag(num, wireType) + rest;
    var j := LeadingTag(data, rest, num, wireType);
    assert ReadTag(data, 0, "Frame") == Success(Tag(Int32(num), wireType, j));
  }

  /** Ten bytes with the continuation bit set cannot start a tag: `ErrIntOverflowTunnel`. */
  lemma OverlongTagRejected(m: Frame, data: Bytes)
    requires |data| >= 10
    requires forall j :: 0 <= j < 10 ==> data[j] >= 128
    ensures UnmarshalFrame(m, data) == Failure(IntOverflow)
  {
    VarintLemmas.ReadOverlongVarint(data, 0);
  }

  /** The length prefix and payload of a oneof record cut short anywhere after the tag. */
  lemma TruncatedLength(data: Bytes, tag: Byte, payload: Bytes, k: nat, field: string)
    requires |LengthDelimited(tag, payload)| <= MaxInt
    requires 1 <= k < |LengthDelimited(tag, payload)|
    requires data == LengthDelimited(tag, payload)[.. k]
    ensures ReadLengthDelimited(data, Tag(tag / 8, 2, 1), field) == Failure(UnexpectedEOF)
  {
    var record := LengthDelimited(tag, payload);
    var prefix := EncodeVarint(|payload|);
    var l := 1 + |prefix|;
    assert record == [tag] + prefix + payload;
    if k < l {
      assert data[1..] == prefix[.. k - 1];
      VarintLemmas.ReadTruncatedVarint(data, 1, |payload|);
    } else {
      assert data[1 .. l] == record[1 .. l];
      assert record[1 .. l] == prefix;
      VarintLemmas.ReadEncodedVarint(data, 1, l, |payload|);
    }
  }

  /**
    A oneof record cut off anywhere after its tag byte, in the length or in
    the payload, is `io.ErrUnexpectedEOF`.
  */
  lemma TruncatedRecordRejected(m: Frame, tag: Byte, payload: Bytes, k: nat)
    requires tag == TagField1 || tag == TagField2
    requires |LengthDelimited(tag, payload)| <= MaxInt
    requires 1 <= k < |LengthDelimited(tag, payload)|
    ensures UnmarshalFrame(m, LengthDelimited(tag, payload)[.. k]) == Failure(UnexpectedEOF)
  {
    var data := LengthDelimited(tag, payload)[.. k];
    KnownTag(data, 0, "Frame");
    TruncatedLength(data, tag, payload, k, if tag == TagField1 then "DialRequest" else "Data");
  }

  /**
    A DialRequest's `ServerID`, `ConnType` or `To` record cut off anywhere
    after its tag byte is `io.ErrUnexpectedEOF`.
  */
  lemma TruncatedRecordInDialRequest(m: DialRequest, tag: Byte, payload: Bytes, k: nat)
    requires tag == TagField1 || tag == TagField2 || tag == TagField3
    requires |LengthDelimited(tag, payload)| <= MaxInt
    requires 1 <= k < |LengthDelimited(tag, payload)|
    ensures UnmarshalDialRequest(m, LengthDelimited(tag, payload)[.. k]) == Failure(UnexpectedEOF)
  {
    var data := LengthDelimited(tag, payload)[.. k];
    KnownTag(data, 0, "DialRequest");
    TruncatedLength(data, tag, payload, k,
      if tag == TagField1 then "ServerID" else if tag == TagField2 then "ConnType" else "To");
  }

  /** An Addr's `Network` or `Address` record cut off anywhere after its tag byte is `io.ErrUnexpectedEOF`. */
  lemma TruncatedRecordInAddr(m: Addr, tag: Byte, payload: Bytes, k: nat)
    requires tag == TagField1 || tag == TagField2
    requires |LengthDelimited(tag, payload)| <= MaxInt
    requires 1 <= k < |LengthDelimited(tag, payload)|
    ensures UnmarshalAddr(m, LengthDelimited(tag, payload)[.. k]) == Failure(UnexpectedEOF)
  {
    var data := LengthDelimited(tag, payload)[.. k];
    KnownTag(data, 0, "Addr");
    TruncatedLength(data, tag, payload, k, if tag == TagField1 then "Network" else "Address");
  }

  /** A Data's `Bytes` record cut off anywhere after its tag byte is `io.ErrUnexpectedEOF`. */
  lemma TruncatedRecordInData(m: Data, payload: Bytes, k: nat)
    requires |LengthDelimited(TagField1, payload)| <= MaxInt
    requires 1 <= k < |LengthDelimited(TagField1, payload)|
    ensures UnmarshalData(m, LengthDelimited(TagField1, payload)[.. k]) == Failure(UnexpectedEOF)
  {
    var data := LengthDelimited(TagField1, payload)[.. k];
    KnownTag(data, 0, "Data");
    TruncatedLength(data, TagField1, payload, k, "Bytes");
  }

  /**
    An unknown fixed64 field with fewer than eight bytes after its tag:
    `skipTunnel` jumps past the end without looking, and the caller's
    bounds test turns that into `io.ErrUnexpectedEOF`.
  */
  lemma SkippedFieldOverrun(m: Frame, num: nat, fixed: Bytes)
    requires TagValue(num, 1) < Two64 && Int32(num) > 0 && Int32(num) != 1 && Int32(num) != 2
    requires |fixed| < 8
    ensures UnmarshalFrame(m, EncodeTag(num, 1) + fixed) == Failure(UnexpectedEOF)
  {
    var data := EncodeTag(num, 1) + fixed;
    var j := LeadingTag(data, fixed, num, 1);
    VarintLemmas.EncodedLengthAtMostTen(TagValue(num, 1));
    SkipStepFixed(data, 0, j, 0, TagValue(num, 1));
    assert data[0..] == data;
    assert SkipTunnel(data) == Success(j + 8);
    assert ReadTag(data, 0, "Frame") == Success(Tag(Int32(num), 1, j));
  }

  /** `0x12 0x00`: the Data variant holding an empty Data whose `Bytes` is nil. */
  lemma EmptyDataRecord()
    ensures DecodeFrame([0x12, 0x00]) == Success(Frame(Some(DataPayload(Some(EmptyData))), []))
    ensures GetData(DecodeFrame([0x12, 0x00]).value) == Some(EmptyData)
  {
    var data: Bytes := [0x12, 0x00];
    assert data[0 .. 2] == LengthDelimited(TagField2, []);
    FrameDataAt(EmptyFrame, data, 0, 2, 2, [], EmptyData);
  }

  /**
    A `Bytes` field that is present with length 0 decodes to a non-nil empty
    slice, which `Marshal` does not write back.
  */
  lemma PresentEmptyBytes()
    ensures DecodeFrame([0x12, 0x02, 0x0a, 0x00])
         == Success(Frame(Some(DataPayload(Some(Data(Some([]), [])))), []))
    ensures EncodeFrame(DecodeFrame([0x12, 0x02, 0x0a, 0x00]).value) == [0x12, 0x00]
  {
    var data: Bytes := [0x12, 0x02, 0x0a, 0x00];
    var payload: Bytes := [0x0a, 0x00];
    assert payload[0 .. 2] == LengthDelimited(TagField1, []);
    DataRecordAt(EmptyData, payload, 0, 2, 2, []);
    assert data[0 .. 4] == LengthDelimited(TagField2, payload);
    FrameDataAt(EmptyFrame, data, 0, 2, 4, payload, Data(Some([]), []));
  }

  /**
    `int32(wire >> 3)` keeps only the low 32 bits of the field number, so
    field 2^32 + 1 is taken for field 1.
  */
  lemma FieldNumberAliasing(rest: Bytes, message: string)
    ensures TagValue(Two32 + 1, 2) < Two64
    ensures ReadTag(EncodeTag(Two32 + 1, 2) + rest, 0, message)
         == Success(Tag(1, 2, |EncodeTag(Two32 + 1, 2)|))
  {
    var data := EncodeTag(Two32 + 1, 2) + rest;
    var j := LeadingTag(data, rest, Two32 + 1, 2);
  }

  /**
    `0x18 0x80 0x00`: field 3, wire type 0, holding 0 written in two bytes
    instead of one. The varint reader does not insist on the shortest form,
    so the decoder accepts the field and keeps its three bytes as
    unrecognized.
  */
  lemma PaddedVarintKept()
    ensures DecodeFrame([0x18, 0x80, 0x00]) == Success(Frame(None, [0x18, 0x80, 0x00]))
  {
    var data: Bytes := [0x18, 0x80, 0x00];
    assert ReadVarint(data, 0) == Success(VarintRead(0x18, 1));
    assert ReadVarint(data, 1) == Success(VarintRead(0, 3));
    assert SkipStep(data, 0, 0) == Success(SkipState(3, 0));
    assert data[0 ..] == data;
    assert SkipTunnel(data) == Success(3);
    assert SkipField(data, 0) == Success(3);
    assert ReadTag(data, 0, "Frame") == Success(Tag(3, 0, 1));
    assert EmptyFrame.unrecognized + data[0 .. 3] == data;
    assert UnmarshalFrameFrom(EmptyFrame, data, 0) == UnmarshalFrameFrom(Frame(None, data), data, 3);
  }

  /**
    Yet no unknown field has these bytes as its image: the encoder writes
    only shortest forms, so the lemmas about skipping encoded fields do not
    cover this input.
  */
  lemma PaddedVarintUnencoded(u: UnknownField)
    ensures EncodeField(u) != [0x18, 0x80, 0x00]
  {
    var t := EncodeTag(u.num, WireTypeOf(u));
    TagParts(u.num, WireTypeOf(u));
    if TagValue(u.num, WireTypeOf(u)) == 0x18 {
      assert t == [0x18];
      match u
      case VarintField(n, v) =>
        VarintLemmas.ShortestForm(v);
        assert EncodeTag(n, 0) == [0x18];
        assert EncodeField(u) == [0x18] + EncodeVarint(v);
        if |EncodeVarint(v)| == 2 {
          assert EncodeField(u)[2] != 0;
        }
    } else {
      assert t[0] != 0x18;
      assert EncodeField(u)[0] == t[0];
    }
  }
}
