/**
  One pass of each `Unmarshal` loop over a field it meets in its own wire
  image: a known length-delimited field, or a run of fields it does not
  know. Every boundary is passed as an explicit index so that each lemma
  speaks about one stretch `data[i .. end]` of the buffer.
*/
module DecodeSteps {
  import opened Wrappers
  import opened Wire
  import opened Skip
  import opened Messages
  import opened Encoding
  import opened UnknownFields
  import opened Decode
  import VarintLemmas

  /** Field numbers a message does not know, as its decoder sees them after the `int32` conversion. */
  predicate UnknownTo(us: seq<UnknownField>, known: set<int>)
  {
    forall k :: 0 <= k < |us| ==> Int32(us[k].num) > 0 && Int32(us[k].num) !in known
  }

  /** A one-byte varint reads as itself. */
  lemma SingleByteVarint(data: Bytes, i: nat)
    requires i < |data| && data[i] < 128
    ensures ReadVarint(data, i) == Success(VarintRead(data[i], i + 1))
  {
  }

  /** The tag bytes 0x0a, 0x12 and 0x1a are fields 1, 2 and 3 with wire type 2. */
  lemma KnownTag(data: Bytes, i: nat, message: string)
    requires i < |data|
    requires data[i] == TagField1 || data[i] == TagField2 || data[i] == TagField3
    ensures ReadTag(data, i, message) == Success(Tag(data[i] / 8, 2, i + 1))
  {
    SingleByteVarint(data, i);
  }

  /**
    A length-delimited record in `data[i .. end]`: its tag byte comes
    first, and its length prefix, which ends at `l`, announces exactly the
    payload `data[l .. end]`.
  */
  lemma RecordAt(data: Bytes, i: nat, l: nat, end: nat, tag: Byte, payload: Bytes, fieldNum: int, field: string)
    requires l == i + 1 + |EncodeVarint(|payload|)| && end == l + |payload|
    requires end <= |data| <= MaxInt
    requires data[i .. end] == LengthDelimited(tag, payload)
    ensures data[i] == tag
    ensures ReadLengthDelimited(data, Tag(fieldNum, 2, i + 1), field) == Success(Span(l, end))
    ensures data[l .. end] == payload
  {
    var head := [tag] + EncodeVarint(|payload|);
    SplitWindow(data, i, l, end, head, payload);
    SplitWindow(data, i, i + 1, l, [tag], EncodeVarint(|payload|));
    assert data[i] == data[i .. i + 1][0];
    VarintLemmas.ReadEncodedVarint(data, i + 1, l, |payload|);
  }

  /** The window `data[i .. j]` of a prefix of `s`, when `data[i .. end]` spells `s`. */
  lemma PrefixWindow(data: Bytes, i: nat, j: nat, end: nat, s: Bytes)
    requires i <= j <= end <= |data|
    requires data[i .. end] == s
    ensures data[i .. j] == s[.. j - i]
  {
    assert data[i .. j] == data[i .. end][.. j - i];
  }

  /** Every field's image starts with its tag. */
  lemma FieldStartsWithTag(u: UnknownField)
    ensures |EncodeTag(u.num, WireTypeOf(u))| <= |EncodeField(u)|
    ensures EncodeField(u)[.. |EncodeTag(u.num, WireTypeOf(u))|] == EncodeTag(u.num, WireTypeOf(u))
  {
    var t := EncodeTag(u.num, WireTypeOf(u));
    match u
    case VarintField(_, v) => assert EncodeField(u) == t + EncodeVarint(v);
    case Fixed64Field(_, b) => assert EncodeField(u) == t + b;
    case BytesField(_, p) => assert EncodeField(u) == t + (EncodeVarint(|p|) + p);
    case GroupField(_, body, e) => assert EncodeField(u) == t + (EncodeFields(body) + EncodeTag(e, 4));
    case Fixed32Field(_, b) => assert EncodeField(u) == t + b;
  }

  /**
    A well-formed field whose number is positive after the `int32`
    conversion passes the tag checks of every message, and the `default:`
    branch steps over exactly its bytes.
  */
  lemma UnknownFieldAt(data: Bytes, i: nat, end: nat, u: UnknownField, message: string)
    requires WellFormed(u) && Int32(u.num) > 0
    requires end == i + |EncodeField(u)| <= |data| <= MaxInt
    requires data[i .. end] == EncodeField(u)
    ensures ReadTag(data, i, message).Success?
    ensures ReadTag(data, i, message).value.fieldNum == Int32(u.num)
    ensures SkipField(data, i) == Success(end)
  {
    UnknownTagAt(data, i, end, u, message);
    UnknownSkipAt(data, i, end, u);
  }

  lemma UnknownTagAt(data: Bytes, i: nat, end: nat, u: UnknownField, message: string)
    requires WellFormed(u) && Int32(u.num) > 0
    requires end == i + |EncodeField(u)| <= |data| <= MaxInt
    requires data[i .. end] == EncodeField(u)
    ensures ReadTag(data, i, message).Success?
    ensures ReadTag(data, i, message).value.fieldNum == Int32(u.num)
  {
    var t := EncodeTag(u.num, WireTypeOf(u));
    FieldStartsWithTag(u);
    PrefixWindow(data, i, i + |t|, end, EncodeField(u));
    ReadTagOf(data, i, i + |t|, u.num, WireTypeOf(u));
  }

  lemma UnknownSkipAt(data: Bytes, i: nat, end: nat, u: UnknownField)
    requires WellFormed(u)
    requires end == i + |EncodeField(u)| <= |data| <= MaxInt
    requires data[i .. end] == EncodeField(u)
    ensures SkipField(data, i) == Success(end)
  {
    assert data[i..] == EncodeField(u) + data[end..];
    SkipTunnelField(u, data[end..]);
  }

  /**
    The first field of a non-empty run and the rest of the run, with the
    window of each; stated apart from any decoder so that the run lemmas
    below only chain their steps.
  */
  lemma SplitRun(data: Bytes, i: nat, end: nat, us: seq<UnknownField>, known: set<int>) returns (j: nat)
    requires |us| > 0
    requires AllWellFormed(us) && UnknownTo(us, known)
    requires end == i + |EncodeFields(us)| <= |data| <= MaxInt
    requires data[i .. end] == EncodeFields(us)
    ensures WellFormed(us[0]) && Int32(us[0].num) > 0 && Int32(us[0].num) !in known
    ensures AllWellFormed(us[1..]) && UnknownTo(us[1..], known)
    ensures j == i + |EncodeField(us[0])| <= |data| <= MaxInt
    ensures data[i .. j] == EncodeField(us[0])
    ensures end == j + |EncodeFields(us[1..])| <= |data| <= MaxInt
    ensures data[j .. end] == EncodeFields(us[1..])
    ensures EncodeFields(us) == EncodeField(us[0]) + EncodeFields(us[1..])
  {
    EncodeFieldsCons(us);
    j := i + |EncodeField(us[0])|;
    SplitWindow(data, i, j, end, EncodeField(us[0]), EncodeFields(us[1..]));
  }

  lemma AppendAssoc(a: Bytes, b: Bytes, c: Bytes)
    ensures a + b + c == a + (b + c)
  {
  }

  // ---- Addr ----------------------------------------------------------------

  /** A non-empty `Network` (0x0a) or `Address` (0x12) record overwrites that field. */
  lemma AddrRecordAt(m: Addr, data: Bytes, i: nat, l: nat, end: nat, tag: Byte, v: Bytes)
    requires tag == TagField1 || tag == TagField2
    requires l == i + 1 + |EncodeVarint(|v|)| && end == l + |v| <= |data| <= MaxInt
    requires data[i .. end] == LengthDelimited(tag, v)
    ensures UnmarshalAddrFrom(m, data, i)
         == UnmarshalAddrFrom(if tag == TagField1 then m.(network := v) else m.(address := v), data, end)
  {
    RecordAt(data, i, l, end, tag, v, tag / 8, if tag == TagField1 then "Network" else "Address");
    KnownTag(data, i, "Addr");
  }

  lemma AddrUnknownAt(m: Addr, data: Bytes, i: nat, end: nat, u: UnknownField)
    requires WellFormed(u) && Int32(u.num) > 0 && Int32(u.num) !in {1, 2}
    requires end == i + |EncodeField(u)| <= |data| <= MaxInt
    requires data[i .. end] == EncodeField(u)
    ensures UnmarshalAddrFrom(m, data, i)
         == UnmarshalAddrFrom(m.(unrecognized := m.unrecognized + EncodeField(u)), data, end)
  {
    UnknownFieldAt(data, i, end, u, "Addr");
  }

  /** A run of fields Addr does not know is appended to `XXX_unrecognized` verbatim. */
  lemma {:induction false} AddrUnknownRun(m: Addr, data: Bytes, i: nat, end: nat, us: seq<UnknownField>)
    requires AllWellFormed(us) && UnknownTo(us, {1, 2})
    requires end == i + |EncodeFields(us)| <= |data| <= MaxInt
    requires data[i .. end] == EncodeFields(us)
    ensures UnmarshalAddrFrom(m, data, i)
         == UnmarshalAddrFrom(m.(unrecognized := m.unrecognized + EncodeFields(us)), data, end)
    decreases us
  {
    if |us| == 0 {
      assert m.unrecognized + EncodeFields(us) == m.unrecognized;
    } else {
      var j := SplitRun(data, i, end, us, {1, 2});
      var head, tail := EncodeField(us[0]), EncodeFields(us[1..]);
      AppendAssoc(m.unrecognized, head, tail);
      AddrUnknownRun(m.(unrecognized := m.unrecognized + head), data, j, end, us[1..]);
      AddrUnknownAt(m, data, i, j, us[0]);
    }
  }

  // ---- DialRequest ----------------------------------------------------------

  /** A non-empty `ServerID` (0x0a) or `ConnType` (0x12) record overwrites that field. */
  lemma DialRequestRecordAt(m: DialRequest, data: Bytes, i: nat, l: nat, end: nat, tag: Byte, v: Bytes)
    requires tag == TagField1 || tag == TagField2
    requires l == i + 1 + |EncodeVarint(|v|)| && end == l + |v| <= |data| <= MaxInt
    requires data[i .. end] == LengthDelimited(tag, v)
    ensures UnmarshalDialRequestFrom(m, data, i)
         == UnmarshalDialRequestFrom(if tag == TagField1 then m.(serverID := v) else m.(connType := v), data, end)
  {
    RecordAt(data, i, l, end, tag, v, tag / 8, if tag == TagField1 then "ServerID" else "ConnType");
    KnownTag(data, i, "DialRequest");
  }

  /** A `To` record (0x1a) whose payload decodes into the existing (or a new) Addr as `a`. */
  lemma DialRequestToAt(m: DialRequest, data: Bytes, i: nat, l: nat, end: nat, payload: Bytes, a: Addr)
    requires l == i + 1 + |EncodeVarint(|payload|)| && end == l + |payload| <= |data| <= MaxInt
    requires data[i .. end] == LengthDelimited(TagField3, payload)
    requires UnmarshalAddr(m.to.GetOr(EmptyAddr), payload) == Success(a)
    ensures UnmarshalDialRequestFrom(m, data, i) == UnmarshalDialRequestFrom(m.(to := Some(a)), data, end)
  {
    RecordAt(data, i, l, end, TagField3, payload, 3, "To");
    KnownTag(data, i, "DialRequest");
  }

  lemma DialRequestUnknownAt(m: DialRequest, data: Bytes, i: nat, end: nat, u: UnknownField)
    requires WellFormed(u) && Int32(u.num) > 0 && Int32(u.num) !in {1, 2, 3}
    requires end == i + |EncodeField(u)| <= |data| <= MaxInt
    requires data[i .. end] == EncodeField(u)
    ensures UnmarshalDialRequestFrom(m, data, i)
         == UnmarshalDialRequestFrom(m.(unrecognized := m.unrecognized + EncodeField(u)), data, end)
  {
    UnknownFieldAt(data, i, end, u, "DialRequest");
  }

  lemma {:induction false} DialRequestUnknownRun(m: DialRequest, data: Bytes, i: nat, end: nat, us: seq<UnknownField>)
    requires AllWellFormed(us) && UnknownTo(us, {1, 2, 3})
    requires end == i + |EncodeFields(us)| <= |data| <= MaxInt
    requires data[i .. end] == EncodeFields(us)
    ensures UnmarshalDialRequestFrom(m, data, i)
         == UnmarshalDialRequestFrom(m.(unrecognized := m.unrecognized + EncodeFields(us)), data, end)
    decreases us
  {
    if |us| == 0 {
      assert m.unrecognized + EncodeFields(us) == m.unrecognized;
    } else {
      var j := SplitRun(data, i, end, us, {1, 2, 3});
      var head, tail := EncodeField(us[0]), EncodeFields(us[1..]);
      AppendAssoc(m.unrecognized, head, tail);
      DialRequestUnknownRun(m.(unrecognized := m.unrecognized + head), data, j, end, us[1..]);
      DialRequestUnknownAt(m, data, i, j, us[0]);
    }
  }

  // ---- Data -----------------------------------------------------------------

  /** A `Bytes` record (0x0a) replaces the slice with a non-nil copy of its payload. */
  lemma DataRecordAt(m: Data, data: Bytes, i: nat, l: nat, end: nat, v: Bytes)
    requires l == i + 1 + |EncodeVarint(|v|)| && end == l + |v| <= |data| <= MaxInt
    requires data[i .. end] == LengthDelimited(TagField1, v)
    ensures UnmarshalDataFrom(m, data, i) == UnmarshalDataFrom(m.(bytes := Some(v)), data, end)
  {
    RecordAt(data, i, l, end, TagField1, v, 1, "Bytes");
    KnownTag(data, i, "Data");
  }

  lemma DataUnknownAt(m: Data, data: Bytes, i: nat, end: nat, u: UnknownField)
    requires WellFormed(u) && Int32(u.num) > 0 && Int32(u.num) != 1
    requires end == i + |EncodeField(u)| <= |data| <= MaxInt
    requires data[i .. end] == EncodeField(u)
    ensures UnmarshalDataFrom(m, data, i)
         == UnmarshalDataFrom(m.(unrecognized := m.unrecognized + EncodeField(u)), data, end)
  {
    UnknownFieldAt(data, i, end, u, "Data");
  }

  lemma {:induction false} DataUnknownRun(m: Data, data: Bytes, i: nat, end: nat, us: seq<UnknownField>)
    requires AllWellFormed(us) && UnknownTo(us, {1})
    requires end == i + |EncodeFields(us)| <= |data| <= MaxInt
    requires data[i .. end] == EncodeFields(us)
    ensures UnmarshalDataFrom(m, data, i)
         == UnmarshalDataFrom(m.(unrecognized := m.unrecognized + EncodeFields(us)), data, end)
    decreases us
  {
    if |us| == 0 {
      assert m.unrecognized + EncodeFields(us) == m.unrecognized;
    } else {
      var j := SplitRun(data, i, end, us, {1});
      var head, tail := EncodeField(us[0]), EncodeFields(us[1..]);
      AppendAssoc(m.unrecognized, head, tail);
      DataUnknownRun(m.(unrecognized := m.unrecognized + head), data, j, end, us[1..]);
      DataUnknownAt(m, data, i, j, us[0]);
    }
  }

  // ---- Frame ----------------------------------------------------------------

  /** A `DialRequest` record (0x0a): a fresh DialRequest decoded from the payload replaces the oneof. */
  lemma FrameDialRequestAt(m: Frame, data: Bytes, i: nat, l: nat, end: nat, payload: Bytes, d: DialRequest)
    requires l == i + 1 + |EncodeVarint(|payload|)| && end == l + |payload| <= |data| <= MaxInt
    requires data[i .. end] == LengthDelimited(TagField1, payload)
    requires UnmarshalDialRequest(EmptyDialRequest, payload) == Success(d)
    ensures UnmarshalFrameFrom(m, data, i)
         == UnmarshalFrameFrom(m.(message := Some(DialRequestPayload(Some(d)))), data, end)
  {
    RecordAt(data, i, l, end, TagField1, payload, 1, "DialRequest");
    KnownTag(data, i, "Frame");
  }

  /** A `Data` record (0x12): a fresh Data decoded from the payload replaces the oneof. */
  lemma FrameDataAt(m: Frame, data: Bytes, i: nat, l: nat, end: nat, payload: Bytes, d: Data)
    requires l == i + 1 + |EncodeVarint(|payload|)| && end == l + |payload| <= |data| <= MaxInt
    requires data[i .. end] == LengthDelimited(TagField2, payload)
    requires UnmarshalData(EmptyData, payload) == Success(d)
    ensures UnmarshalFrameFrom(m, data, i)
         == UnmarshalFrameFrom(m.(message := Some(DataPayload(Some(d)))), data, end)
  {
    RecordAt(data, i, l, end, TagField2, payload, 2, "Data");
    KnownTag(data, i, "Frame");
  }

  lemma FrameUnknownAt(m: Frame, data: Bytes, i: nat, end: nat, u: UnknownField)
    requires WellFormed(u) && Int32(u.num) > 0 && Int32(u.num) !in {1, 2}
    requires end == i + |EncodeField(u)| <= |data| <= MaxInt
    requires data[i .. end] == EncodeField(u)
    ensures UnmarshalFrameFrom(m, data, i)
         == UnmarshalFrameFrom(m.(unrecognized := m.unrecognized + EncodeField(u)), data, end)
  {
    UnknownFieldAt(data, i, end, u, "Frame");
  }

  lemma {:induction false} FrameUnknownRun(m: Frame, data: Bytes, i: nat, end: nat, us: seq<UnknownField>)
    requires AllWellFormed(us) && UnknownTo(us, {1, 2})
    requires end == i + |EncodeFields(us)| <= |data| <= MaxInt
    requires data[i .. end] == EncodeFields(us)
    ensures UnmarshalFrameFrom(m, data, i)
         == UnmarshalFrameFrom(m.(unrecognized := m.unrecognized + EncodeFields(us)), data, end)
    decreases us
  {
    if |us| == 0 {
      assert m.unrecognized + EncodeFields(us) == m.unrecognized;
    } else {
      var j := SplitRun(data, i, end, us, {1, 2});
      var head, tail := EncodeField(us[0]), EncodeFields(us[1..]);
      AppendAssoc(m.unrecognized, head, tail);
      FrameUnknownRun(m.(unrecognized := m.unrecognized + head), data, j, end, us[1..]);
      FrameUnknownAt(m, data, i, j, us[0]);
    }
  }
}
