/**
  Decoding a message's wire image into a receiver merges the message into
  it: `Unmarshal(m, Marshal(x))` yields `MergeX(m, x)`. The theorem holds
  for every message whose `XXX_unrecognized` is a run of complete fields,
  each with a number the message does not know and written in shortest
  form, and whose image fits in a Go slice. An earlier decode can also
  leave fields written with padded varints there; those are outside the
  theorem.

  Each composition first establishes, in a lemma that mentions no decoder,
  where every part of the image lies, and only then chains the decoder
  steps of `DecodeSteps`.
*/
module RoundTrip {
  import opened Wrappers
  import opened Wire
  import opened Messages
  import opened Encoding
  import opened UnknownFields
  import opened Decode
  import opened Merge
  import opened DecodeSteps

  /** Bytes that are a run of complete fields none of whose numbers is in `known`. */
  ghost predicate Skippable(b: Bytes, known: set<int>)
  {
    exists us :: AllWellFormed(us) && UnknownTo(us, known) && EncodeFields(us) == b
  }

  ghost predicate ValidAddr(a: Addr)
  {
    Skippable(a.unrecognized, {1, 2})
  }

  ghost predicate ValidDialRequest(d: DialRequest)
  {
    Skippable(d.unrecognized, {1, 2, 3}) && (d.to.Some? ==> ValidAddr(d.to.value))
  }

  ghost predicate ValidData(d: Data)
  {
    Skippable(d.unrecognized, {1})
  }

  ghost predicate ValidOneof(message: Option<Payload>)
  {
    match message
    case Some(DialRequestPayload(Some(d))) => ValidDialRequest(d)
    case Some(DataPayload(Some(d))) => ValidData(d)
    case _ => true
  }

  ghost predicate ValidFrame(f: Frame)
  {
    Skippable(f.unrecognized, {1, 2}) && ValidOneof(f.message)
  }

  /** The window of a record that is on the wire, and where its payload starts. */
  lemma RecordLayout(data: Bytes, i: nat, j: nat, tag: Byte, payload: Bytes) returns (l: nat)
    requires j == i + |LengthDelimited(tag, payload)| <= |data| <= MaxInt
    requires data[i .. j] == LengthDelimited(tag, payload)
    ensures l == i + 1 + |EncodeVarint(|payload|)| && j == l + |payload| <= |data| <= MaxInt
  {
    l := i + 1 + |EncodeVarint(|payload|)|;
  }

  /** Three consecutive parts of a window. */
  lemma Layout3(data: Bytes, i: nat, end: nat, a: Bytes, b: Bytes, c: Bytes) returns (j: nat, k: nat)
    requires end == i + |a + b + c| <= |data| <= MaxInt
    requires data[i .. end] == a + b + c
    ensures j == i + |a| <= |data| <= MaxInt && data[i .. j] == a
    ensures k == j + |b| <= |data| <= MaxInt && data[j .. k] == b
    ensures end == k + |c| <= |data| <= MaxInt && data[k .. end] == c
  {
    j := i + |a|;
    k := j + |b|;
    SplitWindow(data, i, k, end, a + b, c);
    SplitWindow(data, i, j, k, a, b);
  }

  /** Four consecutive parts of a window. */
  lemma Layout4(data: Bytes, i: nat, end: nat, a: Bytes, b: Bytes, c: Bytes, d: Bytes) returns (j: nat, k: nat, l: nat)
    requires end == i + |a + b + c + d| <= |data| <= MaxInt
    requires data[i .. end] == a + b + c + d
    ensures j == i + |a| <= |data| <= MaxInt && data[i .. j] == a
    ensures k == j + |b| <= |data| <= MaxInt && data[j .. k] == b
    ensures l == k + |c| <= |data| <= MaxInt && data[k .. l] == c
    ensures end == l + |d| <= |data| <= MaxInt && data[l .. end] == d
  {
    l := i + |a + b + c|;
    SplitWindow(data, i, l, end, a + b + c, d);
    j, k := Layout3(data, i, l, a, b, c);
  }

  /** Two consecutive parts of a window. */
  lemma Layout2(data: Bytes, i: nat, end: nat, a: Bytes, b: Bytes) returns (j: nat)
    requires end == i + |a + b| <= |data| <= MaxInt
    requires data[i .. end] == a + b
    ensures j == i + |a| <= |data| <= MaxInt && data[i .. j] == a
    ensures end == j + |b| <= |data| <= MaxInt && data[j .. end] == b
  {
    j := i + |a|;
    SplitWindow(data, i, j, end, a, b);
  }

  // ---- Addr ----------------------------------------------------------------

  /** A scalar of Addr as written (or omitted) by `Marshal`, merged by the decoder. */
  lemma AddrScalarStep(m: Addr, next: Addr, data: Bytes, i: nat, j: nat, tag: Byte, v: Bytes)
    requires tag == TagField1 || tag == TagField2
    requires next == if tag == TagField1 then m.(network := Pick(m.network, v)) else m.(address := Pick(m.address, v))
    requires j == i + |ScalarField(tag, v)| <= |data| <= MaxInt
    requires data[i .. j] == ScalarField(tag, v)
    ensures UnmarshalAddrFrom(m, data, i) == UnmarshalAddrFrom(next, data, j)
  {
    if |v| > 0 {
      var l := RecordLayout(data, i, j, tag, v);
      AddrRecordAt(m, data, i, l, j, tag, v);
    }
  }

  /** Decoding the image of `x` found in `data[i .. end]` merges `x` into the receiver. */
  lemma AddrRoundTripAt(m: Addr, x: Addr, us: seq<UnknownField>, data: Bytes, i: nat, end: nat)
    requires AllWellFormed(us) && UnknownTo(us, {1, 2}) && x.unrecognized == EncodeFields(us)
    requires end == i + |EncodeAddr(x)| <= |data| <= MaxInt
    requires data[i .. end] == EncodeAddr(x)
    ensures UnmarshalAddrFrom(m, data, i) == UnmarshalAddrFrom(MergeAddr(m, x), data, end)
  {
    var s1, s2 := ScalarField(TagField1, x.network), ScalarField(TagField2, x.address);
    var j, k := Layout3(data, i, end, s1, s2, EncodeFields(us));
    var m1 := m.(network := Pick(m.network, x.network));
    var m2 := m1.(address := Pick(m1.address, x.address));
    assert m2.(unrecognized := m2.unrecognized + EncodeFields(us)) == MergeAddr(m, x);
    AddrScalarStep(m, m1, data, i, j, TagField1, x.network);
    AddrScalarStep(m1, m2, data, j, k, TagField2, x.address);
    AddrUnknownRun(m2, data, k, end, us);
  }

  /** `(*Addr).Unmarshal(Marshal(x))` on the receiver `m` yields `MergeAddr(m, x)`. */
  lemma AddrDecodes(m: Addr, x: Addr)
    requires ValidAddr(x) && |EncodeAddr(x)| <= MaxInt
    ensures UnmarshalAddr(m, EncodeAddr(x)) == Success(MergeAddr(m, x))
  {
    var us :| AllWellFormed(us) && UnknownTo(us, {1, 2}) && EncodeFields(us) == x.unrecognized;
    var data := EncodeAddr(x);
    assert data[0 .. |data|] == data;
    AddrRoundTripAt(m, x, us, data, 0, |data|);
  }

  // ---- DialRequest ----------------------------------------------------------

  lemma DialRequestScalarStep(m: DialRequest, next: DialRequest, data: Bytes, i: nat, j: nat, tag: Byte, v: Bytes)
    requires tag == TagField1 || tag == TagField2
    requires next == if tag == TagField1 then m.(serverID := Pick(m.serverID, v)) else m.(connType := Pick(m.connType, v))
    requires j == i + |ScalarField(tag, v)| <= |data| <= MaxInt
    requires data[i .. j] == ScalarField(tag, v)
    ensures UnmarshalDialRequestFrom(m, data, i) == UnmarshalDialRequestFrom(next, data, j)
  {
    if |v| > 0 {
      var l := RecordLayout(data, i, j, tag, v);
      DialRequestRecordAt(m, data, i, l, j, tag, v);
    }
  }

  /** The `To` field as written (or omitted) by `Marshal`, merged into the existing Addr. */
  lemma DialRequestToStep(m: DialRequest, next: DialRequest, data: Bytes, i: nat, j: nat, to: Option<Addr>)
    requires to.Some? ==> ValidAddr(to.value)
    requires next == m.(to := MergeTo(m.to, to))
    requires j == i + |EncodeTo(to)| <= |data| <= MaxInt
    requires data[i .. j] == EncodeTo(to)
    ensures UnmarshalDialRequestFrom(m, data, i) == UnmarshalDialRequestFrom(next, data, j)
  {
    if to.Some? {
      var payload := EncodeAddr(to.value);
      var l := RecordLayout(data, i, j, TagField3, payload);
      AddrDecodes(m.to.GetOr(EmptyAddr), to.value);
      DialRequestToAt(m, data, i, l, j, payload, MergeAddr(m.to.GetOr(EmptyAddr), to.value));
    }
  }

  lemma DialRequestRoundTripAt(m: DialRequest, x: DialRequest, us: seq<UnknownField>, data: Bytes, i: nat, end: nat)
    requires AllWellFormed(us) && UnknownTo(us, {1, 2, 3}) && x.unrecognized == EncodeFields(us)
    requires x.to.Some? ==> ValidAddr(x.to.value)
    requires end == i + |EncodeDialRequest(x)| <= |data| <= MaxInt
    requires data[i .. end] == EncodeDialRequest(x)
    ensures UnmarshalDialRequestFrom(m, data, i) == UnmarshalDialRequestFrom(MergeDialRequest(m, x), data, end)
  {
    var s1, s2 := ScalarField(TagField1, x.serverID), ScalarField(TagField2, x.connType);
    var j, k, l := Layout4(data, i, end, s1, s2, EncodeTo(x.to), EncodeFields(us));
    var m1 := m.(serverID := Pick(m.serverID, x.serverID));
    var m2 := m1.(connType := Pick(m1.connType, x.connType));
    var m3 := m2.(to := MergeTo(m2.to, x.to));
    assert m3.(unrecognized := m3.unrecognized + EncodeFields(us)) == MergeDialRequest(m, x);
    DialRequestScalarStep(m, m1, data, i, j, TagField1, x.serverID);
    DialRequestScalarStep(m1, m2, data, j, k, TagField2, x.connType);
    DialRequestToStep(m2, m3, data, k, l, x.to);
    DialRequestUnknownRun(m3, data, l, end, us);
  }

  /** `(*DialRequest).Unmarshal(Marshal(x))` on the receiver `m` yields `MergeDialRequest(m, x)`. */
  lemma DialRequestDecodes(m: DialRequest, x: DialRequest)
    requires ValidDialRequest(x) && |EncodeDialRequest(x)| <= MaxInt
    ensures UnmarshalDialRequest(m, EncodeDialRequest(x)) == Success(MergeDialRequest(m, x))
  {
    var us :| AllWellFormed(us) && UnknownTo(us, {1, 2, 3}) && EncodeFields(us) == x.unrecognized;
    var data := EncodeDialRequest(x);
    assert data[0 .. |data|] == data;
    DialRequestRoundTripAt(m, x, us, data, 0, |data|);
  }

  // ---- Data -----------------------------------------------------------------

  lemma DataBytesStep(m: Data, next: Data, data: Bytes, i: nat, j: nat, x: Data)
    requires next == m.(bytes := if |GetBytes(x)| > 0 then x.bytes else m.bytes)
    requires j == i + |ScalarField(TagField1, GetBytes(x))| <= |data| <= MaxInt
    requires data[i .. j] == ScalarField(TagField1, GetBytes(x))
    ensures UnmarshalDataFrom(m, data, i) == UnmarshalDataFrom(next, data, j)
  {
    var v := GetBytes(x);
    if |v| > 0 {
      var l := RecordLayout(data, i, j, TagField1, v);
      DataRecordAt(m, data, i, l, j, v);
    }
  }

  lemma DataRoundTripAt(m: Data, x: Data, us: seq<UnknownField>, data: Bytes, i: nat, end: nat)
    requires AllWellFormed(us) && UnknownTo(us, {1}) && x.unrecognized == EncodeFields(us)
    requires end == i + |EncodeData(x)| <= |data| <= MaxInt
    requires data[i .. end] == EncodeData(x)
    ensures UnmarshalDataFrom(m, data, i) == UnmarshalDataFrom(MergeData(m, x), data, end)
  {
    var j := Layout2(data, i, end, ScalarField(TagField1, GetBytes(x)), EncodeFields(us));
    var m1 := m.(bytes := if |GetBytes(x)| > 0 then x.bytes else m.bytes);
    assert m1.(unrecognized := m1.unrecognized + EncodeFields(us)) == MergeData(m, x);
    DataBytesStep(m, m1, data, i, j, x);
    DataUnknownRun(m1, data, j, end, us);
  }

  /** `(*Data).Unmarshal(Marshal(x))` on the receiver `m` yields `MergeData(m, x)`. */
  lemma DataDecodes(m: Data, x: Data)
    requires ValidData(x) && |EncodeData(x)| <= MaxInt
    ensures UnmarshalData(m, EncodeData(x)) == Success(MergeData(m, x))
  {
    var us :| AllWellFormed(us) && UnknownTo(us, {1}) && EncodeFields(us) == x.unrecognized;
    var data := EncodeData(x);
    assert data[0 .. |data|] == data;
    DataRoundTripAt(m, x, us, data, 0, |data|);
  }

  // ---- Frame ----------------------------------------------------------------

  /** The oneof as written (or omitted) by `Marshal`, rebuilt by the decoder. */
  lemma FrameOneofStep(m: Frame, next: Frame, data: Bytes, i: nat, j: nat, message: Option<Payload>)
    requires ValidOneof(message)
    requires next == m.(message := MergeOneof(m.message, message))
    requires j == i + |EncodeOneof(message)| <= |data| <= MaxInt
    requires data[i .. j] == EncodeOneof(message)
    ensures UnmarshalFrameFrom(m, data, i) == UnmarshalFrameFrom(next, data, j)
  {
    match message
    case Some(DialRequestPayload(Some(d))) =>
      var payload := EncodeDialRequest(d);
      var l := RecordLayout(data, i, j, TagField1, payload);
      DialRequestDecodes(EmptyDialRequest, d);
      FrameDialRequestAt(m, data, i, l, j, payload, MergeDialRequest(EmptyDialRequest, d));
    case Some(DataPayload(Some(d))) =>
      var payload := EncodeData(d);
      var l := RecordLayout(data, i, j, TagField2, payload);
      DataDecodes(EmptyData, d);
      FrameDataAt(m, data, i, l, j, payload, MergeData(EmptyData, d));
    case _ =>
  }

  lemma FrameRoundTripAt(m: Frame, x: Frame, us: seq<UnknownField>, data: Bytes, i: nat, end: nat)
    requires AllWellFormed(us) && UnknownTo(us, {1, 2}) && x.unrecognized == EncodeFields(us)
    requires ValidOneof(x.message)
    requires end == i + |EncodeFrame(x)| <= |data| <= MaxInt
    requires data[i .. end] == EncodeFrame(x)
    ensures UnmarshalFrameFrom(m, data, i) == UnmarshalFrameFrom(MergeFrame(m, x), data, end)
  {
    var j := Layout2(data, i, end, EncodeOneof(x.message), EncodeFields(us));
    var m1 := m.(message := MergeOneof(m.message, x.message));
    assert m1.(unrecognized := m1.unrecognized + EncodeFields(us)) == MergeFrame(m, x);
    FrameOneofStep(m, m1, data, i, j, x.message);
    FrameUnknownRun(m1, data, j, end, us);
  }

  /**
    Decoding a Frame's wire image, wherever it sits in a buffer, merges the
    Frame into the receiver and resumes just past the image.
  */
  lemma FrameMergesAt(m: Frame, x: Frame, data: Bytes, i: nat, end: nat)
    requires ValidFrame(x)
    requires end == i + |EncodeFrame(x)| <= |data| <= MaxInt
    requires data[i .. end] == EncodeFrame(x)
    ensures UnmarshalFrameFrom(m, data, i) == UnmarshalFrameFrom(MergeFrame(m, x), data, end)
  {
    var us :| AllWellFormed(us) && UnknownTo(us, {1, 2}) && EncodeFields(us) == x.unrecognized;
    FrameRoundTripAt(m, x, us, data, i, end);
  }

  /** `(*Frame).Unmarshal(Marshal(x))` on the receiver `m` yields `MergeFrame(m, x)`. */
  lemma FrameDecodes(m: Frame, x: Frame)
    requires ValidFrame(x) && FrameSize(x) <= MaxInt
    ensures UnmarshalFrame(m, EncodeFrame(x)) == Success(MergeFrame(m, x))
  {
    var data := EncodeFrame(x);
    FrameSizeIsLength(x);
    assert data[0 .. |data|] == data;
    FrameMergesAt(m, x, data, 0, |data|);
  }

  /**
    A fresh decode of a marshalled Frame gives it back exactly when it is
    canonical: no nil oneof wrapper and no present-but-empty `Bytes`.
  */
  lemma DecodeEncodeFrame(f: Frame)
    requires ValidFrame(f) && FrameSize(f) <= MaxInt
    ensures DecodeFrame(EncodeFrame(f)) == Success(MergeFrame(EmptyFrame, f))
    ensures DecodeFrame(EncodeFrame(f)) == Success(f) <==> CanonicalFrame(f)
  {
    FrameDecodes(EmptyFrame, f);
    MergeFrameIntoEmpty(f);
  }

  /**
    Two marshalled Frames back to back decode as the second merged over the
    first: scalars and unrecognized bytes accumulate, and the oneof is the
    last one on the wire.
  */
  lemma LastOneWins(m: Frame, x: Frame, y: Frame)
    requires ValidFrame(x) && ValidFrame(y)
    requires FrameSize(x) + FrameSize(y) <= MaxInt
    ensures UnmarshalFrame(m, EncodeFrame(x) + EncodeFrame(y)) == Success(MergeFrame(MergeFrame(m, x), y))
  {
    var data := EncodeFrame(x) + EncodeFrame(y);
    FrameSizeIsLength(x);
    FrameSizeIsLength(y);
    var j := |EncodeFrame(x)|;
    assert data[0 .. j] == EncodeFrame(x);
    assert data[j .. |data|] == EncodeFrame(y);
    FrameMergesAt(m, x, data, 0, j);
    FrameMergesAt(MergeFrame(m, x), y, data, j, |data|);
  }

  /** In particular the oneof of the later Frame replaces the earlier one, of either variant. */
  lemma LastOneofWins(m: Frame, x: Frame, y: Frame)
    requires ValidFrame(x) && ValidFrame(y)
    requires FrameSize(x) + FrameSize(y) <= MaxInt
    requires y.message.Some? && y.message.value.DataPayload? && y.message.value.data.Some?
    ensures UnmarshalFrame(m, EncodeFrame(x) + EncodeFrame(y)).Success?
    ensures GetData(UnmarshalFrame(m, EncodeFrame(x) + EncodeFrame(y)).value)
         == Some(MergeData(EmptyData, y.message.value.data.value))
    ensures GetDialRequest(UnmarshalFrame(m, EncodeFrame(x) + EncodeFrame(y)).value).None?
  {
    LastOneWins(m, x, y);
  }
}
