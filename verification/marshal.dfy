/**
  The generated `MarshalToSizedBuffer` methods and `encodeVarintTunnel`, as
  the code runs them: the buffer is filled from its end towards its start,
  the unrecognized bytes first and field 1 last, each length-delimited
  field by copying its payload, writing the length varint in front of it
  and then the tag byte in front of that. A buffer is a value here; each
  writer returns the updated one.

  What the writers leave behind is stated against `Encoding`: the bytes
  they produce are exactly the wire image, and the count they return is
  `Size()`.
*/
module Marshal {
  import opened Wrappers
  import opened Wire
  import opened Messages
  import opened Encoding
  import VarintLemmas

  /**
    `after` is `before` with `x` written into `[start, end)` and every other
    byte left alone.
  */
  predicate Written(before: Bytes, after: Bytes, start: nat, end: nat, x: Bytes)
  {
    && |after| == |before|
    && start + |x| == end <= |before|
    && after[start .. end] == x
    && after[.. start] == before[.. start]
    && after[end ..] == before[end ..]
  }

  /** Writing `x` in front of an earlier write of `y` leaves `x + y` behind. */
  lemma WrittenInFront(b0: Bytes, b1: Bytes, b2: Bytes, i: nat, j: nat, end: nat, x: Bytes, y: Bytes)
    requires Written(b0, b1, j, end, y)
    requires Written(b1, b2, i, j, x)
    ensures Written(b0, b2, i, end, x + y)
  {
    assert b2[j ..] == b1[j ..];
    assert b2[j .. end] == b2[j ..][.. end - j];
    assert b1[j .. end] == b1[j ..][.. end - j];
    assert b2[i .. end] == b2[i .. j] + b2[j .. end];
    assert b2[end ..] == b2[j ..][end - j ..];
    assert b1[end ..] == b1[j ..][end - j ..];
    assert b1[.. i] == b1[.. j][.. i];
    assert b0[.. i] == b0[.. j][.. i];
  }

  /** Go's `copy(dAtA[i:], x)` into a buffer with room for `x` at `i`. */
  function Copy(buf: Bytes, i: nat, x: Bytes): (r: Bytes)
    requires i + |x| <= |buf|
    ensures Written(buf, r, i, i + |x|, x)
  {
    var r := buf[.. i] + x + buf[i + |x| ..];
    assert r[i .. i + |x|] == x;
    assert r[.. i] == buf[.. i];
    assert r[i + |x| ..] == buf[i + |x| ..];
    r
  }

  /** Go's `dAtA[i] = b`. */
  lemma StoreByte(buf: Bytes, i: nat, b: Byte)
    requires i < |buf|
    ensures Written(buf, buf[i := b], i, i + 1, [b])
  {
    assert buf[i := b][i .. i + 1] == [b];
  }

  /**
    The state of `encodeVarintTunnel`'s loop: the low groups of `v` are in
    `[base, o)`, and `w`, the part still to write, fits exactly in
    `[o, offset)`.
  */
  ghost predicate VarintLoop(buf: Bytes, r: Bytes, base: nat, o: nat, offset: nat, w: nat, v: nat)
  {
    && base <= o && o + |EncodeVarint(w)| == offset <= |buf| && |r| == |buf|
    && r[.. base] == buf[.. base] && r[o ..] == buf[o ..]
    && r[base .. o] + EncodeVarint(w) == EncodeVarint(v)
  }

  /** One turn of the loop: the low seven bits go out with the continuation bit. */
  lemma VarintLoopStep(buf: Bytes, r: Bytes, base: nat, o: nat, offset: nat, w: nat, v: nat)
    requires VarintLoop(buf, r, base, o, offset, w, v) && w >= 128
    ensures VarintLoop(buf, r[o := w % 128 + 128], base, o + 1, offset, w / 128, v)
  {
    assert EncodeVarint(w) == [w % 128 + 128] + EncodeVarint(w / 128);
    var r' := r[o := w % 128 + 128];
    assert r'[base .. o + 1] == r[base .. o] + [w % 128 + 128];
    assert r'[o + 1 ..] == r[o ..][1 ..];
    assert buf[o + 1 ..] == buf[o ..][1 ..];
  }

  /** The last byte, below 0x80, completes the varint. */
  lemma VarintLoopDone(buf: Bytes, r: Bytes, base: nat, o: nat, offset: nat, w: nat, v: nat)
    requires VarintLoop(buf, r, base, o, offset, w, v) && w < 128
    ensures Written(buf, r[o := w], base, offset, EncodeVarint(v))
  {
    assert EncodeVarint(w) == [w];
    var r' := r[o := w];
    assert r'[base .. offset] == r[base .. o] + [w];
    assert r'[offset ..] == r[o ..][1 ..];
    assert buf[offset ..] == buf[o ..][1 ..];
  }

  /**
    `encodeVarintTunnel(dAtA, offset, v)`: the varint of `v` ends just
    before `offset`; the result is the index where it starts.
  */
  method EncodeVarintTunnel(buf: Bytes, offset: nat, v: nat) returns (r: Bytes, base: nat)
    requires v < Two64 && Sov(v) <= offset <= |buf|
    ensures base == offset - Sov(v)
    ensures Written(buf, r, base, offset, EncodeVarint(v))
  {
    VarintLemmas.SovIsEncodedLength(v);
    base := offset - Sov(v);
    var o := base;
    var w := v;
    r := buf;
    assert r[base .. o] == [];
    while w >= 128
      invariant VarintLoop(buf, r, base, o, offset, w, v)
      decreases w
    {
      VarintLoopStep(buf, r, base, o, offset, w, v);
      r := r[o := w % 128 + 128];
      w := w / 128;
      o := o + 1;
    }
    VarintLoopDone(buf, r, base, o, offset, w, v);
    r := r[o := w];
  }

  /**
    The part every length-delimited field shares: the length varint and the
    tag byte, written so that they end at `i`, where a payload of `len`
    bytes starts.
  */
  method PutPrefix(buf: Bytes, i: nat, tag: Byte, len: nat) returns (r: Bytes, start: nat)
    requires len < Two64 && 1 + |EncodeVarint(len)| <= i <= |buf|
    ensures start + 1 + |EncodeVarint(len)| == i
    ensures Written(buf, r, start, i, [tag] + EncodeVarint(len))
  {
    VarintLemmas.SovIsEncodedLength(len);
    var r1, k := EncodeVarintTunnel(buf, i, len);
    start := k - 1;
    r := r1[start := tag];
    StoreByte(r1, start, tag);
    WrittenInFront(buf, r1, r, start, k, i, [tag], EncodeVarint(len));
  }

  /** A proto3 string or bytes field: nothing when empty, else copy, length and tag. */
  method PutScalar(buf: Bytes, i: nat, tag: Byte, value: Bytes) returns (r: Bytes, start: nat)
    requires |buf| <= MaxInt && |ScalarField(tag, value)| <= i <= |buf|
    ensures Written(buf, r, start, i, ScalarField(tag, value))
  {
    if |value| == 0 {
      r, start := buf, i;
      return;
    }
    var j := i - |value|;
    var r1 := Copy(buf, j, value);
    r, start := PutPrefix(r1, j, tag, |value|);
    WrittenInFront(buf, r1, r, start, j, i, [tag] + EncodeVarint(|value|), value);
  }

  /** Two scalar fields, the second one written first: `s1 + s2` ends at `i`. */
  method PutScalars(buf: Bytes, i: nat, tag1: Byte, v1: Bytes, tag2: Byte, v2: Bytes) returns (r: Bytes, start: nat)
    requires |buf| <= MaxInt && |ScalarField(tag1, v1)| + |ScalarField(tag2, v2)| <= i <= |buf|
    ensures Written(buf, r, start, i, ScalarField(tag1, v1) + ScalarField(tag2, v2))
  {
    var r1, j := PutScalar(buf, i, tag2, v2);
    r, start := PutScalar(r1, j, tag1, v1);
    WrittenInFront(buf, r1, r, start, j, i, ScalarField(tag1, v1), ScalarField(tag2, v2));
  }

  /** `Addr.MarshalToSizedBuffer(dAtA[:end])`. */
  method MarshalAddrTo(buf: Bytes, end: nat, a: Addr) returns (r: Bytes, n: nat)
    requires |buf| <= MaxInt && AddrSize(a) <= end <= |buf|
    ensures n == AddrSize(a)
    ensures Written(buf, r, end - n, end, EncodeAddr(a))
  {
    AddrSizeIsLength(a);
    var s := ScalarField(TagField1, a.network) + ScalarField(TagField2, a.address);
    var i := end - |a.unrecognized|;
    var r0 := Copy(buf, i, a.unrecognized);
    var r1, j := PutScalars(r0, i, TagField1, a.network, TagField2, a.address);
    WrittenInFront(buf, r0, r1, j, i, end, s, a.unrecognized);
    r, n := r1, end - j;
  }

  /** A nested message already written before `i`, then its length and `tag` in front. */
  method PutRecordPrefix(buf: Bytes, r1: Bytes, i: nat, j: nat, tag: Byte, payload: Bytes) returns (r: Bytes, start: nat)
    requires |buf| <= MaxInt && |LengthDelimited(tag, payload)| <= i
    requires Written(buf, r1, j, i, payload)
    ensures Written(buf, r, start, i, LengthDelimited(tag, payload))
  {
    r, start := PutPrefix(r1, j, tag, |payload|);
    WrittenInFront(buf, r1, r, start, j, i, [tag] + EncodeVarint(|payload|), payload);
  }

  /** The `if m.To != nil` block: the Addr, then its length and the tag 0x1a in front. */
  method PutTo(buf: Bytes, i: nat, to: Option<Addr>) returns (r: Bytes, start: nat)
    requires |buf| <= MaxInt && |EncodeTo(to)| <= i <= |buf|
    ensures Written(buf, r, start, i, EncodeTo(to))
  {
    match to
    case None =>
      r, start := buf, i;
    case Some(a) =>
      r, start := PutAddrRecord(buf, i, a);
  }

  /** A non-nil `To`: the Addr is marshalled first, then its length and tag go in front. */
  method PutAddrRecord(buf: Bytes, i: nat, a: Addr) returns (r: Bytes, start: nat)
    requires |buf| <= MaxInt && |LengthDelimited(TagField3, EncodeAddr(a))| <= i <= |buf|
    ensures Written(buf, r, start, i, LengthDelimited(TagField3, EncodeAddr(a)))
  {
    AddrSizeIsLength(a);
    var r1, size := MarshalAddrTo(buf, i, a);
    r, start := PutRecordPrefix(buf, r1, i, i - size, TagField3, EncodeAddr(a));
  }

  /** The tail of a DialRequest: `To`, then the unrecognized bytes, ending at `end`. */
  method PutDialRequestTail(buf: Bytes, end: nat, d: DialRequest) returns (r: Bytes, start: nat)
    requires |buf| <= MaxInt && |EncodeTo(d.to)| + |d.unrecognized| <= end <= |buf|
    ensures Written(buf, r, start, end, EncodeTo(d.to) + d.unrecognized)
  {
    var i := end - |d.unrecognized|;
    var r0 := Copy(buf, i, d.unrecognized);
    r, start := PutTo(r0, i, d.to);
    WrittenInFront(buf, r0, r, start, i, end, EncodeTo(d.to), d.unrecognized);
  }

  /** `DialRequest.MarshalToSizedBuffer(dAtA[:end])`: `To` is marshalled first, then prefixed. */
  method MarshalDialRequestTo(buf: Bytes, end: nat, d: DialRequest) returns (r: Bytes, n: nat)
    requires |buf| <= MaxInt && DialRequestSize(d) <= end <= |buf|
    ensures n == DialRequestSize(d)
    ensures Written(buf, r, end - n, end, EncodeDialRequest(d))
  {
    var s := ScalarField(TagField1, d.serverID) + ScalarField(TagField2, d.connType);
    var tail := EncodeTo(d.to) + d.unrecognized;
    DialRequestHalves(d, s, tail);
    var r0, i := PutDialRequestTail(buf, end, d);
    var r1, j := PutScalars(r0, i, TagField1, d.serverID, TagField2, d.connType);
    WrittenInFront(buf, r0, r1, j, i, end, s, tail);
    r, n := r1, end - j;
  }

  /** The scalar fields and the tail, written separately, make up the DialRequest. */
  lemma DialRequestHalves(d: DialRequest, s: Bytes, tail: Bytes)
    requires s == ScalarField(TagField1, d.serverID) + ScalarField(TagField2, d.connType)
    requires tail == EncodeTo(d.to) + d.unrecognized
    ensures s + tail == EncodeDialRequest(d)
    ensures |s| + |tail| == DialRequestSize(d)
  {
    DialRequestSizeIsLength(d);
  }

  /** `Data.MarshalToSizedBuffer(dAtA[:end])`. */
  method MarshalDataTo(buf: Bytes, end: nat, d: Data) returns (r: Bytes, n: nat)
    requires |buf| <= MaxInt && DataSize(d) <= end <= |buf|
    ensures n == DataSize(d)
    ensures Written(buf, r, end - n, end, EncodeData(d))
  {
    DataSizeIsLength(d);
    var i := end - |d.unrecognized|;
    var r0 := Copy(buf, i, d.unrecognized);
    var r1, j := PutScalar(r0, i, TagField1, GetBytes(d));
    WrittenInFront(buf, r0, r1, j, i, end, ScalarField(TagField1, GetBytes(d)), d.unrecognized);
    r, n := r1, end - j;
  }

  /** `Frame_DialRequest.MarshalToSizedBuffer`: nothing for a nil DialRequest. */
  method MarshalDialRequestPayloadTo(buf: Bytes, end: nat, p: Payload) returns (r: Bytes, n: nat)
    requires p.DialRequestPayload?
    requires |buf| <= MaxInt && PayloadSize(p) <= end <= |buf|
    ensures n == PayloadSize(p)
    ensures Written(buf, r, end - n, end, EncodePayload(p))
  {
    PayloadSizeIsLength(p);
    if p.dialRequest.None? {
      r, n := buf, 0;
      return;
    }
    var start;
    r, start := PutDialRequestRecord(buf, end, p.dialRequest.value);
    n := end - start;
  }

  /** A non-nil DialRequest in the oneof: the message, then its length and tag 0x0a in front. */
  method PutDialRequestRecord(buf: Bytes, i: nat, d: DialRequest) returns (r: Bytes, start: nat)
    requires |buf| <= MaxInt && |LengthDelimited(TagField1, EncodeDialRequest(d))| <= i <= |buf|
    ensures Written(buf, r, start, i, LengthDelimited(TagField1, EncodeDialRequest(d)))
  {
    DialRequestSizeIsLength(d);
    var r1, size := MarshalDialRequestTo(buf, i, d);
    r, start := PutRecordPrefix(buf, r1, i, i - size, TagField1, EncodeDialRequest(d));
  }

  /** `Frame_Data.MarshalToSizedBuffer`: nothing for a nil Data. */
  method MarshalDataPayloadTo(buf: Bytes, end: nat, p: Payload) returns (r: Bytes, n: nat)
    requires p.DataPayload?
    requires |buf| <= MaxInt && PayloadSize(p) <= end <= |buf|
    ensures n == PayloadSize(p)
    ensures Written(buf, r, end - n, end, EncodePayload(p))
  {
    PayloadSizeIsLength(p);
    if p.data.None? {
      r, n := buf, 0;
      return;
    }
    var start;
    r, start := PutDataRecord(buf, end, p.data.value);
    n := end - start;
  }

  /** A non-nil Data in the oneof: the message, then its length and tag 0x12 in front. */
  method PutDataRecord(buf: Bytes, i: nat, d: Data) returns (r: Bytes, start: nat)
    requires |buf| <= MaxInt && |LengthDelimited(TagField2, EncodeData(d))| <= i <= |buf|
    ensures Written(buf, r, start, i, LengthDelimited(TagField2, EncodeData(d)))
  {
    DataSizeIsLength(d);
    var r1, size := MarshalDataTo(buf, i, d);
    r, start := PutRecordPrefix(buf, r1, i, i - size, TagField2, EncodeData(d));
  }

  /** The oneof's `MarshalTo`, dispatched on the wrapper type. */
  method MarshalPayloadTo(buf: Bytes, end: nat, p: Payload) returns (r: Bytes, n: nat)
    requires |buf| <= MaxInt && PayloadSize(p) <= end <= |buf|
    ensures n == PayloadSize(p)
    ensures Written(buf, r, end - n, end, EncodePayload(p))
  {
    if p.DialRequestPayload? {
      r, n := MarshalDialRequestPayloadTo(buf, end, p);
    } else {
      r, n := MarshalDataPayloadTo(buf, end, p);
    }
  }

  /** The `if m.Message != nil` block of `Frame.MarshalToSizedBuffer`. */
  method PutOneof(buf: Bytes, i: nat, message: Option<Payload>) returns (r: Bytes, start: nat)
    requires |buf| <= MaxInt && |EncodeOneof(message)| <= i <= |buf|
    ensures Written(buf, r, start, i, EncodeOneof(message))
  {
    if message.None? {
      r, start := buf, i;
      return;
    }
    PayloadSizeIsLength(message.value);
    var size;
    r, size := MarshalPayloadTo(buf, i, message.value);
    start := i - size;
  }

  /** `Frame.MarshalToSizedBuffer(dAtA[:end])`: unrecognized bytes, then the oneof in front. */
  method MarshalFrameTo(buf: Bytes, end: nat, f: Frame) returns (r: Bytes, n: nat)
    requires |buf| <= MaxInt && FrameSize(f) <= end <= |buf|
    ensures n == FrameSize(f)
    ensures Written(buf, r, end - n, end, EncodeFrame(f))
  {
    FrameSizeIsLength(f);
    var i := end - |f.unrecognized|;
    var r0 := Copy(buf, i, f.unrecognized);
    var r1, j := PutOneof(r0, i, f.message);
    WrittenInFront(buf, r0, r1, j, i, end, EncodeOneof(f.message), f.unrecognized);
    r, n := r1, end - j;
  }

  /**
    `(*Frame).Marshal()`: a buffer of exactly `Size()` bytes, filled from the
    back, comes out as the Frame's wire image with nothing left over.
  */
  method MarshalFrame(f: Frame) returns (data: Bytes)
    requires FrameSize(f) <= MaxInt
    ensures data == EncodeFrame(f)
    ensures |data| == FrameSize(f)
  {
    var size := FrameSize(f);
    var buf := seq(size, _ => 0);
    var r, n := MarshalFrameTo(buf, size, f);
    data := r[.. n];
  }

  method MarshalDialRequest(d: DialRequest) returns (data: Bytes)
    requires DialRequestSize(d) <= MaxInt
    ensures data == EncodeDialRequest(d)
    ensures |data| == DialRequestSize(d)
  {
    var size := DialRequestSize(d);
    var buf := seq(size, _ => 0);
    var r, n := MarshalDialRequestTo(buf, size, d);
    data := r[.. n];
  }

  method MarshalAddr(a: Addr) returns (data: Bytes)
    requires AddrSize(a) <= MaxInt
    ensures data == EncodeAddr(a)
    ensures |data| == AddrSize(a)
  {
    var size := AddrSize(a);
    var buf := seq(size, _ => 0);
    var r, n := MarshalAddrTo(buf, size, a);
    data := r[.. n];
  }

  method MarshalData(d: Data) returns (data: Bytes)
    requires DataSize(d) <= MaxInt
    ensures data == EncodeData(d)
    ensures |data| == DataSize(d)
  {
    var size := DataSize(d);
    var buf := seq(size, _ => 0);
    var r, n := MarshalDataTo(buf, size, d);
    data := r[.. n];
  }
}
