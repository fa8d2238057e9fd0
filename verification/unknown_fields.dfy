/**
  A grammar for the fields `skipTunnel` accepts, with their wire image,
  and the proof that `skipTunnel` measures exactly one such field, groups
  and their nesting included. It is the vocabulary in which the round trip
  of `XXX_unrecognized` is stated. The image writes every tag, value and
  length as a shortest-form varint; `skipTunnel` also accepts padded ones,
  which this grammar does not describe.
*/
module UnknownFields {
  import opened Wrappers
  import opened Wire
  import opened Skip
  import VarintLemmas

  /**
    One field of a message the codec does not know, by wire type. A group's
    closing tag may carry any field number: `skipTunnel` only counts depth.
  */
  datatype UnknownField =
    | VarintField(num: nat, value: nat)                            // wire type 0
    | Fixed64Field(num: nat, fixed: Bytes)                         // wire type 1
    | BytesField(num: nat, payload: Bytes)                         // wire type 2
    | GroupField(num: nat, body: seq<UnknownField>, endNum: nat)   // wire types 3 .. 4
    | Fixed32Field(num: nat, fixed: Bytes)                         // wire type 5

  function WireTypeOf(u: UnknownField): nat
  {
    match u
    case VarintField(_, _) => 0
    case Fixed64Field(_, _) => 1
    case BytesField(_, _) => 2
    case GroupField(_, _, _) => 3
    case Fixed32Field(_, _) => 5
  }

  /** The tag varint `field << 3 | wireType`. */
  function TagValue(num: nat, wireType: nat): nat
  {
    num * 8 + wireType
  }

  function EncodeTag(num: nat, wireType: nat): Bytes
  {
    EncodeVarint(TagValue(num, wireType))
  }

  function EncodeField(u: UnknownField): (r: Bytes)
    ensures |r| >= 1
    decreases u
  {
    match u
    case VarintField(n, v) => EncodeTag(n, 0) + EncodeVarint(v)
    case Fixed64Field(n, b) => EncodeTag(n, 1) + b
    case BytesField(n, p) => EncodeTag(n, 2) + EncodeVarint(|p|) + p
    case GroupField(n, body, e) => EncodeTag(n, 3) + EncodeFields(body) + EncodeTag(e, 4)
    case Fixed32Field(n, b) => EncodeTag(n, 5) + b
  }

  function EncodeFields(us: seq<UnknownField>): Bytes
    decreases us
  {
    if |us| == 0 then [] else EncodeField(us[0]) + EncodeFields(us[1..])
  }

  /** Fields the Go types can express: uint64 tags and varints, fixed widths, int lengths. */
  predicate WellFormed(u: UnknownField)
    decreases u
  {
    && TagValue(u.num, WireTypeOf(u)) < Two64
    && match u
       case VarintField(_, v) => v < Two64
       case Fixed64Field(_, b) => |b| == 8
       case BytesField(_, p) => |p| <= MaxInt
       case GroupField(_, body, e) => TagValue(e, 4) < Two64 && AllWellFormed(body)
       case Fixed32Field(_, b) => |b| == 4
  }

  predicate AllWellFormed(us: seq<UnknownField>)
    decreases us
  {
    |us| == 0 || (WellFormed(us[0]) && AllWellFormed(us[1..]))
  }

  lemma EncodeFieldsCons(us: seq<UnknownField>)
    requires |us| > 0
    ensures EncodeFields(us) == EncodeField(us[0]) + EncodeFields(us[1..])
  {
  }

  /** Reading the tag at `i` yields the field's wire type and the index `j` past the tag. */
  lemma ReadTagOf(data: Bytes, i: nat, j: nat, num: nat, wireType: nat)
    requires wireType < 8
    requires TagValue(num, wireType) < Two64
    requires j == i + |EncodeTag(num, wireType)| <= |data|
    requires data[i .. j] == EncodeTag(num, wireType)
    ensures ReadVarint(data, i) == Success(VarintRead(TagValue(num, wireType), j))
    ensures TagValue(num, wireType) % 8 == wireType
    ensures TagValue(num, wireType) / 8 == num
  {
    assert EncodeTag(num, wireType) == EncodeVarint(TagValue(num, wireType));
    VarintLemmas.ReadEncodedVarint(data, i, j, TagValue(num, wireType));
    TagParts(num, wireType);
  }

  lemma TagParts(num: nat, wireType: nat)
    requires wireType < 8
    ensures TagValue(num, wireType) % 8 == wireType
    ensures TagValue(num, wireType) / 8 == num
  {
  }

  /**
    One loop pass over a field that is not a group, lying in `data[i .. end]`,
    leaves the depth alone and moves to `end`.
  */
  lemma SkipStepFlat(data: Bytes, i: nat, end: nat, depth: nat, u: UnknownField)
    requires WellFormed(u) && !u.GroupField?
    requires end == i + |EncodeField(u)| <= |data|
    requires data[i .. end] == EncodeField(u)
    ensures SkipStep(data, i, depth) == Success(SkipState(end, depth))
  {
    match u
    case VarintField(n, v) =>
      var t, w := EncodeTag(n, 0), EncodeVarint(v);
      assert EncodeField(u) == t + w;
      SplitWindow(data, i, i + |t|, end, t, w);
      SkipVarintField(data, i, i + |t|, end, depth, n, v);
    case Fixed64Field(n, b) =>
      var t := EncodeTag(n, 1);
      assert EncodeField(u) == t + b;
      SplitWindow(data, i, i + |t|, end, t, b);
      SkipFixedField(data, i, i + |t|, end, depth, n, 1);
    case BytesField(n, p) =>
      var t, w := EncodeTag(n, 2), EncodeVarint(|p|);
      assert EncodeField(u) == t + w + p;
      SplitWindow(data, i, i + |t| + |w|, end, t + w, p);
      SplitWindow(data, i, i + |t|, i + |t| + |w|, t, w);
      SkipBytesField(data, i, i + |t|, i + |t| + |w|, end, depth, n, |p|);
    case Fixed32Field(n, b) =>
      var t := EncodeTag(n, 5);
      assert EncodeField(u) == t + b;
      SplitWindow(data, i, i + |t|, end, t, b);
      SkipFixedField(data, i, i + |t|, end, depth, n, 5);
  }

  /** Wire type 0: the tag in `data[i .. j]`, the varint in `data[j .. end]`. */
  lemma SkipVarintField(data: Bytes, i: nat, j: nat, end: nat, depth: nat, n: nat, v: nat)
    requires TagValue(n, 0) < Two64 && v < Two64
    requires j == i + |EncodeTag(n, 0)| && end == j + |EncodeVarint(v)| <= |data|
    requires data[i .. j] == EncodeTag(n, 0)
    requires data[j .. end] == EncodeVarint(v)
    ensures SkipStep(data, i, depth) == Success(SkipState(end, depth))
  {
    ReadTagOf(data, i, j, n, 0);
    VarintLemmas.ReadEncodedVarint(data, j, end, v);
    SkipStepVarint(data, i, j, end, depth, TagValue(n, 0), v);
  }

  /** Wire types 1 and 5: the tag in `data[i .. j]`, then 8 or 4 bytes up to `end`. */
  lemma SkipFixedField(data: Bytes, i: nat, j: nat, end: nat, depth: nat, n: nat, wireType: nat)
    requires wireType == 1 || wireType == 5
    requires TagValue(n, wireType) < Two64
    requires j == i + |EncodeTag(n, wireType)| <= |data|
    requires end == j + (if wireType == 1 then 8 else 4)
    requires data[i .. j] == EncodeTag(n, wireType)
    ensures SkipStep(data, i, depth) == Success(SkipState(end, depth))
  {
    ReadTagOf(data, i, j, n, wireType);
    SkipStepFixed(data, i, j, depth, TagValue(n, wireType));
  }

  /** Wire type 2: the tag in `data[i .. j]`, the length in `data[j .. l]`, the payload up to `end`. */
  lemma SkipBytesField(data: Bytes, i: nat, j: nat, l: nat, end: nat, depth: nat, n: nat, len: nat)
    requires TagValue(n, 2) < Two64 && len <= MaxInt
    requires j == i + |EncodeTag(n, 2)| && l == j + |EncodeVarint(len)| <= |data|
    requires end == l + len
    requires data[i .. j] == EncodeTag(n, 2)
    requires data[j .. l] == EncodeVarint(len)
    ensures SkipStep(data, i, depth) == Success(SkipState(end, depth))
  {
    ReadTagOf(data, i, j, n, 2);
    VarintLemmas.ReadEncodedVarint(data, j, l, len);
    SkipStepBytes(data, i, j, l, depth, TagValue(n, 2), len);
  }

  lemma SkipStepVarint(data: Bytes, i: nat, j: nat, end: nat, depth: nat, tag: nat, v: nat)
    requires ReadVarint(data, i) == Success(VarintRead(tag, j)) && tag % 8 == 0
    requires ReadVarint(data, j) == Success(VarintRead(v, end))
    ensures SkipStep(data, i, depth) == Success(SkipState(end, depth))
  {
  }

  lemma SkipStepFixed(data: Bytes, i: nat, j: nat, depth: nat, tag: nat)
    requires ReadVarint(data, i) == Success(VarintRead(tag, j)) && tag % 8 in {1, 5}
    ensures SkipStep(data, i, depth) == Success(SkipState(j + (if tag % 8 == 1 then 8 else 4), depth))
  {
  }

  lemma SkipStepBytes(data: Bytes, i: nat, j: nat, l: nat, depth: nat, tag: nat, len: nat)
    requires ReadVarint(data, i) == Success(VarintRead(tag, j)) && tag % 8 == 2
    requires ReadVarint(data, j) == Success(VarintRead(len, l)) && len <= MaxInt
    ensures SkipStep(data, i, depth) == Success(SkipState(l + len, depth))
  {
  }

  lemma SkipStepGroup(data: Bytes, i: nat, j: nat, depth: nat, tag: nat)
    requires ReadVarint(data, i) == Success(VarintRead(tag, j)) && tag % 8 in {3, 4}
    requires tag % 8 == 4 ==> depth > 0
    ensures SkipStep(data, i, depth) == Success(SkipState(j, if tag % 8 == 3 then depth + 1 else depth - 1))
  {
  }

  /** One pass of the `skipTunnel` loop that neither fails nor leaves the buffer. */
  lemma SkipLoopStep(data: Bytes, i: nat, depth: nat, s: SkipState)
    requires i < |data|
    requires SkipStep(data, i, depth) == Success(s)
    requires s.index <= MaxInt
    ensures SkipLoop(data, i, depth)
         == if s.depth == 0 then Success(s.index) else SkipLoop(data, s.index, s.depth)
  {
  }

  /**
    `skipTunnel`'s loop steps over exactly one well-formed field lying in
    `data[i .. end]`: at depth 0 it returns `end`, inside a group it
    continues from `end` at the same depth.
  */
  lemma {:induction false} SkipFieldAt(data: Bytes, i: nat, end: nat, depth: nat, u: UnknownField)
    requires WellFormed(u)
    requires end == i + |EncodeField(u)| <= |data| <= MaxInt
    requires data[i .. end] == EncodeField(u)
    ensures SkipLoop(data, i, depth)
         == if depth == 0 then Success(end) else SkipLoop(data, end, depth)
    decreases end - i, 1
  {
    if u.GroupField? {
      SkipGroupAt(data, i, end, depth, u);
    } else {
      SkipStepFlat(data, i, end, depth, u);
      SkipLoopStep(data, i, depth, SkipState(end, depth));
    }
  }

  lemma {:induction false} SkipGroupAt(data: Bytes, i: nat, end: nat, depth: nat, u: UnknownField)
    requires u.GroupField? && WellFormed(u)
    requires end == i + |EncodeField(u)| <= |data| <= MaxInt
    requires data[i .. end] == EncodeField(u)
    ensures SkipLoop(data, i, depth)
         == if depth == 0 then Success(end) else SkipLoop(data, end, depth)
    decreases end - i, 0
  {
    var j, k := GroupLayout(data, i, end, u);
    OpenGroupBody(data, i, j, k, depth, u);
    CloseGroup(data, k, end, depth, u.endNum);
  }

  /** A start-group tag in `data[i .. j]` and the group's body in `data[j .. k]`, stepped over at depth + 1. */
  lemma {:induction false} OpenGroupBody(data: Bytes, i: nat, j: nat, k: nat, depth: nat, u: UnknownField)
    requires u.GroupField? && TagValue(u.num, 3) < Two64 && AllWellFormed(u.body)
    requires j == i + |EncodeTag(u.num, 3)| <= |data| <= MaxInt
    requires data[i .. j] == EncodeTag(u.num, 3)
    requires k == j + |EncodeFields(u.body)| <= |data|
    requires data[j .. k] == EncodeFields(u.body)
    ensures SkipLoop(data, i, depth) == SkipLoop(data, k, depth + 1)
    decreases k - i, 3
  {
    SkipFieldsAt(data, j, k, depth + 1, u.body);
    OpenGroup(data, i, j, depth, u.num);
  }

  /** Where the start tag, the body and the end tag of a group lie. */
  lemma GroupLayout(data: Bytes, i: nat, end: nat, u: UnknownField) returns (j: nat, k: nat)
    requires u.GroupField? && WellFormed(u)
    requires end == i + |EncodeField(u)| <= |data| <= MaxInt
    requires data[i .. end] == EncodeField(u)
    ensures TagValue(u.num, 3) < Two64 && TagValue(u.endNum, 4) < Two64 && AllWellFormed(u.body)
    ensures j == i + |EncodeTag(u.num, 3)| <= |data| <= MaxInt
    ensures data[i .. j] == EncodeTag(u.num, 3)
    ensures k == j + |EncodeFields(u.body)| <= |data|
    ensures data[j .. k] == EncodeFields(u.body)
    ensures end == k + |EncodeTag(u.endNum, 4)|
    ensures data[k .. end] == EncodeTag(u.endNum, 4)
  {
    var start, inner, stop := EncodeTag(u.num, 3), EncodeFields(u.body), EncodeTag(u.endNum, 4);
    j := i + |start|;
    k := j + |inner|;
    assert EncodeField(u) == start + inner + stop;
    SplitWindow(data, i, k, end, start + inner, stop);
    SplitWindow(data, i, j, k, start, inner);
  }

  /** A start-group tag in `data[i .. j]` raises the depth by one. */
  lemma OpenGroup(data: Bytes, i: nat, j: nat, depth: nat, num: nat)
    requires TagValue(num, 3) < Two64
    requires j == i + |EncodeTag(num, 3)| <= |data| <= MaxInt
    requires data[i .. j] == EncodeTag(num, 3)
    ensures SkipLoop(data, i, depth) == SkipLoop(data, j, depth + 1)
  {
    ReadTagOf(data, i, j, num, 3);
    SkipStepGroup(data, i, j, depth, TagValue(num, 3));
    SkipLoopStep(data, i, depth, SkipState(j, depth + 1));
  }

  /** An end-group tag in `data[k .. end]` lowers the depth by one and ends the field at zero. */
  lemma CloseGroup(data: Bytes, k: nat, end: nat, depth: nat, num: nat)
    requires TagValue(num, 4) < Two64
    requires end == k + |EncodeTag(num, 4)| <= |data| <= MaxInt
    requires data[k .. end] == EncodeTag(num, 4)
    ensures SkipLoop(data, k, depth + 1)
         == if depth == 0 then Success(end) else SkipLoop(data, end, depth)
  {
    ReadTagOf(data, k, end, num, 4);
    SkipStepGroup(data, k, end, depth + 1, TagValue(num, 4));
    SkipLoopStep(data, k, depth + 1, SkipState(end, depth));
  }

  /** Inside a group, `skipTunnel` steps over the run of well-formed fields in `data[i .. end]`. */
  lemma {:induction false} SkipFieldsAt(data: Bytes, i: nat, end: nat, depth: nat, us: seq<UnknownField>)
    requires depth >= 1
    requires AllWellFormed(us)
    requires end == i + |EncodeFields(us)| <= |data| <= MaxInt
    requires data[i .. end] == EncodeFields(us)
    ensures SkipLoop(data, i, depth) == SkipLoop(data, end, depth)
    decreases end - i, 2
  {
    if |us| > 0 {
      var head, tail := EncodeField(us[0]), EncodeFields(us[1..]);
      var j := i + |head|;
      EncodeFieldsCons(us);
      SplitWindow(data, i, j, end, head, tail);
      SkipFieldAt(data, i, j, depth, us[0]);
      SkipFieldsAt(data, j, end, depth, us[1..]);
    }
  }

  /** `skipTunnel` returns the exact byte length of a complete leading field. */
  lemma SkipTunnelField(u: UnknownField, rest: Bytes)
    requires WellFormed(u)
    requires |EncodeField(u)| + |rest| <= MaxInt
    ensures SkipTunnel(EncodeField(u) + rest) == Success(|EncodeField(u)|)
  {
    var data := EncodeField(u) + rest;
    assert data[0 .. |EncodeField(u)|] == EncodeField(u);
    SkipFieldAt(data, 0, |EncodeField(u)|, 0, u);
  }

  /** An end-group tag with no group open is `ErrUnexpectedEndOfGroupTunnel`. */
  lemma SkipTunnelStrayEndGroup(num: nat, rest: Bytes)
    requires TagValue(num, 4) < Two64
    ensures SkipTunnel(EncodeTag(num, 4) + rest) == Failure(UnexpectedEndOfGroup)
  {
    var data := EncodeTag(num, 4) + rest;
    assert data[0 .. |EncodeTag(num, 4)|] == EncodeTag(num, 4);
    ReadTagOf(data, 0, |EncodeTag(num, 4)|, num, 4);
  }

  /** Wire types 6 and 7 do not exist: "illegal wireType". */
  lemma SkipTunnelIllegalWireType(num: nat, wireType: nat, rest: Bytes)
    requires wireType == 6 || wireType == 7
    requires TagValue(num, wireType) < Two64
    ensures SkipTunnel(EncodeTag(num, wireType) + rest) == Failure(IllegalWireType(wireType))
  {
    var data := EncodeTag(num, wireType) + rest;
    assert data[0 .. |EncodeTag(num, wireType)|] == EncodeTag(num, wireType);
    ReadTagOf(data, 0, |EncodeTag(num, wireType)|, num, wireType);
  }
}
