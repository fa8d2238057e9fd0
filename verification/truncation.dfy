/**
  Unknown fields cut off by the end of the buffer. `skipTunnel` either runs
  out of bytes inside a varint or inside an open group, or, for a
  fixed-width field or a length that overruns, jumps past the end without
  looking. In both cases the decoder that called it reports
  `io.ErrUnexpectedEOF`: the first directly, the second through its own
  bounds test.
*/
module Truncation {
  import opened Wrappers
  import opened Wire
  import opened Skip
  import opened Messages
  import opened UnknownFields
  import opened Decode
  import VarintLemmas

  /** The buffer ends inside a copy of `x` that starts at `i`. */
  predicate CutAt(data: Bytes, i: nat, x: Bytes)
  {
    i <= |data| < i + |x| && data[i ..] == x[.. |data| - i]
  }

  /**
    What `skipTunnel`'s loop makes of such a buffer: it runs out of bytes,
    or, at depth 0 only, it returns an index past the end.
  */
  predicate CutShort(data: Bytes, r: Result<nat, Error>, depth: nat)
  {
    r == Failure(UnexpectedEOF) || (depth == 0 && r.Success? && r.value > |data|)
  }

  /** The cut falls inside the first part of `a + b`. */
  lemma CutInFirst(data: Bytes, i: nat, a: Bytes, b: Bytes)
    requires CutAt(data, i, a + b) && |data| < i + |a|
    ensures CutAt(data, i, a)
  {
    assert (a + b)[.. |data| - i] == a[.. |data| - i];
  }

  /** The cut falls after the first part of `a + b`: `a` is complete and `b` is cut. */
  lemma CutInSecond(data: Bytes, i: nat, j: nat, a: Bytes, b: Bytes)
    requires CutAt(data, i, a + b) && j == i + |a| <= |data|
    ensures data[i .. j] == a
    ensures CutAt(data, j, b)
  {
    assert data[i .. j] == data[i ..][.. |a|];
    assert (a + b)[.. |data| - i][.. |a|] == a;
    assert data[j ..] == data[i ..][|a| ..];
    assert (a + b)[.. |data| - i][|a| ..] == b[.. |data| - j];
  }

  /** What follows a field's tag in its image. */
  function FieldRest(u: UnknownField): (r: Bytes)
    ensures EncodeField(u) == EncodeTag(u.num, WireTypeOf(u)) + r
  {
    match u
    case VarintField(_, v) => EncodeVarint(v)
    case Fixed64Field(_, b) => b
    case BytesField(_, p) => EncodeVarint(|p|) + p
    case GroupField(_, body, e) => EncodeFields(body) + EncodeTag(e, 4)
    case Fixed32Field(_, b) => b
  }

  /** The buffer ends inside a tag: the varint loop runs out of bytes. */
  lemma CutInTag(data: Bytes, i: nat, depth: nat, num: nat, wireType: nat)
    requires TagValue(num, wireType) < Two64
    requires CutAt(data, i, EncodeTag(num, wireType))
    ensures SkipLoop(data, i, depth) == Failure(UnexpectedEOF)
  {
    if i < |data| {
      VarintLemmas.ReadTruncatedVarint(data, i, TagValue(num, wireType));
    }
  }

  /** The buffer ends inside the varint after a tag of wire type 0 or 2. */
  lemma CutInSecondVarint(data: Bytes, i: nat, j: nat, depth: nat, tag: nat, v: nat)
    requires i < |data|
    requires ReadVarint(data, i) == Success(VarintRead(tag, j)) && (tag % 8 == 0 || tag % 8 == 2)
    requires v < Two64 && CutAt(data, j, EncodeVarint(v))
    ensures SkipLoop(data, i, depth) == Failure(UnexpectedEOF)
  {
    VarintLemmas.ReadTruncatedVarint(data, j, v);
  }

  /** A step that lands past the end: returned at depth 0, the end of the loop otherwise. */
  lemma JumpPastEnd(data: Bytes, i: nat, depth: nat, n: nat)
    requires i < |data| < n <= MaxInt
    requires SkipStep(data, i, depth) == Success(SkipState(n, depth))
    ensures CutShort(data, SkipLoop(data, i, depth), depth)
  {
    SkipLoopStep(data, i, depth, SkipState(n, depth));
  }

  /** A fixed-width field cut after its tag in `data[i .. j]`. */
  lemma CutFixedBody(data: Bytes, i: nat, j: nat, depth: nat, n: nat, wireType: nat)
    requires wireType == 1 || wireType == 5
    requires TagValue(n, wireType) < Two64
    requires i < j <= |data| < j + (if wireType == 1 then 8 else 4) <= MaxInt
    requires ReadVarint(data, i) == Success(VarintRead(TagValue(n, wireType), j))
    ensures CutShort(data, SkipLoop(data, i, depth), depth)
  {
    TagParts(n, wireType);
    SkipStepFixed(data, i, j, depth, TagValue(n, wireType));
    JumpPastEnd(data, i, depth, j + (if wireType == 1 then 8 else 4));
  }

  /** A length-delimited field cut after its tag in `data[i .. j]`: in the length or in the payload. */
  lemma CutBytesBody(data: Bytes, i: nat, j: nat, depth: nat, n: nat, p: Bytes)
    requires TagValue(n, 2) < Two64 && |p| <= MaxInt
    requires i < j && j + |EncodeVarint(|p|)| + |p| <= MaxInt
    requires ReadVarint(data, i) == Success(VarintRead(TagValue(n, 2), j))
    requires CutAt(data, j, EncodeVarint(|p|) + p)
    ensures CutShort(data, SkipLoop(data, i, depth), depth)
  {
    TagParts(n, 2);
    var w := EncodeVarint(|p|);
    var l := j + |w|;
    if |data| < l {
      CutInFirst(data, j, w, p);
      CutInSecondVarint(data, i, j, depth, TagValue(n, 2), |p|);
    } else {
      CutInSecond(data, j, l, w, p);
      VarintLemmas.ReadEncodedVarint(data, j, l, |p|);
      SkipStepBytes(data, i, j, l, depth, TagValue(n, 2), |p|);
      JumpPastEnd(data, i, depth, l + |p|);
    }
  }

  /** A field other than a group cut anywhere after its first byte's position `i`. */
  lemma CutFlatField(data: Bytes, i: nat, depth: nat, u: UnknownField)
    requires WellFormed(u) && !u.GroupField?
    requires i + |EncodeField(u)| <= MaxInt
    requires CutAt(data, i, EncodeField(u))
    ensures CutShort(data, SkipLoop(data, i, depth), depth)
  {
    var t := EncodeTag(u.num, WireTypeOf(u));
    var rest := FieldRest(u);
    var j := i + |t|;
    if |data| < j {
      CutInFirst(data, i, t, rest);
      CutInTag(data, i, depth, u.num, WireTypeOf(u));
    } else {
      CutInSecond(data, i, j, t, rest);
      ReadTagOf(data, i, j, u.num, WireTypeOf(u));
      match u
      case VarintField(n, v) =>
        CutInSecondVarint(data, i, j, depth, TagValue(n, 0), v);
      case Fixed64Field(n, b) =>
        CutFixedBody(data, i, j, depth, n, 1);
      case BytesField(n, p) =>
        CutBytesBody(data, i, j, depth, n, p);
      case Fixed32Field(n, b) =>
        CutFixedBody(data, i, j, depth, n, 5);
    }
  }

  /**
    `skipTunnel`'s loop on a field cut anywhere: out of bytes, or at depth
    0 an index past the end.
  */
  lemma {:induction false} CutField(data: Bytes, i: nat, depth: nat, u: UnknownField)
    requires WellFormed(u)
    requires i + |EncodeField(u)| <= MaxInt
    requires CutAt(data, i, EncodeField(u))
    ensures CutShort(data, SkipLoop(data, i, depth), depth)
    decreases |data| - i, 1
  {
    if u.GroupField? {
      CutGroupField(data, i, depth, u);
    } else {
      CutFlatField(data, i, depth, u);
    }
  }

  /** A group cut anywhere is always out of bytes: the depth never returns to zero. */
  lemma {:induction false} CutGroupField(data: Bytes, i: nat, depth: nat, u: UnknownField)
    requires u.GroupField? && WellFormed(u)
    requires i + |EncodeField(u)| <= MaxInt
    requires CutAt(data, i, EncodeField(u))
    ensures SkipLoop(data, i, depth) == Failure(UnexpectedEOF)
    decreases |data| - i, 0
  {
    var start := EncodeTag(u.num, 3);
    var j := i + |start|;
    if |data| < j {
      CutInFirst(data, i, start, FieldRest(u));
      CutInTag(data, i, depth, u.num, 3);
    } else {
      CutInSecond(data, i, j, start, FieldRest(u));
      OpenGroup(data, i, j, depth, u.num);
      CutGroupBody(data, j, depth + 1, u.body, u.endNum);
    }
  }

  /** After the start tag, a group cut in its body or in its end tag is out of bytes. */
  lemma {:induction false} CutGroupBody(data: Bytes, j: nat, depth: nat, body: seq<UnknownField>, endNum: nat)
    requires depth >= 1 && AllWellFormed(body) && TagValue(endNum, 4) < Two64
    requires j + |EncodeFields(body) + EncodeTag(endNum, 4)| <= MaxInt
    requires CutAt(data, j, EncodeFields(body) + EncodeTag(endNum, 4))
    ensures SkipLoop(data, j, depth) == Failure(UnexpectedEOF)
    decreases |data| - j, 3
  {
    var inner, stop := EncodeFields(body), EncodeTag(endNum, 4);
    var k := j + |inner|;
    if |data| < k {
      CutInFirst(data, j, inner, stop);
      CutFields(data, j, depth, body);
    } else {
      CutInSecond(data, j, k, inner, stop);
      SkipFieldsAt(data, j, k, depth, body);
      CutInTag(data, k, depth, endNum, 4);
    }
  }

  /** Inside a group, a run of fields cut anywhere is out of bytes. */
  lemma {:induction false} CutFields(data: Bytes, i: nat, depth: nat, us: seq<UnknownField>)
    requires depth >= 1 && AllWellFormed(us)
    requires i + |EncodeFields(us)| <= MaxInt
    requires CutAt(data, i, EncodeFields(us))
    ensures SkipLoop(data, i, depth) == Failure(UnexpectedEOF)
    decreases |data| - i, 2
  {
    if |us| > 0 {
      EncodeFieldsCons(us);
      var head, tail := EncodeField(us[0]), EncodeFields(us[1 ..]);
      var e := i + |head|;
      if |data| < e {
        CutInFirst(data, i, head, tail);
        CutField(data, i, depth, us[0]);
      } else {
        CutInSecond(data, i, e, head, tail);
        SkipFieldAt(data, i, e, depth, us[0]);
        CutFields(data, e, depth, us[1 ..]);
      }
    }
  }

  /** The `default:` branch on a buffer that ends inside its first field. */
  lemma SkipFieldCut(data: Bytes, u: UnknownField)
    requires WellFormed(u) && |EncodeField(u)| <= MaxInt
    requires CutAt(data, 0, EncodeField(u))
    ensures SkipField(data, 0) == Failure(UnexpectedEOF)
  {
    assert data[0 ..] == data;
    CutField(data, 0, 0, u);
  }

  /** Where the tag of a cut field lies, and what reading it gives. */
  lemma CutFieldTag(data: Bytes, u: UnknownField, message: string)
    requires WellFormed(u) && |EncodeField(u)| <= MaxInt
    requires CutAt(data, 0, EncodeField(u))
    ensures |data| < |EncodeTag(u.num, WireTypeOf(u))| ==> ReadTag(data, 0, message) == Failure(UnexpectedEOF)
    ensures |EncodeTag(u.num, WireTypeOf(u))| <= |data| && Int32(u.num) > 0
            ==> ReadTag(data, 0, message) == Success(Tag(Int32(u.num), WireTypeOf(u), |EncodeTag(u.num, WireTypeOf(u))|))
  {
    var t := EncodeTag(u.num, WireTypeOf(u));
    var rest := FieldRest(u);
    if |data| < |t| {
      CutInFirst(data, 0, t, rest);
      VarintLemmas.ReadTruncatedVarint(data, 0, TagValue(u.num, WireTypeOf(u)));
    } else {
      CutInSecond(data, 0, |t|, t, rest);
      ReadTagOf(data, 0, |t|, u.num, WireTypeOf(u));
    }
  }

  /**
    An unknown field of a Frame cut off anywhere after its first byte:
    `io.ErrUnexpectedEOF`, whether the cut is in the tag, in a varint or a
    length, past a fixed-width value or inside a group.
  */
  lemma TruncatedUnknownRejected(m: Frame, u: UnknownField, k: nat)
    requires WellFormed(u) && Int32(u.num) > 0 && Int32(u.num) != 1 && Int32(u.num) != 2
    requires |EncodeField(u)| <= MaxInt
    requires 1 <= k < |EncodeField(u)|
    ensures UnmarshalFrame(m, EncodeField(u)[.. k]) == Failure(UnexpectedEOF)
  {
    var data := EncodeField(u)[.. k];
    assert CutAt(data, 0, EncodeField(u));
    CutFieldTag(data, u, "Frame");
    if |EncodeTag(u.num, WireTypeOf(u))| <= k {
      SkipFieldCut(data, u);
    }
  }

  /** The same cut in a DialRequest, whose own fields are 1 to 3. */
  lemma TruncatedUnknownInDialRequest(m: DialRequest, u: UnknownField, k: nat)
    requires WellFormed(u) && Int32(u.num) > 3
    requires |EncodeField(u)| <= MaxInt
    requires 1 <= k < |EncodeField(u)|
    ensures UnmarshalDialRequest(m, EncodeField(u)[.. k]) == Failure(UnexpectedEOF)
  {
    var data := EncodeField(u)[.. k];
    assert CutAt(data, 0, EncodeField(u));
    CutFieldTag(data, u, "DialRequest");
    if |EncodeTag(u.num, WireTypeOf(u))| <= k {
      SkipFieldCut(data, u);
    }
  }

  /** The same cut in an Addr, whose own fields are 1 and 2. */
  lemma TruncatedUnknownInAddr(m: Addr, u: UnknownField, k: nat)
    requires WellFormed(u) && Int32(u.num) > 2
    requires |EncodeField(u)| <= MaxInt
    requires 1 <= k < |EncodeField(u)|
    ensures UnmarshalAddr(m, EncodeField(u)[.. k]) == Failure(UnexpectedEOF)
  {
    var data := EncodeField(u)[.. k];
    assert CutAt(data, 0, EncodeField(u));
    CutFieldTag(data, u, "Addr");
    if |EncodeTag(u.num, WireTypeOf(u))| <= k {
      SkipFieldCut(data, u);
    }
  }

  /** The same cut in a Data, whose own field is 1. */
  lemma TruncatedUnknownInData(m: Data, u: UnknownField, k: nat)
    requires WellFormed(u) && Int32(u.num) > 1
    requires |EncodeField(u)| <= MaxInt
    requires 1 <= k < |EncodeField(u)|
    ensures UnmarshalData(m, EncodeField(u)[.. k]) == Failure(UnexpectedEOF)
  {
    var data := EncodeField(u)[.. k];
    assert CutAt(data, 0, EncodeField(u));
    CutFieldTag(data, u, "Data");
    if |EncodeTag(u.num, WireTypeOf(u))| <= k {
      SkipFieldCut(data, u);
    }
  }
}
