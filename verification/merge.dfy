/**
  What decoding the wire image of a message `x` into a receiver `m` leaves
  behind, stated field by field without reference to bytes: a non-empty
  scalar of `x` overwrites the receiver's, an empty one is not on the wire
  and leaves it alone; `To` merges recursively; the oneof is replaced by a
  freshly decoded message; unrecognized bytes are appended.
*/
module Merge {
  import opened Wrappers
  import opened Wire
  import opened Messages

  /** A proto3 scalar after merging: the incoming value if it was written at all. */
  function Pick(current: Bytes, incoming: Bytes): (r: Bytes)
    ensures |incoming| > 0 ==> r == incoming
    ensures |incoming| == 0 ==> r == current
  {
    if |incoming| > 0 then incoming else current
  }

  function MergeAddr(m: Addr, x: Addr): Addr
  {
    Addr(Pick(m.network, x.network), Pick(m.address, x.address), m.unrecognized + x.unrecognized)
  }

  function MergeTo(m: Option<Addr>, x: Option<Addr>): Option<Addr>
  {
    match x
    case None => m
    case Some(a) => Some(MergeAddr(m.GetOr(EmptyAddr), a))
  }

  function MergeDialRequest(m: DialRequest, x: DialRequest): DialRequest
  {
    DialRequest(
      Pick(m.serverID, x.serverID),
      Pick(m.connType, x.connType),
      MergeTo(m.to, x.to),
      m.unrecognized + x.unrecognized)
  }

  function MergeData(m: Data, x: Data): Data
  {
    Data(if |GetBytes(x)| > 0 then x.bytes else m.bytes, m.unrecognized + x.unrecognized)
  }

  /** The oneof a decoder rebuilds from the wrapper `p`, if `p` puts anything on the wire. */
  function DecodedPayload(p: Payload): Option<Payload>
  {
    match p
    case DialRequestPayload(Some(d)) => Some(DialRequestPayload(Some(MergeDialRequest(EmptyDialRequest, d))))
    case DataPayload(Some(d)) => Some(DataPayload(Some(MergeData(EmptyData, d))))
    case _ => None
  }

  /** The oneof after merging: replaced when the incoming oneof put a record on the wire. */
  function MergeOneof(current: Option<Payload>, incoming: Option<Payload>): Option<Payload>
  {
    var decoded := if incoming.Some? then DecodedPayload(incoming.value) else None;
    if decoded.Some? then decoded else current
  }

  function MergeFrame(m: Frame, x: Frame): Frame
  {
    Frame(MergeOneof(m.message, x.message), m.unrecognized + x.unrecognized)
  }

  /**
    A Data message other decoders cannot tell apart from its re-decoded
    self: a present but empty `Bytes` is not written, so it comes back nil.
  */
  predicate CanonicalData(d: Data)
  {
    d.bytes != Some([])
  }

  /** A Frame whose oneof survives a round trip: no nil wrapper, no present empty `Bytes`. */
  predicate CanonicalFrame(f: Frame)
  {
    match f.message
    case None => true
    case Some(DialRequestPayload(d)) => d.Some?
    case Some(DataPayload(d)) => d.Some? && CanonicalData(d.value)
  }

  /** Every Addr survives a fresh decode unchanged. */
  lemma MergeAddrIntoEmpty(a: Addr)
    ensures MergeAddr(EmptyAddr, a) == a
  {
  }

  /** Every DialRequest survives a fresh decode unchanged, its `To` included. */
  lemma MergeDialRequestIntoEmpty(d: DialRequest)
    ensures MergeDialRequest(EmptyDialRequest, d) == d
  {
    if d.to.Some? {
      MergeAddrIntoEmpty(d.to.value);
    }
  }

  /** A Data survives a fresh decode exactly when it is canonical. */
  lemma MergeDataIntoEmpty(d: Data)
    ensures MergeData(EmptyData, d) == d <==> CanonicalData(d)
  {
  }

  /** A Frame survives a fresh decode exactly when it is canonical. */
  lemma MergeFrameIntoEmpty(f: Frame)
    ensures MergeFrame(EmptyFrame, f) == f <==> CanonicalFrame(f)
  {
    match f.message
    case None =>
    case Some(DialRequestPayload(d)) =>
      if d.Some? {
        MergeDialRequestIntoEmpty(d.value);
      }
    case Some(DataPayload(d)) =>
      if d.Some? {
        MergeDataIntoEmpty(d.value);
      }
  }
}
