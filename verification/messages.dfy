/**
  The four messages of the tunnel protocol as immutable values.

  Go strings are byte strings, so `ServerID`, `ConnType`, `Network` and
  `Address` are byte sequences like `Bytes`. A nil pointer is `None`; the
  `Data.Bytes` slice keeps its nil/empty distinction because `Unmarshal`
  makes it observable. `XXX_unrecognized` is a plain sequence: a nil slice
  and an empty one have the same size and the same encoding, and decoding
  never appends an empty run.
*/
module Messages {
  import opened Wrappers
  import opened Wire

  datatype Addr = Addr(network: Bytes, address: Bytes, unrecognized: Bytes)

  datatype DialRequest = DialRequest(
    serverID: Bytes,
    connType: Bytes,
    to: Option<Addr>,
    unrecognized: Bytes)

  datatype Data = Data(bytes: Option<Bytes>, unrecognized: Bytes)

  /** The `Message` oneof: a `*Frame_DialRequest` or `*Frame_Data` wrapper, whose own payload pointer may be nil. */
  datatype Payload =
    | DialRequestPayload(dialRequest: Option<DialRequest>)
    | DataPayload(data: Option<Data>)

  datatype Frame = Frame(message: Option<Payload>, unrecognized: Bytes)

  /** The zero values `&Addr{}`, `&DialRequest{}`, `&Data{}` and `&Frame{}`. */
  const EmptyAddr: Addr := Addr([], [], [])
  const EmptyDialRequest: DialRequest := DialRequest([], [], None, [])
  const EmptyData: Data := Data(None, [])
  const EmptyFrame: Frame := Frame(None, [])

  /** `Frame.GetDialRequest`: the dial request when the oneof holds that variant. */
  function GetDialRequest(f: Frame): (r: Option<DialRequest>)
    ensures f.message.Some? && f.message.value.DialRequestPayload? ==> r == f.message.value.dialRequest
    ensures !(f.message.Some? && f.message.value.DialRequestPayload?) ==> r.None?
  {
    match f.message
    case Some(DialRequestPayload(d)) => d
    case _ => None
  }

  /** `Frame.GetData`: the data chunk when the oneof holds that variant. */
  function GetData(f: Frame): (r: Option<Data>)
    ensures f.message.Some? && f.message.value.DataPayload? ==> r == f.message.value.data
    ensures !(f.message.Some? && f.message.value.DataPayload?) ==> r.None?
  {
    match f.message
    case Some(DataPayload(d)) => d
    case _ => None
  }

  /** `Data.GetBytes`: nil reads as the empty slice. */
  function GetBytes(d: Data): (r: Bytes)
    ensures d.bytes.Some? ==> r == d.bytes.value
    ensures d.bytes.None? ==> r == []
  {
    d.bytes.GetOr([])
  }

  /** At most one of the two oneof getters returns a non-nil message. */
  lemma OneofGettersExclusive(f: Frame)
    ensures GetDialRequest(f).None? || GetData(f).None?
  {
  }
}
