/**
  `skipTunnel`: the length of one complete field at the start of a buffer,
  descending into groups. Each message's `Unmarshal` calls it for a field
  number it does not know and keeps the skipped bytes verbatim.
*/
module Skip {
  import opened Wrappers
  import opened Wire

  /** The loop variables `iNdEx` and `depth` of `skipTunnel`. */
  datatype SkipState = SkipState(index: nat, depth: nat)

  /**
    One pass of the loop body up to (not including) the `iNdEx < 0` test:
    read the tag at `i`, then step over the payload its wire type announces.
    Wire type 0 re-runs the varint loop without keeping the value (same
    overflow and end-of-buffer tests), 1 and 5 jump 8 and 4 bytes without a
    bounds test, 2 reads a signed length, 3 and 4 open and close a group.
  */
  function SkipStep(data: Bytes, i: nat, depth: nat): (r: Result<SkipState, Error>)
    ensures r.Success? ==> r.value.index > i
  {
    var tag :- ReadVarint(data, i);
    var wireType := tag.value % 8;
    if wireType == 0 then
      var v :- ReadVarint(data, tag.next);
      Success(SkipState(v.next, depth))
    else if wireType == 1 then
      Success(SkipState(tag.next + 8, depth))
    else if wireType == 2 then
      var length :- ReadVarint(data, tag.next);
      // `length < 0` on Go's int: the uint64 pattern exceeds MaxInt
      if length.value > MaxInt then Failure(InvalidLength)
      else Success(SkipState(length.next + length.value, depth))
    else if wireType == 3 then
      Success(SkipState(tag.next, depth + 1))
    else if wireType == 4 then
      if depth == 0 then Failure(UnexpectedEndOfGroup)
      else Success(SkipState(tag.next, depth - 1))
    else if wireType == 5 then
      Success(SkipState(tag.next + 4, depth))
    else
      Failure(IllegalWireType(wireType))
  }

  /**
    The `for iNdEx < l` loop of `skipTunnel` from index `i` at group depth
    `depth`. An index past MaxInt is what Go's `iNdEx < 0` test catches
    (both summands lie in [0, MaxInt], so the sum wraps at most once).
  */
  function SkipLoop(data: Bytes, i: nat, depth: nat): (r: Result<nat, Error>)
    ensures r.Success? ==> i < r.value <= MaxInt
    decreases |data| - i
  {
    if i >= |data| then Failure(UnexpectedEOF)
    else
      var s :- SkipStep(data, i, depth);
      if s.index > MaxInt then Failure(InvalidLength)
      else if s.depth == 0 then Success(s.index)
      else SkipLoop(data, s.index, s.depth)
  }

  /** `skipTunnel(dAtA)`: the byte length of the field that starts `data`. */
  function SkipTunnel(data: Bytes): (r: Result<nat, Error>)
    ensures r.Success? ==> 0 < r.value <= MaxInt
    ensures |data| == 0 ==> r == Failure(UnexpectedEOF)
  {
    SkipLoop(data, 0, 0)
  }
}
