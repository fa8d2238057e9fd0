/**
  The Protocol Buffers "Base 128 Varint" layer of the tunnel codec:
  `encodeVarintTunnel`, `sovTunnel`, and the varint-reading loop that every
  `Unmarshal` and `skipTunnel` repeats inline, together with the Go integer
  conversions those loops depend on.
*/
module Wire {
  import opened Wrappers

  type Byte = b: int | 0 <= b < 256

  type Bytes = seq<Byte>

  const Two32: int := 0x1_0000_0000
  const Two64: int := 0x1_0000_0000_0000_0000

  /** Go's `math.MaxInt` on a 64-bit platform; no slice length or index exceeds it. */
  const MaxInt: int := 0x7fff_ffff_ffff_ffff

  /** The errors the generated code returns. */
  datatype Error =
    | IntOverflow                                          // ErrIntOverflowTunnel
    | UnexpectedEOF                                        // io.ErrUnexpectedEOF
    | InvalidLength                                        // ErrInvalidLengthTunnel
    | UnexpectedEndOfGroup                                 // ErrUnexpectedEndOfGroupTunnel
    | EndGroupForNonGroup(message: string)                 // "wiretype end group for non-group"
    | IllegalTag(message: string, fieldNum: int, wire: nat) // "illegal tag %d (wire type %d)"
    | WrongWireType(field: string, wireType: int)          // "wrong wireType = %d for field ..."
    | IllegalWireType(wireType: int)                       // "illegal wireType %d"

  /** Go's `int32(x)`: keep the low 32 bits and read them as two's complement. */
  function Int32(x: nat): (r: int)
    ensures -0x8000_0000 <= r < 0x8000_0000
    ensures (r - x) % Two32 == 0
  {
    var low := x % Two32;
    if low < 0x8000_0000 then low else low - Two32
  }

  function Pow128(k: nat): (r: nat)
    ensures r >= 1
  {
    if k == 0 then 1 else 128 * Pow128(k - 1)
  }

  /** Go's `x << (7 * k)` on unbounded integers: a seven-bit group moved to byte position `k`. */
  function Shl7(x: nat, k: nat): nat
  {
    if k == 0 then x else 128 * Shl7(x, k - 1)
  }

  function Pow2(k: nat): (r: nat)
    ensures r >= 1
  {
    if k == 0 then 1 else 2 * Pow2(k - 1)
  }

  /** Go's `math/bits.Len64`: the number of bits needed to write `x`. */
  function BitLen(x: nat): nat
  {
    if x == 0 then 0 else 1 + BitLen(x / 2)
  }

  /** Go's `x|1`. */
  function OrOne(x: nat): (r: nat)
    ensures r % 2 == 1 && r / 2 == x / 2
  {
    if x % 2 == 0 then x + 1 else x
  }

  /** `sovTunnel`: the number of bytes the varint encoding of `x` occupies. */
  function Sov(x: nat): (r: nat)
    ensures r >= 1
  {
    (BitLen(OrOne(x)) + 6) / 7
  }

  /**
    The bytes `encodeVarintTunnel` writes for `v`: seven bits at a time, least
    significant group first, with the high bit set on every byte but the last.
  */
  function EncodeVarint(v: nat): (r: Bytes)
    ensures |r| >= 1
    decreases v
  {
    if v < 128 then [v] else [v % 128 + 128] + EncodeVarint(v / 128)
  }

  /** The result of one varint read: its value and the index just past it. */
  datatype VarintRead = VarintRead(value: nat, next: nat)

  /**
    The varint loop of the generated code, started at `data[i]`. Before each
    byte it fails with `ErrIntOverflowTunnel` once the shift reaches 64 and
    with `io.ErrUnexpectedEOF` at the end of the buffer; it ORs the low seven
    bits of the byte in at the current shift and stops after a byte below 0x80.

    `k` is the number of bytes already consumed (so the shift is `7 * k`) and
    `acc` their contribution. The seven-bit groups land on disjoint bit
    ranges, so Go's OR equals the sum; Go's shift truncates to 64 bits, which
    is the final reduction modulo 2^64.
  */
  function ReadVarintFrom(data: Bytes, i: nat, k: nat, acc: nat): (r: Result<VarintRead, Error>)
    requires k <= 10
    ensures r.Success? ==> i + k < r.value.next <= |data| && r.value.next <= i + 10
    ensures r.Success? ==> r.value.value < Two64
    decreases 10 - k
  {
    if 7 * k >= 64 then Failure(IntOverflow)
    else if i + k >= |data| then Failure(UnexpectedEOF)
    else
      var b := data[i + k];
      var acc' := acc + Shl7(b % 128, k);
      if b < 128 then Success(VarintRead(acc' % Two64, i + k + 1))
      else ReadVarintFrom(data, i, k + 1, acc')
  }

  /** Read one varint starting at `data[i]`. */
  function ReadVarint(data: Bytes, i: nat): (r: Result<VarintRead, Error>)
    ensures r.Success? ==> i < r.value.next <= |data| && r.value.next <= i + 10
    ensures r.Success? ==> r.value.value < Two64
  {
    ReadVarintFrom(data, i, 0, 0)
  }

  /** A window of `data` that spells `a + b` spells `a`, then `b`. */
  lemma SplitWindow(data: Bytes, i: nat, j: nat, end: nat, a: Bytes, b: Bytes)
    requires j == i + |a| && end == j + |b| && end <= |data|
    requires data[i .. end] == a + b
    ensures data[i .. j] == a
    ensures data[j .. end] == b
  {
    assert data[i .. j] == data[i .. end][.. |a|];
    assert data[j .. end] == data[i .. end][|a| ..];
  }
}
