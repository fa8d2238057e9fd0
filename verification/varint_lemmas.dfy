/**
  Facts about the varint layer: `sovTunnel` agrees with what
  `encodeVarintTunnel` writes, the encoding is 1 to 10 bytes with continuation
  bits on all but the last, and the reading loop inverts it, reports a cut-off
  varint as `io.ErrUnexpectedEOF` and an over-long one as `ErrIntOverflowTunnel`.
*/
module VarintLemmas {
  import opened Wrappers
  import opened Wire

  lemma {:induction false} BitLenBound(x: nat, n: nat)
    requires x < Pow2(n)
    ensures BitLen(x) <= n
    decreases n
  {
    if x != 0 {
      BitLenBound(x / 2, n - 1);
    }
  }

  /** Dropping seven low bits shortens the bit length by exactly seven. */
  lemma BitLenShift7(x: nat)
    requires x >= 128
    ensures BitLen(x) == 7 + BitLen(x / 128)
  {
    var x1 := x / 2;
    var x2 := x1 / 2;
    var x3 := x2 / 2;
    var x4 := x3 / 2;
    var x5 := x4 / 2;
    var x6 := x5 / 2;
    var x7 := x6 / 2;
    assert x7 == x / 128;
    assert BitLen(x6) == 1 + BitLen(x7);
    assert BitLen(x5) == 1 + BitLen(x6);
    assert BitLen(x4) == 1 + BitLen(x5);
    assert BitLen(x3) == 1 + BitLen(x4);
    assert BitLen(x2) == 1 + BitLen(x3);
    assert BitLen(x1) == 1 + BitLen(x2);
  }

  /** `sovTunnel(v)` is the number of bytes `encodeVarintTunnel` writes for `v`. */
  lemma {:induction false} SovIsEncodedLength(v: nat)
    ensures Sov(v) == |EncodeVarint(v)|
    decreases v
  {
    if v < 128 {
      assert Pow2(7) == 128;
      BitLenBound(OrOne(v), 7);
      assert BitLen(OrOne(v)) >= 1;
    } else {
      var w := v / 128;
      assert OrOne(v) / 128 == w;
      BitLenShift7(OrOne(v));
      assert BitLen(OrOne(w)) == BitLen(w) by {
        assert BitLen(OrOne(w)) == 1 + BitLen(OrOne(w) / 2);
      }
      assert BitLen(OrOne(v)) == 7 + BitLen(OrOne(w));
      SovIsEncodedLength(w);
    }
  }

  lemma {:induction false} EncodedLengthBound(v: nat, k: nat)
    requires k >= 1
    requires v < Pow128(k)
    ensures |EncodeVarint(v)| <= k
    decreases k
  {
    if v >= 128 {
      assert k >= 2 && v / 128 < Pow128(k - 1);
      EncodedLengthBound(v / 128, k - 1);
    }
  }

  lemma Two64BelowPow128Ten()
    ensures Two64 < Pow128(10)
  {
    assert Pow128(1) == 128;
    assert Pow128(2) == 128 * 128;
    assert Pow128(4) == Pow128(2) * Pow128(2) by {
      assert Pow128(4) == 128 * 128 * Pow128(2);
    }
    assert Pow128(8) == 0x1_0000_0000_0000_00;
    assert Pow128(10) == 0x40_0000_0000_0000_0000;
  }

  /** A uint64 value takes between one and ten bytes on the wire. */
  lemma VarintSizeBounds(v: nat)
    requires v < Two64
    ensures 1 <= Sov(v) <= 10
  {
    EncodedLengthAtMostTen(v);
    SovIsEncodedLength(v);
  }

  /** Every byte but the last carries the continuation bit 0x80; the last does not. */
  lemma {:induction false} ContinuationBits(v: nat)
    ensures forall j :: 0 <= j < |EncodeVarint(v)| - 1 ==> EncodeVarint(v)[j] >= 128
    ensures EncodeVarint(v)[|EncodeVarint(v)| - 1] < 128
    decreases v
  {
    if v >= 128 {
      ContinuationBits(v / 128);
      var e := EncodeVarint(v);
      assert e == [v % 128 + 128] + EncodeVarint(v / 128);
      forall j | 0 <= j < |e| - 1
        ensures e[j] >= 128
      {
        if j > 0 {
          assert e[j] == EncodeVarint(v / 128)[j - 1];
        }
      }
    }
  }

  /**
    The encoder writes the shortest form: a varint of more than one byte
    never ends in the byte 0x00, which would add nothing to the value.
  */
  lemma {:induction false} ShortestForm(v: nat)
    ensures |EncodeVarint(v)| > 1 ==> EncodeVarint(v)[|EncodeVarint(v)| - 1] != 0
    decreases v
  {
    if v >= 128 {
      ShortestForm(v / 128);
      var e := EncodeVarint(v);
      assert e == [v % 128 + 128] + EncodeVarint(v / 128);
      assert e[|e| - 1] == EncodeVarint(v / 128)[|EncodeVarint(v / 128)| - 1];
    }
  }

  /** Shifting distributes over the sum of two groups. */
  lemma {:induction false} Shl7Add(a: nat, b: nat, k: nat)
    ensures Shl7(a, k) + Shl7(b, k) == Shl7(a + b, k)
    decreases k
  {
    if k > 0 {
      Shl7Add(a, b, k - 1);
    }
  }

  /** Shifting by one more group is shifting seven bits further first. */
  lemma {:induction false} Shl7Succ(x: nat, k: nat)
    ensures Shl7(x, k + 1) == Shl7(128 * x, k)
    decreases k
  {
    if k > 0 {
      Shl7Succ(x, k - 1);
    }
  }

  /** The low group of `w` at position `k` and the rest of `w` at `k + 1` make up `w` at `k`. */
  lemma SplitLowGroup(w: nat, k: nat)
    ensures Shl7(w % 128, k) + Shl7(w / 128, k + 1) == Shl7(w, k)
  {
    Shl7Succ(w / 128, k);
    Shl7Add(w % 128, 128 * (w / 128), k);
  }

  /** The reading loop, resumed after `k` bytes, consumes the encoding of `w` in `data[i + k .. j]`. */
  lemma {:induction false} ReadFromEncoded(data: Bytes, i: nat, k: nat, j: nat, acc: nat, w: nat)
    requires j == i + k + |EncodeVarint(w)| <= |data|
    requires k + |EncodeVarint(w)| <= 10
    requires data[i + k .. j] == EncodeVarint(w)
    ensures ReadVarintFrom(data, i, k, acc) == Success(VarintRead((acc + Shl7(w, k)) % Two64, j))
    decreases w
  {
    var e := EncodeVarint(w);
    var b := data[i + k];
    assert b == e[0];
    if w >= 128 {
      var rest := EncodeVarint(w / 128);
      assert e == [w % 128 + 128] + rest;
      assert b % 128 == w % 128;
      var acc' := acc + Shl7(w % 128, k);
      assert ReadVarintFrom(data, i, k, acc) == ReadVarintFrom(data, i, k + 1, acc');
      assert data[i + (k + 1) .. j] == rest by {
        assert data[i + k .. j][1..] == e[1..];
      }
      ReadFromEncoded(data, i, k + 1, j, acc', w / 128);
      SplitLowGroup(w, k);
    } else {
      assert e == [w];
    }
  }

  /** A uint64 takes at most ten bytes. */
  lemma EncodedLengthAtMostTen(v: nat)
    requires v < Two64
    ensures |EncodeVarint(v)| <= 10
  {
    Two64BelowPow128Ten();
    EncodedLengthBound(v, 10);
  }

  /** Decoding the bytes `encodeVarintTunnel` writes for a uint64 gives it back. */
  lemma ReadEncodedVarint(data: Bytes, i: nat, j: nat, v: nat)
    requires v < Two64
    requires j == i + |EncodeVarint(v)| <= |data|
    requires data[i .. j] == EncodeVarint(v)
    ensures ReadVarint(data, i) == Success(VarintRead(v, j))
  {
    EncodedLengthAtMostTen(v);
    ModBelow(v, Two64);
    assert data[i + 0 .. j] == EncodeVarint(v);
    ReadFromEncoded(data, i, 0, j, 0, v);
  }

  lemma ModBelow(x: nat, n: nat)
    requires x < n
    ensures x % n == x
  {
  }

  lemma {:induction false} ReadFromTruncated(data: Bytes, i: nat, k: nat, acc: nat, w: nat)
    requires k + |EncodeVarint(w)| <= 10
    requires |data| < i + k + |EncodeVarint(w)|
    requires i + k <= |data|
    requires data[i + k ..] == EncodeVarint(w)[.. |data| - i - k]
    ensures ReadVarintFrom(data, i, k, acc) == Failure(UnexpectedEOF)
    decreases w
  {
    var e := EncodeVarint(w);
    if i + k < |data| {
      assert w >= 128;
      var rest := EncodeVarint(w / 128);
      assert e == [w % 128 + 128] + rest;
      assert data[i + k] == e[0] >= 128;
      assert data[i + k + 1 ..] == rest[.. |data| - i - k - 1] by {
        assert data[i + k ..][1..] == e[.. |data| - i - k][1..];
      }
      ReadFromTruncated(data, i, k + 1, acc + Shl7(data[i + k] % 128, k), w / 128);
    }
  }

  /** A varint cut off by the end of the buffer is `io.ErrUnexpectedEOF`. */
  lemma ReadTruncatedVarint(data: Bytes, i: nat, v: nat)
    requires v < Two64
    requires i <= |data| < i + |EncodeVarint(v)|
    requires data[i..] == EncodeVarint(v)[.. |data| - i]
    ensures ReadVarint(data, i) == Failure(UnexpectedEOF)
  {
    EncodedLengthAtMostTen(v);
    ReadFromTruncated(data, i, 0, 0, v);
  }

  lemma {:induction false} ReadFromOverlong(data: Bytes, i: nat, k: nat, acc: nat)
    requires k <= 10
    requires i + 10 <= |data|
    requires forall j :: i + k <= j < i + 10 ==> data[j] >= 128
    ensures ReadVarintFrom(data, i, k, acc) == Failure(IntOverflow)
    decreases 10 - k
  {
    if k < 10 {
      ReadFromOverlong(data, i, k + 1, acc + Shl7(data[i + k] % 128, k));
    }
  }

  /** Ten continuation bytes in a row would need a shift of 70: `ErrIntOverflowTunnel`. */
  lemma ReadOverlongVarint(data: Bytes, i: nat)
    requires i + 10 <= |data|
    requires forall j :: i <= j < i + 10 ==> data[j] >= 128
    ensures ReadVarint(data, i) == Failure(IntOverflow)
  {
    ReadFromOverlong(data, i, 0, 0);
  }
}
