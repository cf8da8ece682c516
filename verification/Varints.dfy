/**
 Zigzag varints of record batches: the length table and the decoder of the encryption plugins
 (plugin/vault-encryption/main.go), and the reading and writing they use from kmsg's internal/kbin/primitives.go.
 */
module Varints {
  import opened Wire

  // ----- Zigzag -----

  /** uint32(i)<<1 ^ uint32(i>>31), and the same on 64 bits. */
  function ZigZag(i: int): nat {
    if i >= 0 then 2 * i else -2 * i - 1
  }

  /** int32(u>>1) ^ -int32(u&1). */
  function UnZigZag(u: nat): int {
    if u % 2 == 0 then u / 2 else -(u / 2) - 1
  }

  /** On the 32-bit pattern u of i < 0, of which !u is -i - 1: shifting and flipping gives 2 * !u + 1, and back. */
  lemma ZigZagNegative32(u: bv32)
    requires u >= 0x8000_0000
    ensures (u << 1) ^ 0xffff_ffff == (!u << 1) | 1
    ensures ((((u << 1) ^ 0xffff_ffff) >> 1) ^ 0xffff_ffff) == u
  {
  }

  /** On the 64-bit pattern u of i < 0, of which !u is -i - 1: shifting and flipping gives 2 * !u + 1, and back. */
  lemma ZigZagNegative64(u: bv64)
    requires u >= 0x8000_0000_0000_0000
    ensures (u << 1) ^ 0xffff_ffff_ffff_ffff == (!u << 1) | 1
    ensures ((((u << 1) ^ 0xffff_ffff_ffff_ffff) >> 1) ^ 0xffff_ffff_ffff_ffff) == u
  {
  }

  lemma UnZigZagInverts(i: int)
    ensures UnZigZag(ZigZag(i)) == i
    ensures -0x8000_0000 <= i < 0x8000_0000 <==> ZigZag(i) < TWO_TO_THE_32
    ensures -0x8000_0000_0000_0000 <= i < 0x8000_0000_0000_0000 <==> ZigZag(i) < TWO_TO_THE_64
  {
  }

  // ----- The length table -----

  const LENS_BELOW_29: seq<nat> :=
    [1] + [1, 1, 1, 1, 1, 1, 1] + [2, 2, 2, 2, 2, 2, 2] + [3, 3, 3, 3, 3, 3, 3] + [4, 4, 4, 4, 4, 4, 4]

  const LENS_FROM_29: seq<nat> :=
    [5, 5, 5, 5, 5, 5, 5] + [6, 6, 6, 6, 6, 6, 6] + [7, 7, 7, 7, 7, 7, 7] + [8, 8, 8, 8, 8, 8, 8]
    + [9, 9, 9, 9, 9, 9, 9] + [10]

  /** uvarintLens, without the entries no length reaches. */
  function UvarintLens(bits: nat): nat
    requires bits <= 64
  {
    (LENS_BELOW_29 + LENS_FROM_29)[bits]
  }

  /** bits.Len64: the bits needed for u. */
  function BitLen(u: nat): nat {
    if u == 0 then 0 else 1 + BitLen(u / 2)
  }

  function Pow2(k: nat): (p: nat)
    ensures p >= 1
  {
    if k == 0 then 1 else 2 * Pow2(k - 1)
  }

  lemma {:induction false} BitLenBound(u: nat, k: nat)
    ensures BitLen(u) <= k <==> u < Pow2(k)
    decreases k
  {
    if k == 0 {
      assert u > 0 ==> BitLen(u) >= 1;
    } else if u > 0 {
      BitLenBound(u / 2, k - 1);
    }
  }

  lemma Pow2Values()
    ensures Pow2(7) == 128 && Pow2(32) == TWO_TO_THE_32 && Pow2(64) == TWO_TO_THE_64
  {
    assert Pow2(4) == 16 && Pow2(7) == 8 * Pow2(4);
    assert Pow2(10) == 8 * Pow2(7) && Pow2(13) == 8 * Pow2(10) && Pow2(16) == 8 * Pow2(13);
    assert Pow2(19) == 8 * Pow2(16) && Pow2(22) == 8 * Pow2(19) && Pow2(25) == 8 * Pow2(22) && Pow2(28) == 8 * Pow2(25);
    assert Pow2(31) == 8 * Pow2(28) && Pow2(34) == 8 * Pow2(31) && Pow2(37) == 8 * Pow2(34) && Pow2(40) == 8 * Pow2(37);
    assert Pow2(43) == 8 * Pow2(40) && Pow2(46) == 8 * Pow2(43) && Pow2(49) == 8 * Pow2(46) && Pow2(52) == 8 * Pow2(49);
    assert Pow2(55) == 8 * Pow2(52) && Pow2(58) == 8 * Pow2(55) && Pow2(61) == 8 * Pow2(58) && Pow2(64) == 8 * Pow2(61);
  }

  lemma LensRange(k: nat)
    requires k <= 64
    ensures if k == 0 then UvarintLens(k) == 1 else 7 * UvarintLens(k) - 6 <= k <= 7 * UvarintLens(k)
  {
    if k < 29 {
      LowRange(k);
    } else {
      HighRange(k - 29);
    }
  }

  lemma LowRange(k: nat)
    requires k < 29
    ensures if k == 0 then LENS_BELOW_29[k] == 1 else 7 * LENS_BELOW_29[k] - 6 <= k <= 7 * LENS_BELOW_29[k]
  {
  }

  lemma HighRange(k: nat)
    requires k < 36
    ensures 7 * LENS_FROM_29[k] - 6 <= k + 29 <= 7 * LENS_FROM_29[k]
  {
  }

  lemma BitLenOfGroup(u: nat)
    requires u >= 128
    ensures BitLen(u) == BitLen(u / 128) + 7
  {
    assert BitLen(u) == 1 + BitLen(u / 2) && u / 2 / 2 == u / 4;
    assert BitLen(u / 2) == 1 + BitLen(u / 4) && u / 4 / 2 == u / 8;
    assert BitLen(u / 4) == 1 + BitLen(u / 8) && u / 8 / 2 == u / 16;
    assert BitLen(u / 8) == 1 + BitLen(u / 16) && u / 16 / 2 == u / 32;
    assert BitLen(u / 16) == 1 + BitLen(u / 32) && u / 32 / 2 == u / 64;
    assert BitLen(u / 32) == 1 + BitLen(u / 64) && u / 64 / 2 == u / 128;
  }

  /** uvarintLen and uvarlongLen. */
  function UvarintLen(u: uint64): nat {
    BitLenBound(u, 64);
    Pow2Values();
    UvarintLens(BitLen(u))
  }

  /** The table gives the exact number of base-128 groups of every 64-bit value, 32-bit values included. */
  lemma {:induction false} UvarintLenExact(u: uint64)
    ensures UvarintLen(u) == |PutUvarint(u)|
  {
    hide UvarintLens;
    Pow2Values();
    BitLenBound(u, 64);
    BitLenBound(u, 7);
    LensRange(BitLen(u));
    if u >= 128 {
      UvarintLenExact(u / 128);
      BitLenOfGroup(u);
      BitLenBound(u / 128, 64);
      LensRange(BitLen(u / 128));
    }
  }

  /** appendUvarlong and AppendUvarint: the table picks how many groups to write. */
  function AppendGroups(u: nat, n: nat): bytes {
    if n == 0 then []
    else if n == 1 then [u % 0x100]
    else [u % 128 + 128] + AppendGroups(u / 128, n - 1)
  }

  lemma {:induction false} AppendIsPut(u: uint64)
    ensures AppendGroups(u, UvarintLen(u)) == PutUvarint(u)
  {
    hide UvarintLen;
    UvarintLenExact(u);
    if u >= 128 {
      AppendIsPut(u / 128);
      UvarintLenExact(u / 128);
    }
  }

  // ----- Writing and reading -----

  /** AppendVarint and AppendVarlong. */
  function PutVarint(i: int64): (b: bytes) {
    PutUvarint(ZigZag(i))
  }

  function VarintLen(i: int64): nat {
    UnZigZagInverts(i);
    UvarintLen(ZigZag(i))
  }

  lemma VarintLenExact(i: int64)
    ensures VarintLen(i) == |PutVarint(i)|
  {
    UnZigZagInverts(i);
    UvarintLenExact(ZigZag(i));
  }

  /** kbin.Uvarint: five bytes at most, the fifth below 16. i bytes of the varint have been read. */
  function ReadUvarint32From(b: bytes, i: nat): (r: Uvarint)
    requires i <= 4
    ensures r.UValue? ==> 1 <= r.n <= |b| && r.n <= 5 - i && r.u < Room32(i)
  {
    if b == [] then UShort
    else if i == 4 then if b[0] <= 0x0f then UValue(b[0], 1) else UOverflow(1)
    else if b[0] < 128 then UValue(b[0], 1)
    else
      match ReadUvarint32From(b[1..], i + 1)
      case UShort => UShort
      case UOverflow(n) => UOverflow(n + 1)
      case UValue(u, n) => UValue(b[0] - 128 + 128 * u, n + 1)
  }

  function Room32(i: nat): (r: nat)
    requires i <= 4
    ensures 0 < r <= TWO_TO_THE_32
    ensures i < 4 ==> r == 128 * Room32(i + 1)
    ensures i == 0 ==> r == TWO_TO_THE_32
    decreases 4 - i
  {
    [0x1_0000_0000, 0x200_0000, 0x4_0000, 0x800, 16][i]
  }

  /** The plugins' own uvarintDecode: the fifth byte loses its high bits, nothing is checked. */
  function PeekUvarintFrom(b: bytes, i: nat): (r: Uvarint)
    requires i <= 5
    ensures r.UValue? ==> i <= 4 && 1 <= r.n <= |b| && r.n <= 5 - i && r.u < Room32(i)
  {
    if b == [] then UShort
    else if i == 5 then UOverflow(1)
    else if b[0] < 128 then UValue(if i == 4 then b[0] % 16 else b[0], 1)
    else
      match PeekUvarintFrom(b[1..], i + 1)
      case UShort => UShort
      case UOverflow(n) => UOverflow(n + 1)
      case UValue(u, n) => UValue(b[0] - 128 + 128 * u, n + 1)
  }

  lemma {:induction false} ReadersAgreeFrom(b: bytes, i: nat)
    requires i <= 4
    ensures ReadUvarint32From(b, i).UValue? ==> PeekUvarintFrom(b, i) == ReadUvarint32From(b, i)
    ensures PeekUvarintFrom(b, i).UValue? ==>
              (ReadUvarint32From(b, i).UValue? <==> PeekUvarintFrom(b, i).n < 5 - i || b[4 - i] <= 0x0f)
    decreases |b|
  {
    if b != [] && b[0] >= 128 && i < 4 {
      ReadersAgreeFrom(b[1..], i + 1);
    }
  }

  /** The two decoders differ exactly on five-byte varints with more than 32 bits, which only the plugins' one accepts. */
  lemma ReadersAgree(b: bytes)
    ensures ReadUvarint32From(b, 0).UValue? ==> PeekUvarintFrom(b, 0) == ReadUvarint32From(b, 0)
    ensures PeekUvarintFrom(b, 0).UValue? ==>
              (ReadUvarint32From(b, 0).UValue? <==> PeekUvarintFrom(b, 0).n < 5 || b[4] <= 0x0f)
  {
    ReadersAgreeFrom(b, 0);
  }

  lemma {:induction false} ReadUvarint32RoundTrip(u: nat, i: nat, rest: bytes)
    requires i <= 4 && u < Room32(i)
    ensures ReadUvarint32From(PutUvarint(u) + rest, i) == UValue(u, |PutUvarint(u)|)
    decreases u
  {
    var b := PutUvarint(u) + rest;
    if u >= 128 {
      ReadUvarint32RoundTrip(u / 128, i + 1, rest);
      assert b[1..] == PutUvarint(u / 128) + rest;
    }
  }

  /** varintDecode: the value and the bytes it took, none or a negative number of them on failure. */
  function VarintDecode(b: bytes): (int32, int) {
    match PeekUvarintFrom(b, 0)
    case UValue(u, n) => (UnZigZag(u), n)
    case UShort => (0, 0)
    case UOverflow(n) => (0, -5)
  }

  /** varintDecode inverts the zigzag encoding of every int32, whatever bytes follow. */
  lemma VarintDecodeInverts(i: int32, rest: bytes)
    ensures VarintDecode(PutVarint(i) + rest) == (i, |PutVarint(i)|)
  {
    UnZigZagInverts(i);
    ReadUvarint32RoundTrip(ZigZag(i), 0, rest);
    ReadersAgree(PutVarint(i) + rest);
  }

  /** A decoder that has collected acc in its first i bytes, with the outcome r of the rest. */
  function Continued(acc: nat, i: nat, r: Uvarint): Uvarint
    requires i <= 5 && acc < Shift(i) && (r.UValue? ==> i <= 4 && r.u < Room32(i))
  {
    match r
    case UValue(u, n) => ShiftBound(acc, i, u); UValue(acc + Shift(i) * u, n + i)
    case UShort => UShort
    case UOverflow(n) => UOverflow(n + i)
  }

  function Shift(i: nat): (p: nat)
    requires i <= 5
    ensures p >= 1
  {
    [1, 0x80, 0x4000, 0x20_0000, 0x1000_0000, 0x8_0000_0000][i]
  }

  lemma ShiftBound(acc: nat, i: nat, u: nat)
    requires i <= 4 && acc < Shift(i) && u < Room32(i)
    ensures acc + Shift(i) * u < TWO_TO_THE_32
  {
    assert i == 0 || i == 1 || i == 2 || i == 3 || i == 4;
  }

  lemma ContinueStep(b: bytes, acc: nat, i: nat)
    requires i <= 4 && b != [] && b[0] >= 128 && acc < Shift(i)
    ensures acc + (b[0] - 128) * Shift(i) < Shift(i + 1)
    ensures Continued(acc, i, PeekUvarintFrom(b, i)) ==
            Continued(acc + (b[0] - 128) * Shift(i), i + 1, PeekUvarintFrom(b[1..], i + 1))
  {
    assert i == 0 || i == 1 || i == 2 || i == 3 || i == 4;
  }

  /** uvarintDecode, the loop. */
  method UvarintDecode(b: bytes) returns (x: uint32, n: int)
    ensures match PeekUvarintFrom(b, 0)
            case UValue(u, k) => x == u && n == k
            case UShort => x == 0 && n == 0
            case UOverflow(_) => x == 0 && n == -5
  {
    var acc := 0;
    var i := 0;
    while i < |b|
      invariant 0 <= i <= |b| && i <= 5 && 0 <= acc < Shift(i)
      invariant Continued(acc, i, PeekUvarintFrom(b[i..], i)) == PeekUvarintFrom(b, 0)
    {
      hide Continued;
      if i >= 5 {
        return 0, -i;
      }
      if b[i] < 0x80 {
        LastGroup(acc, i, b[i]);
        return (acc + b[i] * Shift(i)) % TWO_TO_THE_32, i + 1;
      }
      ContinueStep(b[i..], acc, i);
      assert b[i..][1..] == b[i + 1..];
      acc, i := acc + (b[i] - 0x80) * Shift(i), i + 1;
    }
    return 0, 0;
  }

  lemma LastGroup(acc: nat, i: nat, c: byte)
    requires i <= 4 && acc < Shift(i) && c < 128
    ensures (acc + c * Shift(i)) % TWO_TO_THE_32 == acc + Shift(i) * (if i == 4 then c % 16 else c)
  {
    assert i == 0 || i == 1 || i == 2 || i == 3 || i == 4;
  }
}
