/**
 Bytes, fixed-width integers and base-128 varints, as the Kafka protocol guide
 ("Protocol Primitive Types") and Go's encoding/binary define them.
 Integers are mathematical; every width and wrap-around is written out.
 */
module Wire {
  type byte = b: int | 0 <= b < 0x100
  type bytes = seq<byte>

  type int8 = i: int | -0x80 <= i < 0x80
  type int16 = i: int | -0x8000 <= i < 0x8000
  type int32 = i: int | -0x8000_0000 <= i < 0x8000_0000
  type int64 = i: int | -0x8000_0000_0000_0000 <= i < 0x8000_0000_0000_0000
  type uint16 = i: int | 0 <= i < 0x1_0000
  type uint32 = i: int | 0 <= i < 0x1_0000_0000
  type uint64 = i: int | 0 <= i < 0x1_0000_0000_0000_0000

  const MAX_INT16 := 0x7fff
  const MAX_INT32 := 0x7fff_ffff
  const TWO_TO_THE_32 := 0x1_0000_0000
  const TWO_TO_THE_64 := 0x1_0000_0000_0000_0000

  datatype Option<+T> = None | Some(value: T)
  datatype Result<+T, +E> = Success(value: T) | Failure(error: E)

  // ----- Big-endian integers -----

  function Pow256(w: nat): nat {
    if w == 0 then 1 else 256 * Pow256(w - 1)
  }

  function PutBE(w: nat, u: nat): (b: bytes)
    ensures |b| == w
  {
    if w == 0 then [] else PutBE(w - 1, u / 256) + [u % 256]
  }

  function GetBE(b: bytes): nat {
    if b == [] then 0 else 256 * GetBE(b[..|b| - 1]) + b[|b| - 1]
  }

  lemma {:induction false} GetPutBE(w: nat, u: nat)
    requires u < Pow256(w)
    ensures GetBE(PutBE(w, u)) == u
  {
    if w > 0 {
      GetPutBE(w - 1, u / 256);
      assert PutBE(w, u)[..w - 1] == PutBE(w - 1, u / 256);
    }
  }

  lemma {:induction false} PutGetBE(b: bytes)
    ensures GetBE(b) < Pow256(|b|)
    ensures PutBE(|b|, GetBE(b)) == b
  {
    if b != [] {
      PutGetBE(b[..|b| - 1]);
      assert GetBE(b) / 256 == GetBE(b[..|b| - 1]);
    }
  }

  /** The two's complement bytes of i in w bytes, most significant first. */
  function IntBytes(w: nat, i: int): (b: bytes)
    ensures |b| == w
  {
    var u := if i < 0 then i + Pow256(w) else i;
    if u < 0 then PutBE(w, 0) else PutBE(w, u)
  }

  /** The signed integer that a big-endian byte string denotes. */
  function IntOf(b: bytes): int {
    var u := GetBE(b);
    if 2 * u >= Pow256(|b|) then u - Pow256(|b|) else u
  }

  /** i is a signed integer of w bytes. */
  predicate InWidth(w: nat, i: int) {
    0 <= 2 * i + Pow256(w) < 2 * Pow256(w)
  }

  lemma IntRoundTrip(w: nat, i: int)
    requires w > 0 && InWidth(w, i)
    ensures IntOf(IntBytes(w, i)) == i
  {
    GetPutBE(w, if i < 0 then i + Pow256(w) else i);
  }

  lemma IntBytesOf(b: bytes)
    requires b != []
    ensures InWidth(|b|, IntOf(b))
    ensures IntBytes(|b|, IntOf(b)) == b
  {
    PutGetBE(b);
    var u: int, m: int := GetBE(b), Pow256(|b|);
    if 2 * u >= m {
      assert IntOf(b) == u - m && IntOf(b) < 0;
    }
  }

  lemma Widths()
    ensures Pow256(1) == 0x100 && Pow256(2) == 0x1_0000
    ensures Pow256(4) == 0x1_0000_0000 && Pow256(8) == 0x1_0000_0000_0000_0000
  {
    assert Pow256(3) == 256 * Pow256(2);
    assert Pow256(5) == 256 * Pow256(4);
    assert Pow256(7) == 256 * Pow256(6);
  }

  /** Reinterpretation of a 64-bit pattern as signed, and back. */
  function ToInt64(u: uint64): int64 {
    if u >= 0x8000_0000_0000_0000 then u - TWO_TO_THE_64 else u
  }

  function ToUint64(i: int64): uint64 {
    if i < 0 then i + TWO_TO_THE_64 else i
  }

  /** The int64 subtraction length - 1, which wraps at the smallest int64. */
  function MinusOne64(length: int64): int64 {
    if length == -0x8000_0000_0000_0000 then 0x7fff_ffff_ffff_ffff else length - 1
  }

  /** Go's conversion int32(i): the low 32 bits, read as signed. */
  function ToInt32(i: int): int32 {
    var u := i % TWO_TO_THE_32;
    if u >= 0x8000_0000 then u - TWO_TO_THE_32 else u
  }

  // ----- Varints -----

  const MAX_VARINT_LEN_64 := 10

  datatype Uvarint =
    | UValue(u: uint64, n: nat)  // the value and the bytes it took
    | UShort                     // the buffer ends inside the varint
    | UOverflow(n: nat)          // more than 64 bits, seen after n bytes

  function PutUvarint(u: nat): (b: bytes)
    ensures |b| >= 1
  {
    if u < 128 then [u] else [u % 128 + 128] + PutUvarint(u / 128)
  }

  /** One more than the largest value that fits when i bytes of the varint are already read. */
  function VarintRoom(i: nat): (r: nat)
    requires i <= 9
    ensures 0 < r <= TWO_TO_THE_64
    ensures i < 9 ==> r == 128 * VarintRoom(i + 1)
    ensures i == 0 ==> r == TWO_TO_THE_64
    decreases 9 - i
  {
    [0x1_0000_0000_0000_0000, 0x200_0000_0000_0000, 0x4_0000_0000_0000, 0x800_0000_0000, 0x10_0000_0000,
     0x2000_0000, 0x40_0000, 0x8000, 0x100, 2][i]
  }

  /** Decodes the varint whose first i bytes have been read and whose remaining bytes start b. */
  function GetUvarintFrom(b: bytes, i: nat): (r: Uvarint)
    requires i <= MAX_VARINT_LEN_64
    ensures r.UValue? ==> i < 10 && 1 <= r.n <= |b| && r.n <= 10 - i && r.u < VarintRoom(i)
    ensures r.UOverflow? ==> 1 <= r.n <= |b|
  {
    if b == [] then UShort
    else if i == MAX_VARINT_LEN_64 then UOverflow(1)
    else if b[0] < 128 then
      if i == MAX_VARINT_LEN_64 - 1 && b[0] > 1 then UOverflow(1) else UValue(b[0], 1)
    else
      match GetUvarintFrom(b[1..], i + 1)
      case UShort => UShort
      case UOverflow(n) => UOverflow(n + 1)
      case UValue(u, n) => UValue(b[0] - 128 + 128 * u, n + 1)
  }

  function GetUvarint(b: bytes): (r: Uvarint)
    ensures r.UValue? ==> 1 <= r.n <= |b| && r.n <= 10
    ensures r.UOverflow? ==> 1 <= r.n <= |b|
  {
    GetUvarintFrom(b, 0)
  }

  lemma {:induction false} UvarintRoundTripFrom(u: nat, i: nat, rest: bytes)
    requires i < 10 && u < VarintRoom(i)
    ensures GetUvarintFrom(PutUvarint(u) + rest, i) == UValue(u, |PutUvarint(u)|)
    decreases u
  {
    var b := PutUvarint(u) + rest;
    if u >= 128 {
      UvarintRoundTripFrom(u / 128, i + 1, rest);
      assert b[1..] == PutUvarint(u / 128) + rest;
    }
  }

  /** Encoding then decoding a 64-bit value gives it back, whatever bytes follow. */
  lemma UvarintRoundTrip(u: uint64, rest: bytes)
    ensures GetUvarint(PutUvarint(u) + rest) == UValue(u, |PutUvarint(u)|)
  {
    UvarintRoundTripFrom(u, 0, rest);
  }

  /** A varint is minimal when its last group is not a superfluous zero. */
  predicate Minimal(b: bytes, n: nat)
    requires 1 <= n <= |b|
  {
    n == 1 || b[n - 1] != 0
  }

  lemma {:induction false} UvarintReencodeFrom(b: bytes, i: nat)
    requires i < 10 && GetUvarintFrom(b, i).UValue?
    ensures var r := GetUvarintFrom(b, i);
            && |PutUvarint(r.u)| <= r.n
            && (PutUvarint(r.u) == b[..r.n] <==> Minimal(b, r.n))
            && (!Minimal(b, r.n) ==> |PutUvarint(r.u)| < r.n)
            && (r.u == 0 ==> |PutUvarint(r.u)| == 1)
            && (r.n > 1 && b[r.n - 1] != 0 ==> r.u >= 128)
    decreases |b|
  {
    hide VarintRoom;
    if b[0] >= 128 {
      UvarintReencodeFrom(b[1..], i + 1);
      var r := GetUvarintFrom(b, i);
      var s := GetUvarintFrom(b[1..], i + 1);
      assert b[..r.n] == [b[0]] + b[1..][..s.n];
      assert b[r.n - 1] == b[1..][s.n - 1];
      if r.u >= 128 {
        assert PutUvarint(r.u) == [b[0]] + PutUvarint(s.u);
        assert PutUvarint(r.u)[1..] == PutUvarint(s.u);
        assert b[..r.n][1..] == b[1..][..s.n];
      } else {
        assert s.u == 0;
        assert |PutUvarint(r.u)| == 1;
      }
    } else {
      assert b[..1] == [b[0]];
    }
  }

  /** Re-encoding a decoded varint is never longer, and gives the same bytes exactly when they were minimal. */
  lemma UvarintReencode(b: bytes)
    requires GetUvarint(b).UValue?
    ensures var r := GetUvarint(b);
            && |PutUvarint(r.u)| <= r.n
            && (PutUvarint(r.u) == b[..r.n] <==> Minimal(b, r.n))
            && (!Minimal(b, r.n) ==> |PutUvarint(r.u)| < r.n)
  {
    UvarintReencodeFrom(b, 0);
  }
}
