/**
 The decoder (proxy/protocol/real_decoder.go and the decode methods of schema.go): every getter
 advances an offset over a byte slice it never changes.
 */
module Decoder {
  import opened Wire
  import opened SchemaModel

  class RealDecoder {
    const raw: bytes
    var off: nat

    constructor (raw: bytes)
      ensures this.raw == raw && off == 0
    {
      this.raw := raw;
      off := 0;
    }

    /** The offset never leaves the buffer. */
    ghost predicate Valid()
      reads this
    {
      off <= |raw|
    }

    /** The unread bytes. */
    ghost function Rest(): bytes
      requires Valid()
      reads this
    {
      raw[off..]
    }

    /** The getter did what p describes: same value or error, and the offset moved forward by p.n. */
    ghost predicate Gave<T(!new)>(p: Parsed<T>, r: Result<T, DecodeError>, before: nat)
      reads this
    {
      && off == before + p.n
      && (match p
          case Ok(v, _) => r == Success(v)
          case Err(e, _) => r == Failure(e))
    }

    function Remaining(): nat
      requires Valid()
      reads this
    {
      |raw| - off
    }

    method GetFixed(w: nat) returns (r: Result<int, DecodeError>)
      requires Valid()
      modifies this
      ensures Valid() && Gave(GetInt(w, old(Rest())), r, old(off))
    {
      if Remaining() < w {
        off := |raw|;
        return Failure(InsufficientData);
      }
      r := Success(IntOf(raw[off..off + w]));
      assert raw[off..][..w] == raw[off..off + w];
      off := off + w;
    }

    method GetVarint() returns (r: Result<int64, DecodeError>)
      requires Valid()
      modifies this
      ensures Valid() && Gave(SchemaModel.GetVarint(old(Rest())), r, old(off))
    {
      match GetUvarint(raw[off..])
      case UShort =>
        off := |raw|;
        r := Failure(InsufficientData);
      case UOverflow(n) =>
        off := off + n;
        r := Failure(VarintOverflow);
      case UValue(u, n) =>
        off := off + n;
        r := Success(ToInt64(u));
    }

    method GetArrayLength() returns (r: Result<int, DecodeError>)
      requires Valid()
      modifies this
      ensures Valid() && Gave(SchemaModel.GetArrayLength(old(Rest())), r, old(off))
    {
      if Remaining() < 4 {
        off := |raw|;
        return Failure(InsufficientData);
      }
      var n := IntOf(raw[off..off + 4]);
      assert raw[off..][..4] == raw[off..off + 4];
      off := off + 4;
      if n > Remaining() {
        off := |raw|;
        return Failure(InsufficientData);
      } else if n > MAX_ARRAY_LENGTH {
        return Failure(InvalidArrayLength);
      }
      r := Success(n);
    }

    method GetBool() returns (r: Result<bool, DecodeError>)
      requires Valid()
      modifies this
      ensures Valid() && Gave(SchemaModel.GetBool(old(Rest())), r, old(off))
    {
      var b := GetFixed(1);
      if b.Failure? {
        return Failure(b.error);
      }
      if b.value == 0 {
        return Success(false);
      }
      if b.value != 1 {
        return Failure(InvalidBool);
      }
      r := Success(true);
    }

    method GetRawBytes(length: int) returns (r: Result<bytes, DecodeError>)
      requires Valid()
      modifies this
      ensures Valid() && Gave(SchemaModel.GetRawBytes(length, old(Rest())), r, old(off))
    {
      if length < 0 {
        return Failure(InvalidByteSliceLength);
      } else if length > Remaining() {
        off := |raw|;
        return Failure(InsufficientData);
      }
      var start := off;
      off := off + length;
      assert raw[start..][..length] == raw[start..off];
      r := Success(raw[start..off]);
    }

    method GetVarintBytes() returns (r: Result<Option<bytes>, DecodeError>)
      requires Valid()
      modifies this
      ensures Valid() && Gave(SchemaModel.GetVarintBytes(old(Rest())), r, old(off))
    {
      var length := GetVarint();
      if length.Failure? {
        return Failure(length.error);
      }
      if length.value == -1 {
        return Success(None);
      }
      var data := GetRawBytes(length.value);
      r := if data.Success? then Success(Some(data.value)) else Failure(data.error);
    }

    method GetStringLength() returns (r: Result<int, DecodeError>)
      requires Valid()
      modifies this
      ensures Valid() && Gave(SchemaModel.GetStringLength(old(Rest())), r, old(off))
    {
      var n := GetFixed(2);
      if n.Failure? {
        return Failure(n.error);
      }
      if n.value < -1 {
        return Failure(InvalidStringLength);
      }
      if n.value > Remaining() {
        off := |raw|;
        return Failure(InsufficientData);
      }
      r := n;
    }

    /** Takes the next n bytes, which a length check has found to be there. */
    method Take(n: nat) returns (s: bytes)
      requires Valid() && n <= |Rest()|
      modifies this
      ensures Valid() && off == old(off) + n && s == raw[old(off)..off]
    {
      s := raw[off..off + n];
      off := off + n;
    }

    method GetString() returns (r: Result<bytes, DecodeError>)
      requires Valid()
      modifies this
      ensures Valid() && Gave(SchemaModel.GetString(old(Rest())), r, old(off))
    {
      var n := GetStringLength();
      if n.Failure? {
        return Failure(n.error);
      }
      if n.value == -1 {
        return Success([]);
      }
      ghost var at := off - old(off);
      var s := Take(n.value);
      assert old(Rest())[at..at + n.value] == s;
      r := Success(s);
    }

    method GetNullableString() returns (r: Result<Option<bytes>, DecodeError>)
      requires Valid()
      modifies this
      ensures Valid() && Gave(SchemaModel.GetNullableString(old(Rest())), r, old(off))
    {
      var n := GetStringLength();
      if n.Failure? {
        return Failure(n.error);
      }
      if n.value == -1 {
        return Success(None);
      }
      ghost var at := off - old(off);
      var s := Take(n.value);
      assert old(Rest())[at..at + n.value] == s;
      r := Success(Some(s));
    }

    method GetCompactLength() returns (r: Result<nat, DecodeError>)
      requires Valid()
      modifies this
      ensures Valid() && Gave(SchemaModel.GetCompactLength(old(Rest())), r, old(off))
    {
      var length := GetVarint();
      if length.Failure? {
        return Failure(length.error);
      }
      var n := MinusOne64(length.value);
      if n < 0 {
        return Failure(InvalidCompactLength);
      }
      if n > Remaining() {
        off := |raw|;
        return Failure(InsufficientData);
      }
      r := Success(n);
    }

    method GetCompactNullableLength() returns (r: Result<int, DecodeError>)
      requires Valid()
      modifies this
      ensures Valid() && Gave(SchemaModel.GetCompactNullableLength(old(Rest())), r, old(off))
    {
      var length := GetVarint();
      if length.Failure? {
        return Failure(length.error);
      }
      var n := MinusOne64(length.value);
      if n < -1 {
        return Failure(InvalidCompactNullableLength);
      }
      if n > Remaining() {
        off := |raw|;
        return Failure(InsufficientData);
      }
      r := Success(n);
    }

    method GetCompactString() returns (r: Result<bytes, DecodeError>)
      requires Valid()
      modifies this
      ensures Valid() && Gave(SchemaModel.GetCompactString(old(Rest())), r, old(off))
    {
      var n := GetCompactLength();
      if n.Failure? {
        return Failure(n.error);
      }
      ghost var at := off - old(off);
      var s := Take(n.value);
      assert old(Rest())[at..at + n.value] == s;
      r := Success(s);
    }

    method GetCompactNullableString() returns (r: Result<Option<bytes>, DecodeError>)
      requires Valid()
      modifies this
      ensures Valid() && Gave(SchemaModel.GetCompactNullableString(old(Rest())), r, old(off))
    {
      var n := GetCompactNullableLength();
      if n.Failure? {
        return Failure(n.error);
      }
      if n.value < 0 {
        return Success(None);
      }
      ghost var at := off - old(off);
      var s := Take(n.value);
      assert old(Rest())[at..at + n.value] == s;
      r := Success(Some(s));
    }
  }

  type Decoded = Result<Value, DecodeError>

  function Lift<T>(r: Result<T, DecodeError>, f: T -> Value): Decoded {
    if r.Success? then Success(f(r.value)) else Failure(r.error)
  }

  method DecodeValue(s: Schema, rd: RealDecoder) returns (r: Decoded)
    requires rd.Valid()
    modifies rd
    ensures rd.Valid() && rd.Gave(Dec(s, old(rd.Rest())), r, old(rd.off))
    decreases s, 0, 0
  {
    match s
    case TBool =>
      var x := rd.GetBool();
      r := Lift(x, y => Bool(y));
    case TInt16 =>
      ghost var b := rd.Rest();
      var x := rd.GetFixed(2);
      if x.Failure? { return Failure(x.error); }
      IntBytesOf(b[..2]);
      Widths();
      r := Success(Int16(x.value));
    case TInt32 =>
      ghost var b := rd.Rest();
      var x := rd.GetFixed(4);
      if x.Failure? { return Failure(x.error); }
      IntBytesOf(b[..4]);
      Widths();
      r := Success(Int32(x.value));
    case TStr =>
      var x := rd.GetString();
      r := Lift(x, y => Str(y));
    case TNullableStr =>
      var x := rd.GetNullableString();
      r := Lift(x, y => StrPtr(y));
    case TCompactStr =>
      var x := rd.GetCompactString();
      r := Lift(x, y => Str(y));
    case TCompactNullableStr =>
      var x := rd.GetCompactNullableString();
      r := Lift(x, y => StrPtr(y));
    case TUuid =>
      var x := rd.GetRawBytes(16);
      if x.Failure? { return Failure(x.error); }
      r := Success(Uuid(x.value));
    case TStruct(_, fields) =>
      var x := DecodeFields(fields, rd);
      if x.Failure? { return Failure(x.error); }
      r := Success(Struct(s, x.value));
  }

  /** p after n bytes and the values pre have been read. */
  function After<T>(pre: seq<T>, n: nat, p: Parsed<seq<T>>): Parsed<seq<T>> {
    match p
    case Ok(vs, m) => Ok(pre + vs, n + m)
    case Err(e, m) => Err(e, n + m)
  }

  lemma AfterEmpty<T>(p: Parsed<seq<T>>)
    ensures After([], 0, p) == p
  {
    if p.Ok? {
      assert [] + p.value == p.value;
    }
  }

  lemma AfterNothing<T>(pre: seq<T>, n: nat)
    ensures After(pre, n, Ok([], 0)) == Ok(pre, n)
  {
    assert pre + [] == pre;
  }

  lemma AfterStep<T>(pre: seq<T>, n: nat, v: T, m: nat, p: Parsed<seq<T>>)
    ensures After(pre, n, After([v], m, p)) == After(pre + [v], n + m, p)
  {
    if p.Ok? {
      assert pre + ([v] + p.value) == pre + [v] + p.value;
    }
  }

  method DecodeFields(fs: seq<Field>, rd: RealDecoder) returns (r: Result<seq<Value>, DecodeError>)
    requires rd.Valid()
    modifies rd
    ensures rd.Valid() && rd.Gave(DecFields(fs, old(rd.Rest())), r, old(rd.off))
    decreases fs, 0, 0
  {
    hide DecField;
    var values := [];
    ghost var b, n := rd.Rest(), 0;
    assert fs[0..] == fs && b[0..] == b;
    AfterEmpty(DecFields(fs, b));
    for i := 0 to |fs|
      invariant rd.Valid() && rd.off == old(rd.off) + n && rd.Rest() == b[n..]
      invariant DecFields(fs, b) == After(values, n, DecFields(fs[i..], b[n..]))
    {
      ghost var c := rd.Rest();
      assert fs[i..][1..] == fs[i + 1..];
      var v := DecodeField(fs[i], rd);
      if v.Failure? {
        return Failure(v.error);
      }
      ghost var m := DecField(fs[i], c).n;
      assert c[m..] == b[n + m..];
      AfterStep(values, n, v.value, m, DecFields(fs[i + 1..], b[n + m..]));
      values := values + [v.value];
      n := n + m;
    }
    assert values + [] == values;
    r := Success(values);
  }

  method DecodeField(f: Field, rd: RealDecoder) returns (r: Decoded)
    requires rd.Valid()
    modifies rd
    ensures rd.Valid() && rd.Gave(DecField(f, old(rd.Rest())), r, old(rd.off))
    decreases f, 0, 0
  {
    hide DecElems, DecTags;
    match f
    case Mfield(_, ty) =>
      r := DecodeValue(ty, rd);
    case ArrayField(_, ty) =>
      var n := rd.GetArrayLength();
      if n.Failure? { return Failure(n.error); }
      var vs := DecodeElems(n.value, ty, rd);
      r := if vs.Success? then Success(Array(vs.value)) else Failure(vs.error);
    case CompactArrayField(_, ty) =>
      var n := rd.GetCompactLength();
      if n.Failure? { return Failure(n.error); }
      var vs := DecodeElems(n.value, ty, rd);
      r := if vs.Success? then Success(Array(vs.value)) else Failure(vs.error);
    case TaggedField(_) =>
      var tags := DecodeTagged(rd);
      r := Lift(tags, x => Tagged(x));
  }

  /** x, then p on what x left unread. */
  function Prepend<T>(x: Parsed<T>, p: Parsed<seq<T>>): Parsed<seq<T>> {
    if x.Ok? then After([x.value], x.n, p) else Err(x.error, x.n)
  }

  lemma ElemsUnfold(k: nat, ty: Schema, b: bytes)
    ensures k == 0 ==> DecElems(k, ty, b) == Ok([], 0)
    ensures k > 0 ==> DecElems(k, ty, b) == Prepend(Dec(ty, b), DecElems(k - 1, ty, b[Dec(ty, b).n..]))
  {
  }

  /** One more element, after those in pre took n bytes. */
  lemma ElemRead(pre: seq<Value>, n: nat, k: nat, ty: Schema, b: bytes)
    requires k > 0
    ensures var x := Dec(ty, b);
            After(pre, n, DecElems(k, ty, b)) ==
            if x.Ok? then After(pre + [x.value], n + x.n, DecElems(k - 1, ty, b[x.n..])) else Err(x.error, n + x.n)
  {
    hide Dec, DecElems;
    ElemsUnfold(k, ty, b);
    var x := Dec(ty, b);
    if x.Ok? {
      AfterStep(pre, n, x.value, x.n, DecElems(k - 1, ty, b[x.n..]));
    }
  }

  lemma TagsUnfold(k: nat, b: bytes)
    ensures k == 0 ==> DecTags(k, b) == Ok([], 0)
    ensures k > 0 ==> DecTags(k, b) == Prepend(DecTag(b), DecTags(k - 1, b[DecTag(b).n..]))
  {
  }

  /** decodeArrayElements: the loop runs zero times when n is negative. */
  method DecodeElems(n: int, ty: Schema, rd: RealDecoder) returns (r: Result<seq<Value>, DecodeError>)
    requires rd.Valid()
    modifies rd
    ensures rd.Valid() && rd.Gave(DecElems(if n < 0 then 0 else n, ty, old(rd.Rest())), r, old(rd.off))
    decreases ty, 1, 0
  {
    hide Dec, DecElems, After;
    var values := [];
    ghost var b, k, len := rd.Rest(), 0, if n < 0 then 0 else n;
    assert b[0..] == b;
    AfterEmpty(DecElems(len, ty, b));
    var i := 0;
    while i < n
      invariant 0 <= i <= len && len == if n < 0 then 0 else n
      invariant rd.Valid() && rd.off == old(rd.off) + k && rd.Rest() == b[k..]
      invariant DecElems(len, ty, b) == After(values, k, DecElems(len - i, ty, b[k..]))
    {
      ghost var c := rd.Rest();
      ElemRead(values, k, len - i, ty, c);
      var v := DecodeValue(ty, rd);
      if v.Failure? {
        return Failure(v.error);
      }
      ghost var m := Dec(ty, c).n;
      assert c[m..] == b[k + m..];
      values := values + [v.value];
      k := k + m;
      i := i + 1;
    }
    ElemsUnfold(0, ty, b[k..]);
    AfterNothing(values, k);
    r := Success(values);
  }

  method DecodeTagged(rd: RealDecoder) returns (r: Result<seq<RawTaggedField>, DecodeError>)
    requires rd.Valid()
    modifies rd
    ensures rd.Valid() && rd.Gave(DecTagged(old(rd.Rest())), r, old(rd.off))
  {
    hide DecTags;
    var count := rd.GetVarint();
    if count.Failure? {
      return Failure(count.error);
    }
    if count.value == 0 {
      TagsUnfold(0, rd.Rest());
      return Success([]);
    }
    if count.value < 0 {
      return Failure(NegativeTaggedFields);
    }
    r := DecodeTags(count.value, rd);
  }

  method DecodeTags(n: nat, rd: RealDecoder) returns (r: Result<seq<RawTaggedField>, DecodeError>)
    requires rd.Valid()
    modifies rd
    ensures rd.Valid() && rd.Gave(DecTags(n, old(rd.Rest())), r, old(rd.off))
  {
    hide DecTag, DecTags;
    var tags := [];
    ghost var b, k := rd.Rest(), 0;
    assert b[0..] == b;
    AfterEmpty(DecTags(n, b));
    for i := 0 to n
      invariant rd.Valid() && rd.off == old(rd.off) + k && rd.Rest() == b[k..]
      invariant DecTags(n, b) == After(tags, k, DecTags(n - i, b[k..]))
    {
      ghost var c := rd.Rest();
      TagsUnfold(n - i, c);
      var t := DecodeTag(rd);
      if t.Failure? {
        return Failure(t.error);
      }
      ghost var m := DecTag(c).n;
      assert c[m..] == b[k + m..];
      AfterStep(tags, k, t.value, m, DecTags(n - i - 1, b[k + m..]));
      tags := tags + [t.value];
      k := k + m;
    }
    TagsUnfold(0, b[k..]);
    assert tags + [] == tags;
    r := Success(tags);
  }

  method DecodeTag(rd: RealDecoder) returns (r: Result<RawTaggedField, DecodeError>)
    requires rd.Valid()
    modifies rd
    ensures rd.Valid() && rd.Gave(DecTag(old(rd.Rest())), r, old(rd.off))
  {
    var tag := rd.GetVarint();
    if tag.Failure? {
      return Failure(tag.error);
    }
    var data := rd.GetVarintBytes();
    if data.Failure? {
      return Failure(data.error);
    }
    r := Success(RawTaggedField(tag.value, data.value));
  }

  /** DecodeSchema on a non-nil buffer. */
  method DecodeSchema(b: bytes, s: Schema) returns (r: Decoded)
    ensures r == Decode(s, b)
  {
    var helper := new RealDecoder(b);
    assert helper.Rest() == b;
    var v := DecodeValue(s, helper);
    if v.Failure? {
      return Failure(v.error);
    }
    if helper.off != |b| {
      return Failure(InvalidLength);
    }
    if !v.value.Struct? {
      return Failure(NotAStruct);
    }
    r := v;
  }
}
