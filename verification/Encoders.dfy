/**
 The two-pass encoder (proxy/protocol/prep_encoder.go, real_encoder.go and EncodeSchema in schema.go):
 a sizing pass that checks every limit, then a writing pass, with no checks of its own, into a buffer of that size.
 */
module Encoders {
  import opened Wire
  import opened SchemaModel
  import opened SchemaLimits

  type Error = Option<EncodeError>

  // ----- The sizing pass -----

  /** What the sizing pass reports for something whose encoding is e: e's error, or an advance by e's length. */
  ghost predicate Sized(e: Encoded, err: Error, before: nat, after: nat) {
    if e.Success? then err == None && after == before + |e.value| else err == Some(e.error)
  }

  class PrepEncoder {
    var length: nat

    constructor ()
      ensures length == 0
    {
      length := 0;
    }

    method PutInt8(i: int8)
      modifies this
      ensures length == old(length) + |IntBytes(1, i)|
    {
      length := length + 1;
    }

    method PutInt16(i: int16)
      modifies this
      ensures length == old(length) + |IntBytes(2, i)|
    {
      length := length + 2;
    }

    method PutInt32(i: int32)
      modifies this
      ensures length == old(length) + |IntBytes(4, i)|
    {
      length := length + 4;
    }

    method PutBool(b: bool)
      modifies this
      ensures length == old(length) + |IntBytes(1, if b then 1 else 0)|
    {
      length := length + 1;
    }

    method PutVarint(u: nat)
      modifies this
      ensures length == old(length) + |PutUvarint(u)|
    {
      var x := u;
      length := length + 1;
      while x >= 128
        invariant length + |PutUvarint(x)| == old(length) + 1 + |PutUvarint(u)|
      {
        x := x / 128;
        length := length + 1;
      }
    }

    method PutArrayLength(n: nat) returns (err: Error)
      modifies this
      ensures Sized(ArrayLengthBytes(n), err, old(length), length)
      ensures err == None <==> n <= 0x7fff_ffff
    {
      if n > MAX_INT32 {
        return Some(TooLong);
      }
      length := length + 4;
      err := None;
    }

    method PutCompactArrayLength(n: nat) returns (err: Error)
      modifies this
      ensures Sized(CompactArrayLengthBytes(n), err, old(length), length)
      ensures err == None <==> n <= 32767
    {
      if n > MAX_INT16 {
        return Some(TooLong);
      }
      PutVarint(n + 1);
      err := None;
    }

    method PutUUID(u: uuid) returns (err: Error)
      modifies this
      ensures Sized(Success(u), err, old(length), length)
    {
      length := length + 16;
      err := None;
    }

    method PutRawBytes(data: bytes) returns (err: Error)
      modifies this
      ensures Sized(RawBytes(data), err, old(length), length)
      ensures err == None <==> |data| <= 0x7fff_ffff
    {
      if |data| > MAX_INT32 {
        return Some(TooLong);
      }
      length := length + |data|;
      err := None;
    }

    method PutVarintBytes(data: Option<bytes>) returns (err: Error)
      modifies this
      ensures Sized(TaggedDataBytes(data), err, old(length), length)
      ensures err == None <==> (data.Some? ==> |data.value| <= 0x7fff_ffff)
    {
      if data == None {
        PutVarint(ToUint64(-1));
        return None;
      }
      PutVarint(|data.value|);
      err := PutRawBytes(data.value);
    }

    method PutString(s: bytes) returns (err: Error)
      modifies this
      ensures Sized(StringBytes(s), err, old(length), length)
      ensures err == None <==> |s| <= 32767
    {
      length := length + 2;
      if |s| > MAX_INT16 {
        return Some(TooLong);
      }
      length := length + |s|;
      err := None;
    }

    method PutNullableString(p: Option<bytes>) returns (err: Error)
      modifies this
      ensures Sized(NullableStringBytes(p), err, old(length), length)
      ensures err == None <==> (p.Some? ==> |p.value| <= 32767)
    {
      if p == None {
        length := length + 2;
        return None;
      }
      err := PutString(p.value);
    }

    method PutCompactString(s: bytes) returns (err: Error)
      modifies this
      ensures Sized(CompactStringBytes(s), err, old(length), length)
      ensures err == None <==> |s| <= 32767
    {
      PutVarint(|s| + 1);
      if |s| > MAX_INT16 {
        return Some(TooLong);
      }
      length := length + |s|;
      err := None;
    }

    method PutCompactNullableString(p: Option<bytes>) returns (err: Error)
      modifies this
      ensures Sized(CompactNullableStringBytes(p), err, old(length), length)
      ensures err == None <==> (p.Some? ==> |p.value| <= 32767)
    {
      if p == None {
        length := length + 1;
        return None;
      }
      err := PutCompactString(p.value);
    }
  }

  method PrepSchema(s: Schema, v: Value, pe: PrepEncoder) returns (err: Error)
    modifies pe
    ensures Sized(Enc(s, v), err, old(pe.length), pe.length)
    decreases s, 0, 0
  {
    match s
    case TBool =>
      if !v.Bool? { return Some(TypeMismatch); }
      pe.PutBool(v.b);
      err := None;
    case TInt16 =>
      if !v.Int16? { return Some(TypeMismatch); }
      pe.PutInt16(v.i16);
      err := None;
    case TInt32 =>
      if !v.Int32? { return Some(TypeMismatch); }
      pe.PutInt32(v.i32);
      err := None;
    case TStr =>
      if !v.Str? { return Some(TypeMismatch); }
      err := pe.PutString(v.s);
    case TNullableStr =>
      if v.Nil? { err := pe.PutNullableString(None); }
      if !v.StrPtr? { return Some(TypeMismatch); }
      err := pe.PutNullableString(v.p);
    case TCompactStr =>
      if !v.Str? { return Some(TypeMismatch); }
      err := pe.PutCompactString(v.s);
    case TCompactNullableStr =>
      if v.Nil? { err := pe.PutCompactNullableString(None); }
      if !v.StrPtr? { return Some(TypeMismatch); }
      err := pe.PutCompactNullableString(v.p);
    case TUuid =>
      if !v.Uuid? { return Some(TypeMismatch); }
      err := pe.PutUUID(v.u);
    case TStruct(_, fields) =>
      if !v.Struct? { return Some(TypeMismatch); }
      if |v.values| != |fields| { return Some(LengthDifference); }
      err := PrepFields(fields, v.values, pe);
  }

  method PrepFields(fs: seq<Field>, vs: seq<Value>, pe: PrepEncoder) returns (err: Error)
    requires |fs| == |vs|
    modifies pe
    ensures Sized(EncFields(fs, vs), err, old(pe.length), pe.length)
    decreases fs, 0, 0
  {
    ghost var done: bytes := [];
    assert fs[0..] == fs && vs[0..] == vs;
    ThenEmpty(EncFields(fs, vs));
    for i := 0 to |fs|
      invariant pe.length == old(pe.length) + |done|
      invariant EncFields(fs, vs) == Then(Success(done), EncFields(fs[i..], vs[i..]))
    {
      ghost var e := EncField(fs[i], vs[i]);
      assert fs[i..][1..] == fs[i + 1..] && vs[i..][1..] == vs[i + 1..];
      ThenAssociates(done, e, EncFields(fs[i + 1..], vs[i + 1..]));
      err := PrepField(fs[i], vs[i], pe);
      if err != None {
        return;
      }
      done := done + e.value;
    }
    err := None;
  }

  method PrepField(f: Field, v: Value, pe: PrepEncoder) returns (err: Error)
    modifies pe
    ensures Sized(EncField(f, v), err, old(pe.length), pe.length)
    decreases f, 0, 0
  {
    match f
    case Mfield(_, ty) =>
      err := PrepSchema(ty, v, pe);
    case ArrayField(_, ty) =>
      if !v.Array? { return Some(TypeMismatch); }
      err := pe.PutArrayLength(|v.elems|);
      if err != None { return; }
      err := PrepElems(ty, v.elems, pe);
    case CompactArrayField(_, ty) =>
      if !v.Array? { return Some(TypeMismatch); }
      err := pe.PutCompactArrayLength(|v.elems|);
      if err != None { return; }
      err := PrepElems(ty, v.elems, pe);
    case TaggedField(_) =>
      if !v.Tagged? { return Some(TypeMismatch); }
      err := PrepTags(v.tags, pe);
  }

  method PrepTags(tags: seq<RawTaggedField>, pe: PrepEncoder) returns (err: Error)
    modifies pe
    ensures Sized(EncTagged(tags), err, old(pe.length), pe.length)
  {
    pe.PutVarint(|tags|);
    ghost var done := PutUvarint(|tags|);
    for i := 0 to |tags|
      invariant pe.length == old(pe.length) + |done|
      invariant EncTagged(tags) == Then(Success(done), EncTags(tags[i..]))
    {
      ghost var e := EncTag(tags[i]);
      assert tags[i..][1..] == tags[i + 1..];
      ThenAssociates(done, e, EncTags(tags[i + 1..]));
      pe.PutVarint(ToUint64(tags[i].tag));
      err := pe.PutVarintBytes(tags[i].data);
      if err != None {
        return;
      }
      done := done + e.value;
    }
    err := None;
  }

  method PrepElems(ty: Schema, vs: seq<Value>, pe: PrepEncoder) returns (err: Error)
    modifies pe
    ensures Sized(EncElems(ty, vs), err, old(pe.length), pe.length)
    decreases ty, 1, |vs|
  {
    ghost var done: bytes := [];
    assert vs[0..] == vs;
    ThenEmpty(EncElems(ty, vs));
    for i := 0 to |vs|
      invariant pe.length == old(pe.length) + |done|
      invariant EncElems(ty, vs) == Then(Success(done), EncElems(ty, vs[i..]))
    {
      ghost var e := Enc(ty, vs[i]);
      assert vs[i..][1..] == vs[i + 1..];
      ThenAssociates(done, e, EncElems(ty, vs[i + 1..]));
      err := PrepSchema(ty, vs[i], pe);
      if err != None {
        return;
      }
      done := done + e.value;
    }
    err := None;
  }

  lemma ThenEmpty(e: Encoded)
    ensures Then(Success([]), e) == e
  {
    if e.Success? {
      assert [] + e.value == e.value;
    }
  }

  lemma ThenAssociates(a: bytes, e: Encoded, f: Encoded)
    ensures Then(Success(a), Then(e, f)) == Then(Then(Success(a), e), f)
  {
    if e.Success? && f.Success? {
      assert a + (e.value + f.value) == a + e.value + f.value;
    }
  }

  // ----- The writing pass -----

  class RealEncoder {
    const raw: array<byte>
    var off: nat

    constructor (n: nat)
      ensures fresh(raw) && raw.Length == n && off == 0
    {
      raw := new byte[n](_ => 0);
      off := 0;
    }

    /** Every write stays inside the buffer the sizing pass asked for. */
    ghost predicate Room(n: nat)
      reads this
    {
      off + n <= raw.Length
    }

    ghost function Written(): bytes
      requires Room(0)
      reads this, raw
    {
      raw[..off]
    }

    method PutRaw(data: bytes)
      requires Room(|data|)
      modifies this, raw
      ensures Room(0) && Written() == old(Written()) + data && off == old(off) + |data|
    {
      forall i | 0 <= i < |data| {
        raw[off + i] := data[i];
      }
      off := off + |data|;
    }

    /** Writes the w low bytes of u, most significant first (binary.BigEndian). */
    method PutBigEndian(w: nat, u: nat)
      requires Room(w)
      modifies this, raw
      ensures Room(0) && Written() == old(Written()) + PutBE(w, u) && off == old(off) + w
    {
      var i, x := w, u;
      while i > 0
        invariant 0 <= i <= w && off == old(off)
        invariant PutBE(w, u) == PutBE(i, x) + raw[off + i..off + w]
        invariant raw[..off] == old(raw[..off])
      {
        ghost var before := raw[off + i..off + w];
        raw[off + i - 1] := x % 256;
        assert raw[off + i - 1..off + w] == [x % 256] + before;
        x := x / 256;
        i := i - 1;
      }
      assert raw[..off + w] == raw[..off] + raw[off..off + w];
      off := off + w;
    }

    method PutInt(w: nat, i: int)
      requires w > 0 && InWidth(w, i) && Room(w)
      modifies this, raw
      ensures Room(0) && Written() == old(Written()) + IntBytes(w, i) && off == old(off) + w
    {
      PutBigEndian(w, if i < 0 then i + Pow256(w) else i);
    }

    method PutVarint(u: nat)
      requires Room(|PutUvarint(u)|)
      modifies this, raw
      ensures Room(0) && Written() == old(Written()) + PutUvarint(u) && off == old(off) + |PutUvarint(u)|
    {
      var x := u;
      while x >= 128
        invariant off + |PutUvarint(x)| == old(off) + |PutUvarint(u)|
        invariant Room(|PutUvarint(x)|)
        invariant Written() + PutUvarint(x) == old(Written()) + PutUvarint(u)
      {
        ghost var before := Written();
        raw[off] := x % 128 + 128;
        off := off + 1;
        assert Written() == before + [x % 128 + 128];
        assert before + ([x % 128 + 128] + PutUvarint(x / 128)) == Written() + PutUvarint(x / 128);
        x := x / 128;
      }
      raw[off] := x;
      off := off + 1;
    }

    method PutBool(b: bool)
      requires Room(1)
      modifies this, raw
      ensures Room(0) && Written() == old(Written()) + IntBytes(1, if b then 1 else 0) && off == old(off) + 1
    {
      Widths();
      if b {
        PutInt(1, 1);
        return;
      }
      PutInt(1, 0);
    }

    method PutString(s: bytes)
      requires |s| <= MAX_INT16 && Room(|s| + 2)
      modifies this, raw
      ensures Room(0) && Written() == old(Written()) + StringBytes(s).value && off == old(off) + |s| + 2
    {
      Widths();
      PutInt(2, |s|);
      PutRaw(s);
    }

    method PutNullableString(p: Option<bytes>)
      requires NullableStringBytes(p).Success? && Room(|NullableStringBytes(p).value|)
      modifies this, raw
      ensures Room(0) && Written() == old(Written()) + NullableStringBytes(p).value
      ensures off == old(off) + |NullableStringBytes(p).value|
    {
      Widths();
      if p == None {
        PutInt(2, -1);
        return;
      }
      PutString(p.value);
    }

    method PutCompactString(s: bytes)
      requires |s| <= MAX_INT16 && Room(|CompactStringBytes(s).value|)
      modifies this, raw
      ensures Room(0) && Written() == old(Written()) + CompactStringBytes(s).value
      ensures off == old(off) + |CompactStringBytes(s).value|
    {
      PutVarint(|s| + 1);
      PutRaw(s);
    }

    method PutCompactNullableString(p: Option<bytes>)
      requires CompactNullableStringBytes(p).Success? && Room(|CompactNullableStringBytes(p).value|)
      modifies this, raw
      ensures Room(0) && Written() == old(Written()) + CompactNullableStringBytes(p).value
      ensures off == old(off) + |CompactNullableStringBytes(p).value|
    {
      if p == None {
        PutVarint(0);
        return;
      }
      PutCompactString(p.value);
    }

    method PutVarintBytes(data: Option<bytes>)
      requires TaggedDataBytes(data).Success? && Room(|TaggedDataBytes(data).value|)
      modifies this, raw
      ensures Room(0) && Written() == old(Written()) + TaggedDataBytes(data).value
      ensures off == old(off) + |TaggedDataBytes(data).value|
    {
      if data == None {
        PutVarint(ToUint64(-1));
        return;
      }
      PutVarint(|data.value|);
      PutRaw(data.value);
    }
  }

  method RealTag(t: RawTaggedField, re: RealEncoder)
    requires EncTag(t).Success? && re.Room(|EncTag(t).value|)
    modifies re, re.raw
    ensures re.Room(0) && re.Written() == old(re.Written()) + EncTag(t).value
    ensures re.off == old(re.off) + |EncTag(t).value|
  {
    hide PutUvarint, TaggedDataBytes;
    ghost var before, a, d := re.Written(), VarintBytes(t.tag), TaggedDataBytes(t.data).value;
    re.PutVarint(ToUint64(t.tag));
    re.PutVarintBytes(t.data);
    assert before + (a + d) == before + a + d;
  }

  // The schema walk is the one of the sizing pass; where that pass succeeds, this one
  // meets none of the errors the source could return, so the methods return nothing.

  method RealSchema(s: Schema, v: Value, re: RealEncoder)
    requires Enc(s, v).Success? && re.Room(|Enc(s, v).value|)
    modifies re, re.raw
    ensures re.Room(0) && re.Written() == old(re.Written()) + Enc(s, v).value
    ensures re.off == old(re.off) + |Enc(s, v).value|
    decreases s, 0, 0
  {
    Widths();
    match s
    case TBool => re.PutBool(v.b);
    case TInt16 => re.PutInt(2, v.i16);
    case TInt32 => re.PutInt(4, v.i32);
    case TStr => re.PutString(v.s);
    case TNullableStr => re.PutNullableString(v.p);
    case TCompactStr => re.PutCompactString(v.s);
    case TCompactNullableStr => re.PutCompactNullableString(v.p);
    case TUuid => re.PutRaw(v.u);
    case TStruct(_, fields) => RealFields(fields, v.values, re);
  }

  method RealFields(fs: seq<Field>, vs: seq<Value>, re: RealEncoder)
    requires |fs| == |vs| && EncFields(fs, vs).Success? && re.Room(|EncFields(fs, vs).value|)
    modifies re, re.raw
    ensures re.Room(0) && re.Written() == old(re.Written()) + EncFields(fs, vs).value
    ensures re.off == old(re.off) + |EncFields(fs, vs).value|
    decreases fs, 0, 0
  {
    ghost var todo := EncFields(fs, vs).value;
    assert old(re.Written()) + EncFields(fs, vs).value == re.Written() + todo;
    for i := 0 to |fs|
      invariant EncFields(fs[i..], vs[i..]) == Success(todo)
      invariant re.Room(|todo|)
      invariant re.Written() + todo == old(re.Written()) + EncFields(fs, vs).value
    {
      assert fs[i..][1..] == fs[i + 1..] && vs[i..][1..] == vs[i + 1..];
      ghost var e, d, before := EncField(fs[i], vs[i]).value, EncFields(fs[i + 1..], vs[i + 1..]).value, re.Written();
      RealField(fs[i], vs[i], re);
      assert before + (e + d) == re.Written() + d;
      todo := d;
    }
    assert todo == [];
  }

  method RealField(f: Field, v: Value, re: RealEncoder)
    requires EncField(f, v).Success? && re.Room(|EncField(f, v).value|)
    modifies re, re.raw
    ensures re.Room(0) && re.Written() == old(re.Written()) + EncField(f, v).value
    ensures re.off == old(re.off) + |EncField(f, v).value|
    decreases f, 0, 0
  {
    hide Enc, EncElems, EncTags, PutUvarint, IntBytes;
    match f
    case Mfield(_, ty) => RealSchema(ty, v, re);
    case ArrayField(_, ty) =>
      Widths();
      re.PutInt(4, |v.elems|);
      RealElems(ty, v.elems, re);
    case CompactArrayField(_, ty) =>
      re.PutVarint(|v.elems| + 1);
      RealElems(ty, v.elems, re);
    case TaggedField(_) => RealTags(v.tags, re);
  }

  method RealTags(tags: seq<RawTaggedField>, re: RealEncoder)
    requires EncTagged(tags).Success? && re.Room(|EncTagged(tags).value|)
    modifies re, re.raw
    ensures re.Room(0) && re.Written() == old(re.Written()) + EncTagged(tags).value
    ensures re.off == old(re.off) + |EncTagged(tags).value|
  {
    hide EncTag, PutUvarint;
    ghost var todo := EncTags(tags).value;
    re.PutVarint(|tags|);
    assert tags[0..] == tags;
    assert re.Written() + todo == old(re.Written()) + EncTagged(tags).value;
    for i := 0 to |tags|
      invariant EncTags(tags[i..]) == Success(todo)
      invariant re.Room(|todo|)
      invariant re.Written() + todo == old(re.Written()) + EncTagged(tags).value
    {
      assert tags[i..][1..] == tags[i + 1..];
      ghost var e, d, before := EncTag(tags[i]).value, EncTags(tags[i + 1..]).value, re.Written();
      RealTag(tags[i], re);
      assert before + (e + d) == re.Written() + d;
      todo := d;
    }
    assert todo == [];
  }

  method RealElems(ty: Schema, vs: seq<Value>, re: RealEncoder)
    requires EncElems(ty, vs).Success? && re.Room(|EncElems(ty, vs).value|)
    modifies re, re.raw
    ensures re.Room(0) && re.Written() == old(re.Written()) + EncElems(ty, vs).value
    ensures re.off == old(re.off) + |EncElems(ty, vs).value|
    decreases ty, 1, |vs|
  {
    ghost var todo := EncElems(ty, vs).value;
    assert old(re.Written()) + EncElems(ty, vs).value == re.Written() + todo;
    for i := 0 to |vs|
      invariant EncElems(ty, vs[i..]) == Success(todo)
      invariant re.Room(|todo|)
      invariant re.Written() + todo == old(re.Written()) + EncElems(ty, vs).value
    {
      assert vs[i..][1..] == vs[i + 1..];
      ghost var e, d, before := Enc(ty, vs[i]).value, EncElems(ty, vs[i + 1..]).value, re.Written();
      RealSchema(ty, vs[i], re);
      assert before + (e + d) == re.Written() + d;
      todo := d;
    }
    assert todo == [];
  }

  // ----- Both passes -----

  /**
   EncodeSchema: besides the bytes, returns where each pass ended. On success the sizing pass's length,
   the writing pass's offset and the size of the result are one number, so the buffer is filled exactly.
   */
  method EncodeSchema(s: Schema, v: Value) returns (r: Encoded, length: nat, off: nat)
    ensures r == Encode(s, v)
    ensures r.Success? ==> length == off == |r.value|
    ensures r.Success? <==> Encodable(s, v) && WireSize(s, v) <= 104857600
  {
    EncodeExactly(s, v);
    hide Encodable, WireSize;
    var prepEnc := new PrepEncoder();
    var err := PrepSchema(s, v, prepEnc);
    length, off := prepEnc.length, 0;
    if err != None {
      return Failure(err.value), length, off;
    }
    if prepEnc.length > MAX_REQUEST_SIZE {
      return Failure(InvalidSize), length, off;
    }
    var realEnc := new RealEncoder(prepEnc.length);
    RealSchema(s, v, realEnc);
    off := realEnc.off;
    assert realEnc.raw[..] == realEnc.raw[..realEnc.off];
    assert realEnc.Written() == [] + Enc(s, v).value;
    r := Success(realEnc.raw[..]);
  }
}
