/**
 What the schema codec is for: decoding inverts encoding, exactly when the decoder's
 length checks let it, and re-encoding a decoded message is a normal form.
 */
module SchemaProofs {
  import opened Wire
  import opened SchemaModel

  // ----- Typing -----

  /** v is a value that decoding with s can produce: every struct in it carries the schema it was decoded with. */
  predicate Typed(s: Schema, v: Value)
    decreases s, 0, 0
  {
    match s
    case TBool => v.Bool?
    case TInt16 => v.Int16?
    case TInt32 => v.Int32?
    case TStr => v.Str?
    case TNullableStr => v.StrPtr?
    case TCompactStr => v.Str?
    case TCompactNullableStr => v.StrPtr?
    case TUuid => v.Uuid?
    case TStruct(_, fields) =>
      v.Struct? && v.schema == s && |v.values| == |fields| && TypedFields(fields, v.values)
  }

  predicate TypedFields(fs: seq<Field>, vs: seq<Value>)
    requires |fs| == |vs|
    decreases fs, 0, 0
  {
    fs == [] || (TypedField(fs[0], vs[0]) && TypedFields(fs[1..], vs[1..]))
  }

  predicate TypedField(f: Field, v: Value)
    decreases f, 0, 0
  {
    match f
    case Mfield(_, ty) => Typed(ty, v)
    case ArrayField(_, ty) => v.Array? && TypedElems(ty, v.elems)
    case CompactArrayField(_, ty) => v.Array? && TypedElems(ty, v.elems)
    case TaggedField(_) => v.Tagged?
  }

  predicate TypedElems(ty: Schema, vs: seq<Value>)
    decreases ty, 1, |vs|
  {
    vs == [] || (Typed(ty, vs[0]) && TypedElems(ty, vs[1..]))
  }

  lemma {:induction false} DecodedTyped(s: Schema, b: bytes)
    requires Dec(s, b).Ok?
    ensures Typed(s, Dec(s, b).value)
    decreases s, 0, 0
  {
    if s.TStruct? {
      DecodedTypedFields(s.fields, b);
    }
  }

  lemma {:induction false} DecodedTypedFields(fs: seq<Field>, b: bytes)
    requires DecFields(fs, b).Ok?
    ensures TypedFields(fs, DecFields(fs, b).value)
    decreases fs, 0, 0
  {
    if fs != [] {
      DecodedTypedField(fs[0], b);
      var n := DecField(fs[0], b).n;
      DecodedTypedFields(fs[1..], b[n..]);
      assert DecFields(fs, b).value[1..] == DecFields(fs[1..], b[n..]).value;
    }
  }

  lemma {:induction false} DecodedTypedField(f: Field, b: bytes)
    requires DecField(f, b).Ok?
    ensures TypedField(f, DecField(f, b).value)
    decreases f, 0, 0
  {
    match f
    case Mfield(_, ty) => DecodedTyped(ty, b);
    case ArrayField(_, ty) =>
      var count := GetArrayLength(b).value;
      DecodedTypedElems(if count < 0 then 0 else count, ty, b[4..]);
    case CompactArrayField(_, ty) =>
      DecodedTypedElems(GetCompactLength(b).value, ty, b[GetCompactLength(b).n..]);
    case TaggedField(_) =>
  }

  lemma {:induction false} DecodedTypedElems(k: nat, ty: Schema, b: bytes)
    requires DecElems(k, ty, b).Ok?
    ensures TypedElems(ty, DecElems(k, ty, b).value)
    decreases ty, 1, k
  {
    if k > 0 {
      DecodedTyped(ty, b);
      var n := Dec(ty, b).n;
      DecodedTypedElems(k - 1, ty, b[n..]);
      assert DecElems(k, ty, b).value[1..] == DecElems(k - 1, ty, b[n..]).value;
    }
  }

  // ----- When the decoder's length checks accept an encoding -----

  function Size(e: Encoded): nat {
    if e.Success? then |e.value| else 0
  }

  /**
   Every array of v passes the decoder's length checks when `tail` bytes follow v's encoding:
   no array announces more elements than there are bytes left, and no plain array more than MAX_ARRAY_LENGTH.
   */
  predicate Fits(s: Schema, v: Value, tail: nat)
    decreases s, 0, 0
  {
    s.TStruct? && v.Struct? && |v.values| == |s.fields| ==> FitsFields(s.fields, v.values, tail)
  }

  predicate FitsFields(fs: seq<Field>, vs: seq<Value>, tail: nat)
    requires |fs| == |vs|
    decreases fs, 0, 0
  {
    fs == []
    || (&& FitsField(fs[0], vs[0], Size(EncFields(fs[1..], vs[1..])) + tail)
        && FitsFields(fs[1..], vs[1..], tail))
  }

  predicate FitsField(f: Field, v: Value, tail: nat)
    decreases f, 0, 0
  {
    match f
    case Mfield(_, ty) => Fits(ty, v, tail)
    case ArrayField(_, ty) =>
      v.Array? ==>
        && |v.elems| <= MAX_ARRAY_LENGTH
        && |v.elems| <= Size(EncElems(ty, v.elems)) + tail
        && FitsElems(ty, v.elems, tail)
    case CompactArrayField(_, ty) =>
      v.Array? ==>
        && |v.elems| <= Size(EncElems(ty, v.elems)) + tail
        && FitsElems(ty, v.elems, tail)
    case TaggedField(_) => true
  }

  predicate FitsElems(ty: Schema, vs: seq<Value>, tail: nat)
    decreases ty, 1, |vs|
  {
    vs == []
    || (&& Fits(ty, vs[0], Size(EncElems(ty, vs[1..])) + tail)
        && FitsElems(ty, vs[1..], tail))
  }

  // ----- Round trip -----

  lemma Split(e: bytes, a: bytes, d: bytes, rest: bytes)
    requires e == a + d
    ensures e + rest == a + (d + rest)
    ensures (e + rest)[|a|..] == d + rest
  {
  }

  lemma RoundTripScalar(s: Schema, v: Value, rest: bytes)
    requires !s.TStruct? && Enc(s, v).Success?
    ensures Dec(s, Enc(s, v).value + rest) == Ok(v, |Enc(s, v).value|)
  {
    Widths();
    var b := Enc(s, v).value + rest;
    match s
    case TBool =>
      IntRoundTrip(1, if v.b then 1 else 0);
      assert b[..1] == IntBytes(1, if v.b then 1 else 0);
    case TInt16 =>
      IntRoundTrip(2, v.i16);
      assert b[..2] == IntBytes(2, v.i16);
    case TInt32 =>
      IntRoundTrip(4, v.i32);
      assert b[..4] == IntBytes(4, v.i32);
    case TUuid =>
      assert b[..16] == v.u;
    case TStr => StringRoundTrip(v.s, rest);
    case TNullableStr => NullableStringRoundTrip(v.p, rest);
    case TCompactStr => CompactStringRoundTrip(v.s, rest);
    case TCompactNullableStr => CompactNullableStringRoundTrip(v.p, rest);
  }

  lemma StringLengthRoundTrip(i: int, rest: bytes)
    requires -1 <= i <= MAX_INT16 && i <= |rest|
    ensures GetStringLength(IntBytes(2, i) + rest) == Ok(i, 2)
  {
    Widths();
    IntRoundTrip(2, i);
    assert (IntBytes(2, i) + rest)[..2] == IntBytes(2, i);
  }

  lemma StringRoundTrip(s: bytes, rest: bytes)
    requires |s| <= MAX_INT16
    ensures GetString(StringBytes(s).value + rest) == Ok(s, |s| + 2)
    ensures GetNullableString(StringBytes(s).value + rest) == Ok(Some(s), |s| + 2)
  {
    StringLengthRoundTrip(|s|, s + rest);
    assert StringBytes(s).value + rest == IntBytes(2, |s|) + (s + rest);
    assert (StringBytes(s).value + rest)[2..2 + |s|] == s;
  }

  lemma NullableStringRoundTrip(p: Option<bytes>, rest: bytes)
    requires NullableStringBytes(p).Success?
    ensures GetNullableString(NullableStringBytes(p).value + rest) == Ok(p, |NullableStringBytes(p).value|)
  {
    if p.None? {
      StringLengthRoundTrip(-1, rest);
    } else {
      StringRoundTrip(p.value, rest);
    }
  }

  lemma CompactLengthRoundTrip(k: nat, rest: bytes)
    requires k < 0x7fff_ffff_ffff_ffff
    ensures var b := PutUvarint(k + 1) + rest;
            && GetVarint(b) == Ok(k + 1, |PutUvarint(k + 1)|)
            && (k <= |rest| ==> GetCompactLength(b) == Ok(k, |PutUvarint(k + 1)|))
            && (k <= |rest| ==> GetCompactNullableLength(b) == Ok(k, |PutUvarint(k + 1)|))
            && (k > |rest| ==> GetCompactLength(b).Err?)
  {
    UvarintRoundTrip(k + 1, rest);
  }

  lemma CompactStringRoundTrip(s: bytes, rest: bytes)
    requires |s| <= MAX_INT16
    ensures var b := CompactStringBytes(s).value;
            && GetCompactString(b + rest) == Ok(s, |b|)
            && GetCompactNullableString(b + rest) == Ok(Some(s), |b|)
  {
    var n := |PutUvarint(|s| + 1)|;
    CompactLengthRoundTrip(|s|, s + rest);
    assert CompactStringBytes(s).value + rest == PutUvarint(|s| + 1) + (s + rest);
    assert (CompactStringBytes(s).value + rest)[n..n + |s|] == s;
  }

  lemma CompactNullableStringRoundTrip(p: Option<bytes>, rest: bytes)
    requires CompactNullableStringBytes(p).Success?
    ensures var b := CompactNullableStringBytes(p).value;
            GetCompactNullableString(b + rest) == Ok(p, |b|)
  {
    if p.None? {
      UvarintRoundTrip(0, rest);
    } else {
      CompactStringRoundTrip(p.value, rest);
    }
  }

  lemma TaggedDataRoundTrip(data: Option<bytes>, rest: bytes)
    requires TaggedDataBytes(data).Success?
    ensures GetVarintBytes(TaggedDataBytes(data).value + rest) == Ok(data, |TaggedDataBytes(data).value|)
  {
    if data.None? {
      UvarintRoundTrip(ToUint64(-1), rest);
    } else {
      var x := data.value;
      UvarintRoundTrip(|x|, x + rest);
      Split(TaggedDataBytes(data).value, PutUvarint(|x|), x, rest);
      assert (x + rest)[..|x|] == x;
    }
  }

  lemma TagRoundTrip(t: RawTaggedField, rest: bytes)
    requires EncTag(t).Success?
    ensures DecTag(EncTag(t).value + rest) == Ok(t, |EncTag(t).value|)
  {
    hide TaggedDataBytes, GetVarintBytes, PutUvarint, GetUvarint;
    var a, d := VarintBytes(t.tag), TaggedDataBytes(t.data).value;
    UvarintRoundTrip(ToUint64(t.tag), d + rest);
    Split(EncTag(t).value, a, d, rest);
    TaggedDataRoundTrip(t.data, rest);
  }

  lemma {:induction false} TagsRoundTrip(tags: seq<RawTaggedField>, rest: bytes)
    requires EncTags(tags).Success?
    ensures DecTags(|tags|, EncTags(tags).value + rest) == Ok(tags, |EncTags(tags).value|)
  {
    hide EncTag, DecTag;
    if tags != [] {
      var a := EncTag(tags[0]).value;
      var d := EncTags(tags[1..]).value;
      TagRoundTrip(tags[0], d + rest);
      TagsRoundTrip(tags[1..], rest);
      Split(EncTags(tags).value, a, d, rest);
      assert tags == [tags[0]] + tags[1..];
    }
  }

  lemma TaggedRoundTrip(tags: seq<RawTaggedField>, rest: bytes)
    requires |tags| < 0x7fff_ffff_ffff_ffff && EncTags(tags).Success?
    ensures var b := PutUvarint(|tags|) + EncTags(tags).value;
            DecTagged(b + rest) == Ok(tags, |b|)
  {
    hide DecTags, EncTags;
    var a, d := PutUvarint(|tags|), EncTags(tags).value;
    UvarintRoundTrip(|tags|, d + rest);
    TagsRoundTrip(tags, rest);
    Split(a + d, a, d, rest);
  }

  // One unfolding of the decoding loops.

  lemma FieldsStep(fs: seq<Field>, b: bytes)
    requires fs != []
    ensures var x := DecField(fs[0], b); var y := DecFields(fs[1..], b[x.n..]);
            if x.Ok? && y.Ok? then DecFields(fs, b) == Ok([x.value] + y.value, x.n + y.n) else DecFields(fs, b).Err?
  {
  }

  lemma ElemsStep(k: nat, ty: Schema, b: bytes)
    requires k > 0
    ensures var x := Dec(ty, b); var y := DecElems(k - 1, ty, b[x.n..]);
            if x.Ok? && y.Ok? then DecElems(k, ty, b) == Ok([x.value] + y.value, x.n + y.n) else DecElems(k, ty, b).Err?
  {
  }

  lemma TagsStep(k: nat, b: bytes)
    requires k > 0
    ensures var x := DecTag(b); var y := DecTags(k - 1, b[x.n..]);
            if x.Ok? && y.Ok? then DecTags(k, b) == Ok([x.value] + y.value, x.n + y.n) else DecTags(k, b).Err?
  {
  }

  /**
   The exact round trip, for every schema and every typed value the encoder accepts, whatever bytes follow:
   decoding gives the value back and consumes precisely its bytes if and only if the array length checks pass;
   otherwise it fails.
   */
  lemma {:induction false} RoundTrip(s: Schema, v: Value, rest: bytes)
    requires Typed(s, v) && Enc(s, v).Success?
    requires |Enc(s, v).value| < 0x7fff_ffff_ffff_ffff
    ensures var b := Enc(s, v).value;
            if Fits(s, v, |rest|) then Dec(s, b + rest) == Ok(v, |b|) else Dec(s, b + rest).Err?
    decreases s, 0, 0
  {
    if s.TStruct? {
      RoundTripFields(s.fields, v.values, rest);
    } else {
      RoundTripScalar(s, v, rest);
    }
  }

  lemma {:induction false} RoundTripFields(fs: seq<Field>, vs: seq<Value>, rest: bytes)
    requires |fs| == |vs| && TypedFields(fs, vs) && EncFields(fs, vs).Success?
    requires |EncFields(fs, vs).value| < 0x7fff_ffff_ffff_ffff
    ensures var b := EncFields(fs, vs).value;
            if FitsFields(fs, vs, |rest|) then DecFields(fs, b + rest) == Ok(vs, |b|) else DecFields(fs, b + rest).Err?
    decreases fs, 0, 0
  {
    hide EncField, DecField, FitsField, TypedField;
    if fs != [] {
      var a, d := EncField(fs[0], vs[0]).value, EncFields(fs[1..], vs[1..]).value;
      var b := EncFields(fs, vs).value + rest;
      Split(EncFields(fs, vs).value, a, d, rest);
      RoundTripField(fs[0], vs[0], d + rest);
      RoundTripFields(fs[1..], vs[1..], rest);
      FieldsRoundTripStep(fs, vs, b, |a|, |d|, FitsField(fs[0], vs[0], |d + rest|), FitsFields(fs[1..], vs[1..], |rest|));
    }
  }

  lemma FieldsRoundTripStep(fs: seq<Field>, vs: seq<Value>, b: bytes, n: nat, m: nat, head: bool, tail: bool)
    requires |fs| == |vs| > 0 && n <= |b|
    requires if head then DecField(fs[0], b) == Ok(vs[0], n) else DecField(fs[0], b).Err?
    requires if tail then DecFields(fs[1..], b[n..]) == Ok(vs[1..], m) else DecFields(fs[1..], b[n..]).Err?
    ensures if head && tail then DecFields(fs, b) == Ok(vs, n + m) else DecFields(fs, b).Err?
  {
    FieldsStep(fs, b);
    assert [vs[0]] + vs[1..] == vs;
  }

  lemma {:induction false} RoundTripField(f: Field, v: Value, rest: bytes)
    requires TypedField(f, v) && EncField(f, v).Success?
    requires |EncField(f, v).value| < 0x7fff_ffff_ffff_ffff
    ensures var b := EncField(f, v).value;
            if FitsField(f, v, |rest|) then DecField(f, b + rest) == Ok(v, |b|) else DecField(f, b + rest).Err?
    decreases f, 0, 0
  {
    hide EncElems, DecElems, FitsElems, TypedElems, Enc, Dec, Fits, EncTags, DecTagged;
    match f
    case Mfield(_, ty) => RoundTrip(ty, v, rest);
    case ArrayField(_, ty) =>
      RoundTripElems(ty, v.elems, rest);
      ArrayStep(f, v, rest);
    case CompactArrayField(_, ty) =>
      RoundTripElems(ty, v.elems, rest);
      CompactArrayStep(f, v, rest);
    case TaggedField(_) =>
      TagsCountBound(v.tags);
      TaggedRoundTrip(v.tags, rest);
  }

  /** The elements of an array are read back, or not. */
  ghost predicate ElemsReadBack(ty: Schema, vs: seq<Value>, rest: bytes)
    requires EncElems(ty, vs).Success?
  {
    var d := EncElems(ty, vs).value;
    if FitsElems(ty, vs, |rest|) then DecElems(|vs|, ty, d + rest) == Ok(vs, |d|) else DecElems(|vs|, ty, d + rest).Err?
  }

  lemma ArrayStep(f: Field, v: Value, rest: bytes)
    requires f.ArrayField? && v.Array? && EncField(f, v).Success? && ElemsReadBack(f.ty, v.elems, rest)
    ensures var b := EncField(f, v).value;
            if FitsField(f, v, |rest|) then DecField(f, b + rest) == Ok(v, |b|) else DecField(f, b + rest).Err?
  {
    hide EncElems, DecElems, FitsElems, IntBytes, IntOf;
    var a, d := IntBytes(4, |v.elems|), EncElems(f.ty, v.elems).value;
    Widths();
    IntRoundTrip(4, |v.elems|);
    Split(EncField(f, v).value, a, d, rest);
    assert (a + (d + rest))[..4] == a;
  }

  lemma CompactArrayStep(f: Field, v: Value, rest: bytes)
    requires f.CompactArrayField? && v.Array? && EncField(f, v).Success? && ElemsReadBack(f.ty, v.elems, rest)
    ensures var b := EncField(f, v).value;
            if FitsField(f, v, |rest|) then DecField(f, b + rest) == Ok(v, |b|) else DecField(f, b + rest).Err?
  {
    hide EncElems, DecElems, FitsElems, PutUvarint, GetVarint;
    var a, d := PutUvarint(|v.elems| + 1), EncElems(f.ty, v.elems).value;
    CompactLengthRoundTrip(|v.elems|, d + rest);
    Split(EncField(f, v).value, a, d, rest);
  }

  lemma {:induction false} RoundTripElems(ty: Schema, vs: seq<Value>, rest: bytes)
    requires TypedElems(ty, vs) && EncElems(ty, vs).Success?
    requires |EncElems(ty, vs).value| < 0x7fff_ffff_ffff_ffff
    ensures var b := EncElems(ty, vs).value;
            if FitsElems(ty, vs, |rest|) then DecElems(|vs|, ty, b + rest) == Ok(vs, |b|)
            else DecElems(|vs|, ty, b + rest).Err?
    decreases ty, 1, |vs|
  {
    hide Enc, Dec, Fits, Typed;
    if vs != [] {
      ElemsParts(ty, vs, |rest|);
      hide EncElems, DecElems, FitsElems, TypedElems;
      var a, d := Enc(ty, vs[0]).value, EncElems(ty, vs[1..]).value;
      var b := EncElems(ty, vs).value + rest;
      Split(EncElems(ty, vs).value, a, d, rest);
      RoundTrip(ty, vs[0], d + rest);
      RoundTripElems(ty, vs[1..], rest);
      ElemsRoundTripStep(ty, vs, b, |a|, |d|, Fits(ty, vs[0], |d + rest|), FitsElems(ty, vs[1..], |rest|));
    }
  }

  lemma ElemsParts(ty: Schema, vs: seq<Value>, tail: nat)
    requires vs != [] && TypedElems(ty, vs) && EncElems(ty, vs).Success?
    ensures Typed(ty, vs[0]) && TypedElems(ty, vs[1..]) && Enc(ty, vs[0]).Success? && EncElems(ty, vs[1..]).Success?
    ensures EncElems(ty, vs).value == Enc(ty, vs[0]).value + EncElems(ty, vs[1..]).value
    ensures FitsElems(ty, vs, tail) <==>
              Fits(ty, vs[0], |EncElems(ty, vs[1..]).value| + tail) && FitsElems(ty, vs[1..], tail)
  {
    hide Enc, Fits, Typed;
  }

  lemma ElemsRoundTripStep(ty: Schema, vs: seq<Value>, b: bytes, n: nat, m: nat, head: bool, tail: bool)
    requires |vs| > 0 && n <= |b|
    requires if head then Dec(ty, b) == Ok(vs[0], n) else Dec(ty, b).Err?
    requires if tail then DecElems(|vs| - 1, ty, b[n..]) == Ok(vs[1..], m) else DecElems(|vs| - 1, ty, b[n..]).Err?
    ensures if head && tail then DecElems(|vs|, ty, b) == Ok(vs, n + m) else DecElems(|vs|, ty, b).Err?
  {
    ElemsStep(|vs|, ty, b);
    assert [vs[0]] + vs[1..] == vs;
  }

  lemma {:induction false} TagsCountBound(tags: seq<RawTaggedField>)
    requires EncTags(tags).Success?
    ensures |tags| <= |EncTags(tags).value|
  {
    if tags != [] {
      TagsCountBound(tags[1..]);
    }
  }

  /** Tagged fields are read back in order, whatever follows. */
  lemma TaggedRead(tags: seq<RawTaggedField>, rest: bytes)
    requires EncTagged(tags).Success? && |EncTagged(tags).value| <= MAX_INT32
    ensures DecTagged(EncTagged(tags).value + rest) == Ok(tags, |EncTagged(tags).value|)
  {
    TagsCountBound(tags);
    TaggedRoundTrip(tags, rest);
  }

  // ----- Schemas whose array elements take space -----

  /** Every value of s takes at least one byte on the wire. */
  predicate Occupies(s: Schema)
    decreases s
  {
    s.TStruct? ==> OccupiesFields(s.fields)
  }

  predicate OccupiesFields(fs: seq<Field>)
    decreases fs
  {
    fs != [] && (!fs[0].Mfield? || Occupies(fs[0].ty) || OccupiesFields(fs[1..]))
  }

  /** Every array element schema inside s takes at least one byte. */
  predicate ElementsOccupy(s: Schema)
    decreases s
  {
    s.TStruct? ==> ElementsOccupyFields(s.fields)
  }

  predicate ElementsOccupyFields(fs: seq<Field>)
    decreases fs
  {
    fs == []
    || (&& (fs[0].TaggedField? || ElementsOccupy(fs[0].ty))
        && (fs[0].ArrayField? || fs[0].CompactArrayField? ==> Occupies(fs[0].ty))
        && ElementsOccupyFields(fs[1..]))
  }

  /** No plain array inside v has more than MAX_ARRAY_LENGTH elements. */
  predicate ArraysBounded(s: Schema, v: Value)
    decreases s, 0, 0
  {
    s.TStruct? && v.Struct? && |v.values| == |s.fields| ==> ArraysBoundedFields(s.fields, v.values)
  }

  predicate ArraysBoundedFields(fs: seq<Field>, vs: seq<Value>)
    requires |fs| == |vs|
    decreases fs, 0, 0
  {
    fs == [] || (ArraysBoundedField(fs[0], vs[0]) && ArraysBoundedFields(fs[1..], vs[1..]))
  }

  predicate ArraysBoundedField(f: Field, v: Value)
    decreases f, 0, 0
  {
    match f
    case Mfield(_, ty) => ArraysBounded(ty, v)
    case ArrayField(_, ty) => v.Array? ==> |v.elems| <= MAX_ARRAY_LENGTH && ArraysBoundedElems(ty, v.elems)
    case CompactArrayField(_, ty) => v.Array? ==> ArraysBoundedElems(ty, v.elems)
    case TaggedField(_) => true
  }

  predicate ArraysBoundedElems(ty: Schema, vs: seq<Value>)
    decreases ty, 1, |vs|
  {
    vs == [] || (ArraysBounded(ty, vs[0]) && ArraysBoundedElems(ty, vs[1..]))
  }

  lemma {:induction false} OccupiedSize(s: Schema, v: Value)
    requires Occupies(s) && Enc(s, v).Success?
    ensures |Enc(s, v).value| >= 1
    decreases s
  {
    if s.TStruct? {
      OccupiedFieldsSize(s.fields, v.values);
    }
  }

  lemma {:induction false} OccupiedFieldsSize(fs: seq<Field>, vs: seq<Value>)
    requires |fs| == |vs| && OccupiesFields(fs) && EncFields(fs, vs).Success?
    ensures |EncFields(fs, vs).value| >= 1
    decreases fs
  {
    if fs[0].Mfield? {
      if Occupies(fs[0].ty) {
        OccupiedSize(fs[0].ty, vs[0]);
      } else {
        OccupiedFieldsSize(fs[1..], vs[1..]);
      }
    }
  }

  lemma {:induction false} OccupiedElemsSize(ty: Schema, vs: seq<Value>)
    requires Occupies(ty) && EncElems(ty, vs).Success?
    ensures |EncElems(ty, vs).value| >= |vs|
  {
    if vs != [] {
      OccupiedSize(ty, vs[0]);
      OccupiedElemsSize(ty, vs[1..]);
    }
  }

  /** On schemas whose array elements take space the length checks come down to the bound on plain arrays. */
  lemma {:induction false} FitsIffBounded(s: Schema, v: Value, tail: nat)
    requires ElementsOccupy(s) && Enc(s, v).Success?
    ensures Fits(s, v, tail) <==> ArraysBounded(s, v)
    decreases s, 0, 0
  {
    if s.TStruct? {
      FitsIffBoundedFields(s.fields, v.values, tail);
    }
  }

  lemma {:induction false} FitsIffBoundedFields(fs: seq<Field>, vs: seq<Value>, tail: nat)
    requires |fs| == |vs| && ElementsOccupyFields(fs) && EncFields(fs, vs).Success?
    ensures FitsFields(fs, vs, tail) <==> ArraysBoundedFields(fs, vs)
    decreases fs, 0, 0
  {
    if fs != [] {
      FitsIffBoundedField(fs[0], vs[0], Size(EncFields(fs[1..], vs[1..])) + tail);
      FitsIffBoundedFields(fs[1..], vs[1..], tail);
    }
  }

  lemma {:induction false} FitsIffBoundedField(f: Field, v: Value, tail: nat)
    requires f.TaggedField? || ElementsOccupy(f.ty)
    requires f.ArrayField? || f.CompactArrayField? ==> Occupies(f.ty)
    requires EncField(f, v).Success?
    ensures FitsField(f, v, tail) <==> ArraysBoundedField(f, v)
    decreases f, 0, 0
  {
    if f.Mfield? {
      FitsIffBounded(f.ty, v, tail);
    } else if !f.TaggedField? {
      OccupiedElemsSize(f.ty, v.elems);
      FitsIffBoundedElems(f.ty, v.elems, tail);
    }
  }

  lemma {:induction false} FitsIffBoundedElems(ty: Schema, vs: seq<Value>, tail: nat)
    requires ElementsOccupy(ty) && EncElems(ty, vs).Success?
    ensures FitsElems(ty, vs, tail) <==> ArraysBoundedElems(ty, vs)
    decreases ty, 1, |vs|
  {
    if vs != [] {
      FitsIffBounded(ty, vs[0], Size(EncElems(ty, vs[1..])) + tail);
      FitsIffBoundedElems(ty, vs[1..], tail);
    }
  }

  /** What the decoder returns it would accept again: its plain arrays are bounded. */
  lemma {:induction false} DecodedBounded(s: Schema, b: bytes)
    requires Dec(s, b).Ok?
    ensures ArraysBounded(s, Dec(s, b).value)
    decreases s, 0, 0
  {
    if s.TStruct? {
      DecodedBoundedFields(s.fields, b);
    }
  }

  lemma {:induction false} DecodedBoundedFields(fs: seq<Field>, b: bytes)
    requires DecFields(fs, b).Ok?
    ensures ArraysBoundedFields(fs, DecFields(fs, b).value)
    decreases fs, 0, 0
  {
    if fs != [] {
      var x := DecField(fs[0], b);
      DecodedBoundedField(fs[0], b);
      DecodedBoundedFields(fs[1..], b[x.n..]);
      assert DecFields(fs, b).value[1..] == DecFields(fs[1..], b[x.n..]).value;
    }
  }

  lemma {:induction false} DecodedBoundedField(f: Field, b: bytes)
    requires DecField(f, b).Ok?
    ensures ArraysBoundedField(f, DecField(f, b).value)
    decreases f, 0, 0
  {
    match f
    case Mfield(_, ty) => DecodedBounded(ty, b);
    case ArrayField(_, ty) =>
      var count := GetArrayLength(b).value;
      DecodedBoundedElems(if count < 0 then 0 else count, ty, b[4..]);
    case CompactArrayField(_, ty) =>
      DecodedBoundedElems(GetCompactLength(b).value, ty, b[GetCompactLength(b).n..]);
    case TaggedField(_) =>
  }

  lemma {:induction false} DecodedBoundedElems(k: nat, ty: Schema, b: bytes)
    requires DecElems(k, ty, b).Ok?
    ensures ArraysBoundedElems(ty, DecElems(k, ty, b).value)
    decreases ty, 1, k
  {
    if k > 0 {
      var x := Dec(ty, b);
      DecodedBounded(ty, b);
      DecodedBoundedElems(k - 1, ty, b[x.n..]);
      assert DecElems(k, ty, b).value[1..] == DecElems(k - 1, ty, b[x.n..]).value;
    }
  }

  // ----- Normal form -----

  /**
   b starts with the one encoding the encoder itself would choose: every varint minimal,
   no negative array length, no null in a string that cannot be null.
   */
  predicate Canonical(s: Schema, b: bytes)
    decreases s, 0, 0
  {
    match s
    case TStr => |b| >= 2 && IntOf(b[..2]) != -1
    case TCompactStr => MinimalVarint(b)
    case TCompactNullableStr => MinimalVarint(b)
    case TStruct(_, fields) => CanonicalFields(fields, b)
    case _ => true
  }

  predicate MinimalVarint(b: bytes) {
    GetUvarint(b).UValue? && Minimal(b, GetUvarint(b).n)
  }

  predicate CanonicalFields(fs: seq<Field>, b: bytes)
    decreases fs, 0, 0
  {
    fs == []
    || (&& CanonicalField(fs[0], b)
        && CanonicalFields(fs[1..], b[DecField(fs[0], b).n..]))
  }

  predicate CanonicalField(f: Field, b: bytes)
    decreases f, 0, 0
  {
    match f
    case Mfield(_, ty) => Canonical(ty, b)
    case ArrayField(_, ty) =>
      GetArrayLength(b).Ok? && GetArrayLength(b).value >= 0 && CanonicalElems(GetArrayLength(b).value, ty, b[4..])
    case CompactArrayField(_, ty) =>
      && MinimalVarint(b) && GetCompactLength(b).Ok?
      && CanonicalElems(GetCompactLength(b).value, ty, b[GetCompactLength(b).n..])
    case TaggedField(_) =>
      && MinimalVarint(b) && GetVarint(b).value >= 0
      && CanonicalTags(GetVarint(b).value, b[GetVarint(b).n..])
  }

  predicate CanonicalElems(k: nat, ty: Schema, b: bytes)
    decreases ty, 1, k
  {
    k == 0 || (Canonical(ty, b) && CanonicalElems(k - 1, ty, b[Dec(ty, b).n..]))
  }

  predicate CanonicalTags(k: nat, b: bytes)
    decreases k
  {
    k == 0 || (MinimalTag(b) && CanonicalTags(k - 1, b[DecTag(b).n..]))
  }

  predicate MinimalTag(b: bytes) {
    MinimalVarint(b) && MinimalVarint(b[GetVarint(b).n..])
  }

  /** e re-encodes the n bytes at the start of b: it is no longer, and the same bytes exactly when b is canonical. */
  predicate Reencodes(e: bytes, b: bytes, n: nat, canonical: bool)
    requires n <= |b|
  {
    |e| <= n && (e == b[..n] <==> canonical)
  }

  lemma ReencodeInt(w: nat, b: bytes)
    requires 0 < w <= |b|
    ensures IntBytes(w, IntOf(b[..w])) == b[..w]
  {
    IntBytesOf(b[..w]);
  }

  lemma ReencodePair(e: bytes, d: bytes, b: bytes, n: nat, m: nat, c1: bool, c2: bool)
    requires n + m <= |b|
    requires Reencodes(e, b, n, c1) && Reencodes(d, b[n..], m, c2)
    ensures Reencodes(e + d, b, n + m, c1 && c2)
  {
    var ed := e + d;
    assert b[..n + m] == b[..n] + b[n..][..m];
    if ed == b[..n + m] {
      assert |e| == n && |d| == m;
      assert e == ed[..n] == b[..n + m][..n] == b[..n];
      assert d == ed[n..] == b[..n + m][n..] == b[n..][..m];
    }
  }

  lemma ReencodeCompactString(s: bytes, b: bytes, n: nat)
    requires GetVarint(b).Ok? && n == GetVarint(b).n && GetVarint(b).value == |s| + 1
    requires n + |s| <= |b| && s == b[n..n + |s|]
    ensures Reencodes(PutUvarint(|s| + 1) + s, b, n + |s|, MinimalVarint(b))
  {
    hide PutUvarint, GetUvarint;
    UvarintReencode(b);
    assert s == b[n..][..|s|];
    ReencodePair(PutUvarint(|s| + 1), s, b, n, |s|, MinimalVarint(b), true);
  }

  lemma ReencodeString(b: bytes)
    requires GetString(b).Ok? && StringBytes(GetString(b).value).Success?
    ensures Reencodes(StringBytes(GetString(b).value).value, b, GetString(b).n, IntOf(b[..2]) != -1)
  {
    Widths();
    ReencodeInt(2, b);
    var s, n := GetString(b).value, GetString(b).n;
    if IntOf(b[..2]) == -1 {
      IntRoundTrip(2, 0);
      assert StringBytes(s).value == IntBytes(2, 0);
    } else {
      assert b[..n] == b[..2] + s;
    }
  }

  lemma ReencodeNullableString(b: bytes)
    requires GetNullableString(b).Ok? && NullableStringBytes(GetNullableString(b).value).Success?
    ensures Reencodes(NullableStringBytes(GetNullableString(b).value).value, b, GetNullableString(b).n, true)
  {
    ReencodeInt(2, b);
    var p, n := GetNullableString(b).value, GetNullableString(b).n;
    if p.Some? {
      assert b[..n] == b[..2] + p.value;
    }
  }

  lemma ReencodeCompactNullableString(b: bytes)
    requires GetCompactNullableString(b).Ok? && CompactNullableStringBytes(GetCompactNullableString(b).value).Success?
    ensures Reencodes(CompactNullableStringBytes(GetCompactNullableString(b).value).value, b,
                      GetCompactNullableString(b).n, MinimalVarint(b))
  {
    var p := GetCompactNullableString(b).value;
    if p.Some? {
      ReencodeCompactString(p.value, b, GetVarint(b).n);
    } else {
      UvarintReencode(b);
    }
  }

  lemma ReencodeScalar(s: Schema, b: bytes)
    requires !s.TStruct? && Dec(s, b).Ok? && Enc(s, Dec(s, b).value).Success?
    ensures Reencodes(Enc(s, Dec(s, b).value).value, b, Dec(s, b).n, Canonical(s, b))
  {
    match s
    case TBool => ReencodeInt(1, b);
    case TInt16 => ReencodeInt(2, b);
    case TInt32 => ReencodeInt(4, b);
    case TUuid =>
    case TStr => ReencodeString(b);
    case TNullableStr => ReencodeNullableString(b);
    case TCompactStr => ReencodeCompactString(Dec(s, b).value.s, b, GetVarint(b).n);
    case TCompactNullableStr => ReencodeCompactNullableString(b);
  }

  lemma ReencodeTaggedData(b: bytes)
    requires GetVarintBytes(b).Ok? && TaggedDataBytes(GetVarintBytes(b).value).Success?
    ensures Reencodes(TaggedDataBytes(GetVarintBytes(b).value).value, b, GetVarintBytes(b).n, MinimalVarint(b))
  {
    hide PutUvarint, GetUvarint;
    UvarintReencode(b);
    var data, n := GetVarintBytes(b).value, GetVarint(b).n;
    if data.Some? {
      var x := data.value;
      assert x == b[n..][..|x|];
      ReencodePair(PutUvarint(|x|), x, b, n, |x|, MinimalVarint(b), true);
    }
  }

  lemma ReencodeTag(b: bytes)
    requires DecTag(b).Ok? && EncTag(DecTag(b).value).Success?
    ensures Reencodes(EncTag(DecTag(b).value).value, b, DecTag(b).n, MinimalTag(b))
  {
    hide PutUvarint, GetUvarint, TaggedDataBytes, GetVarintBytes;
    var t, n := DecTag(b).value, GetVarint(b).n;
    var c := b[n..];
    UvarintReencode(b);
    ReencodeTaggedData(c);
    ReencodePair(VarintBytes(t.tag), TaggedDataBytes(t.data).value, b, n, GetVarintBytes(c).n,
                 MinimalVarint(b), MinimalVarint(c));
  }

  lemma {:induction false} ReencodeTags(k: nat, b: bytes)
    requires DecTags(k, b).Ok? && EncTags(DecTags(k, b).value).Success?
    ensures Reencodes(EncTags(DecTags(k, b).value).value, b, DecTags(k, b).n, CanonicalTags(k, b))
  {
    if k == 0 {
      assert b[..0] == [];
    } else {
      hide DecTag, EncTag, MinimalTag, Reencodes;
      var x := DecTag(b);
      var y := DecTags(k - 1, b[x.n..]);
      TagsStep(k, b);
      EncTagsCons(x.value, y.value);
      ReencodeTags(k - 1, b[x.n..]);
      ReencodeTagsStep(k, b, x, y);
    }
  }

  lemma ReencodeTagsStep(k: nat, b: bytes, x: Parsed<RawTaggedField>, y: Parsed<seq<RawTaggedField>>)
    requires k > 0 && x == DecTag(b) && x.Ok? && y == DecTags(k - 1, b[x.n..]) && y.Ok?
    requires EncTag(x.value).Success? && EncTags(y.value).Success?
    requires Reencodes(EncTags(y.value).value, b[x.n..], y.n, CanonicalTags(k - 1, b[x.n..]))
    ensures Reencodes(EncTag(x.value).value + EncTags(y.value).value, b, x.n + y.n, CanonicalTags(k, b))
  {
    hide DecTag, DecTags, EncTag, EncTags, MinimalTag, Reencodes;
    ReencodeTag(b);
    ReencodePair(EncTag(x.value).value, EncTags(y.value).value, b, x.n, y.n, MinimalTag(b), CanonicalTags(k - 1, b[x.n..]));
  }

  lemma EncTagsCons(t: RawTaggedField, ts: seq<RawTaggedField>)
    ensures EncTags([t] + ts) == Then(EncTag(t), EncTags(ts))
  {
    assert ([t] + ts)[1..] == ts;
  }

  lemma {:induction false} Reencode(s: Schema, b: bytes)
    requires Dec(s, b).Ok? && Enc(s, Dec(s, b).value).Success?
    ensures Reencodes(Enc(s, Dec(s, b).value).value, b, Dec(s, b).n, Canonical(s, b))
    decreases s, 0, 0
  {
    if s.TStruct? {
      ReencodeFields(s.fields, b);
    } else {
      ReencodeScalar(s, b);
    }
  }

  lemma {:induction false} ReencodeFields(fs: seq<Field>, b: bytes)
    requires DecFields(fs, b).Ok? && EncFields(fs, DecFields(fs, b).value).Success?
    ensures Reencodes(EncFields(fs, DecFields(fs, b).value).value, b, DecFields(fs, b).n, CanonicalFields(fs, b))
    decreases fs, 0, 0
  {
    if fs == [] {
      assert b[..0] == [];
    } else {
      var v, n := DecField(fs[0], b).value, DecField(fs[0], b).n;
      var vs, m := DecFields(fs[1..], b[n..]).value, DecFields(fs[1..], b[n..]).n;
      assert DecFields(fs, b).value[1..] == vs;
      ReencodeField(fs[0], b);
      ReencodeFields(fs[1..], b[n..]);
      ReencodePair(EncField(fs[0], v).value, EncFields(fs[1..], vs).value, b, n, m,
                   CanonicalField(fs[0], b), CanonicalFields(fs[1..], b[n..]));
    }
  }

  lemma {:induction false} ReencodeField(f: Field, b: bytes)
    requires DecField(f, b).Ok? && EncField(f, DecField(f, b).value).Success?
    ensures Reencodes(EncField(f, DecField(f, b).value).value, b, DecField(f, b).n, CanonicalField(f, b))
    decreases f, 0, 0
  {
    match f
    case Mfield(_, ty) => Reencode(ty, b);
    case ArrayField(_, ty) =>
      var count := GetArrayLength(b).value;
      ReencodeElems(if count < 0 then 0 else count, ty, b[4..]);
      ReencodeArray(f, b);
    case CompactArrayField(_, ty) =>
      ReencodeElems(GetCompactLength(b).value, ty, b[GetCompactLength(b).n..]);
      ReencodeCompactArray(f, b);
    case TaggedField(_) => ReencodeTagged(f, b);
  }

  /** ReencodeElems as a predicate: the induction hypothesis of the two array lemmas. */
  predicate ElemsReencode(k: nat, ty: Schema, b: bytes) {
    var x := DecElems(k, ty, b);
    x.Ok? && EncElems(ty, x.value).Success?
    ==> Reencodes(EncElems(ty, x.value).value, b, x.n, CanonicalElems(k, ty, b))
  }

  lemma ReencodeArray(f: Field, b: bytes)
    requires f.ArrayField? && DecField(f, b).Ok? && EncField(f, DecField(f, b).value).Success?
    requires var count := GetArrayLength(b).value; ElemsReencode(if count < 0 then 0 else count, f.ty, b[4..])
    ensures Reencodes(EncField(f, DecField(f, b).value).value, b, DecField(f, b).n, CanonicalField(f, b))
  {
    ReencodeInt(4, b);
    var count := GetArrayLength(b).value;
    if count < 0 {
      Widths();
      IntRoundTrip(4, 0);
      assert EncField(f, Array([])).value == IntBytes(4, 0);
    } else {
      var x := DecElems(count, f.ty, b[4..]);
      ReencodePair(IntBytes(4, count), EncElems(f.ty, x.value).value, b, 4, x.n, true, CanonicalElems(count, f.ty, b[4..]));
    }
  }

  lemma ReencodeCompactArray(f: Field, b: bytes)
    requires f.CompactArrayField? && DecField(f, b).Ok? && EncField(f, DecField(f, b).value).Success?
    requires ElemsReencode(GetCompactLength(b).value, f.ty, b[GetCompactLength(b).n..])
    ensures Reencodes(EncField(f, DecField(f, b).value).value, b, DecField(f, b).n, CanonicalField(f, b))
  {
    hide PutUvarint, GetUvarint, EncElems, DecElems;
    UvarintReencode(b);
    var count, n := GetCompactLength(b).value, GetCompactLength(b).n;
    var x := DecElems(count, f.ty, b[n..]);
    ReencodePair(PutUvarint(count + 1), EncElems(f.ty, x.value).value, b, n, x.n,
                 MinimalVarint(b), CanonicalElems(count, f.ty, b[n..]));
  }

  lemma ReencodeTagged(f: Field, b: bytes)
    requires f.TaggedField? && DecField(f, b).Ok? && EncField(f, DecField(f, b).value).Success?
    ensures Reencodes(EncField(f, DecField(f, b).value).value, b, DecField(f, b).n, CanonicalField(f, b))
  {
    hide PutUvarint, GetUvarint, EncTags, DecTags;
    UvarintReencode(b);
    var count, n := GetVarint(b).value, GetVarint(b).n;
    ReencodeTags(count, b[n..]);
    var x := DecTags(count, b[n..]);
    ReencodePair(PutUvarint(count), EncTags(x.value).value, b, n, x.n,
                 MinimalVarint(b), CanonicalTags(count, b[n..]));
  }

  lemma {:induction false} ReencodeElems(k: nat, ty: Schema, b: bytes)
    requires DecElems(k, ty, b).Ok? && EncElems(ty, DecElems(k, ty, b).value).Success?
    ensures Reencodes(EncElems(ty, DecElems(k, ty, b).value).value, b, DecElems(k, ty, b).n, CanonicalElems(k, ty, b))
    decreases ty, 1, k
  {
    if k == 0 {
      assert b[..0] == [];
    } else {
      var v, n := Dec(ty, b).value, Dec(ty, b).n;
      var vs, m := DecElems(k - 1, ty, b[n..]).value, DecElems(k - 1, ty, b[n..]).n;
      assert DecElems(k, ty, b).value[1..] == vs;
      Reencode(ty, b);
      ReencodeElems(k - 1, ty, b[n..]);
      ReencodePair(Enc(ty, v).value, EncElems(ty, vs).value, b, n, m,
                   Canonical(ty, b), CanonicalElems(k - 1, ty, b[n..]));
    }
  }
}
