/**
 What the encoder must accept, how long its output is and how it is laid out, told without the encoding functions
 (the limits of proxy/protocol/prep_encoder.go, the layout of real_encoder.go).
 */
module SchemaLimits {
  import opened Wire
  import opened SchemaModel

  // ----- Bytes -----

  /** The number at the start of b, the most significant byte first. */
  function Two(b: bytes): nat
    requires |b| >= 2
  {
    (b[0] as int) * 0x100 + b[1]
  }

  function Four(b: bytes): nat
    requires |b| >= 4
  {
    (b[0] as int) * 0x100_0000 + (b[1] as int) * 0x1_0000 + (b[2] as int) * 0x100 + b[3]
  }

  lemma BigEndian(b: bytes)
    ensures |b| == 1 ==> GetBE(b) == b[0]
    ensures |b| == 2 ==> GetBE(b) == Two(b)
    ensures |b| == 4 ==> GetBE(b) == Four(b)
  {
    if b != [] {
      var a := b[..|b| - 1];
      if a != [] {
        var c := a[..|a| - 1];
        if c != [] {
          assert c[..|c| - 1] == b[..|c| - 1];
          var d := c[..|c| - 1];
          assert d != [] ==> GetBE(d) == 256 * GetBE(d[..|d| - 1]) + d[|d| - 1];
        }
      }
    }
  }

  /** The number that base-128 groups denote, the lowest first; the top bit only says that more follow. */
  function Base128(b: bytes): nat {
    if b == [] then 0 else (b[0] % 128) as int + 128 * Base128(b[1..])
  }

  /** The one way to write u in groups of seven bits: the lowest first, all but the last marked, no empty last group. */
  predicate IsVarint(b: bytes, u: nat) {
    && b != [] && Base128(b) == u && b[|b| - 1] < 128
    && (forall i :: 0 <= i < |b| - 1 ==> b[i] >= 128)
    && (|b| > 1 ==> b[|b| - 1] != 0)
  }

  lemma {:induction false} VarintLayout(u: nat)
    ensures IsVarint(PutUvarint(u), u)
  {
    var b := PutUvarint(u);
    if u >= 128 {
      VarintLayout(u / 128);
      assert b[1..] == PutUvarint(u / 128);
      assert forall i :: 1 <= i < |b| ==> b[i] == b[1..][i - 1];
      if |b| == 2 {
        assert Base128(b[1..]) == (b[1] % 128) as int + 128 * Base128(b[1..][1..]);
      }
    } else {
      assert b[1..] == [];
    }
  }

  /** Bytes of a varint: one for every seven bits. */
  function VarintSize(u: nat): nat {
    if u < 128 then 1 else 1 + VarintSize(u / 128)
  }

  lemma {:induction false} VarintSizeExact(u: nat)
    ensures |PutUvarint(u)| == VarintSize(u)
  {
    if u >= 128 {
      VarintSizeExact(u / 128);
    }
  }

  // ----- Which values can be encoded -----

  predicate EncodableTags(tags: seq<RawTaggedField>) {
    forall t <- tags :: t.data.Some? ==> |t.data.value| <= 0x7fff_ffff
  }

  /** Texts and compact arrays up to 32767, arrays and tag data up to 2147483647, and the value is of the schema's kind. */
  predicate Encodable(s: Schema, v: Value)
    decreases s, 0, 0
  {
    match s
    case TBool => v.Bool?
    case TInt16 => v.Int16?
    case TInt32 => v.Int32?
    case TStr => v.Str? && |v.s| <= 32767
    case TNullableStr => v.StrPtr? && (v.p.Some? ==> |v.p.value| <= 32767)
    case TCompactStr => v.Str? && |v.s| <= 32767
    case TCompactNullableStr => v.StrPtr? && (v.p.Some? ==> |v.p.value| <= 32767)
    case TUuid => v.Uuid?
    case TStruct(_, fields) => v.Struct? && |v.values| == |fields| && EncodableFields(fields, v.values)
  }

  predicate EncodableFields(fs: seq<Field>, vs: seq<Value>)
    requires |fs| == |vs|
    decreases fs, 0, 0
  {
    fs == [] || (EncodableField(fs[0], vs[0]) && EncodableFields(fs[1..], vs[1..]))
  }

  predicate EncodableField(f: Field, v: Value)
    decreases f, 0, 0
  {
    match f
    case Mfield(_, ty) => Encodable(ty, v)
    case ArrayField(_, ty) => v.Array? && |v.elems| <= 0x7fff_ffff && EncodableElems(ty, v.elems)
    case CompactArrayField(_, ty) => v.Array? && |v.elems| <= 32767 && EncodableElems(ty, v.elems)
    case TaggedField(_) => v.Tagged? && EncodableTags(v.tags)
  }

  predicate EncodableElems(ty: Schema, vs: seq<Value>)
    decreases ty, 1, |vs|
  {
    vs == [] || (Encodable(ty, vs[0]) && EncodableElems(ty, vs[1..]))
  }

  // ----- How long the encoding is -----

  function CompactTextSize(p: Option<bytes>): nat {
    if p.None? then 1 else VarintSize(|p.value| + 1) + |p.value|
  }

  function TagsSize(tags: seq<RawTaggedField>): nat {
    if tags == [] then 0
    else
      var t := tags[0];
      VarintSize(if t.tag < 0 then t.tag + 0x1_0000_0000_0000_0000 else t.tag)
      + (if t.data.None? then 10 else VarintSize(|t.data.value|) + |t.data.value|) + TagsSize(tags[1..])
  }

  function WireSize(s: Schema, v: Value): nat
    requires Encodable(s, v)
    decreases s, 0, 0
  {
    match s
    case TBool => 1
    case TInt16 => 2
    case TInt32 => 4
    case TStr => 2 + |v.s|
    case TNullableStr => if v.p.None? then 2 else 2 + |v.p.value|
    case TCompactStr => CompactTextSize(Some(v.s))
    case TCompactNullableStr => CompactTextSize(v.p)
    case TUuid => 16
    case TStruct(_, fields) => FieldsSize(fields, v.values)
  }

  function FieldsSize(fs: seq<Field>, vs: seq<Value>): nat
    requires |fs| == |vs| && EncodableFields(fs, vs)
    decreases fs, 0, 0
  {
    if fs == [] then 0 else FieldSize(fs[0], vs[0]) + FieldsSize(fs[1..], vs[1..])
  }

  function FieldSize(f: Field, v: Value): nat
    requires EncodableField(f, v)
    decreases f, 0, 0
  {
    match f
    case Mfield(_, ty) => WireSize(ty, v)
    case ArrayField(_, ty) => 4 + ElemsSize(ty, v.elems)
    case CompactArrayField(_, ty) => VarintSize(|v.elems| + 1) + ElemsSize(ty, v.elems)
    case TaggedField(_) => VarintSize(|v.tags|) + TagsSize(v.tags)
  }

  function ElemsSize(ty: Schema, vs: seq<Value>): nat
    requires EncodableElems(ty, vs)
    decreases ty, 1, |vs|
  {
    if vs == [] then 0 else WireSize(ty, vs[0]) + ElemsSize(ty, vs[1..])
  }

  // ----- The encoder accepts exactly these, and writes exactly so many bytes -----

  lemma TextExact(s: bytes)
    ensures StringBytes(s).Success? <==> |s| <= 32767
    ensures StringBytes(s).Success? ==> |StringBytes(s).value| == 2 + |s|
    ensures CompactStringBytes(s).Success? <==> |s| <= 32767
    ensures CompactStringBytes(s).Success? ==> |CompactStringBytes(s).value| == CompactTextSize(Some(s))
  {
    VarintSizeExact(|s| + 1);
  }

  lemma {:induction false} TagsExact(tags: seq<RawTaggedField>)
    ensures EncTags(tags).Success? <==> EncodableTags(tags)
    ensures EncTags(tags).Success? ==> |EncTags(tags).value| == TagsSize(tags)
  {
    if tags != [] {
      var t := tags[0];
      TagExact(t);
      TagsExact(tags[1..]);
      assert EncodableTags(tags) <==> (t.data.Some? ==> |t.data.value| <= 0x7fff_ffff) && EncodableTags(tags[1..]) by {
        assert tags == [t] + tags[1..];
      }
    }
  }

  lemma TagExact(t: RawTaggedField)
    ensures EncTag(t).Success? <==> (t.data.Some? ==> |t.data.value| <= 0x7fff_ffff)
    ensures EncTag(t).Success? ==>
              |EncTag(t).value| == VarintSize(if t.tag < 0 then t.tag + 0x1_0000_0000_0000_0000 else t.tag)
                                   + (if t.data.None? then 10 else VarintSize(|t.data.value|) + |t.data.value|)
  {
    hide PutUvarint;
    VarintSizeExact(ToUint64(t.tag));
    NullDataSize();
    if t.data.Some? {
      VarintSizeExact(|t.data.value|);
    }
  }

  lemma NullDataSize()
    ensures |VarintBytes(-1)| == 10
  {
    VarintSizeExact(0xffff_ffff_ffff_ffff);
    assert VarintSize(0x1_ffff_ffff_ffff) == 7;
    assert VarintSize(0xff_ffff_ffff_ffff) == 1 + VarintSize(0x1_ffff_ffff_ffff);
    assert VarintSize(0x7fff_ffff_ffff_ffff) == 1 + VarintSize(0xff_ffff_ffff_ffff);
  }

  /**
   For every schema and every value, whatever its kind: the encoder succeeds if and only if the value is encodable, and
   then writes as many bytes as its parts take.
   */
  lemma {:induction false} EncodesExactly(s: Schema, v: Value)
    ensures Enc(s, v).Success? <==> Encodable(s, v)
    ensures Enc(s, v).Success? ==> |Enc(s, v).value| == WireSize(s, v)
    decreases s, 0, 0
  {
    hide PutUvarint;
    match s
    case TStruct(_, fields) =>
      if v.Struct? && |v.values| == |fields| {
        FieldsExact(fields, v.values);
      }
    case TStr => if v.Str? { TextExact(v.s); }
    case TCompactStr => if v.Str? { TextExact(v.s); }
    case TNullableStr => if v.StrPtr? && v.p.Some? { TextExact(v.p.value); }
    case TCompactNullableStr =>
      VarintSizeExact(0);
      if v.StrPtr? && v.p.Some? { TextExact(v.p.value); }
    case _ =>
  }

  lemma {:induction false} FieldsExact(fs: seq<Field>, vs: seq<Value>)
    requires |fs| == |vs|
    ensures EncFields(fs, vs).Success? <==> EncodableFields(fs, vs)
    ensures EncFields(fs, vs).Success? ==> |EncFields(fs, vs).value| == FieldsSize(fs, vs)
    decreases fs, 0, 0
  {
    if fs != [] {
      FieldExact(fs[0], vs[0]);
      FieldsExact(fs[1..], vs[1..]);
    }
  }

  lemma {:induction false} FieldExact(f: Field, v: Value)
    ensures EncField(f, v).Success? <==> EncodableField(f, v)
    ensures EncField(f, v).Success? ==> |EncField(f, v).value| == FieldSize(f, v)
    decreases f, 0, 0
  {
    hide PutUvarint;
    match f
    case Mfield(_, ty) => EncodesExactly(ty, v);
    case TaggedField(_) =>
      if v.Tagged? {
        TagsExact(v.tags);
        VarintSizeExact(|v.tags|);
      }
    case ArrayField(_, ty) =>
      if v.Array? {
        ElemsExact(ty, v.elems);
      }
    case CompactArrayField(_, ty) =>
      if v.Array? {
        ElemsExact(ty, v.elems);
        VarintSizeExact(|v.elems| + 1);
      }
  }

  lemma {:induction false} ElemsExact(ty: Schema, vs: seq<Value>)
    ensures EncElems(ty, vs).Success? <==> EncodableElems(ty, vs)
    ensures EncElems(ty, vs).Success? ==> |EncElems(ty, vs).value| == ElemsSize(ty, vs)
    decreases ty, 1, |vs|
  {
    if vs != [] {
      EncodesExactly(ty, vs[0]);
      ElemsExact(ty, vs[1..]);
    }
  }

  /** EncodeSchema: encodable, and at most 100 MiB. */
  lemma EncodeExactly(s: Schema, v: Value)
    ensures Encode(s, v).Success? <==> Encodable(s, v) && WireSize(s, v) <= 104857600
  {
    EncodesExactly(s, v);
  }

  // ----- The layout -----

  /** The bytes of b, read as the schema's scalar with plain arithmetic, are v. */
  predicate Laid(s: Schema, v: Value, b: bytes) {
    match s
    case TBool => v.Bool? && b == [if v.b then 1 else 0]
    case TInt16 => v.Int16? && |b| == 2 && Two(b) == v.i16 % 0x1_0000
    case TInt32 => v.Int32? && |b| == 4 && Four(b) == v.i32 % 0x1_0000_0000
    case TStr => v.Str? && |b| >= 2 && Two(b) == |v.s| && b[2..] == v.s
    case TNullableStr =>
      v.StrPtr? && if v.p.None? then b == [255, 255]
                   else |b| >= 2 && Two(b) == |v.p.value| && b[2..] == v.p.value
    case TCompactStr => v.Str? && LaidCompact(v.s, b)
    case TCompactNullableStr => v.StrPtr? && if v.p.None? then b == [0] else LaidCompact(v.p.value, b)
    case TUuid => v.Uuid? && b == v.u
    case TStruct(_, _) => true
  }

  predicate LaidCompact(s: bytes, b: bytes) {
    |b| >= |s| && IsVarint(b[..|b| - |s|], |s| + 1) && b[|b| - |s|..] == s
  }

  lemma ScalarLayout(s: Schema, v: Value)
    requires Enc(s, v).Success?
    ensures Laid(s, v, Enc(s, v).value)
  {
    hide IntBytes, IsVarint, Two, Four, StringBytes, CompactStringBytes;
    match s
    case TBool => IntLayout(1, if v.b then 1 else 0);
    case TInt16 => IntLayout(2, v.i16);
    case TInt32 => IntLayout(4, v.i32);
    case TStr => TextLayout(v.s);
    case TNullableStr =>
      if v.p.Some? {
        TextLayout(v.p.value);
      } else {
        NullLayout();
      }
    case TCompactStr => CompactLayout(v.s);
    case TCompactNullableStr =>
      if v.p.Some? {
        CompactLayout(v.p.value);
      }
    case _ =>
  }

  lemma IntLayout(w: nat, i: int)
    requires (w == 1 && 0 <= i < 0x80) || (w == 2 && -0x8000 <= i < 0x8000) || (w == 4 && -0x8000_0000 <= i < 0x8000_0000)
    ensures |IntBytes(w, i)| == w && GetBE(IntBytes(w, i)) == if i < 0 then i + Pow256(w) else i
    ensures w == 1 ==> IntBytes(w, i) == [i]
    ensures w == 2 ==> Two(IntBytes(w, i)) == i % 0x1_0000
    ensures w == 4 ==> Four(IntBytes(w, i)) == i % 0x1_0000_0000
  {
    hide PutBE, GetBE, Pow256;
    Widths();
    var u := if i < 0 then i + Pow256(w) else i;
    assert IntBytes(w, i) == PutBE(w, u);
    GetPutBE(w, u);
    BigEndian(IntBytes(w, i));
  }

  lemma TextLayout(s: bytes)
    requires StringBytes(s).Success?
    ensures var b := StringBytes(s).value; |b| >= 2 && Two(b) == |s| && b[2..] == s
  {
    hide IntBytes;
    IntLayout(2, |s|);
  }

  lemma NullLayout()
    ensures IntBytes(2, -1) == [255, 255]
  {
    hide GetBE, PutBE;
    Widths();
    IntLayout(2, -1);
    assert Two(IntBytes(2, -1)) == 0xffff;
  }

  lemma CompactLayout(s: bytes)
    ensures CompactStringBytes(s).Success? ==> LaidCompact(s, CompactStringBytes(s).value)
  {
    hide PutUvarint, IsVarint;
    var p := PutUvarint(|s| + 1);
    VarintLayout(|s| + 1);
    assert (p + s)[..|p + s| - |s|] == p && (p + s)[|p + s| - |s|..] == s;
  }

  /** The last field's bytes come last, so fields stand in the order of the schema. */
  lemma {:induction false} FieldsInOrder(fs: seq<Field>, vs: seq<Value>, f: Field, v: Value)
    requires |fs| == |vs|
    ensures EncFields(fs + [f], vs + [v]).Success? ==>
              && EncFields(fs, vs).Success? && EncField(f, v).Success?
              && EncFields(fs + [f], vs + [v]).value == EncFields(fs, vs).value + EncField(f, v).value
  {
    if fs == [] {
      assert fs + [f] == [f] && vs + [v] == [v] && [f][1..] == [] && [v][1..] == [];
      assert EncFields([], []) == Success([]);
    } else {
      FieldsInOrder(fs[1..], vs[1..], f, v);
      assert (fs + [f])[1..] == fs[1..] + [f] && (vs + [v])[1..] == vs[1..] + [v];
    }
  }

  lemma {:induction false} ElemsInOrder(ty: Schema, vs: seq<Value>, v: Value)
    ensures EncElems(ty, vs + [v]).Success? ==>
              && EncElems(ty, vs).Success? && Enc(ty, v).Success?
              && EncElems(ty, vs + [v]).value == EncElems(ty, vs).value + Enc(ty, v).value
    decreases |vs|
  {
    if vs == [] {
      assert vs + [v] == [v] && [v][1..] == [];
      assert EncElems(ty, []) == Success([]);
    } else {
      ElemsInOrder(ty, vs[1..], v);
      assert (vs + [v])[1..] == vs[1..] + [v];
    }
  }

  /** An array is its count, as four bytes or as a varint of one more, and then its elements. */
  lemma ArrayLayout(f: Field, v: Value)
    requires (f.ArrayField? || f.CompactArrayField?) && EncField(f, v).Success?
    ensures var b := EncField(f, v).value;
            && EncElems(f.ty, v.elems).Success?
            && var e := EncElems(f.ty, v.elems).value;
               && |b| >= |e| && b[|b| - |e|..] == e
               && var head := b[..|b| - |e|];
                  if f.CompactArrayField? then IsVarint(head, |v.elems| + 1)
                  else |head| == 4 && Four(head) == |v.elems|
  {
    var b, e := EncField(f, v).value, EncElems(f.ty, v.elems).value;
    var head := if f.CompactArrayField? then PutUvarint(|v.elems| + 1) else IntBytes(4, |v.elems|);
    assert b == head + e && b[..|b| - |e|] == head && b[|b| - |e|..] == e;
    if f.CompactArrayField? {
      VarintLayout(|v.elems| + 1);
    } else {
      IntLayout(4, |v.elems|);
    }
  }

  /** A tag, the length of its data and the data; null data has the length -1, that is 2^64 - 1. */
  lemma TagLayout(t: RawTaggedField)
    requires EncTag(t).Success?
    ensures exists tag, size ::
              && EncTag(t).value == tag + size + (if t.data.None? then [] else t.data.value)
              && IsVarint(tag, if t.tag < 0 then t.tag + 0x1_0000_0000_0000_0000 else t.tag)
              && IsVarint(size, if t.data.None? then 0xffff_ffff_ffff_ffff else |t.data.value|)
  {
    hide PutUvarint, IsVarint;
    var n := if t.data.None? then 0xffff_ffff_ffff_ffff else |t.data.value|;
    var tag, size := PutUvarint(ToUint64(t.tag)), PutUvarint(n);
    var data := if t.data.None? then [] else t.data.value;
    VarintLayout(ToUint64(t.tag));
    VarintLayout(n);
    assert EncTag(t).value == tag + size + data;
  }

  lemma {:induction false} TagsInOrder(ts: seq<RawTaggedField>, t: RawTaggedField)
    ensures EncTags(ts + [t]).Success? ==>
              && EncTags(ts).Success? && EncTag(t).Success?
              && EncTags(ts + [t]).value == EncTags(ts).value + EncTag(t).value
    decreases |ts|
  {
    hide EncTag;
    if ts == [] {
      assert ts + [t] == [t] && [t][1..] == [];
      assert EncTags([]) == Success([]);
    } else {
      TagsInOrder(ts[1..], t);
      assert (ts + [t])[1..] == ts[1..] + [t];
    }
  }

  // ----- What the decoder reads -----

  /** A compact length: a varint of one more, however it is written, that an int64 holds, and as many bytes behind it. */
  function CompactSpan(b: bytes): Option<(nat, nat)> {
    match GetUvarint(b)
    case UValue(u, n) => if 1 <= u <= 0x8000_0000_0000_0000 && u <= |b| - n + 1 then Some((n, n + u - 1)) else None
    case _ => None
  }

  function Span(b: bytes): Option<(nat, nat)> {
    if |b| >= 2 && b[0] < 128 && Two(b) <= |b| - 2 then Some((2, 2 + Two(b))) else None
  }

  /** The scalar at the start of b and the bytes it takes, if there is one. */
  function ScalarAt(s: Schema, b: bytes): Option<(Value, nat)>
    requires !s.TStruct?
  {
    match s
    case TBool => if |b| >= 1 && b[0] <= 1 then Some((Bool(b[0] == 1), 1)) else None
    case TInt16 => if |b| >= 2 then Some((Int16(Two(b) - if b[0] < 128 then 0 else 0x1_0000), 2)) else None
    case TInt32 => if |b| >= 4 then Some((Int32(Four(b) - if b[0] < 128 then 0 else 0x1_0000_0000), 4)) else None
    case TUuid => if |b| >= 16 then Some((Uuid(b[..16]), 16)) else None
    case TStr =>
      if b[..if |b| < 2 then 0 else 2] == [255, 255] then Some((Str([]), 2))
      else
        (match Span(b)
         case None => None
         case Some((i, j)) => Some((Str(b[i..j]), j)))
    case TNullableStr =>
      if b[..if |b| < 2 then 0 else 2] == [255, 255] then Some((StrPtr(None), 2))
      else
        (match Span(b)
         case None => None
         case Some((i, j)) => Some((StrPtr(Some(b[i..j])), j)))
    case TCompactStr =>
      (match CompactSpan(b)
       case None => None
       case Some((i, j)) => Some((Str(b[i..j]), j)))
    case TCompactNullableStr =>
      if GetUvarint(b).UValue? && GetUvarint(b).u == 0 then Some((StrPtr(None), GetUvarint(b).n))
      else
        (match CompactSpan(b)
         case None => None
         case Some((i, j)) => Some((StrPtr(Some(b[i..j])), j)))
  }

  /** For all bytes: the decoder reads just the scalar that stands there, and nothing where none does. */
  lemma ScalarsRead(s: Schema, b: bytes)
    requires !s.TStruct?
    ensures match ScalarAt(s, b)
            case None => Dec(s, b).Err?
            case Some((v, n)) => Dec(s, b) == Ok(v, n)
  {
    hide GetBE, GetUvarint;
    ReadInt(b, 1);
    ReadInt(b, 2);
    ReadInt(b, 4);
    match s
    case TBool =>
      if |b| >= 1 {
        assert b[0] <= 1 ==> GetBool(b) == Ok(b[0] == 1, 1);
      }
    case TCompactStr => CompactRead(b);
    case TCompactNullableStr => CompactRead(b);
    case _ =>
  }

  lemma CompactRead(b: bytes)
    ensures match CompactSpan(b)
            case None => GetCompactLength(b).Err?
            case Some((i, j)) => GetCompactLength(b) == Ok(j - i, i) && GetCompactNullableLength(b) == Ok(j - i, i)
    ensures var r := GetUvarint(b);
            if r.UValue? && r.u == 0 then GetCompactNullableLength(b) == Ok(-1, r.n)
            else CompactSpan(b).None? ==> GetCompactNullableLength(b).Err?
  {
    hide GetUvarint;
    var r := GetUvarint(b);
    if r.UValue? {
      assert GetVarint(b) == Ok(ToInt64(r.u), r.n);
    }
  }

  lemma ReadInt(b: bytes, w: nat)
    requires w == 1 || w == 2 || w == 4
    ensures |b| >= 2 && w == 2 ==>
              && IntOf(b[..2]) == Two(b) - (if b[0] < 128 then 0 else 0x1_0000)
              && (b[..2] == [255, 255] <==> IntOf(b[..2]) == -1) && (b[0] < 128 <==> IntOf(b[..2]) >= 0)
    ensures |b| >= 4 && w == 4 ==> IntOf(b[..4]) == Four(b) - (if b[0] < 128 then 0 else 0x1_0000_0000)
    ensures |b| >= 1 && w == 1 ==> IntOf(b[..1]) == b[0] - (if b[0] < 128 then 0 else 0x100) as int
  {
    if |b| >= w {
      hide GetBE, Pow256;
      Widths();
      BigEndian(b[..w]);
      assert b[..w][0] == b[0];
    }
  }

  /** A plain array's count: at most 131070 and at most the bytes behind it; below zero it stands for no elements. */
  lemma ArrayLengthRead(b: bytes)
    ensures GetArrayLength(b).Ok? <==>
              |b| >= 4 && (b[0] >= 128 || (Four(b) <= 131070 && Four(b) <= |b| - 4))
    ensures GetArrayLength(b).Ok? ==> GetArrayLength(b).value == Four(b) - (if b[0] < 128 then 0 else 0x1_0000_0000)
  {
    ReadInt(b, 4);
  }
}
