/**
 Schemas, their values, and what it means to encode and decode one
 (proxy/protocol/schema.go over prep_encoder.go, real_encoder.go and real_decoder.go).
 The classes in Encoders.dfy and Decoder.dfy are proved against these functions.
 */
module SchemaModel {
  import opened Wire

  type uuid = b: bytes | |b| == 16 witness [0, 0, 0, 0, 0, 0, 0, 0, 0, 0, 0, 0, 0, 0, 0, 0]

  datatype Schema =
    | TBool
    | TInt16
    | TInt32
    | TStr
    | TNullableStr
    | TCompactStr
    | TCompactNullableStr
    | TUuid
    | TStruct(name: string, fields: seq<Field>)

  datatype Field =
    | Mfield(name: string, ty: Schema)
    | ArrayField(name: string, ty: Schema)
    | CompactArrayField(name: string, ty: Schema)
    | TaggedField(name: string)

  datatype RawTaggedField = RawTaggedField(tag: int64, data: Option<bytes>)

  /** The dynamic values a schema is applied to; Nil is Go's untyped nil. */
  datatype Value =
    | Nil
    | Bool(b: bool)
    | Int16(i16: int16)
    | Int32(i32: int32)
    | Str(s: bytes)
    | StrPtr(p: Option<bytes>)
    | Uuid(u: uuid)
    | Tagged(tags: seq<RawTaggedField>)
    | Array(elems: seq<Value>)
    | Struct(schema: Schema, values: seq<Value>)

  // ----- Encoding -----

  datatype EncodeError = TypeMismatch | LengthDifference | TooLong | InvalidSize

  type Encoded = Result<bytes, EncodeError>

  /** Output of two encoding steps in a row; the first error wins. */
  function Then(a: Encoded, b: Encoded): Encoded {
    if a.Failure? then a
    else if b.Failure? then b
    else Success(a.value + b.value)
  }

  function StringBytes(s: bytes): Encoded {
    if |s| > MAX_INT16 then Failure(TooLong) else Success(IntBytes(2, |s|) + s)
  }

  function NullableStringBytes(p: Option<bytes>): Encoded {
    if p.None? then Success(IntBytes(2, -1)) else StringBytes(p.value)
  }

  function CompactStringBytes(s: bytes): Encoded {
    if |s| > MAX_INT16 then Failure(TooLong) else Success(PutUvarint(|s| + 1) + s)
  }

  function CompactNullableStringBytes(p: Option<bytes>): Encoded {
    if p.None? then Success(PutUvarint(0)) else CompactStringBytes(p.value)
  }

  function VarintBytes(i: int64): bytes {
    PutUvarint(ToUint64(i))
  }

  function RawBytes(data: bytes): Encoded {
    if |data| > MAX_INT32 then Failure(TooLong) else Success(data)
  }

  function TaggedDataBytes(data: Option<bytes>): Encoded {
    if data.None? then Success(VarintBytes(-1))
    else Then(Success(PutUvarint(|data.value|)), RawBytes(data.value))
  }

  function ArrayLengthBytes(n: nat): Encoded {
    if n > MAX_INT32 then Failure(TooLong) else Success(IntBytes(4, n))
  }

  function CompactArrayLengthBytes(n: nat): Encoded {
    if n > MAX_INT16 then Failure(TooLong) else Success(PutUvarint(n + 1))
  }

  function EncTag(t: RawTaggedField): Encoded {
    Then(Success(VarintBytes(t.tag)), TaggedDataBytes(t.data))
  }

  function EncTags(tags: seq<RawTaggedField>): Encoded {
    if tags == [] then Success([]) else Then(EncTag(tags[0]), EncTags(tags[1..]))
  }

  function EncTagged(tags: seq<RawTaggedField>): Encoded {
    Then(Success(PutUvarint(|tags|)), EncTags(tags))
  }

  function Enc(s: Schema, v: Value): Encoded
    decreases s, 0, 0
  {
    match s
    case TBool => if v.Bool? then Success(IntBytes(1, if v.b then 1 else 0)) else Failure(TypeMismatch)
    case TInt16 => if v.Int16? then Success(IntBytes(2, v.i16)) else Failure(TypeMismatch)
    case TInt32 => if v.Int32? then Success(IntBytes(4, v.i32)) else Failure(TypeMismatch)
    case TStr => if v.Str? then StringBytes(v.s) else Failure(TypeMismatch)
    case TNullableStr => if v.StrPtr? then NullableStringBytes(v.p) else Failure(TypeMismatch)
    case TCompactStr => if v.Str? then CompactStringBytes(v.s) else Failure(TypeMismatch)
    case TCompactNullableStr => if v.StrPtr? then CompactNullableStringBytes(v.p) else Failure(TypeMismatch)
    case TUuid => if v.Uuid? then Success(v.u) else Failure(TypeMismatch)
    case TStruct(_, fields) =>
      if !v.Struct? then Failure(TypeMismatch)
      else if |v.values| != |fields| then Failure(LengthDifference)
      else EncFields(fields, v.values)
  }

  function EncFields(fs: seq<Field>, vs: seq<Value>): Encoded
    requires |fs| == |vs|
    decreases fs, 0, 0
  {
    if fs == [] then Success([]) else Then(EncField(fs[0], vs[0]), EncFields(fs[1..], vs[1..]))
  }

  function EncField(f: Field, v: Value): Encoded
    decreases f, 0, 0
  {
    match f
    case Mfield(_, ty) => Enc(ty, v)
    case ArrayField(_, ty) =>
      if v.Array? then Then(ArrayLengthBytes(|v.elems|), EncElems(ty, v.elems)) else Failure(TypeMismatch)
    case CompactArrayField(_, ty) =>
      if v.Array? then Then(CompactArrayLengthBytes(|v.elems|), EncElems(ty, v.elems)) else Failure(TypeMismatch)
    case TaggedField(_) =>
      if v.Tagged? then EncTagged(v.tags) else Failure(TypeMismatch)
  }

  function EncElems(ty: Schema, vs: seq<Value>): Encoded
    decreases ty, 1, |vs|
  {
    if vs == [] then Success([]) else Then(Enc(ty, vs[0]), EncElems(ty, vs[1..]))
  }

  // ----- Decoding -----

  datatype DecodeError =
    | InsufficientData
    | InvalidArrayLength
    | InvalidStringLength
    | VarintOverflow
    | InvalidBool
    | InvalidByteSliceLength
    | InvalidCompactLength
    | InvalidCompactNullableLength
    | NegativeTaggedFields
    | InvalidLength
    | NotAStruct

  /** What a getter does to the unread bytes: a value or an error, and how far the offset moved. */
  datatype Parsed<+T> = Ok(value: T, n: nat) | Err(error: DecodeError, n: nat)

  const MAX_ARRAY_LENGTH := 131070  // 2 * math.MaxUint16

  function GetInt(w: nat, b: bytes): (r: Parsed<int>)
    ensures r.n <= |b|
  {
    if |b| < w then Err(InsufficientData, |b|) else Ok(IntOf(b[..w]), w)
  }

  function GetVarint(b: bytes): (r: Parsed<int64>)
    ensures r.n <= |b|
    ensures r.Ok? ==> 1 <= r.n
  {
    match GetUvarint(b)
    case UShort => Err(InsufficientData, |b|)
    case UOverflow(n) => Err(VarintOverflow, n)
    case UValue(u, n) => Ok(ToInt64(u), n)
  }

  function GetArrayLength(b: bytes): (r: Parsed<int>)
    ensures r.n <= |b|
    ensures r.Ok? ==> r.n == 4 && r.value <= |b| - 4
  {
    if |b| < 4 then Err(InsufficientData, |b|)
    else
      var n := IntOf(b[..4]);
      if n > |b| - 4 then Err(InsufficientData, |b|)
      else if n > MAX_ARRAY_LENGTH then Err(InvalidArrayLength, 4)
      else Ok(n, 4)
  }

  function GetBool(b: bytes): (r: Parsed<bool>)
    ensures r.n <= |b|
  {
    match GetInt(1, b)
    case Err(e, n) => Err(e, n)
    case Ok(i, n) => if i == 0 then Ok(false, n) else if i != 1 then Err(InvalidBool, n) else Ok(true, n)
  }

  function GetRawBytes(length: int, b: bytes): (r: Parsed<bytes>)
    ensures r.n <= |b|
    ensures r.Ok? ==> |r.value| == r.n == length
  {
    if length < 0 then Err(InvalidByteSliceLength, 0)
    else if length > |b| then Err(InsufficientData, |b|)
    else Ok(b[..length], length)
  }

  /** Reads the bytes a length prefix announced, after the prefix took `at` bytes. */
  function Body(length: nat, at: nat, b: bytes): (r: Parsed<bytes>)
    requires at + length <= |b|
    ensures r.n <= |b|
  {
    Ok(b[at..at + length], at + length)
  }

  function GetStringLength(b: bytes): (r: Parsed<int>)
    ensures r.n <= |b|
    ensures r.Ok? ==> r.n == 2 && -1 <= r.value <= |b| - 2
  {
    match GetInt(2, b)
    case Err(e, n) => Err(e, n)
    case Ok(i, n) =>
      if i < -1 then Err(InvalidStringLength, n)
      else if i > |b| - n then Err(InsufficientData, |b|)
      else Ok(i, n)
  }

  function GetString(b: bytes): (r: Parsed<bytes>)
    ensures r.n <= |b|
  {
    match GetStringLength(b)
    case Err(e, n) => Err(e, n)
    case Ok(i, n) => if i == -1 then Ok([], n) else Body(i, n, b)
  }

  function GetNullableString(b: bytes): (r: Parsed<Option<bytes>>)
    ensures r.n <= |b|
  {
    match GetStringLength(b)
    case Err(e, n) => Err(e, n)
    case Ok(i, n) => if i == -1 then Ok(None, n) else Ok(Some(b[n..n + i]), n + i)
  }

  function GetCompactLength(b: bytes): (r: Parsed<nat>)
    ensures r.n <= |b|
    ensures r.Ok? ==> r.n + r.value <= |b|
  {
    match GetVarint(b)
    case Err(e, n) => Err(e, n)
    case Ok(length, n) =>
      var i := MinusOne64(length);
      if i < 0 then Err(InvalidCompactLength, n)
      else if i > |b| - n then Err(InsufficientData, |b|)
      else Ok(i, n)
  }

  function GetCompactNullableLength(b: bytes): (r: Parsed<int>)
    ensures r.n <= |b|
    ensures r.Ok? ==> -1 <= r.value && r.n + r.value <= |b|
  {
    match GetVarint(b)
    case Err(e, n) => Err(e, n)
    case Ok(length, n) =>
      var i := MinusOne64(length);
      if i < -1 then Err(InvalidCompactNullableLength, n)
      else if i > |b| - n then Err(InsufficientData, |b|)
      else Ok(i, n)
  }

  function GetCompactString(b: bytes): (r: Parsed<bytes>)
    ensures r.n <= |b|
  {
    match GetCompactLength(b)
    case Err(e, n) => Err(e, n)
    case Ok(i, n) => Body(i, n, b)
  }

  function GetCompactNullableString(b: bytes): (r: Parsed<Option<bytes>>)
    ensures r.n <= |b|
  {
    match GetCompactNullableLength(b)
    case Err(e, n) => Err(e, n)
    case Ok(i, n) => if i < 0 then Ok(None, n) else Ok(Some(b[n..n + i]), n + i)
  }

  /** Length-prefixed data of a tagged field; the length -1 stands for null data. */
  function GetVarintBytes(b: bytes): (r: Parsed<Option<bytes>>)
    ensures r.n <= |b|
  {
    match GetVarint(b)
    case Err(e, n) => Err(e, n)
    case Ok(length, n) =>
      if length == -1 then Ok(None, n)
      else
        match GetRawBytes(length, b[n..])
        case Err(e, m) => Err(e, n + m)
        case Ok(data, m) => Ok(Some(data), n + m)
  }

  function DecTag(b: bytes): (r: Parsed<RawTaggedField>)
    ensures r.n <= |b|
  {
    match GetVarint(b)
    case Err(e, n) => Err(e, n)
    case Ok(tag, n) =>
      match GetVarintBytes(b[n..])
      case Err(e, m) => Err(e, n + m)
      case Ok(data, m) => Ok(RawTaggedField(tag, data), n + m)
  }

  function DecTags(k: nat, b: bytes): (r: Parsed<seq<RawTaggedField>>)
    ensures r.n <= |b|
    ensures r.Ok? ==> |r.value| == k
  {
    if k == 0 then Ok([], 0)
    else
      match DecTag(b)
      case Err(e, n) => Err(e, n)
      case Ok(t, n) =>
        match DecTags(k - 1, b[n..])
        case Err(e, m) => Err(e, n + m)
        case Ok(ts, m) => Ok([t] + ts, n + m)
  }

  function DecTagged(b: bytes): (r: Parsed<seq<RawTaggedField>>)
    ensures r.n <= |b|
  {
    match GetVarint(b)
    case Err(e, n) => Err(e, n)
    case Ok(count, n) =>
      if count < 0 then Err(NegativeTaggedFields, n)
      else
        match DecTags(count, b[n..])
        case Err(e, m) => Err(e, n + m)
        case Ok(ts, m) => Ok(ts, n + m)
  }

  function Wrap<T>(p: Parsed<T>, f: T -> Value): (r: Parsed<Value>)
    ensures r.n == p.n
  {
    match p
    case Err(e, n) => Err(e, n)
    case Ok(t, n) => Ok(f(t), n)
  }

  function Dec(s: Schema, b: bytes): (r: Parsed<Value>)
    ensures r.n <= |b|
    decreases s, 0, 0
  {
    match s
    case TBool => Wrap(GetBool(b), x => Bool(x))
    case TInt16 => DecInt16(b)
    case TInt32 => DecInt32(b)
    case TStr => Wrap(GetString(b), x => Str(x))
    case TNullableStr => Wrap(GetNullableString(b), x => StrPtr(x))
    case TCompactStr => Wrap(GetCompactString(b), x => Str(x))
    case TCompactNullableStr => Wrap(GetCompactNullableString(b), x => StrPtr(x))
    case TUuid => DecUuid(b)
    case TStruct(_, fields) =>
      match DecFields(fields, b)
      case Err(e, n) => Err(e, n)
      case Ok(vs, n) => Ok(Struct(s, vs), n)
  }

  function DecInt16(b: bytes): (r: Parsed<Value>)
    ensures r.n <= |b|
  {
    if |b| < 2 then Err(InsufficientData, |b|)
    else IntBytesOf(b[..2]); Widths(); Ok(Int16(IntOf(b[..2])), 2)
  }

  function DecInt32(b: bytes): (r: Parsed<Value>)
    ensures r.n <= |b|
  {
    if |b| < 4 then Err(InsufficientData, |b|)
    else IntBytesOf(b[..4]); Widths(); Ok(Int32(IntOf(b[..4])), 4)
  }

  function DecUuid(b: bytes): (r: Parsed<Value>)
    ensures r.n <= |b|
  {
    match GetRawBytes(16, b)
    case Err(e, n) => Err(e, n)
    case Ok(u, n) => Ok(Uuid(u), n)
  }

  function DecFields(fs: seq<Field>, b: bytes): (r: Parsed<seq<Value>>)
    ensures r.n <= |b|
    ensures r.Ok? ==> |r.value| == |fs|
    decreases fs, 0, 0
  {
    if fs == [] then Ok([], 0)
    else
      match DecField(fs[0], b)
      case Err(e, n) => Err(e, n)
      case Ok(v, n) =>
        match DecFields(fs[1..], b[n..])
        case Err(e, m) => Err(e, n + m)
        case Ok(vs, m) => Ok([v] + vs, n + m)
  }

  function DecField(f: Field, b: bytes): (r: Parsed<Value>)
    ensures r.n <= |b|
    decreases f, 0, 0
  {
    match f
    case Mfield(_, ty) => Dec(ty, b)
    case ArrayField(_, ty) =>
      (match GetArrayLength(b)
       case Err(e, n) => Err(e, n)
       case Ok(count, n) =>
         // a negative count makes the element loop run zero times
         match DecElems(if count < 0 then 0 else count, ty, b[n..])
         case Err(e, m) => Err(e, n + m)
         case Ok(vs, m) => Ok(Array(vs), n + m))
    case CompactArrayField(_, ty) =>
      (match GetCompactLength(b)
       case Err(e, n) => Err(e, n)
       case Ok(count, n) =>
         match DecElems(count, ty, b[n..])
         case Err(e, m) => Err(e, n + m)
         case Ok(vs, m) => Ok(Array(vs), n + m))
    case TaggedField(_) => Wrap(DecTagged(b), x => Tagged(x))
  }

  function DecElems(k: nat, ty: Schema, b: bytes): (r: Parsed<seq<Value>>)
    ensures r.n <= |b|
    ensures r.Ok? ==> |r.value| == k
    decreases ty, 1, k
  {
    if k == 0 then Ok([], 0)
    else
      match Dec(ty, b)
      case Err(e, n) => Err(e, n)
      case Ok(v, n) =>
        match DecElems(k - 1, ty, b[n..])
        case Err(e, m) => Err(e, n + m)
        case Ok(vs, m) => Ok([v] + vs, n + m)
  }

  // ----- Whole messages -----

  const MAX_REQUEST_SIZE := 104857600  // 100 MiB

  function Encode(s: Schema, v: Value): Encoded {
    var e := Enc(s, v);
    if e.Success? && |e.value| > MAX_REQUEST_SIZE then Failure(InvalidSize) else e
  }

  function Decode(s: Schema, b: bytes): Result<Value, DecodeError> {
    match Dec(s, b)
    case Err(e, _) => Failure(e)
    case Ok(v, n) =>
      if n != |b| then Failure(InvalidLength)
      else if !v.Struct? then Failure(NotAStruct)
      else Success(v)
  }
}
