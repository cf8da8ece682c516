/**
 Record batches of message format 2 (Kafka documentation, section 5.3; kmsg's record.go and generated.go), and how the
 encryption plugins read, rewrite and write them (plugin/vault-encryption/main.go).
 */
module Records {
  import opened Wire
  import opened Varints

  datatype Header = Header(key: bytes, value: Option<bytes>)

  /** A record. Its length is read only to be worked out anew, so it is not kept. */
  datatype Record = Record(
    attributes: int8,
    timestampDelta: int64,
    offsetDelta: int32,
    key: Option<bytes>,
    value: Option<bytes>,
    headers: seq<Header>)

  datatype RecordBatch = RecordBatch(
    firstOffset: int64,
    length: int32,
    partitionLeaderEpoch: int32,
    magic: int8,
    crc: int32,
    attributes: int16,
    lastOffsetDelta: int32,
    firstTimestamp: int64,
    maxTimestamp: int64,
    producerId: int64,
    producerEpoch: int16,
    firstSequence: int32,
    numRecords: int32,
    records: bytes)

  datatype RecordError =
    | NotEnoughData
    | NoLength       // a record's length is not a varint
    | BadRecord      // the record does not fill its fields
    | BadBatch
    | SlicePanic     // a slice expression with a negative bound
    | ValueFailed(what: ValueError)

  datatype ValueError = DataTooShort | UnknownVersion(version: byte) | TooShortForKey | KeyService | Cipher | Bounds

  // ----- Reading: a cursor is the bytes that remain -----

  datatype Read<+T> = Bad | Got(value: T, rest: bytes)

  function Int8At(b: bytes, i: nat): int8
    requires i + 1 <= |b|
  {
    IntBytesOf(b[i..i + 1]);
    Widths();
    IntOf(b[i..i + 1])
  }

  function Int16At(b: bytes, i: nat): int16
    requires i + 2 <= |b|
  {
    IntBytesOf(b[i..i + 2]);
    Widths();
    IntOf(b[i..i + 2])
  }

  function Int32At(b: bytes, i: nat): int32
    requires i + 4 <= |b|
  {
    IntBytesOf(b[i..i + 4]);
    Widths();
    IntOf(b[i..i + 4])
  }

  function Int64At(b: bytes, i: nat): int64
    requires i + 8 <= |b|
  {
    IntBytesOf(b[i..i + 8]);
    Widths();
    IntOf(b[i..i + 8])
  }

  function ReadVarint(b: bytes): (r: Read<int32>)
    ensures r.Got? ==> |r.rest| < |b|
  {
    match ReadUvarint32From(b, 0)
    case UValue(u, n) => Got(UnZigZag(u), b[n..])
    case _ => Bad
  }

  function ReadVarlong(b: bytes): (r: Read<int64>)
    ensures r.Got? ==> |r.rest| < |b|
  {
    match GetUvarint(b)
    case UValue(u, n) => Got(UnZigZag(u), b[n..])
    case _ => Bad
  }

  /** Every negative length is null. */
  function ReadVarintBytes(b: bytes): (r: Read<Option<bytes>>)
    ensures r.Got? ==> |r.rest| < |b|
  {
    var l := ReadVarint(b);
    if l.Bad? then Bad
    else if l.value < 0 then Got(None, l.rest)
    else if |l.rest| < l.value then Bad
    else Got(Some(l.rest[..l.value]), l.rest[l.value..])
  }

  function ReadVarintString(b: bytes): (r: Read<bytes>)
    ensures r.Got? ==> |r.rest| < |b|
  {
    match ReadVarintBytes(b)
    case Bad => Bad
    case Got(v, rest) => Got(if v.Some? then v.value else [], rest)
  }

  function ReadHeaders(n: nat, b: bytes): (r: Read<seq<Header>>)
    ensures r.Got? ==> |r.value| == n
  {
    if n == 0 then Got([], b)
    else
      var key := ReadVarintString(b);
      if key.Bad? then Bad
      else
        var value := ReadVarintBytes(key.rest);
        if value.Bad? then Bad
        else
          var more := ReadHeaders(n - 1, value.rest);
          if more.Bad? then Bad else Got([Header(key.value, value.value)] + more.value, more.rest)
  }

  /** A count larger than the bytes that remain is an error, a negative one means no headers. */
  function ReadHeaderArray(b: bytes): Read<seq<Header>> {
    var l := ReadVarint(b);
    if l.Bad? || |l.rest| < l.value then Bad
    else ReadHeaders(if l.value < 0 then 0 else l.value, l.rest)
  }

  /** What follows the length. */
  function ReadBody(b: bytes): Read<Record> {
    if b == [] then Bad
    else
      var timestamp := ReadVarlong(b[1..]);
      if timestamp.Bad? then Bad
      else
        var offset := ReadVarint(timestamp.rest);
        if offset.Bad? then Bad
        else
          var key := ReadVarintBytes(offset.rest);
          if key.Bad? then Bad
          else
            var value := ReadVarintBytes(key.rest);
            if value.Bad? then Bad
            else
              var headers := ReadHeaderArray(value.rest);
              if headers.Bad? then Bad
              else
                var r := Record(Int8At(b, 0), timestamp.value, offset.value, key.value, value.value, headers.value);
                Got(r, headers.rest)
  }

  /** Record.ReadFrom: bytes after the record are ignored. */
  function ReadRecord(chunk: bytes): Result<Record, RecordError> {
    var length := ReadVarint(chunk);
    if length.Bad? then Failure(BadRecord)
    else
      match ReadBody(length.rest)
      case Bad => Failure(BadRecord)
      case Got(r, rest) => Success(r)
  }

  const HEADER_SIZE := 61      // up to the records
  const BEFORE_LENGTH_END := 12

  /** RecordBatch.ReadFrom: 61 bytes of fixed fields, then length - 49 bytes of records. */
  function ReadBatch(b: bytes): (r: Result<RecordBatch, RecordError>)
    ensures r.Success? ==> |b| >= HEADER_SIZE + |r.value.records|
  {
    if |b| < HEADER_SIZE then Failure(BadBatch)
    else
      var length := Int32At(b, 8);
      if |b| - HEADER_SIZE < length - 49 || length < 49 then Failure(BadBatch)
      else
        Success(RecordBatch(
          Int64At(b, 0), length, Int32At(b, 12), Int8At(b, 16), Int32At(b, 17),
          Int16At(b, 21), Int32At(b, 23), Int64At(b, 27), Int64At(b, 35),
          Int64At(b, 43), Int16At(b, 51), Int32At(b, 53), Int32At(b, 57),
          b[61..61 + length - 49]))
  }

  /** readRecordBatches. */
  function ReadBatches(b: bytes): Result<seq<RecordBatch>, RecordError> {
    if b == [] then Success([])
    else if |b| < BEFORE_LENGTH_END then Failure(NotEnoughData)
    else
      var total := BEFORE_LENGTH_END + Int32At(b, 8);
      if |b| < total then Failure(NotEnoughData)
      else if total < 0 then Failure(SlicePanic)
      else
        var batch := ReadBatch(b[..total]);
        if batch.Failure? then Failure(batch.error)
        else
          var more := ReadBatches(b[total..]);
          if more.Failure? then more else Success([batch.value] + more.value)
  }

  /** readRecords: n records, each with its length peeked first; what follows them is ignored. */
  function ReadRecords(n: int, b: bytes): (r: Result<seq<Record>, RecordError>)
    ensures r.Success? ==> |r.value| == if n < 0 then 0 else n
    decreases if n < 0 then 0 else n
  {
    if n <= 0 then Success([])
    else
      var (l, k) := VarintDecode(b);
      if k <= 0 then Failure(NoLength)
      else
        var total := k + l;
        if |b| < total then Failure(NotEnoughData)
        else if total < 0 then Failure(SlicePanic)
        else
          var record := ReadRecord(b[..total]);
          if record.Failure? then Failure(record.error)
          else
            var more := ReadRecords(n - 1, b[total..]);
            if more.Failure? then more else Success([record.value] + more.value)
  }

  // ----- Writing -----

  function VarintBytes(o: Option<bytes>): bytes {
    match o
    case None => PutVarint(-1)
    case Some(v) => PutVarint(ToInt32(|v|)) + v
  }

  function HeaderBytes(h: Header): bytes {
    VarintBytes(Some(h.key)) + VarintBytes(h.value)
  }

  function HeadersBytes(hs: seq<Header>): bytes {
    if hs == [] then [] else HeaderBytes(hs[0]) + HeadersBytes(hs[1..])
  }

  function Body(r: Record): bytes {
    IntBytes(1, r.attributes) + PutVarint(r.timestampDelta) + PutVarint(r.offsetDelta)
    + VarintBytes(r.key) + VarintBytes(r.value) + PutVarint(ToInt32(|r.headers|)) + HeadersBytes(r.headers)
  }

  /** Record.AppendTo for a record whose length is the given one. */
  function RecordBytes(length: int32, r: Record): bytes {
    PutVarint(length) + Body(r)
  }

  /** The records of a batch, with their lengths as they should be. */
  function RecordsBytes(rs: seq<Record>): bytes {
    if rs == [] then [] else RecordBytes(ToInt32(|Body(rs[0])|), rs[0]) + RecordsBytes(rs[1..])
  }

  /** What the checksum covers. */
  function Checked(b: RecordBatch): bytes {
    IntBytes(2, b.attributes) + IntBytes(4, b.lastOffsetDelta) + IntBytes(8, b.firstTimestamp) + IntBytes(8, b.maxTimestamp)
    + IntBytes(8, b.producerId) + IntBytes(2, b.producerEpoch) + IntBytes(4, b.firstSequence) + IntBytes(4, b.numRecords)
    + b.records
  }

  /** RecordBatch.AppendTo. */
  function BatchBytes(b: RecordBatch): bytes {
    IntBytes(8, b.firstOffset) + IntBytes(4, b.length) + IntBytes(4, b.partitionLeaderEpoch) + IntBytes(1, b.magic)
    + IntBytes(4, b.crc) + Checked(b)
  }

  function BatchesBytes(bs: seq<RecordBatch>): bytes {
    if bs == [] then [] else BatchBytes(bs[0]) + BatchesBytes(bs[1..])
  }

  // ----- Rewriting the values of all records -----

  /** CRC-32C is any function. */
  type Checksum = bytes -> uint32

  /** What happens to the value of record j of batch i. */
  type ValueRewrite = (nat, nat, bytes) -> Result<Option<bytes>, ValueError>

  /** updateBatch: new records, then their count, length and checksum. */
  function UpdateBatch(crc: Checksum, batch: RecordBatch, rs: seq<Record>): RecordBatch {
    var records := RecordsBytes(rs);
    var b := batch.(records := records, numRecords := ToInt32(|rs|), length := ToInt32(49 + ToInt32(|records|)));
    b.(crc := ToInt32(crc(Checked(b))))
  }

  function RewriteValues(g: ValueRewrite, i: nat, j: nat, rs: seq<Record>): (r: Result<seq<Record>, RecordError>)
    ensures r.Success? ==> |r.value| == |rs|
    decreases |rs|
  {
    if rs == [] then Success([])
    else
      var v := if rs[0].value.None? then Success(None) else g(i, j, rs[0].value.value);
      if v.Failure? then Failure(ValueFailed(v.error))
      else
        var more := RewriteValues(g, i, j + 1, rs[1..]);
        if more.Failure? then more else Success([rs[0].(value := v.value)] + more.value)
  }

  function RewriteBatch(crc: Checksum, g: ValueRewrite, i: nat, batch: RecordBatch): Result<RecordBatch, RecordError> {
    var rs := ReadRecords(batch.numRecords, batch.records);
    if rs.Failure? then Failure(rs.error)
    else
      var done := RewriteValues(g, i, 0, rs.value);
      if done.Failure? then Failure(done.error) else Success(UpdateBatch(crc, batch, done.value))
  }

  function RewriteBatches(crc: Checksum, g: ValueRewrite, i: nat, bs: seq<RecordBatch>)
    : (r: Result<seq<RecordBatch>, RecordError>)
    ensures r.Success? ==> |r.value| == |bs|
    decreases |bs|
  {
    if bs == [] then Success([])
    else
      var b := RewriteBatch(crc, g, i, bs[0]);
      if b.Failure? then Failure(b.error)
      else
        var more := RewriteBatches(crc, g, i + 1, bs[1..]);
        if more.Failure? then more else Success([b.value] + more.value)
  }

  /** encryptRecords and decryptRecords, which differ only in what they do to a value. */
  function Rewrite(crc: Checksum, g: ValueRewrite, b: bytes): Result<bytes, RecordError> {
    if b == [] then Success(b)
    else
      var bs := ReadBatches(b);
      if bs.Failure? then Failure(bs.error)
      else
        var done := RewriteBatches(crc, g, 0, bs.value);
        if done.Failure? then Failure(done.error) else Success(BatchesBytes(done.value))
  }
}
