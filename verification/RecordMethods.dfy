/** The record loops of the encryption plugins, which change batches and records in place (plugin/vault-encryption/main.go). */
module RecordMethods {
  import opened Wire
  import opened Varints
  import opened Records
  import opened RecordProofs
  import opened RecordTheorems
  import opened Encryption

  // ----- Reading -----

  function Prepend<T, E>(done: seq<T>, more: Result<seq<T>, E>): Result<seq<T>, E> {
    if more.Failure? then more else Success(done + more.value)
  }

  lemma PrependNothing<T, E>(more: Result<seq<T>, E>)
    ensures Prepend([], more) == more
  {
    if more.Success? {
      assert [] + more.value == more.value;
    }
  }

  lemma PrependStep<T, E>(done: seq<T>, x: T, more: Result<seq<T>, E>)
    ensures Prepend(done, Prepend([x], more)) == Prepend(done + [x], more)
  {
    if more.Success? {
      assert done + ([x] + more.value) == done + [x] + more.value;
    }
  }

  lemma PrependFailure<T, E>(done: seq<T>, more: Result<seq<T>, E>)
    requires more.Failure?
    ensures Prepend(done, more) == more
  {
  }

  lemma PrependToNothing<T, E>(done: seq<T>)
    ensures Prepend<T, E>(done, Success([])) == Success(done)
  {
    assert done + [] == done;
  }

  lemma ReadBatchesUnfold(b: bytes)
    requires b != []
    ensures ReadBatches(b) ==
            if |b| < BEFORE_LENGTH_END then Failure(NotEnoughData)
            else
              var total := BEFORE_LENGTH_END + Int32At(b, 8);
              if |b| < total then Failure(NotEnoughData)
              else if total < 0 then Failure(SlicePanic)
              else
                var batch := ReadBatch(b[..total]);
                if batch.Failure? then Failure(batch.error) else Prepend([batch.value], ReadBatches(b[total..]))
  {
    hide ReadBatch, Int32At;
  }

  method ReadRecordBatches(data: bytes) returns (r: Result<seq<RecordBatch>, RecordError>)
    ensures r == ReadBatches(data)
  {
    var b, batches := data, [];
    NothingToRead();
    hide ReadBatches, ReadBatch, Int32At;
    PrependNothing(ReadBatches(b));
    while |b| > 0
      invariant ReadBatches(data) == Prepend(batches, ReadBatches(b))
      decreases |b|
    {
      ReadBatchesUnfold(b);
      if |b| < BEFORE_LENGTH_END {
        return Failure(NotEnoughData);
      }
      var total := BEFORE_LENGTH_END + Int32At(b, 8);
      if |b| < total {
        return Failure(NotEnoughData);
      }
      if total < 0 {
        return Failure(SlicePanic);
      }
      var batch := ReadBatch(b[..total]);
      if batch.Failure? {
        return Failure(batch.error);
      }
      ReadBatchSize(b[..total]);
      PrependStep(batches, batch.value, ReadBatches(b[total..]));
      batches, b := batches + [batch.value], b[total..];
    }
    PrependToNothing<RecordBatch, RecordError>(batches);
    r := Success(batches);
  }

  lemma ReadBatchSize(b: bytes)
    requires ReadBatch(b).Success?
    ensures |b| >= HEADER_SIZE
  {
  }

  lemma ReadRecordsUnfold(n: int, b: bytes)
    requires n > 0
    ensures ReadRecords(n, b) ==
            var (l, k) := VarintDecode(b);
            var total := k + l;
            if k <= 0 then Failure(NoLength)
            else if |b| < total then Failure(NotEnoughData)
            else if total < 0 then Failure(SlicePanic)
            else
              var record := ReadRecord(b[..total]);
              if record.Failure? then Failure(record.error) else Prepend([record.value], ReadRecords(n - 1, b[total..]))
  {
    hide ReadRecord, VarintDecode;
  }

  lemma NoRecords(n: int, b: bytes)
    requires n <= 0
    ensures ReadRecords(n, b) == Success([])
  {
  }

  method ReadRecordList(numRecords: int32, data: bytes) returns (r: Result<seq<Record>, RecordError>)
    ensures r == ReadRecords(numRecords, data)
  {
    hide ReadRecords, ReadRecord, VarintDecode;
    if numRecords < 0 {
      NoRecords(numRecords, data);
      return Success([]);
    }
    var b, records := data, [];
    PrependNothing(ReadRecords(numRecords, b));
    for i := 0 to numRecords
      invariant ReadRecords(numRecords, data) == Prepend(records, ReadRecords(numRecords - i, b))
    {
      ReadRecordsUnfold(numRecords - i, b);
      var (l, n) := VarintDecode(b);
      if n <= 0 {
        return Failure(NoLength);
      }
      var total := n + l;
      if |b| < total {
        return Failure(NotEnoughData);
      }
      if total < 0 {
        return Failure(SlicePanic);
      }
      var record := ReadRecord(b[..total]);
      if record.Failure? {
        return Failure(record.error);
      }
      PrependStep(records, record.value, ReadRecords(numRecords - i - 1, b[total..]));
      records, b := records + [record.value], b[total..];
    }
    NoRecords(0, b);
    PrependToNothing<Record, RecordError>(records);
    r := Success(records);
  }

  // ----- Lengths -----

  /** varintBytesLen. */
  method VarintBytesLen(o: Option<bytes>) returns (n: nat)
    ensures n == |VarintBytes(o)|
  {
    if o == None {
      VarintLenExact(-1);
      return VarintLen(-1);
    }
    VarintLenExact(ToInt32(|o.value|));
    n := VarintLen(ToInt32(|o.value|)) + |o.value|;
  }

  /** calculateRecordLength: the table's lengths add up to what will be written. */
  method CalculateRecordLength(r: Record) returns (length: int32)
    ensures length == ToInt32(|Body(r)|)
  {
    BodyLength(r);
    hide PutVarint, VarintLen, VarintBytes, HeadersBytes, Body;
    var l := 1;
    l := l + VarintLen(r.timestampDelta);
    l := l + VarintLen(r.offsetDelta);
    var n := VarintBytesLen(r.key);
    l := l + n;
    n := VarintBytesLen(r.value);
    l := l + n;
    l := l + VarintLen(ToInt32(|r.headers|));
    n := HeadersLen(r.headers);
    length := ToInt32(l + n);
  }

  lemma BodyLength(r: Record)
    ensures |Body(r)| == 1 + VarintLen(r.timestampDelta) + VarintLen(r.offsetDelta) + |VarintBytes(r.key)|
                         + |VarintBytes(r.value)| + VarintLen(ToInt32(|r.headers|)) + |HeadersBytes(r.headers)|
  {
    VarintLenExact(r.timestampDelta);
    VarintLenExact(r.offsetDelta);
    VarintLenExact(ToInt32(|r.headers|));
    hide PutVarint, VarintLen, VarintBytes, HeadersBytes, IntBytes;
  }

  /** The loop over the headers. */
  method HeadersLen(hs: seq<Header>) returns (l: nat)
    ensures l == |HeadersBytes(hs)|
  {
    l := 0;
    for i := 0 to |hs|
      invariant l + |HeadersBytes(hs[i..])| == |HeadersBytes(hs)|
    {
      HeadersUnfold(hs[i..]);
      hide HeadersBytes, VarintBytes;
      assert hs[i..][1..] == hs[i + 1..];
      var k := VarintBytesLen(Some(hs[i].key));
      var v := VarintBytesLen(hs[i].value);
      l := l + k + v;
    }
  }

  lemma HeadersUnfold(hs: seq<Header>)
    requires hs != []
    ensures HeadersBytes(hs) == VarintBytes(Some(hs[0].key)) + VarintBytes(hs[0].value) + HeadersBytes(hs[1..])
  {
  }

  // ----- Rewriting in place -----

  /** The first loop of updateBatch: every record with its length worked out again. */
  method SerializeRecords(recs: array<Record>) returns (b: bytes)
    ensures b == RecordsBytes(recs[..])
  {
    b := [];
    assert recs[0..] == recs[..];
    for i := 0 to recs.Length
      invariant b + RecordsBytes(recs[i..]) == RecordsBytes(recs[..])
    {
      var length := CalculateRecordLength(recs[i]);
      SerializeStep(b, recs[i..]);
      assert recs[i..][1..] == recs[i + 1..];
      b := b + RecordBytes(length, recs[i]);
    }
    assert recs[recs.Length..] == [];
    assert b + [] == b;
  }

  lemma SerializeStep(b: bytes, rs: seq<Record>)
    requires rs != []
    ensures b + RecordBytes(ToInt32(|Body(rs[0])|), rs[0]) + RecordsBytes(rs[1..]) == b + RecordsBytes(rs)
  {
    hide RecordBytes, Body;
    var x, y := RecordBytes(ToInt32(|Body(rs[0])|), rs[0]), RecordsBytes(rs[1..]);
    assert RecordsBytes(rs) == x + y;
    assert b + x + y == b + (x + y);
  }

  /** updateBatch, on the batch in its place. */
  method UpdateBatchAt(crc: Checksum, batches: array<RecordBatch>, i: nat, recs: array<Record>)
    requires i < batches.Length
    modifies batches
    ensures batches[i] == UpdateBatch(crc, old(batches[i]), old(recs[..]))
    ensures forall k :: 0 <= k < batches.Length && k != i ==> batches[k] == old(batches[k])
  {
    var records := SerializeRecords(recs);
    hide RecordsBytes, Checked;
    var batch := batches[i];
    batch := batch.(records := records);
    batch := batch.(numRecords := ToInt32(recs.Length));
    batch := batch.(length := ToInt32(49 + ToInt32(|records|)));
    batch := batch.(crc := 0);
    var full := BatchBytes(batch);
    BatchSlots(batch);
    ChecksumSkipsItself(batch, batches[i].crc);
    batches[i] := batch.(crc := ToInt32(crc(full[21..])));
  }

  lemma ChecksumSkipsItself(b: RecordBatch, crc: int32)
    ensures Checked(b.(crc := crc)) == Checked(b)
  {
  }

  lemma RewriteValuesUnfold(g: ValueRewrite, i: nat, j: nat, rs: seq<Record>)
    ensures RewriteValues(g, i, j, []) == Success([])
    ensures rs != [] ==>
              RewriteValues(g, i, j, rs) ==
              var v := if rs[0].value.None? then Success(None) else g(i, j, rs[0].value.value);
              if v.Failure? then Failure(ValueFailed(v.error))
              else Prepend([rs[0].(value := v.value)], RewriteValues(g, i, j + 1, rs[1..]))
  {
  }

  /** The inner loop: every value that is not null is replaced by its rewriting. */
  method RewriteRecordValues(g: ValueRewrite, i: nat, recs: array<Record>) returns (e: Option<RecordError>)
    modifies recs
    ensures match RewriteValues(g, i, 0, old(recs[..]))
            case Success(rs) => e == None && recs[..] == rs
            case Failure(error) => e == Some(error)
  {
    hide RewriteValues, Prepend;
    ghost var was := recs[..];
    PrependNothing(RewriteValues(g, i, 0, was));
    assert was[0..] == was && recs[..0] == [];
    for j := 0 to recs.Length
      invariant recs[j..] == was[j..]
      invariant RewriteValues(g, i, 0, was) == Prepend(recs[..j], RewriteValues(g, i, j, was[j..]))
    {
      assert was[j..][0] == recs[j] && was[j..][1..] == was[j + 1..];
      RewriteValuesUnfold(g, i, j, was[j..]);
      ghost var done := recs[..j];
      if recs[j].value == None {
        assert recs[j].(value := None) == recs[j];
      } else {
        var v := g(i, j, recs[j].value.value);
        if v.Failure? {
          PrependFailure(done, RewriteValues(g, i, j, was[j..]));
          return Some(ValueFailed(v.error));
        }
        recs[j] := recs[j].(value := v.value);
      }
      PrependStep(done, recs[j], RewriteValues(g, i, j + 1, was[j + 1..]));
      assert recs[..j + 1] == done + [recs[j]];
      assert recs[j + 1..] == was[j + 1..];
    }
    RewriteValuesUnfold(g, i, recs.Length, []);
    PrependToNothing<Record, RecordError>(recs[..]);
    assert recs[..] == recs[..recs.Length] && was[recs.Length..] == [];
    e := None;
  }

  /** encryptRecords and decryptRecords. */
  method RewriteRecords(crc: Checksum, g: ValueRewrite, records: bytes) returns (r: Result<bytes, RecordError>)
    ensures r == Rewrite(crc, g, records)
  {
    hide ReadBatches, RewriteBatches, BatchesBytes;
    if |records| == 0 {
      return Success(records);
    }
    var read := ReadRecordBatches(records);
    if read.Failure? {
      return Failure(read.error);
    }
    var batches := new RecordBatch[|read.value|](i requires 0 <= i < |read.value| => read.value[i]);
    assert batches[..] == read.value;
    var e := RewriteAllBatches(crc, g, batches);
    if e != None {
      return Failure(e.value);
    }
    var b := SerializeBatches(batches);
    r := Success(b);
  }

  method SerializeBatches(batches: array<RecordBatch>) returns (b: bytes)
    ensures b == BatchesBytes(batches[..])
  {
    b := [];
    assert batches[0..] == batches[..];
    for i := 0 to batches.Length
      invariant b + BatchesBytes(batches[i..]) == BatchesBytes(batches[..])
    {
      hide BatchesBytes;
      BatchesStep(b, batches[i..]);
      assert batches[i..][1..] == batches[i + 1..];
      b := b + BatchBytes(batches[i]);
    }
    assert batches[batches.Length..] == [];
    assert b + [] == b;
  }

  lemma BatchesStep(b: bytes, bs: seq<RecordBatch>)
    requires bs != []
    ensures b + BatchBytes(bs[0]) + BatchesBytes(bs[1..]) == b + BatchesBytes(bs)
  {
    hide BatchBytes;
    var x, y := BatchBytes(bs[0]), BatchesBytes(bs[1..]);
    assert b + x + y == b + (x + y);
  }

  lemma RewriteBatchesUnfold(crc: Checksum, g: ValueRewrite, i: nat, bs: seq<RecordBatch>)
    ensures RewriteBatches(crc, g, i, []) == Success([])
    ensures bs != [] ==>
              RewriteBatches(crc, g, i, bs) ==
              var b := RewriteBatch(crc, g, i, bs[0]);
              if b.Failure? then Failure(b.error) else Prepend([b.value], RewriteBatches(crc, g, i + 1, bs[1..]))
  {
    hide RewriteBatch;
  }

  /** The outer loop. */
  method RewriteAllBatches(crc: Checksum, g: ValueRewrite, batches: array<RecordBatch>) returns (e: Option<RecordError>)
    modifies batches
    ensures match RewriteBatches(crc, g, 0, old(batches[..]))
            case Success(bs) => e == None && batches[..] == bs
            case Failure(error) => e == Some(error)
  {
    hide RewriteBatches, RewriteBatch, Prepend;
    ghost var was := batches[..];
    PrependNothing(RewriteBatches(crc, g, 0, was));
    assert was[0..] == was && batches[..0] == [];
    for i := 0 to batches.Length
      invariant batches[i..] == was[i..]
      invariant RewriteBatches(crc, g, 0, was) == Prepend(batches[..i], RewriteBatches(crc, g, i, was[i..]))
    {
      ghost var done := batches[..i];
      assert was[i..][0] == batches[i] && was[i..][1..] == was[i + 1..];
      RewriteBatchesUnfold(crc, g, i, was[i..]);
      e := RewriteBatchAt(crc, g, batches, i);
      if e != None {
        PrependFailure(done, RewriteBatches(crc, g, i, was[i..]));
        return;
      }
      PrependStep(done, batches[i], RewriteBatches(crc, g, i + 1, was[i + 1..]));
      assert batches[..i] == done && batches[..i + 1] == done + [batches[i]];
      assert batches[i + 1..] == was[i + 1..];
    }
    RewriteBatchesUnfold(crc, g, batches.Length, []);
    PrependToNothing<RecordBatch, RecordError>(batches[..]);
    assert batches[..] == batches[..batches.Length] && was[batches.Length..] == [];
    e := None;
  }

  method RewriteBatchAt(crc: Checksum, g: ValueRewrite, batches: array<RecordBatch>, i: nat) returns (e: Option<RecordError>)
    requires i < batches.Length
    modifies batches
    ensures match RewriteBatch(crc, g, i, old(batches[i]))
            case Success(b) => e == None && batches[i] == b
            case Failure(error) => e == Some(error)
    ensures forall k :: 0 <= k < batches.Length && k != i ==> batches[k] == old(batches[k])
  {
    hide ReadRecords, RewriteValues, UpdateBatch;
    var read := ReadRecordList(batches[i].numRecords, batches[i].records);
    if read.Failure? {
      return Some(read.error);
    }
    var recs := new Record[|read.value|](k requires 0 <= k < |read.value| => read.value[k]);
    assert recs[..] == read.value;
    e := RewriteRecordValues(g, i, recs);
    if e == None {
      UpdateBatchAt(crc, batches, i, recs);
    }
  }

  // ----- The envelope -----

  /** The end of encryptValue: the envelope is filled part by part. */
  method PackInto(wrappedKey: bytes, payload: bytes) returns (buf: array<byte>)
    ensures fresh(buf) && buf[..] == Pack(wrappedKey, payload)
  {
    buf := new byte[1 + 2 + |wrappedKey| + |payload|];
    buf[0] := ENCRYPTION_VERSION;
    var size := |wrappedKey| % 0x1_0000;
    buf[1], buf[2] := size / 256, size % 256;
    assert PutBE(2, size) == [size / 256, size % 256] by {
      assert PutBE(1, size / 256) == [size / 256];
    }
    Copy(buf, 3, wrappedKey);
    Copy(buf, 3 + |wrappedKey|, payload);
    SplitAt(buf[..], 3, 3 + |wrappedKey|);
    assert buf[..3] == [buf[0]] + [buf[1], buf[2]];
  }

  lemma SplitAt(b: bytes, i: nat, j: nat)
    requires i <= j <= |b|
    ensures b == b[..i] + b[i..j] + b[j..]
  {
  }

  method Copy(buf: array<byte>, start: nat, src: bytes)
    requires start + |src| <= buf.Length
    modifies buf
    ensures buf[start..start + |src|] == src
    ensures buf[..start] == old(buf[..start]) && buf[start + |src|..] == old(buf[start + |src|..])
  {
    forall i | 0 <= i < |src| {
      buf[start + i] := src[i];
    }
  }
}
