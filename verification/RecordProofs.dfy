/** What is written is read back, and two rewrites in a row are one. */
module RecordProofs {
  import opened Wire
  import opened Varints
  import opened Records

  // ----- Records -----

  lemma VarintRead(i: int32, rest: bytes)
    ensures ReadVarint(PutVarint(i) + rest) == Got(i, rest)
  {
    UnZigZagInverts(i);
    ReadUvarint32RoundTrip(ZigZag(i), 0, rest);
    assert (PutVarint(i) + rest)[|PutVarint(i)|..] == rest;
  }

  lemma VarlongRead(i: int64, rest: bytes)
    ensures ReadVarlong(PutVarint(i) + rest) == Got(i, rest)
  {
    UnZigZagInverts(i);
    UvarintRoundTrip(ZigZag(i), rest);
    assert (PutVarint(i) + rest)[|PutVarint(i)|..] == rest;
  }

  lemma BytesRead(o: Option<bytes>, rest: bytes)
    requires |VarintBytes(o)| <= MAX_INT32
    ensures ReadVarintBytes(VarintBytes(o) + rest) == Got(o, rest)
  {
    hide PutVarint, ReadVarint;
    match o
    case None => VarintRead(-1, rest);
    case Some(v) =>
      VarintRead(|v|, v + rest);
      assert VarintBytes(o) + rest == PutVarint(|v|) + (v + rest);
      assert (v + rest)[..|v|] == v && (v + rest)[|v|..] == rest;
  }

  lemma HeaderRead(h: Header, rest: bytes)
    requires |HeaderBytes(h)| <= MAX_INT32
    ensures ReadVarintString(HeaderBytes(h) + rest) == Got(h.key, VarintBytes(h.value) + rest)
    ensures ReadVarintBytes(VarintBytes(h.value) + rest) == Got(h.value, rest)
  {
    hide ReadVarintBytes;
    BytesRead(Some(h.key), VarintBytes(h.value) + rest);
    BytesRead(h.value, rest);
    assert HeaderBytes(h) + rest == VarintBytes(Some(h.key)) + (VarintBytes(h.value) + rest);
  }

  lemma HeadersStep(hs: seq<Header>, rest: bytes)
    requires hs != [] && |HeadersBytes(hs)| <= MAX_INT32
    ensures HeadersBytes(hs) == HeaderBytes(hs[0]) + HeadersBytes(hs[1..])
    ensures var more := ReadHeaders(|hs| - 1, HeadersBytes(hs[1..]) + rest);
            ReadHeaders(|hs|, HeadersBytes(hs) + rest) == if more.Bad? then Bad else Got([hs[0]] + more.value, more.rest)
  {
    hide HeaderBytes, ReadVarintString, ReadVarintBytes;
    var tail := HeadersBytes(hs[1..]) + rest;
    HeaderRead(hs[0], tail);
    assert HeadersBytes(hs) + rest == HeaderBytes(hs[0]) + tail;
  }

  lemma NoHeadersRead(rest: bytes)
    ensures ReadHeaders(0, HeadersBytes([]) + rest) == Got([], rest)
  {
    assert HeadersBytes([]) + rest == rest;
  }

  lemma {:induction false} HeadersRead(hs: seq<Header>, rest: bytes)
    requires |HeadersBytes(hs)| <= MAX_INT32
    ensures ReadHeaders(|hs|, HeadersBytes(hs) + rest) == Got(hs, rest)
    ensures |hs| <= |HeadersBytes(hs)|
  {
    hide HeaderBytes, HeadersBytes, ReadHeaders;
    if hs == [] {
      NoHeadersRead(rest);
    } else {
      HeadersStep(hs, rest);
      HeadersRead(hs[1..], rest);
      HeaderNotEmpty(hs[0]);
      assert hs == [hs[0]] + hs[1..];
    }
  }

  lemma HeaderNotEmpty(h: Header)
    ensures HeaderBytes(h) != []
  {
    assert PutVarint(ToInt32(|h.key|)) != [];
  }

  lemma HeaderArrayRead(hs: seq<Header>, rest: bytes)
    requires |PutVarint(ToInt32(|hs|)) + HeadersBytes(hs)| <= MAX_INT32
    ensures ReadHeaderArray(PutVarint(ToInt32(|hs|)) + (HeadersBytes(hs) + rest)) == Got(hs, rest)
  {
    hide PutVarint, ReadVarint, ReadHeaders, HeadersBytes;
    HeadersRead(hs, rest);
    VarintRead(|hs|, HeadersBytes(hs) + rest);
  }

  /** A body's bytes, read from the back: each field before what follows it. */
  function BodyTail(r: Record, rest: bytes): (bytes, bytes, bytes, bytes, bytes) {
    var headers := PutVarint(ToInt32(|r.headers|)) + (HeadersBytes(r.headers) + rest);
    var value := VarintBytes(r.value) + headers;
    var key := VarintBytes(r.key) + value;
    var offset := PutVarint(r.offsetDelta) + key;
    (PutVarint(r.timestampDelta) + offset, offset, key, value, headers)
  }

  lemma BodySplit(r: Record, rest: bytes)
    ensures Body(r) + rest == IntBytes(1, r.attributes) + BodyTail(r, rest).0
    ensures |Body(r)| >= |VarintBytes(r.key)| + |VarintBytes(r.value)|
                         + |PutVarint(ToInt32(|r.headers|)) + HeadersBytes(r.headers)|
  {
    hide IntBytes, PutVarint, VarintBytes, HeadersBytes;
    var a, b, c, d := IntBytes(1, r.attributes), PutVarint(r.timestampDelta), PutVarint(r.offsetDelta), VarintBytes(r.key);
    var e, f, g := VarintBytes(r.value), PutVarint(ToInt32(|r.headers|)), HeadersBytes(r.headers);
    assert Body(r) == a + b + c + d + e + f + g;
    assert a + b + c + d + e + f + g + rest == a + (b + (c + (d + (e + (f + (g + rest))))));
  }

  lemma BodyRead(r: Record, rest: bytes)
    requires |Body(r)| <= MAX_INT32
    ensures ReadBody(Body(r) + rest) == Got(r, rest)
  {
    hide Body, VarintBytes, PutVarint, HeadersBytes, IntBytes, ReadVarint, ReadVarlong, ReadVarintBytes, ReadHeaderArray;
    var t := BodyTail(r, rest);
    BodySplit(r, rest);
    AttributesRead(r.attributes, t.0);
    VarlongRead(r.timestampDelta, t.1);
    VarintRead(r.offsetDelta, t.2);
    BytesRead(r.key, t.3);
    BytesRead(r.value, t.4);
    HeaderArrayRead(r.headers, rest);
  }

  lemma AttributesRead(a: int8, rest: bytes)
    ensures var b := IntBytes(1, a) + rest; Int8At(b, 0) == a && b[1..] == rest
  {
    Widths();
    IntRoundTrip(1, a);
    assert (IntBytes(1, a) + rest)[..1] == IntBytes(1, a);
  }

  lemma RecordRead(r: Record)
    requires |Body(r)| <= MAX_INT32
    ensures ReadRecord(RecordBytes(|Body(r)|, r)) == Success(r)
  {
    hide Body, ReadVarint, ReadBody;
    VarintRead(|Body(r)|, Body(r));
    BodyRead(r, []);
    assert Body(r) + [] == Body(r);
  }

  lemma RecordsStep(rs: seq<Record>, rest: bytes)
    requires rs != [] && |RecordsBytes(rs)| <= MAX_INT32
    ensures RecordsBytes(rs) == RecordBytes(|Body(rs[0])|, rs[0]) + RecordsBytes(rs[1..])
    ensures var more := ReadRecords(|rs| - 1, RecordsBytes(rs[1..]) + rest);
            ReadRecords(|rs|, RecordsBytes(rs) + rest) == if more.Failure? then more else Success([rs[0]] + more.value)
  {
    hide Body, ReadRecord, VarintDecode, RecordsBytes, PutVarint, ReadRecords;
    RecordsUnfold(rs);
    var n := |Body(rs[0])|;
    var first, tail := RecordBytes(n, rs[0]), RecordsBytes(rs[1..]) + rest;
    RecordRead(rs[0]);
    Associate(PutVarint(n), Body(rs[0]), RecordsBytes(rs[1..]), rest);
    VarintDecodeInverts(n, Body(rs[0]) + tail);
    VarintNotEmpty(n);
    ReadRecordsStep(|rs|, first, tail, n, |PutVarint(n)|, rs[0]);
  }

  lemma Associate(a: bytes, b: bytes, c: bytes, d: bytes)
    ensures a + b + c + d == a + b + (c + d) == a + (b + (c + d))
  {
  }

  lemma RecordsUnfold(rs: seq<Record>)
    requires rs != [] && |RecordsBytes(rs)| <= MAX_INT32
    ensures |Body(rs[0])| <= MAX_INT32
    ensures RecordsBytes(rs) == RecordBytes(|Body(rs[0])|, rs[0]) + RecordsBytes(rs[1..])
  {
    hide Body, PutVarint;
    assert RecordsBytes(rs) == RecordBytes(ToInt32(|Body(rs[0])|), rs[0]) + RecordsBytes(rs[1..]);
  }

  lemma ReadRecordsStep(n: int, first: bytes, tail: bytes, l: int32, k: int, r: Record)
    requires n > 0 && k > 0 && k + l == |first| && VarintDecode(first + tail) == (l, k) && ReadRecord(first) == Success(r)
    ensures var more := ReadRecords(n - 1, tail);
            ReadRecords(n, first + tail) == if more.Failure? then more else Success([r] + more.value)
  {
    hide VarintDecode, ReadRecord;
    assert (first + tail)[..|first|] == first && (first + tail)[|first|..] == tail;
  }

  lemma VarintNotEmpty(i: int32)
    ensures PutVarint(i) != []
  {
  }

  lemma NoRecordsRead(rest: bytes)
    ensures ReadRecords(0, RecordsBytes([]) + rest) == Success([])
  {
  }

  lemma {:induction false} RecordsRead(rs: seq<Record>, rest: bytes)
    requires |RecordsBytes(rs)| <= MAX_INT32
    ensures ReadRecords(|rs|, RecordsBytes(rs) + rest) == Success(rs)
    ensures |rs| <= |RecordsBytes(rs)|
  {
    hide Body, ReadRecords, RecordsBytes, PutVarint;
    if rs == [] {
      NoRecordsRead(rest);
    } else {
      RecordsStep(rs, rest);
      RecordsRead(rs[1..], rest);
      VarintNotEmpty(|Body(rs[0])|);
      assert [rs[0]] + rs[1..] == rs;
    }
  }

  // ----- Batches -----

  predicate Consistent(b: RecordBatch) {
    b.length == 49 + |b.records|
  }

  lemma BatchSlots(b: RecordBatch)
    ensures var s := BatchBytes(b);
            && |s| == HEADER_SIZE + |b.records| && s[61..] == b.records
            && s[0..8] == IntBytes(8, b.firstOffset) && s[8..12] == IntBytes(4, b.length)
            && s[12..16] == IntBytes(4, b.partitionLeaderEpoch) && s[16..17] == IntBytes(1, b.magic)
            && s[17..21] == IntBytes(4, b.crc) && s[21..] == Checked(b)
  {
  }

  lemma CheckedSlots(b: RecordBatch)
    ensures var s := Checked(b);
            && |s| == 40 + |b.records| && s[0..2] == IntBytes(2, b.attributes) && s[2..6] == IntBytes(4, b.lastOffsetDelta)
            && s[6..14] == IntBytes(8, b.firstTimestamp) && s[14..22] == IntBytes(8, b.maxTimestamp)
            && s[22..30] == IntBytes(8, b.producerId) && s[30..32] == IntBytes(2, b.producerEpoch)
            && s[32..36] == IntBytes(4, b.firstSequence) && s[36..40] == IntBytes(4, b.numRecords) && s[40..] == b.records
  {
  }

  /** The slots of the checked part, where they are in the whole batch. */
  lemma SlotsAgree(b: RecordBatch)
    ensures var s := BatchBytes(b);
            && |s| == HEADER_SIZE + |b.records|
            && s[21..23] == IntBytes(2, b.attributes) && s[23..27] == IntBytes(4, b.lastOffsetDelta)
            && s[27..35] == IntBytes(8, b.firstTimestamp) && s[35..43] == IntBytes(8, b.maxTimestamp)
            && s[43..51] == IntBytes(8, b.producerId) && s[51..53] == IntBytes(2, b.producerEpoch)
            && s[53..57] == IntBytes(4, b.firstSequence) && s[57..61] == IntBytes(4, b.numRecords)
  {
    hide BatchBytes, Checked, IntBytes;
    BatchSlots(b);
    CheckedSlots(b);
    var s, c := BatchBytes(b), Checked(b);
    assert forall i, j :: 0 <= i <= j <= |c| ==> s[21..][i..j] == s[21 + i..21 + j];
    assert s[21..23] == c[0..2] && s[23..27] == c[2..6] && s[27..35] == c[6..14] && s[35..43] == c[14..22];
    assert s[43..51] == c[22..30] && s[51..53] == c[30..32] && s[53..57] == c[32..36] && s[57..61] == c[36..40];
  }

  lemma IntsRoundTrip(b: RecordBatch)
    ensures IntOf(IntBytes(8, b.firstOffset)) == b.firstOffset && IntOf(IntBytes(4, b.length)) == b.length
    ensures IntOf(IntBytes(4, b.partitionLeaderEpoch)) == b.partitionLeaderEpoch && IntOf(IntBytes(1, b.magic)) == b.magic
    ensures IntOf(IntBytes(4, b.crc)) == b.crc && IntOf(IntBytes(2, b.attributes)) == b.attributes
    ensures IntOf(IntBytes(4, b.lastOffsetDelta)) == b.lastOffsetDelta
    ensures IntOf(IntBytes(8, b.firstTimestamp)) == b.firstTimestamp && IntOf(IntBytes(8, b.maxTimestamp)) == b.maxTimestamp
    ensures IntOf(IntBytes(8, b.producerId)) == b.producerId && IntOf(IntBytes(2, b.producerEpoch)) == b.producerEpoch
    ensures IntOf(IntBytes(4, b.firstSequence)) == b.firstSequence && IntOf(IntBytes(4, b.numRecords)) == b.numRecords
  {
    hide IntOf, IntBytes;
    Widths();
    IntRoundTrip(8, b.firstOffset);
    IntRoundTrip(4, b.length);
    IntRoundTrip(4, b.partitionLeaderEpoch);
    IntRoundTrip(1, b.magic);
    IntRoundTrip(4, b.crc);
    IntRoundTrip(2, b.attributes);
    IntRoundTrip(4, b.lastOffsetDelta);
    IntRoundTrip(8, b.firstTimestamp);
    IntRoundTrip(8, b.maxTimestamp);
    IntRoundTrip(8, b.producerId);
    IntRoundTrip(2, b.producerEpoch);
    IntRoundTrip(4, b.firstSequence);
    IntRoundTrip(4, b.numRecords);
  }

  lemma BatchRead(b: RecordBatch)
    requires Consistent(b)
    ensures ReadBatch(BatchBytes(b)) == Success(b)
  {
    hide IntOf, IntBytes, BatchBytes, Checked;
    BatchSlots(b);
    SlotsAgree(b);
    IntsRoundTrip(b);
    assert BatchBytes(b)[61..61 + b.length - 49] == b.records;
  }

  lemma BatchesStep(bs: seq<RecordBatch>)
    requires bs != [] && Consistent(bs[0])
    ensures var more := ReadBatches(BatchesBytes(bs[1..]));
            ReadBatches(BatchesBytes(bs)) == if more.Failure? then more else Success([bs[0]] + more.value)
  {
    hide BatchBytes, ReadBatches, ReadBatch, Int32At;
    var first, tail := BatchBytes(bs[0]), BatchesBytes(bs[1..]);
    BatchRead(bs[0]);
    LengthRead(bs[0]);
    ReadBatchesStep(first, tail, bs[0]);
  }

  lemma LengthRead(b: RecordBatch)
    requires Consistent(b)
    ensures |BatchBytes(b)| == BEFORE_LENGTH_END + b.length && Int32At(BatchBytes(b), 8) == b.length
  {
    BatchSlots(b);
    IntsRoundTrip(b);
  }

  lemma ReadBatchesStep(first: bytes, tail: bytes, b: RecordBatch)
    requires |first| >= HEADER_SIZE && |first| == BEFORE_LENGTH_END + Int32At(first, 8) && ReadBatch(first) == Success(b)
    ensures var more := ReadBatches(tail);
            ReadBatches(first + tail) == if more.Failure? then more else Success([b] + more.value)
  {
    hide ReadBatch, IntOf;
    assert (first + tail)[8..12] == first[8..12];
    assert (first + tail)[..|first|] == first && (first + tail)[|first|..] == tail;
  }

  lemma NoBatchesRead()
    ensures ReadBatches(BatchesBytes([])) == Success([])
  {
  }

  lemma {:induction false} BatchesRead(bs: seq<RecordBatch>)
    requires forall b <- bs :: Consistent(b)
    ensures ReadBatches(BatchesBytes(bs)) == Success(bs)
  {
    hide BatchesBytes, ReadBatches, Consistent;
    if bs == [] {
      NoBatchesRead();
    } else {
      forall b | b in bs[1..]
        ensures Consistent(b)
      {
        assert b in bs;
      }
      BatchesStep(bs);
      BatchesRead(bs[1..]);
      assert [bs[0]] + bs[1..] == bs;
    }
  }

  // ----- Two rewrites in a row -----

  /** First g, then h: a value that becomes null stays null. */
  function Then(g: ValueRewrite, h: ValueRewrite): ValueRewrite {
    (i, j, v) =>
      var w := g(i, j, v);
      if w.Failure? || w.value.None? then w else h(i, j, w.value.value)
  }

  lemma {:induction false} ValuesCompose(g: ValueRewrite, h: ValueRewrite, i: nat, j: nat, rs: seq<Record>)
    requires RewriteValues(g, i, j, rs).Success?
    ensures RewriteValues(h, i, j, RewriteValues(g, i, j, rs).value) == RewriteValues(Then(g, h), i, j, rs)
    decreases |rs|
  {
    if rs != [] {
      ValuesCompose(g, h, i, j + 1, rs[1..]);
      var done := RewriteValues(g, i, j, rs).value;
      assert done[1..] == RewriteValues(g, i, j + 1, rs[1..]).value;
      assert done[0].(value := rs[0].value) == rs[0];
    }
  }

  /** A rewritten batch that fits its 32-bit length field reads back as its records. */
  lemma UpdatedRead(crc: Checksum, batch: RecordBatch, rs: seq<Record>)
    requires 49 + |RecordsBytes(rs)| <= MAX_INT32
    ensures var b := UpdateBatch(crc, batch, rs); Consistent(b) && ReadRecords(b.numRecords, b.records) == Success(rs)
  {
    hide RecordsBytes, ReadRecords, Checked;
    RecordsRead(rs, []);
    assert RecordsBytes(rs) + [] == RecordsBytes(rs);
  }

  /** Only the records matter to the second update: it overwrites everything the first one wrote. */
  lemma UpdatesOverwrite(crc: Checksum, batch: RecordBatch, rs: seq<Record>, qs: seq<Record>)
    ensures UpdateBatch(crc, UpdateBatch(crc, batch, rs), qs) == UpdateBatch(crc, batch, qs)
  {
  }

  lemma BatchCompose(crc: Checksum, g: ValueRewrite, h: ValueRewrite, i: nat, batch: RecordBatch)
    requires RewriteBatch(crc, g, i, batch).Success?
    requires 49 + |RewriteBatch(crc, g, i, batch).value.records| <= MAX_INT32
    ensures Consistent(RewriteBatch(crc, g, i, batch).value)
    ensures RewriteBatch(crc, h, i, RewriteBatch(crc, g, i, batch).value) == RewriteBatch(crc, Then(g, h), i, batch)
  {
    hide ReadRecords, RewriteValues, RecordsBytes, Checked, Then;
    var rs := ReadRecords(batch.numRecords, batch.records).value;
    var qs := RewriteValues(g, i, 0, rs).value;
    UpdatedRead(crc, batch, qs);
    ValuesCompose(g, h, i, 0, rs);
    var ps := RewriteValues(h, i, 0, qs);
    if ps.Success? {
      UpdatesOverwrite(crc, batch, qs, ps.value);
    }
  }

  predicate Fitting(bs: seq<RecordBatch>) {
    forall b <- bs :: 49 + |b.records| <= MAX_INT32
  }

  lemma {:induction false} BatchesCompose(crc: Checksum, g: ValueRewrite, h: ValueRewrite, i: nat, bs: seq<RecordBatch>)
    requires RewriteBatches(crc, g, i, bs).Success? && Fitting(RewriteBatches(crc, g, i, bs).value)
    ensures forall b <- RewriteBatches(crc, g, i, bs).value :: Consistent(b)
    ensures RewriteBatches(crc, h, i, RewriteBatches(crc, g, i, bs).value) == RewriteBatches(crc, Then(g, h), i, bs)
    decreases |bs|
  {
    if bs != [] {
      hide RewriteBatch, Then;
      var done := RewriteBatches(crc, g, i, bs).value;
      assert done[0] in done && done[1..] == RewriteBatches(crc, g, i + 1, bs[1..]).value;
      BatchCompose(crc, g, h, i, bs[0]);
      BatchesCompose(crc, g, h, i + 1, bs[1..]);
    }
  }

  lemma {:induction false} BatchesSize(bs: seq<RecordBatch>)
    ensures |bs| <= |BatchesBytes(bs)|
    ensures forall b <- bs :: HEADER_SIZE + |b.records| <= |BatchesBytes(bs)|
  {
    if bs != [] {
      hide BatchBytes;
      BatchSlots(bs[0]);
      BatchesSize(bs[1..]);
      assert bs == [bs[0]] + bs[1..];
    }
  }

  /**
   Rewriting twice is rewriting once with both rewrites, errors included, whatever bytes the first one started from.
   The size condition is the 32-bit length that the protocol itself gives to a partition's records.
   */
  lemma RewriteCompose(crc: Checksum, g: ValueRewrite, h: ValueRewrite, b: bytes)
    requires Rewrite(crc, g, b).Success? && |Rewrite(crc, g, b).value| <= MAX_INT32
    ensures Rewrite(crc, h, Rewrite(crc, g, b).value) == Rewrite(crc, Then(g, h), b)
  {
    hide ReadBatches, RewriteBatches, BatchesBytes, Then, Consistent;
    if b != [] {
      var bs := ReadBatches(b).value;
      var done := RewriteBatches(crc, g, 0, bs).value;
      BatchesSize(done);
      BatchesCompose(crc, g, h, 0, bs);
      BatchesRead(done);
      ReadBatchesNotEmpty(b);
    }
  }

  lemma ReadBatchesNotEmpty(b: bytes)
    requires b != [] && ReadBatches(b).Success?
    ensures ReadBatches(b).value != []
  {
  }
}
