/**
 Which records re-encode to the same bytes: a predicate that looks at the bytes alone (readRecords, updateBatch and
 calculateRecordLength in plugin/vault-encryption/main.go; kmsg's record.go).
 */
module RecordCanonical {
  import opened Wire
  import opened Varints
  import opened Records
  import opened RecordProofs
  import opened RecordTheorems

  // ----- Canonical bytes -----

  /** b starts with a varint of at most 32 bits that wastes no byte. */
  predicate MinimalVarint(b: bytes) {
    var r := ReadUvarint32From(b, 0);
    r.UValue? && Minimal(b, r.n)
  }

  predicate MinimalVarlong(b: bytes) {
    var r := GetUvarint(b);
    r.UValue? && Minimal(b, r.n)
  }

  /** Null has the length -1. */
  predicate CanonicalBytes(b: bytes) {
    MinimalVarint(b) && ReadVarint(b).Got? && ReadVarint(b).value >= -1
  }

  /** A header's key is not null. */
  predicate CanonicalString(b: bytes) {
    MinimalVarint(b) && ReadVarint(b).Got? && ReadVarint(b).value >= 0
  }

  predicate CanonicalHeaders(n: nat, b: bytes) {
    n == 0
    || (var key := ReadVarintString(b);
        CanonicalString(b) && key.Got?
        && var value := ReadVarintBytes(key.rest);
           CanonicalBytes(key.rest) && value.Got? && CanonicalHeaders(n - 1, value.rest))
  }

  predicate CanonicalHeaderArray(b: bytes) {
    var l := ReadVarint(b);
    MinimalVarint(b) && l.Got? && l.value >= 0 && CanonicalHeaders(l.value, l.rest)
  }

  predicate CanonicalBody(b: bytes) {
    b != []
    && var timestamp := ReadVarlong(b[1..]);
       MinimalVarlong(b[1..]) && timestamp.Got?
       && var offset := ReadVarint(timestamp.rest);
          MinimalVarint(timestamp.rest) && offset.Got?
          && var key := ReadVarintBytes(offset.rest);
             CanonicalBytes(offset.rest) && key.Got?
             && var value := ReadVarintBytes(key.rest);
                CanonicalBytes(key.rest) && value.Got? && CanonicalHeaderArray(value.rest)
  }

  /** The length is minimal and the record fills exactly as many bytes. */
  predicate CanonicalRecord(chunk: bytes) {
    var length := ReadVarint(chunk);
    MinimalVarint(chunk) && length.Got? && CanonicalBody(length.rest)
    && ReadBody(length.rest).Got? && ReadBody(length.rest).rest == []
  }

  /** n canonical records and nothing behind them. */
  predicate CanonicalRecords(n: int, b: bytes)
    decreases if n < 0 then 0 else n
  {
    if n <= 0 then b == []
    else
      var (l, k) := VarintDecode(b);
      0 <= k + l <= |b| && CanonicalRecord(b[..k + l]) && CanonicalRecords(n - 1, b[k + l..])
  }

  /** The count is that of the records, and the checksum is right. */
  predicate CanonicalBatch(crc: Checksum, b: RecordBatch) {
    b.numRecords >= 0 && CanonicalRecords(b.numRecords, b.records) && b.crc == ToInt32(crc(Checked(b)))
  }

  predicate Canonical(crc: Checksum, b: bytes) {
    var bs := ReadBatches(b);
    bs.Success? && forall batch <- bs.value :: CanonicalBatch(crc, batch)
  }

  // ----- Re-encoding what was read -----

  /** e encodes again what lies in b before rest: it is no longer, and the same bytes exactly when they were canonical. */
  predicate Again(e: bytes, b: bytes, rest: bytes, canonical: bool) {
    |e| + |rest| <= |b| && b[|b| - |rest|..] == rest && (e + rest == b <==> canonical)
  }

  lemma AgainThen(e: bytes, d: bytes, b: bytes, mid: bytes, rest: bytes, c1: bool, c2: bool)
    requires Again(e, b, mid, c1) && Again(d, mid, rest, c2)
    ensures Again(e + d, b, rest, c1 && c2)
  {
    assert b[|b| - |rest|..] == mid[|mid| - |rest|..];
    assert e + d + rest == e + (d + rest);
    if e + d + rest == b {
      assert |d + rest| == |mid|;
      assert d + rest == b[|b| - |mid|..];
    }
  }

  lemma {:induction false} Uvarint32Is64(b: bytes, i: nat)
    requires i <= 4 && ReadUvarint32From(b, i).UValue?
    ensures GetUvarintFrom(b, i) == ReadUvarint32From(b, i)
    decreases |b|
  {
    if i < 4 && b[0] >= 128 {
      Uvarint32Is64(b[1..], i + 1);
    }
  }

  lemma ZigZagInverts(u: nat)
    ensures ZigZag(UnZigZag(u)) == u
  {
  }

  lemma VarlongAgain(b: bytes)
    requires ReadVarlong(b).Got?
    ensures Again(PutVarint(ReadVarlong(b).value), b, ReadVarlong(b).rest, MinimalVarlong(b))
  {
    var r := GetUvarint(b);
    hide PutUvarint, GetUvarint;
    UvarintReencode(b);
    ZigZagInverts(r.u);
    assert b == b[..r.n] + b[r.n..];
    assert PutUvarint(r.u) + b[r.n..] == b ==> PutUvarint(r.u) == b[..r.n];
  }

  lemma VarintAgain(b: bytes)
    requires ReadVarint(b).Got?
    ensures Again(PutVarint(ReadVarint(b).value), b, ReadVarint(b).rest, MinimalVarint(b))
  {
    var r := ReadUvarint32From(b, 0);
    Uvarint32Is64(b, 0);
    hide PutUvarint, GetUvarint, ReadUvarint32From;
    UvarintReencode(b);
    ZigZagInverts(r.u);
    assert b == b[..r.n] + b[r.n..];
    assert PutUvarint(r.u) + b[r.n..] == b ==> PutUvarint(r.u) == b[..r.n];
  }

  /** Another value than the one read is written differently, and -1 and 0 take one byte. */
  lemma OtherVarint(b: bytes, i: int32)
    requires ReadVarint(b).Got? && ReadVarint(b).value != i && (i == -1 || i == 0)
    ensures Again(PutVarint(i), b, ReadVarint(b).rest, false)
  {
    var rest := ReadVarint(b).rest;
    VarintAgain(b);
    VarintRead(i, rest);
    assert |PutVarint(i)| == 1;
    hide PutVarint, ReadVarint;
  }

  lemma Raw(b: bytes, n: nat)
    requires n <= |b|
    ensures Again(b[..n], b, b[n..], true)
  {
  }

  lemma BytesAgain(b: bytes)
    requires ReadVarintBytes(b).Got?
    ensures Again(VarintBytes(ReadVarintBytes(b).value), b, ReadVarintBytes(b).rest, CanonicalBytes(b))
  {
    hide PutVarint, ReadVarint, MinimalVarint, Again;
    var l := ReadVarint(b);
    VarintAgain(b);
    if l.value < -1 {
      OtherVarint(b, -1);
    } else if l.value >= 0 {
      Raw(l.rest, l.value);
      AgainThen(PutVarint(l.value), l.rest[..l.value], b, l.rest, l.rest[l.value..], MinimalVarint(b), true);
    }
  }

  lemma StringAgain(b: bytes)
    requires ReadVarintString(b).Got?
    ensures Again(VarintBytes(Some(ReadVarintString(b).value)), b, ReadVarintString(b).rest, CanonicalString(b))
  {
    hide PutVarint, ReadVarint, MinimalVarint, Again;
    var l := ReadVarint(b);
    if l.value < 0 {
      OtherVarint(b, 0);
      assert PutVarint(0) + [] == PutVarint(0);
    } else {
      BytesAgain(b);
    }
  }

  lemma {:induction false} HeadersAgain(n: nat, b: bytes)
    requires ReadHeaders(n, b).Got?
    ensures Again(HeadersBytes(ReadHeaders(n, b).value), b, ReadHeaders(n, b).rest, CanonicalHeaders(n, b))
  {
    hide ReadVarintString, ReadVarintBytes, VarintBytes, CanonicalString, CanonicalBytes;
    if n == 0 {
      NoHeadersAgain(b);
    } else {
      hide Again;
      var key := ReadVarintString(b);
      var value := ReadVarintBytes(key.rest);
      var more := ReadHeaders(n - 1, value.rest);
      StringAgain(b);
      BytesAgain(key.rest);
      HeadersAgain(n - 1, value.rest);
      var h := Header(key.value, value.value);
      HeadersCons(h, more.value);
      AgainThen(VarintBytes(Some(key.value)), VarintBytes(value.value), b, key.rest, value.rest,
                CanonicalString(b), CanonicalBytes(key.rest));
      AgainThen(HeaderBytes(h), HeadersBytes(more.value), b, value.rest, more.rest,
                CanonicalString(b) && CanonicalBytes(key.rest), CanonicalHeaders(n - 1, value.rest));
    }
  }

  lemma NoHeadersAgain(b: bytes)
    ensures Again(HeadersBytes([]), b, b, true)
  {
    assert [] + b == b;
  }

  lemma HeadersCons(h: Header, hs: seq<Header>)
    ensures HeadersBytes([h] + hs) == HeaderBytes(h) + HeadersBytes(hs)
  {
    assert ([h] + hs)[1..] == hs;
  }

  lemma HeaderArrayAgain(b: bytes)
    requires ReadHeaderArray(b).Got?
    ensures var r := ReadHeaderArray(b);
            Again(PutVarint(ToInt32(|r.value|)) + HeadersBytes(r.value), b, r.rest, CanonicalHeaderArray(b))
  {
    hide PutVarint, ReadVarint, MinimalVarint, Again, ReadHeaders, HeadersBytes, CanonicalHeaders;
    var l := ReadVarint(b);
    var n := if l.value < 0 then 0 else l.value;
    VarintAgain(b);
    HeadersAgain(n, l.rest);
    HeadersCount(n, l.rest);
    var r := ReadHeaders(n, l.rest);
    if l.value < 0 {
      OtherVarint(b, 0);
      AgainThen(PutVarint(0), HeadersBytes(r.value), b, l.rest, r.rest, false, CanonicalHeaders(n, l.rest));
    } else {
      AgainThen(PutVarint(n), HeadersBytes(r.value), b, l.rest, r.rest, MinimalVarint(b), CanonicalHeaders(n, l.rest));
    }
  }

  lemma HeadersCount(n: nat, b: bytes)
    requires ReadHeaders(n, b).Got?
    ensures |ReadHeaders(n, b).value| == n
  {
  }

  lemma AttributesAgain(b: bytes)
    requires b != []
    ensures Again(IntBytes(1, Int8At(b, 0)), b, b[1..], true)
  {
    IntBytesOf(b[0..1]);
    assert b == b[0..1] + b[1..];
  }

  lemma BodyAgain(b: bytes)
    requires ReadBody(b).Got?
    ensures Again(Body(ReadBody(b).value), b, ReadBody(b).rest, CanonicalBody(b))
  {
    hide Again, ReadVarint, ReadVarlong, ReadVarintBytes, ReadHeaderArray, MinimalVarint, MinimalVarlong, CanonicalBytes;
    hide CanonicalHeaderArray, PutVarint, VarintBytes, HeadersBytes, IntBytes;
    var r := ReadBody(b).value;
    var timestamp := ReadVarlong(b[1..]);
    var offset := ReadVarint(timestamp.rest);
    var key := ReadVarintBytes(offset.rest);
    var value := ReadVarintBytes(key.rest);
    var headers := ReadHeaderArray(value.rest);
    AttributesAgain(b);
    VarlongAgain(b[1..]);
    VarintAgain(timestamp.rest);
    BytesAgain(offset.rest);
    BytesAgain(key.rest);
    HeaderArrayAgain(value.rest);
    var e1 := IntBytes(1, r.attributes) + PutVarint(r.timestampDelta);
    var e2 := e1 + PutVarint(r.offsetDelta);
    var e3 := e2 + VarintBytes(r.key);
    var e4 := e3 + VarintBytes(r.value);
    var h := PutVarint(ToInt32(|r.headers|)) + HeadersBytes(r.headers);
    var c1 := MinimalVarlong(b[1..]);
    var c2 := c1 && MinimalVarint(timestamp.rest);
    var c3 := c2 && CanonicalBytes(offset.rest);
    var c4 := c3 && CanonicalBytes(key.rest);
    AgainThen(IntBytes(1, r.attributes), PutVarint(r.timestampDelta), b, b[1..], timestamp.rest, true, c1);
    AgainThen(e1, PutVarint(r.offsetDelta), b, timestamp.rest, offset.rest, c1, MinimalVarint(timestamp.rest));
    AgainThen(e2, VarintBytes(r.key), b, offset.rest, key.rest, c2, CanonicalBytes(offset.rest));
    AgainThen(e3, VarintBytes(r.value), b, key.rest, value.rest, c3, CanonicalBytes(key.rest));
    AgainThen(e4, h, b, value.rest, headers.rest, c4, CanonicalHeaderArray(value.rest));
    assert e4 + h == Body(r);
  }

  lemma {:induction false} VarintSizes(u: nat, v: nat)
    requires u <= v
    ensures |PutUvarint(u)| <= |PutUvarint(v)|
  {
    if u >= 128 {
      VarintSizes(u / 128, v / 128);
    }
  }

  /** A record whose announced length is what follows it, as readRecords cuts it out. */
  lemma RecordAgain(chunk: bytes)
    requires ReadRecord(chunk).Success? && ReadVarint(chunk).value == |ReadVarint(chunk).rest|
    ensures var r := ReadRecord(chunk).value;
            Again(RecordBytes(ToInt32(|Body(r)|), r), chunk, [], CanonicalRecord(chunk))
  {
    hide PutVarint, ReadVarint, ReadBody, Body, MinimalVarint, CanonicalBody;
    var length := ReadVarint(chunk);
    var l, body := length.value, length.rest;
    var r, rest := ReadBody(body).value, ReadBody(body).rest;
    VarintAgain(chunk);
    BodyAgain(body);
    var n := |Body(r)|;
    if n == l {
      assert rest == [];
      AgainThen(PutVarint(l), Body(r), chunk, body, [], MinimalVarint(chunk), CanonicalBody(body));
    } else {
      ShorterVarint(n, l);
      assert CanonicalBody(body) ==> Body(r) + rest == body;
      assert rest == [] ==> Body(r) + rest == Body(r);
    }
  }

  lemma ShorterVarint(n: int32, l: int32)
    requires 0 <= n <= l
    ensures |PutVarint(n)| <= |PutVarint(l)|
  {
    VarintSizes(ZigZag(n), ZigZag(l));
  }

  lemma {:induction false} PeekPrefix(a: bytes, b: bytes, i: nat)
    requires i <= 5 && PeekUvarintFrom(a, i).UValue? && a <= b
    ensures PeekUvarintFrom(b, i) == PeekUvarintFrom(a, i)
    decreases |a|
  {
    if a[0] >= 128 {
      PeekPrefix(a[1..], b[1..], i + 1);
    }
  }

  /** The peeked length is the one the record is read with. */
  lemma PeekedLength(b: bytes, l: int32, k: int)
    requires VarintDecode(b) == (l, k) && 0 <= k + l <= |b| && ReadVarint(b[..k + l]).Got?
    ensures 0 < k && 0 <= l && ReadVarint(b[..k + l]) == Got(l, b[k..k + l])
  {
    var chunk := b[..k + l];
    ReadersAgree(chunk);
    PeekPrefix(chunk, b, 0);
    assert chunk[k..] == b[k..k + l];
  }

  lemma AgainPrefix(e: bytes, chunk: bytes, tail: bytes, canonical: bool)
    requires Again(e, chunk, [], canonical)
    ensures Again(e, chunk + tail, tail, canonical)
  {
    assert e + [] == e;
    if e + tail == chunk + tail {
      assert e == (e + tail)[..|chunk|] == chunk;
    }
  }

  lemma {:induction false} RecordsAgain(n: int, b: bytes)
    requires ReadRecords(n, b).Success?
    ensures Again(RecordsBytes(ReadRecords(n, b).value), b, [], CanonicalRecords(n, b))
    decreases if n < 0 then 0 else n
  {
    hide ReadRecord, VarintDecode, CanonicalRecord, Body, Again, PutVarint;
    if n <= 0 {
      NothingAgain(b);
    } else {
      var (l, k) := VarintDecode(b);
      var chunk, tail := b[..k + l], b[k + l..];
      var r, more := ReadRecord(chunk).value, ReadRecords(n - 1, tail).value;
      RecordReadsLength(chunk);
      PeekedLength(b, l, k);
      RecordAgain(chunk);
      var e := RecordBytes(ToInt32(|Body(r)|), r);
      AgainPrefix(e, chunk, tail, CanonicalRecord(chunk));
      RecordsAgain(n - 1, tail);
      assert chunk + tail == b && ([r] + more)[1..] == more;
      AgainThen(e, RecordsBytes(more), b, tail, [], CanonicalRecord(chunk), CanonicalRecords(n - 1, tail));
    }
  }

  lemma NothingAgain(b: bytes)
    ensures Again([], b, [], b == [])
  {
    var none: bytes := [];
    assert none + none == none && b[|b|..] == none;
  }

  lemma RecordReadsLength(chunk: bytes)
    requires ReadRecord(chunk).Success?
    ensures ReadVarint(chunk).Got?
  {
  }

  lemma {:induction false} CanonicalRecordsRead(n: int, b: bytes)
    requires CanonicalRecords(n, b)
    ensures ReadRecords(n, b).Success?
    decreases if n < 0 then 0 else n
  {
    hide ReadVarint, ReadBody, VarintDecode, MinimalVarint, CanonicalBody;
    if n > 0 {
      var (l, k) := VarintDecode(b);
      PeekedLength(b, l, k);
      CanonicalRecordsRead(n - 1, b[k + l..]);
    }
  }

  // ----- Batches -----

  lemma BatchAgain(crc: Checksum, b: RecordBatch)
    requires Consistent(b) && ReadRecords(b.numRecords, b.records).Success?
    ensures var u := UpdateBatch(crc, b, ReadRecords(b.numRecords, b.records).value);
            && Consistent(u) && |u.records| <= |b.records|
            && (u == b <==> CanonicalBatch(crc, b))
  {
    hide ReadRecords, RecordsBytes, CanonicalRecords, Checked;
    var rs := ReadRecords(b.numRecords, b.records).value;
    RecordsAgain(b.numRecords, b.records);
    assert RecordsBytes(rs) + [] == RecordsBytes(rs);
    RecordsCount(b.numRecords, b.records);
    var u := b.(records := RecordsBytes(rs), numRecords := |rs|, length := 49 + |RecordsBytes(rs)|);
    if u.records == b.records && u.numRecords == b.numRecords {
      assert u == b;
    }
  }

  lemma RecordsCount(n: int, b: bytes)
    requires ReadRecords(n, b).Success?
    ensures |ReadRecords(n, b).value| == if n < 0 then 0 else n
  {
  }

  /** A batch that was read is what its bytes are. */
  lemma BatchWritten(chunk: bytes)
    requires ReadBatch(chunk).Success? && |chunk| == BEFORE_LENGTH_END + Int32At(chunk, 8)
    ensures Consistent(ReadBatch(chunk).value) && BatchBytes(ReadBatch(chunk).value) == chunk
  {
    hide IntBytes, IntOf, BatchBytes, Checked;
    var b := ReadBatch(chunk).value;
    BatchSlots(b);
    CheckedSlots(b);
    SlotsAgree(b);
    IntsReread(chunk);
    InSlots(BatchBytes(b));
    InSlots(chunk);
  }

  lemma InSlots(s: bytes)
    requires |s| >= HEADER_SIZE
    ensures s == s[0..8] + s[8..12] + s[12..16] + s[16..17] + s[17..21] + s[21..23] + s[23..27] + s[27..35] + s[35..43]
                 + s[43..51] + s[51..53] + s[53..57] + s[57..61] + s[61..]
  {
  }

  lemma IntsReread(s: bytes)
    requires |s| >= HEADER_SIZE
    ensures IntBytes(8, IntOf(s[0..8])) == s[0..8] && IntBytes(4, IntOf(s[8..12])) == s[8..12]
    ensures IntBytes(4, IntOf(s[12..16])) == s[12..16] && IntBytes(1, IntOf(s[16..17])) == s[16..17]
    ensures IntBytes(4, IntOf(s[17..21])) == s[17..21] && IntBytes(2, IntOf(s[21..23])) == s[21..23]
    ensures IntBytes(4, IntOf(s[23..27])) == s[23..27] && IntBytes(8, IntOf(s[27..35])) == s[27..35]
    ensures IntBytes(8, IntOf(s[35..43])) == s[35..43] && IntBytes(8, IntOf(s[43..51])) == s[43..51]
    ensures IntBytes(2, IntOf(s[51..53])) == s[51..53] && IntBytes(4, IntOf(s[53..57])) == s[53..57]
    ensures IntBytes(4, IntOf(s[57..61])) == s[57..61]
  {
    hide IntBytes, IntOf;
    IntBytesOf(s[0..8]);
    IntBytesOf(s[8..12]);
    IntBytesOf(s[12..16]);
    IntBytesOf(s[16..17]);
    IntBytesOf(s[17..21]);
    IntBytesOf(s[21..23]);
    IntBytesOf(s[23..27]);
    IntBytesOf(s[27..35]);
    IntBytesOf(s[35..43]);
    IntBytesOf(s[43..51]);
    IntBytesOf(s[51..53]);
    IntBytesOf(s[53..57]);
    IntBytesOf(s[57..61]);
  }

  lemma BatchBytesAgain(crc: Checksum, chunk: bytes)
    requires ReadBatch(chunk).Success? && |chunk| == BEFORE_LENGTH_END + Int32At(chunk, 8)
    requires var b := ReadBatch(chunk).value; ReadRecords(b.numRecords, b.records).Success?
    ensures var b := ReadBatch(chunk).value;
            Again(BatchBytes(UpdateBatch(crc, b, ReadRecords(b.numRecords, b.records).value)), chunk, [], CanonicalBatch(crc, b))
  {
    hide ReadBatch, ReadRecords, UpdateBatch, CanonicalBatch, BatchBytes, Consistent, Int32At;
    var b := ReadBatch(chunk).value;
    var u := UpdateBatch(crc, b, ReadRecords(b.numRecords, b.records).value);
    BatchWritten(chunk);
    BatchAgain(crc, b);
    BatchSlots(b);
    BatchSlots(u);
    BatchRead(b);
    BatchRead(u);
    assert BatchBytes(u) + [] == BatchBytes(u);
  }

  predicate AllCanonical(crc: Checksum, bs: seq<RecordBatch>) {
    forall b <- bs :: CanonicalBatch(crc, b)
  }

  lemma AllCanonicalCons(crc: Checksum, b: RecordBatch, bs: seq<RecordBatch>)
    ensures AllCanonical(crc, [b] + bs) <==> CanonicalBatch(crc, b) && AllCanonical(crc, bs)
  {
    hide CanonicalBatch;
    var all := [b] + bs;
    assert b in all && forall x <- bs :: x in all;
  }

  lemma {:induction false} BatchesAgain(crc: Checksum, i: nat, b: bytes)
    requires ReadBatches(b).Success? && RewriteBatches(crc, Keeping(), i, ReadBatches(b).value).Success?
    ensures var bs := ReadBatches(b).value;
            Again(BatchesBytes(RewriteBatches(crc, Keeping(), i, bs).value), b, [], AllCanonical(crc, bs))
    decreases |b|
  {
    hide ReadBatch, Int32At, ReadRecords, UpdateBatch, CanonicalBatch, BatchBytes, Again, AllCanonical, RewriteValues;
    if b == [] {
      NoBatchesAgain(crc);
    } else {
      var total := BEFORE_LENGTH_END + Int32At(b, 8);
      var chunk, tail := b[..total], b[total..];
      var batch, more := ReadBatch(chunk).value, ReadBatches(tail).value;
      ChunkSize(b, total);
      var rs := ReadRecords(batch.numRecords, batch.records).value;
      KeepingValues(i, 0, rs);
      var u := UpdateBatch(crc, batch, rs);
      assert ([batch] + more)[1..] == more;
      var cs := RewriteBatches(crc, Keeping(), i + 1, more).value;
      assert ([u] + cs)[1..] == cs;
      BatchBytesAgain(crc, chunk);
      AgainPrefix(BatchBytes(u), chunk, tail, CanonicalBatch(crc, batch));
      BatchesAgain(crc, i + 1, tail);
      AllCanonicalCons(crc, batch, more);
      assert chunk + tail == b;
      AgainThen(BatchBytes(u), BatchesBytes(cs), b, tail, [], CanonicalBatch(crc, batch), AllCanonical(crc, more));
    }
  }

  lemma NoBatchesAgain(crc: Checksum)
    ensures Again(BatchesBytes([]), [], [], AllCanonical(crc, []))
  {
  }

  lemma ChunkSize(b: bytes, total: int)
    requires |b| >= BEFORE_LENGTH_END && total == BEFORE_LENGTH_END + Int32At(b, 8)
    requires 0 <= total <= |b| && ReadBatch(b[..total]).Success?
    ensures |b[..total]| == BEFORE_LENGTH_END + Int32At(b[..total], 8) && total > 0
  {
    assert b[..total][8..12] == b[8..12];
  }

  lemma {:induction false} CanonicalBatchesRewrite(crc: Checksum, i: nat, bs: seq<RecordBatch>)
    requires AllCanonical(crc, bs)
    ensures RewriteBatches(crc, Keeping(), i, bs).Success?
    decreases |bs|
  {
    hide ReadRecords, RewriteValues, UpdateBatch, CanonicalRecords;
    if bs != [] {
      assert bs[0] in bs && forall b <- bs[1..] :: b in bs;
      CanonicalRecordsRead(bs[0].numRecords, bs[0].records);
      KeepingValues(i, 0, ReadRecords(bs[0].numRecords, bs[0].records).value);
      CanonicalBatchesRewrite(crc, i + 1, bs[1..]);
    }
  }

  /** Rewriting that changes no value gives back the same bytes exactly when they were canonical, whatever they are. */
  lemma KeptExactlyIfCanonical(crc: Checksum, b: bytes)
    ensures Rewrite(crc, Keeping(), b) == Success(b) <==> Canonical(crc, b)
  {
    hide ReadBatches, RewriteBatches, BatchesBytes, CanonicalBatch;
    if b == [] {
      NothingToRead();
    } else if ReadBatches(b).Success? {
      var bs := ReadBatches(b).value;
      if RewriteBatches(crc, Keeping(), 0, bs).Success? {
        BatchesAgain(crc, 0, b);
        var e := BatchesBytes(RewriteBatches(crc, Keeping(), 0, bs).value);
        assert e + [] == e;
      } else if AllCanonical(crc, bs) {
        CanonicalBatchesRewrite(crc, 0, bs);
      }
    }
  }

  /** The canonical bytes are those that encoding some log gives. */
  lemma CanonicalIsWritten(crc: Checksum, b: bytes)
    requires |b| <= MAX_INT32
    ensures Canonical(crc, b) <==> Written(crc, b)
  {
    hide Rewrite, Canonical, Written;
    KeptExactlyIfCanonical(crc, b);
    KeptExactlyIfWritten(crc, b);
  }
}
