/**
 Encrypted values and records byte by byte (plugin/vault-encryption/main.go; kmsg's record.go): what is sealed with what,
 exactly when values open and records can be rewritten, and where the fields of a record stand.
 */
module EncryptedRecords {
  import opened Wire
  import opened SchemaLimits
  import opened Varints
  import opened Records
  import opened RecordProofs
  import opened Encryption

  // ----- Values -----

  /** Version 1, the wrapped key behind its length of two bytes, the nonce, and the value sealed under the data key. */
  predicate SealedAs(c: Crypto, topic: string, d: Draw, value: bytes, data: bytes) {
    && c.wrap(topic, d.dataKey, d.salt).Some?
    && var wrapped := c.wrap(topic, d.dataKey, d.salt).value;
       && |data| >= 3 && data[0] == 1 && Two(data[1..]) == |wrapped| % 0x1_0000
       && data[3..] == wrapped + d.nonce + c.seal(d.dataKey, d.nonce, value)
  }

  /** Encryption fails only where the key service does. */
  lemma EncryptsExactly(c: Crypto, topic: string, value: bytes, d: Draw)
    ensures EncryptValue(c, topic, value, d).Success? <==> c.wrap(topic, d.dataKey, d.salt).Some?
    ensures EncryptValue(c, topic, value, d).Success? ==> SealedAs(c, topic, d, value, EncryptValue(c, topic, value, d).value)
  {
    if c.wrap(topic, d.dataKey, d.salt).Some? {
      var wrapped := c.wrap(topic, d.dataKey, d.salt).value;
      Envelope(wrapped, d.nonce + c.seal(d.dataKey, d.nonce, value));
      assert wrapped + d.nonce + c.seal(d.dataKey, d.nonce, value) == wrapped + (d.nonce + c.seal(d.dataKey, d.nonce, value));
    }
  }

  lemma Envelope(wrapped: bytes, payload: bytes)
    ensures var data := Pack(wrapped, payload);
            && |data| >= 3 && data[0] == 1 && Two(data[1..]) == |wrapped| % 0x1_0000 && data[3..] == wrapped + payload
  {
    var n := |wrapped| % 0x1_0000;
    var size := PutBE(2, n);
    Widths();
    GetPutBE(2, n);
    BigEndian(size);
    hide PutBE, GetBE;
    var data := Pack(wrapped, payload);
    assert data[1..][0] == size[0] && data[1..][1] == size[1];
  }

  /** The parts of an envelope, if it has all of them: where the wrapped key ends and the sealed value starts. */
  function KeyEnd(data: bytes): Option<nat> {
    if |data| < 3 || data[0] != 1 then None
    else
      var n := Two(data[1..]);
      if n > 65532 || |data| < 3 + n then None else Some(3 + n)
  }

  /**
   A value opens if and only if it is a whole envelope, its key unwraps with the topic's key, and the sealed value opens
   with that key and the twelve bytes before it.
   */
  lemma DecryptsExactly(c: Crypto, topic: string, data: bytes)
    ensures var r := DecryptValue(c, topic, data);
            match KeyEnd(data)
            case None => r.Failure?
            case Some(i) =>
              var dataKey := c.unwrap(topic, data[3..i]);
              if dataKey.None? || |data| < i + 12 then r.Failure?
              else
                var plain := c.unseal(dataKey.value, data[i..i + 12], data[i + 12..]);
                if plain.None? then r.Failure?
                else r == Success(if plain.value == [] && c.emptyIsNil then None else Some(plain.value))
  {
    if |data| >= 3 {
      BigEndian(data[1..3]);
      assert Two(data[1..]) == Two(data[1..3]);
      match KeyEnd(data)
      case None =>
      case Some(i) =>
        if |data| >= i + 12 {
          assert data[i..][..12] == data[i..i + 12] && data[i..][12..] == data[i + 12..];
        }
    }
  }

  /** Over whole partitions: each value of each record is sealed with its own draw and the topic's key, null stays null. */
  lemma SealedValues(crc: Checksum, c: Crypto, topic: string, draws: Draws, b: bytes, i: nat, k: nat)
    requires Rewrite(crc, Encrypting(c, topic, draws), b).Success?
    requires |Rewrite(crc, Encrypting(c, topic, draws), b).value| <= MAX_INT32
    requires ValueAt(b, i, k).Some?
    ensures var out := ValueAt(Rewrite(crc, Encrypting(c, topic, draws), b).value, i, k);
            out.Some? && SealedAs(c, topic, draws(i, k), ValueAt(b, i, k).value, out.value)
  {
    hide Rewrite, ValueAt, SealedAs, EncryptValue;
    RewrittenValueAt(crc, Encrypting(c, topic, draws), b, i, k);
    EncryptsExactly(c, topic, ValueAt(b, i, k).value, draws(i, k));
  }

  // ----- When records can be rewritten -----

  ghost predicate BatchAccepted(g: ValueRewrite, i: nat, b: RecordBatch) {
    var rs := ReadRecords(b.numRecords, b.records);
    && rs.Success?
    && forall k :: 0 <= k < |rs.value| && rs.value[k].value.Some? ==> g(i, k, rs.value[k].value.value).Success?
  }

  lemma {:induction false} ValuesAccepted(g: ValueRewrite, i: nat, j: nat, rs: seq<Record>)
    ensures RewriteValues(g, i, j, rs).Success? <==>
              forall k :: 0 <= k < |rs| && rs[k].value.Some? ==> g(i, j + k, rs[k].value.value).Success?
    decreases |rs|
  {
    if rs != [] {
      ValuesAccepted(g, i, j + 1, rs[1..]);
      var more := rs[1..];
      assert forall k :: 0 <= k < |more| ==> more[k] == rs[k + 1] && j + 1 + k == j + (k + 1);
      if forall k :: 0 <= k < |rs| && rs[k].value.Some? ==> g(i, j + k, rs[k].value.value).Success? {
        assert rs[0].value.Some? ==> g(i, j + 0, rs[0].value.value).Success?;
        forall k | 0 <= k < |more| && more[k].value.Some?
          ensures g(i, j + 1 + k, more[k].value.value).Success?
        {
          assert g(i, j + (k + 1), rs[k + 1].value.value).Success?;
        }
      } else {
        var k :| 0 <= k < |rs| && rs[k].value.Some? && g(i, j + k, rs[k].value.value).Failure?;
        if k > 0 {
          assert more[k - 1] == rs[k] && g(i, j + 1 + (k - 1), more[k - 1].value.value).Failure?;
        }
      }
    }
  }

  lemma BatchSucceeds(crc: Checksum, g: ValueRewrite, i: nat, b: RecordBatch)
    ensures RewriteBatch(crc, g, i, b).Success? <==> BatchAccepted(g, i, b)
  {
    hide ReadRecords, RewriteValues, UpdateBatch;
    var rs := ReadRecords(b.numRecords, b.records);
    if rs.Success? {
      ValuesAccepted(g, i, 0, rs.value);
    }
  }

  lemma {:induction false} BatchesSucceed(crc: Checksum, g: ValueRewrite, i: nat, bs: seq<RecordBatch>)
    ensures RewriteBatches(crc, g, i, bs).Success? <==> forall k :: 0 <= k < |bs| ==> BatchAccepted(g, i + k, bs[k])
    decreases |bs|
  {
    hide RewriteBatch, BatchAccepted;
    if bs != [] {
      BatchSucceeds(crc, g, i, bs[0]);
      BatchesSucceed(crc, g, i + 1, bs[1..]);
      var more := bs[1..];
      if forall k :: 0 <= k < |bs| ==> BatchAccepted(g, i + k, bs[k]) {
        assert BatchAccepted(g, i + 0, bs[0]);
        forall k | 0 <= k < |more|
          ensures BatchAccepted(g, i + 1 + k, more[k])
        {
          assert BatchAccepted(g, i + (k + 1), bs[k + 1]);
        }
      } else {
        var k :| 0 <= k < |bs| && !BatchAccepted(g, i + k, bs[k]);
        if k > 0 {
          assert more[k - 1] == bs[k] && !BatchAccepted(g, i + 1 + (k - 1), more[k - 1]);
        }
      }
    }
  }

  /** Records are rewritten if and only if all batches and records read, and every value is accepted. */
  lemma RewriteSucceeds(crc: Checksum, g: ValueRewrite, b: bytes)
    ensures Rewrite(crc, g, b).Success? <==>
              && ReadBatches(b).Success?
              && forall i :: 0 <= i < |ReadBatches(b).value| ==> BatchAccepted(g, i, ReadBatches(b).value[i])
  {
    hide RewriteBatches, BatchAccepted, BatchesBytes;
    if b == [] {
      assert ReadBatches(b) == Success([]);
    } else {
      hide ReadBatches;
      if ReadBatches(b).Success? {
        BatchesSucceed(crc, g, 0, ReadBatches(b).value);
        }
    }
  }

  /**
   What is read though nobody writes it: any negative length is null, a null header key is empty, a negative number of
   headers or of records is none.
   */
  lemma NegativeLengths(i: int32, rest: bytes)
    requires i < 0
    ensures ReadVarintBytes(PutVarint(i) + rest) == Got(None, rest)
    ensures ReadVarintString(PutVarint(i) + rest) == Got([], rest)
    ensures ReadHeaderArray(PutVarint(i) + rest) == Got([], rest)
    ensures ReadRecords(i, rest) == Success([])
  {
    VarintRead(i, rest);
    hide ReadVarint, PutVarint;
  }

  // ----- Where the fields of a record stand -----

  /** A signed number as a record has it: doubled if it is not negative, otherwise one less than its doubled opposite. */
  predicate IsSigned(b: bytes, i: int) {
    IsVarint(b, if i >= 0 then 2 * i else -2 * i - 1)
  }

  /** Length and bytes; null is the length -1. */
  predicate IsText(b: bytes, o: Option<bytes>) {
    match o
    case None => b == [1]
    case Some(v) => |v| <= |b| && IsSigned(b[..|b| - |v|], |v|) && b[|b| - |v|..] == v
  }

  lemma SignedLaid(i: int64)
    ensures IsSigned(PutVarint(i), i)
  {
    VarintLayout(ZigZag(i));
  }

  lemma TextLaid(o: Option<bytes>)
    requires o.Some? ==> |o.value| <= MAX_INT32
    ensures IsText(VarintBytes(o), o)
  {
    hide IsVarint;
    if o.Some? {
      var p := PutVarint(|o.value|);
      SignedLaid(|o.value|);
      var b := p + o.value;
      assert b[..|b| - |o.value|] == p && b[|b| - |o.value|..] == o.value;
      assert VarintBytes(o) == b;
    } else {
      assert PutUvarint(1) == [1];
    }
  }

  predicate Moderate(r: Record) {
    && (r.key.Some? ==> |r.key.value| <= MAX_INT32) && (r.value.Some? ==> |r.value.value| <= MAX_INT32)
    && |r.headers| <= MAX_INT32
    && forall h <- r.headers :: |h.key| <= MAX_INT32 && (h.value.Some? ==> |h.value.value| <= MAX_INT32)
  }

  function OneByte(i: int8): bytes {
    [if i < 0 then i + 0x100 else i]
  }

  /** A record: its length; attributes, timestamp, offset, key, value, and the number of headers before these. */
  lemma RecordLaid(r: Record)
    returns (length: bytes, timestamp: bytes, offset: bytes, key: bytes, value: bytes, count: bytes)
    requires Moderate(r) && |Body(r)| <= MAX_INT32
    ensures RecordBytes(ToInt32(|Body(r)|), r)
            == length + OneByte(r.attributes) + timestamp + offset + key + value + count + HeadersBytes(r.headers)
    ensures IsSigned(length, |Body(r)|) && IsSigned(timestamp, r.timestampDelta) && IsSigned(offset, r.offsetDelta)
    ensures IsText(key, r.key) && IsText(value, r.value) && IsSigned(count, |r.headers|)
  {
    hide PutVarint, VarintBytes, IsSigned, IsText, HeadersBytes, IntBytes, OneByte;
    var n := |Body(r)|;
    SignedLaid(n);
    SignedLaid(r.timestampDelta);
    SignedLaid(r.offsetDelta);
    TextLaid(r.key);
    TextLaid(r.value);
    SignedLaid(|r.headers|);
    OneByteLaid(r.attributes);
    length, timestamp, offset := PutVarint(n), PutVarint(r.timestampDelta), PutVarint(r.offsetDelta);
    key, value, count := VarintBytes(r.key), VarintBytes(r.value), PutVarint(|r.headers|);
    var a := OneByte(r.attributes);
    assert Body(r) == a + timestamp + offset + key + value + count + HeadersBytes(r.headers);
    Regroup(length, a, timestamp, offset, key, value, count, HeadersBytes(r.headers));
  }

  lemma Regroup(l: bytes, a: bytes, t: bytes, o: bytes, k: bytes, v: bytes, c: bytes, h: bytes)
    ensures l + (a + t + o + k + v + c + h) == l + a + t + o + k + v + c + h
  {
  }

  lemma OneByteLaid(i: int8)
    ensures IntBytes(1, i) == OneByte(i)
  {
    Widths();
    var u: int := if i < 0 then i + 0x100 else i;
    assert PutBE(0, 0) == [] && PutBE(1, u) == [u];
  }

  /** A header is its key, then its value; headers stand in their order. */
  lemma HeaderLaid(h: Header)
    requires |h.key| <= MAX_INT32 && (h.value.Some? ==> |h.value.value| <= MAX_INT32)
    ensures exists key: bytes, value: bytes :: HeaderBytes(h) == key + value && IsText(key, Some(h.key)) && IsText(value, h.value)
  {
    hide VarintBytes, IsText;
    TextLaid(Some(h.key));
    TextLaid(h.value);
  }

  lemma {:induction false} HeadersInOrder(hs: seq<Header>, h: Header)
    ensures HeadersBytes(hs + [h]) == HeadersBytes(hs) + HeaderBytes(h)
  {
    if hs == [] {
      assert [h][1..] == [];
    } else {
      HeadersInOrder(hs[1..], h);
      assert (hs + [h])[1..] == hs[1..] + [h];
    }
  }

  lemma {:induction false} RecordsInOrder(rs: seq<Record>, r: Record)
    ensures RecordsBytes(rs + [r]) == RecordsBytes(rs) + RecordBytes(ToInt32(|Body(r)|), r)
  {
    hide RecordBytes, Body;
    if rs == [] {
      assert [r][1..] == [];
    } else {
      RecordsInOrder(rs[1..], r);
      assert (rs + [r])[1..] == rs[1..] + [r];
    }
  }

  /** The fields of a batch at their offsets; the checksum of an updated batch covers everything from offset 21 on. */
  lemma BatchLaid(crc: Checksum, b: RecordBatch, rs: seq<Record>)
    ensures var u := UpdateBatch(crc, b, rs); var s := BatchBytes(u);
            && |s| == 61 + |RecordsBytes(rs)| && s[61..] == RecordsBytes(rs)
            && IntOf(s[0..8]) == b.firstOffset && IntOf(s[8..12]) == ToInt32(|s| - 12)
            && IntOf(s[12..16]) == b.partitionLeaderEpoch && IntOf(s[16..17]) == b.magic
            && IntOf(s[17..21]) == ToInt32(crc(s[21..])) && IntOf(s[21..23]) == b.attributes
            && IntOf(s[23..27]) == b.lastOffsetDelta && IntOf(s[27..35]) == b.firstTimestamp
            && IntOf(s[35..43]) == b.maxTimestamp && IntOf(s[43..51]) == b.producerId
            && IntOf(s[51..53]) == b.producerEpoch && IntOf(s[53..57]) == b.firstSequence
            && IntOf(s[57..61]) == ToInt32(|rs|)
  {
    var u := UpdateBatch(crc, b, rs);
    hide BatchBytes, Checked, IntBytes, IntOf, RecordsBytes;
    BatchSlots(u);
    SlotsAgree(u);
    UpdatedLength(crc, b, rs);
    IntsBack(u);
  }

  lemma UpdatedLength(crc: Checksum, b: RecordBatch, rs: seq<Record>)
    ensures var u := UpdateBatch(crc, b, rs);
            && u.length == ToInt32(49 + |RecordsBytes(rs)|) && u.records == RecordsBytes(rs)
            && u.crc == ToInt32(crc(Checked(u)))
  {
    hide RecordsBytes, IntBytes;
    assert Checked(UpdateBatch(crc, b, rs)) == Checked(UpdateBatch(crc, b, rs).(crc := b.crc));
  }

  lemma IntsBack(u: RecordBatch)
    ensures IntOf(IntBytes(8, u.firstOffset)) == u.firstOffset && IntOf(IntBytes(4, u.length)) == u.length
    ensures IntOf(IntBytes(4, u.partitionLeaderEpoch)) == u.partitionLeaderEpoch && IntOf(IntBytes(1, u.magic)) == u.magic
    ensures IntOf(IntBytes(4, u.crc)) == u.crc && IntOf(IntBytes(2, u.attributes)) == u.attributes
    ensures IntOf(IntBytes(4, u.lastOffsetDelta)) == u.lastOffsetDelta
    ensures IntOf(IntBytes(8, u.firstTimestamp)) == u.firstTimestamp && IntOf(IntBytes(8, u.maxTimestamp)) == u.maxTimestamp
    ensures IntOf(IntBytes(8, u.producerId)) == u.producerId && IntOf(IntBytes(2, u.producerEpoch)) == u.producerEpoch
    ensures IntOf(IntBytes(4, u.firstSequence)) == u.firstSequence && IntOf(IntBytes(4, u.numRecords)) == u.numRecords
  {
    hide IntOf, IntBytes;
    Widths();
    IntRoundTrip(8, u.firstOffset);
    IntRoundTrip(4, u.length);
    IntRoundTrip(4, u.partitionLeaderEpoch);
    IntRoundTrip(1, u.magic);
    IntRoundTrip(4, u.crc);
    IntRoundTrip(2, u.attributes);
    IntRoundTrip(4, u.lastOffsetDelta);
    IntRoundTrip(8, u.firstTimestamp);
    IntRoundTrip(8, u.maxTimestamp);
    IntRoundTrip(8, u.producerId);
    IntRoundTrip(2, u.producerEpoch);
    IntRoundTrip(4, u.firstSequence);
    IntRoundTrip(4, u.numRecords);
  }
}
