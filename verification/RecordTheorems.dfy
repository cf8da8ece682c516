/** What rewriting keeps, and its normal forms. */
module RecordTheorems {
  import opened Wire
  import opened Records
  import opened RecordProofs

  // ----- What a rewrite keeps -----

  /** `new` is `old` with some values rewritten: nothing else, and no null value. */
  predicate OnlyValuesChanged(g: ValueRewrite, i: nat, j: nat, rs: seq<Record>, qs: seq<Record>) {
    && |qs| == |rs|
    && forall k :: 0 <= k < |rs| ==>
         && qs[k].(value := rs[k].value) == rs[k]
         && Success(qs[k].value) == if rs[k].value.None? then Success(None) else g(i, j + k, rs[k].value.value)
  }

  lemma {:induction false} ValuesKept(g: ValueRewrite, i: nat, j: nat, rs: seq<Record>)
    requires RewriteValues(g, i, j, rs).Success?
    ensures OnlyValuesChanged(g, i, j, rs, RewriteValues(g, i, j, rs).value)
    decreases |rs|
  {
    if rs != [] {
      ValuesKept(g, i, j + 1, rs[1..]);
      var qs, more := RewriteValues(g, i, j, rs).value, RewriteValues(g, i, j + 1, rs[1..]).value;
      forall k | 0 <= k < |rs|
        ensures qs[k].(value := rs[k].value) == rs[k]
        ensures Success(qs[k].value) == if rs[k].value.None? then Success(None) else g(i, j + k, rs[k].value.value)
      {
        if k > 0 {
          assert qs[k] == more[k - 1] && rs[k] == rs[1..][k - 1] && j + k == j + 1 + (k - 1);
        }
      }
    }
  }

  /** The batch c is the batch b with rewritten values: count, length and checksum are right, the rest is the same. */
  predicate Rewritten(crc: Checksum, g: ValueRewrite, i: nat, b: RecordBatch, c: RecordBatch) {
    var rs, qs := ReadRecords(b.numRecords, b.records), ReadRecords(c.numRecords, c.records);
    && rs.Success? && qs.Success? && OnlyValuesChanged(g, i, 0, rs.value, qs.value)
    && c.(length := b.length, crc := b.crc, numRecords := b.numRecords, records := b.records) == b
    && c.length == 49 + |c.records| && c.numRecords == |qs.value| && c.crc == ToInt32(crc(Checked(c)))
  }

  lemma BatchRewritten(crc: Checksum, g: ValueRewrite, i: nat, b: RecordBatch)
    requires var c := RewriteBatch(crc, g, i, b); c.Success? && 49 + |c.value.records| <= MAX_INT32
    ensures Rewritten(crc, g, i, b, RewriteBatch(crc, g, i, b).value)
  {
    hide ReadRecords, RewriteValues, RecordsBytes, Checked, OnlyValuesChanged;
    var rs := ReadRecords(b.numRecords, b.records).value;
    var qs := RewriteValues(g, i, 0, rs).value;
    ValuesKept(g, i, 0, rs);
    UpdatedRead(crc, b, qs);
    RecordsRead(qs, []);
    UpdatedFields(crc, b, qs);
  }

  lemma UpdatedFields(crc: Checksum, b: RecordBatch, qs: seq<Record>)
    requires 49 + |RecordsBytes(qs)| <= MAX_INT32 && |qs| <= |RecordsBytes(qs)|
    ensures var c := UpdateBatch(crc, b, qs);
            && c.(length := b.length, crc := b.crc, numRecords := b.numRecords, records := b.records) == b
            && c.length == 49 + |c.records| && c.numRecords == |qs| && c.crc == ToInt32(crc(Checked(c)))
  {
    hide RecordsBytes, Checked;
    var records := RecordsBytes(qs);
    var c := b.(records := records, numRecords := |qs|, length := 49 + |records|);
    ChecksumNotChecked(c, ToInt32(crc(Checked(c))));
  }

  lemma ChecksumNotChecked(c: RecordBatch, crc: int32)
    ensures Checked(c.(crc := crc)) == Checked(c)
  {
  }

  lemma BatchesRewritten(crc: Checksum, g: ValueRewrite, i: nat, bs: seq<RecordBatch>)
    requires var cs := RewriteBatches(crc, g, i, bs); cs.Success? && Fitting(cs.value)
    ensures var cs := RewriteBatches(crc, g, i, bs).value;
            forall k :: 0 <= k < |bs| ==> Rewritten(crc, g, i + k, bs[k], cs[k])
  {
    hide RewriteBatch, Rewritten, RewriteBatches;
    var cs := RewriteBatches(crc, g, i, bs).value;
    forall k | 0 <= k < |bs|
      ensures Rewritten(crc, g, i + k, bs[k], cs[k])
    {
      BatchesAt(crc, g, i, bs, k);
      assert cs[k] in cs;
      BatchRewritten(crc, g, i + k, bs[k]);
    }
  }

  lemma {:induction false} BatchesAt(crc: Checksum, g: ValueRewrite, i: nat, bs: seq<RecordBatch>, k: nat)
    requires RewriteBatches(crc, g, i, bs).Success? && k < |bs|
    ensures RewriteBatch(crc, g, i + k, bs[k]) == Success(RewriteBatches(crc, g, i, bs).value[k])
    decreases |bs|
  {
    hide RewriteBatch;
    if k > 0 {
      BatchesAt(crc, g, i + 1, bs[1..], k - 1);
      assert i + 1 + (k - 1) == i + k;
    }
  }

  /**
   What a rewrite writes can be read again: as many batches, each with the same header fields and as many records, and
   these with the same keys, headers, deltas and attributes. Null values stay null, the other values are rewritten, and
   lengths, counts and checksums are right.
   */
  lemma RewriteKeeps(crc: Checksum, g: ValueRewrite, b: bytes)
    requires Rewrite(crc, g, b).Success? && |Rewrite(crc, g, b).value| <= MAX_INT32
    ensures var bs, cs := ReadBatches(b), ReadBatches(Rewrite(crc, g, b).value);
            && bs.Success? && cs.Success? && |cs.value| == |bs.value|
            && forall i :: 0 <= i < |bs.value| ==> Rewritten(crc, g, i, bs.value[i], cs.value[i])
  {
    hide ReadBatches, RewriteBatches, BatchesBytes, Rewritten, Consistent;
    if b == [] {
      NothingToRead();
    } else {
      var bs := ReadBatches(b).value;
      var cs := RewriteBatches(crc, g, 0, bs).value;
      BatchesSize(cs);
      BatchesRewritten(crc, g, 0, bs);
      forall c | c in cs
        ensures Consistent(c)
      {
        var k :| 0 <= k < |cs| && cs[k] == c;
        RewrittenIsConsistent(crc, g, k, bs[k], c);
      }
      BatchesRead(cs);
    }
  }

  lemma NothingToRead()
    ensures ReadBatches([]) == Success([])
  {
  }

  lemma RewrittenIsConsistent(crc: Checksum, g: ValueRewrite, i: nat, b: RecordBatch, c: RecordBatch)
    requires Rewritten(crc, g, i, b, c)
    ensures Consistent(c)
  {
  }

  // ----- Normal forms -----

  /** The rewrite that leaves every value alone. */
  function Keeping(): ValueRewrite {
    (i, j, v) => Success(Some(v))
  }

  /** The encoding of a log: lengths, counts and checksums worked out from the batches and records. */
  function LogBytes(crc: Checksum, log: seq<(RecordBatch, seq<Record>)>): bytes {
    BatchesBytes(LogBatches(crc, log))
  }

  function LogBatches(crc: Checksum, log: seq<(RecordBatch, seq<Record>)>): (bs: seq<RecordBatch>)
    ensures |bs| == |log|
  {
    if log == [] then [] else [UpdateBatch(crc, log[0].0, log[0].1)] + LogBatches(crc, log[1..])
  }

  ghost predicate Written(crc: Checksum, b: bytes) {
    exists log :: b == LogBytes(crc, log)
  }

  lemma {:induction false} KeepingValues(i: nat, j: nat, rs: seq<Record>)
    ensures RewriteValues(Keeping(), i, j, rs) == Success(rs)
    decreases |rs|
  {
    if rs != [] {
      KeepingValues(i, j + 1, rs[1..]);
      assert rs == [rs[0]] + rs[1..];
    }
  }

  lemma {:induction false} KeepingLog(crc: Checksum, i: nat, log: seq<(RecordBatch, seq<Record>)>)
    requires Fitting(LogBatches(crc, log))
    ensures RewriteBatches(crc, Keeping(), i, LogBatches(crc, log)) == Success(LogBatches(crc, log))
    ensures forall b <- LogBatches(crc, log) :: Consistent(b)
    decreases |log|
  {
    if log != [] {
      hide ReadRecords, RewriteValues, UpdateBatch, Consistent;
      var bs := LogBatches(crc, log);
      var (b, rs) := log[0];
      assert bs[0] in bs && bs[1..] == LogBatches(crc, log[1..]);
      UpdateKeepsRecords(crc, b, rs);
      UpdatedRead(crc, b, rs);
      KeepingValues(i, 0, rs);
      UpdatesOverwrite(crc, b, rs, rs);
      KeepingLog(crc, i + 1, log[1..]);
    }
  }

  lemma UpdateKeepsRecords(crc: Checksum, b: RecordBatch, rs: seq<Record>)
    ensures UpdateBatch(crc, b, rs).records == RecordsBytes(rs)
  {
  }

  /** The batches and records read from b. */
  function ReadLog(bs: seq<RecordBatch>): seq<(RecordBatch, seq<Record>)> {
    if bs == [] then []
    else
      var rs := ReadRecords(bs[0].numRecords, bs[0].records);
      [(bs[0], if rs.Success? then rs.value else [])] + ReadLog(bs[1..])
  }

  lemma {:induction false} KeptIsWritten(crc: Checksum, i: nat, bs: seq<RecordBatch>)
    requires RewriteBatches(crc, Keeping(), i, bs).Success?
    ensures RewriteBatches(crc, Keeping(), i, bs).value == LogBatches(crc, ReadLog(bs))
    decreases |bs|
  {
    if bs != [] {
      hide ReadRecords, RewriteValues, UpdateBatch;
      var rs := ReadRecords(bs[0].numRecords, bs[0].records).value;
      KeepingValues(i, 0, rs);
      KeptIsWritten(crc, i + 1, bs[1..]);
      assert ReadLog(bs)[1..] == ReadLog(bs[1..]);
    }
  }

  /** The rewrite that changes no value gives back the same bytes exactly when encoding some log gives them. */
  lemma KeptExactlyIfWritten(crc: Checksum, b: bytes)
    requires |b| <= MAX_INT32
    ensures Rewrite(crc, Keeping(), b) == Success(b) <==> Written(crc, b)
  {
    hide ReadBatches, RewriteBatches, BatchesBytes, LogBatches, Consistent;
    if Written(crc, b) {
      var log :| b == LogBytes(crc, log);
      var bs := LogBatches(crc, log);
      BatchesSize(bs);
      KeepingLog(crc, 0, log);
      BatchesRead(bs);
    } else if b == [] {
      EmptyIsWritten(crc);
    } else if Rewrite(crc, Keeping(), b) == Success(b) {
      KeptIsWritten(crc, 0, ReadBatches(b).value);
      assert b == LogBytes(crc, ReadLog(ReadBatches(b).value));
    }
  }

  lemma EmptyIsWritten(crc: Checksum)
    ensures Written(crc, [])
  {
    assert LogBytes(crc, []) == [];
  }
}
