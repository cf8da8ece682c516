/**
 The envelope of an encrypted value, and what encryption and decryption do to a partition's records
 (plugin/vault-encryption/main.go and plugin/gcp-kms-encryption/main.go). Ciphers, key services and checksums are any
 functions; what is asked of them is written out where it is needed.
 */
module Encryption {
  import opened Wire
  import opened Records
  import opened RecordProofs
  import opened RecordTheorems
  import opened RecordCanonical

  // ----- The envelope: version, length of the wrapped key, wrapped key, payload -----

  const ENCRYPTION_VERSION: byte := 1

  /** The length of the wrapped key is cut to 16 bits. */
  function Pack(wrappedKey: bytes, payload: bytes): bytes {
    [ENCRYPTION_VERSION] + PutBE(2, |wrappedKey| % 0x1_0000) + wrappedKey + payload
  }

  datatype Unpacked = Unpacked(wrappedKey: bytes, payload: bytes)

  /** The start of the payload, 3 + the key's length, is computed in uint16. */
  function Unpack(data: bytes): Result<Unpacked, ValueError> {
    if |data| < 3 then Failure(DataTooShort)
    else if data[0] != ENCRYPTION_VERSION then Failure(UnknownVersion(data[0]))
    else
      var n := GetBE(data[1..3]);
      var start := (3 + n) % 0x1_0000;
      if |data| < 3 + n then Failure(TooShortForKey)
      else if start < 3 || |data| < start then Failure(Bounds)
      else Success(Unpacked(data[3..start], data[start..]))
  }

  const MAX_WRAPPED_KEY := 65532

  /** An envelope opens to what was put in exactly when the wrapped key is at most 65532 bytes. */
  lemma UnpackPack(wrappedKey: bytes, payload: bytes)
    ensures Unpack(Pack(wrappedKey, payload)) == Success(Unpacked(wrappedKey, payload)) <==> |wrappedKey| <= MAX_WRAPPED_KEY
  {
    var data, n := Pack(wrappedKey, payload), |wrappedKey| % 0x1_0000;
    Widths();
    GetPutBE(2, n);
    assert data[1..3] == PutBE(2, n);
    if |wrappedKey| <= MAX_WRAPPED_KEY {
      assert data[3..3 + n] == wrappedKey && data[3 + n..] == payload;
    } else if Unpack(data).Success? {
      assert |Unpack(data).value.wrappedKey| == n != |wrappedKey|;
    }
  }

  /** Nothing but the packed form opens: the envelope has one encoding. */
  lemma PackUnpack(data: bytes)
    requires Unpack(data).Success?
    ensures Pack(Unpack(data).value.wrappedKey, Unpack(data).value.payload) == data
  {
    var u := Unpack(data).value;
    Widths();
    PutGetBE(data[1..3]);
    assert |u.wrappedKey| == GetBE(data[1..3]);
    assert data == [data[0]] + data[1..3] + data[3..3 + |u.wrappedKey|] + data[3 + |u.wrappedKey|..];
  }

  // ----- Values -----

  const NONCE_SIZE := 12

  /** `emptyIsNil`: opening into a nil buffer gives nil when the plaintext is empty. */
  datatype Crypto = Crypto(
    wrap: (string, bytes, nat) -> Option<bytes>,      // the topic's key, the data key, and the key service's own randomness
    unwrap: (string, bytes) -> Option<bytes>,
    seal: (bytes, bytes, bytes) -> bytes,             // data key, nonce, plaintext
    unseal: (bytes, bytes, bytes) -> Option<bytes>,   // data key, nonce, ciphertext
    emptyIsNil: bool)

  /** What is drawn at random for one value. */
  datatype Draw = Draw(dataKey: bytes, nonce: bytes, salt: nat)

  function EncryptValue(c: Crypto, topic: string, payload: bytes, d: Draw): Result<bytes, ValueError> {
    match c.wrap(topic, d.dataKey, d.salt)
    case None => Failure(KeyService)
    case Some(wrapped) => Success(Pack(wrapped, d.nonce + c.seal(d.dataKey, d.nonce, payload)))
  }

  function DecryptValue(c: Crypto, topic: string, data: bytes): Result<Option<bytes>, ValueError> {
    var u := Unpack(data);
    if u.Failure? then Failure(u.error)
    else
      var dataKey := c.unwrap(topic, u.value.wrappedKey);
      if dataKey.None? then Failure(KeyService)
      else if |u.value.payload| < NONCE_SIZE then Failure(Cipher)
      else
        var plain := c.unseal(dataKey.value, u.value.payload[..NONCE_SIZE], u.value.payload[NONCE_SIZE..]);
        if plain.None? then Failure(Cipher) else Success(Opened(c, plain.value))
  }

  function Opened(c: Crypto, plain: bytes): Option<bytes> {
    if plain == [] && c.emptyIsNil then None else Some(plain)
  }

  /** The key service and the cipher undo what they did. */
  ghost predicate Sound(c: Crypto) {
    && (forall topic, dataKey, salt :: c.wrap(topic, dataKey, salt).Some? ==>
          c.unwrap(topic, c.wrap(topic, dataKey, salt).value) == Some(dataKey))
    && (forall dataKey, nonce: bytes, plain :: |nonce| == NONCE_SIZE ==>
          c.unseal(dataKey, nonce, c.seal(dataKey, nonce, plain)) == Some(plain))
  }

  /** One draw for each record of each batch. */
  type Draws = (nat, nat) -> Draw

  ghost predicate Usable(c: Crypto, topic: string, draws: Draws) {
    forall i: nat, j: nat :: |draws(i, j).nonce| == NONCE_SIZE && ShortKey(c, topic, draws(i, j))
  }

  predicate ShortKey(c: Crypto, topic: string, d: Draw) {
    var wrapped := c.wrap(topic, d.dataKey, d.salt);
    wrapped.Some? ==> |wrapped.value| <= MAX_WRAPPED_KEY
  }

  lemma DecryptEncryptedValue(c: Crypto, topic: string, payload: bytes, d: Draw)
    requires Sound(c) && |d.nonce| == NONCE_SIZE && ShortKey(c, topic, d) && EncryptValue(c, topic, payload, d).Success?
    ensures DecryptValue(c, topic, EncryptValue(c, topic, payload, d).value) == Success(Opened(c, payload))
  {
    hide Unpack, Pack;
    var sealed := d.nonce + c.seal(d.dataKey, d.nonce, payload);
    UnpackPack(c.wrap(topic, d.dataKey, d.salt).value, sealed);
    assert sealed[..NONCE_SIZE] == d.nonce && sealed[NONCE_SIZE..] == c.seal(d.dataKey, d.nonce, payload);
  }

  // ----- Records -----

  function Encrypting(c: Crypto, topic: string, draws: Draws): ValueRewrite {
    (i, j, v) =>
      var e := EncryptValue(c, topic, v, draws(i, j));
      if e.Failure? then Failure(e.error) else Success(Some(e.value))
  }

  function Decrypting(c: Crypto, topic: string): ValueRewrite {
    (i, j, v) => DecryptValue(c, topic, v)
  }

  /** What is left of a value that was sealed and opened again. */
  function Opening(c: Crypto): ValueRewrite {
    (i, j, v) => Success(Opened(c, v))
  }

  /** f and h do the same to the values of this batch. */
  predicate SameOnBatch(f: ValueRewrite, h: ValueRewrite, i: nat, b: RecordBatch) {
    var rs := ReadRecords(b.numRecords, b.records);
    rs.Success? ==> SameOn(f, h, i, 0, rs.value)
  }

  predicate SameOn(f: ValueRewrite, h: ValueRewrite, i: nat, j: nat, rs: seq<Record>) {
    forall k :: 0 <= k < |rs| && rs[k].value.Some? ==> f(i, j + k, rs[k].value.value) == h(i, j + k, rs[k].value.value)
  }

  lemma {:induction false} ValuesAgree(f: ValueRewrite, h: ValueRewrite, i: nat, j: nat, rs: seq<Record>)
    requires SameOn(f, h, i, j, rs)
    ensures RewriteValues(f, i, j, rs) == RewriteValues(h, i, j, rs)
    decreases |rs|
  {
    if rs != [] {
      assert SameOn(f, h, i, j + 1, rs[1..]) by {
        forall k | 0 <= k < |rs| - 1 && rs[1..][k].value.Some?
          ensures f(i, j + 1 + k, rs[1..][k].value.value) == h(i, j + 1 + k, rs[1..][k].value.value)
        {
          assert rs[1..][k] == rs[k + 1] && j + 1 + k == j + (k + 1);
        }
      }
      ValuesAgree(f, h, i, j + 1, rs[1..]);
      assert rs[0].value.Some? ==> f(i, j + 0, rs[0].value.value) == h(i, j + 0, rs[0].value.value);
    }
  }

  lemma BatchAgree(crc: Checksum, f: ValueRewrite, h: ValueRewrite, i: nat, b: RecordBatch)
    requires SameOnBatch(f, h, i, b)
    ensures RewriteBatch(crc, f, i, b) == RewriteBatch(crc, h, i, b)
  {
    hide ReadRecords, RewriteValues, UpdateBatch, SameOn;
    var rs := ReadRecords(b.numRecords, b.records);
    if rs.Success? {
      ValuesAgree(f, h, i, 0, rs.value);
    }
  }

  predicate SameOnBatches(f: ValueRewrite, h: ValueRewrite, i: nat, bs: seq<RecordBatch>)
    decreases |bs|
  {
    bs == [] || (SameOnBatch(f, h, i, bs[0]) && SameOnBatches(f, h, i + 1, bs[1..]))
  }

  lemma {:induction false} BatchesAgree(crc: Checksum, f: ValueRewrite, h: ValueRewrite, i: nat, bs: seq<RecordBatch>)
    requires SameOnBatches(f, h, i, bs)
    ensures RewriteBatches(crc, f, i, bs) == RewriteBatches(crc, h, i, bs)
    decreases |bs|
  {
    hide RewriteBatch, SameOnBatch;
    if bs != [] {
      BatchAgree(crc, f, h, i, bs[0]);
      BatchesAgree(crc, f, h, i + 1, bs[1..]);
    }
  }

  lemma RewritesAgree(crc: Checksum, f: ValueRewrite, h: ValueRewrite, b: bytes)
    requires ReadBatches(b).Success? && SameOnBatches(f, h, 0, ReadBatches(b).value)
    ensures Rewrite(crc, f, b) == Rewrite(crc, h, b)
  {
    hide ReadBatches, RewriteBatches, SameOnBatches;
    BatchesAgree(crc, f, h, 0, ReadBatches(b).value);
  }

  /** A rewrite that succeeds has accepted every value. */
  lemma AcceptedValues(crc: Checksum, g: ValueRewrite, i: nat, b: RecordBatch, k: nat)
    requires RewriteBatch(crc, g, i, b).Success?
    requires var rs := ReadRecords(b.numRecords, b.records).value; k < |rs| && rs[k].value.Some?
    ensures g(i, k, ReadRecords(b.numRecords, b.records).value[k].value.value).Success?
  {
    hide ReadRecords, RewriteValues, UpdateBatch;
    var rs := ReadRecords(b.numRecords, b.records).value;
    ValuesKept(g, i, 0, rs);
    assert 0 + k == k;
  }

  lemma DecryptsToOpened(crc: Checksum, c: Crypto, topic: string, draws: Draws, i: nat, b: RecordBatch)
    requires Sound(c) && Usable(c, topic, draws) && RewriteBatch(crc, Encrypting(c, topic, draws), i, b).Success?
    ensures SameOnBatch(Then(Encrypting(c, topic, draws), Decrypting(c, topic)), Opening(c), i, b)
  {
    hide ReadRecords, RewriteBatch;
    var g := Encrypting(c, topic, draws);
    var rs := ReadRecords(b.numRecords, b.records);
    if rs.Success? {
      forall k | 0 <= k < |rs.value| && rs.value[k].value.Some?
        ensures var v := rs.value[k].value.value; Then(g, Decrypting(c, topic))(i, 0 + k, v) == Opening(c)(i, 0 + k, v)
      {
        AcceptedValues(crc, g, i, b, k);
        DecryptEncryptedValue(c, topic, rs.value[k].value.value, draws(i, k));
      }
    }
  }

  lemma {:induction false} BatchesDecryptToOpened(crc: Checksum, c: Crypto, topic: string, draws: Draws, i: nat,
                                                  bs: seq<RecordBatch>)
    requires Sound(c) && Usable(c, topic, draws) && RewriteBatches(crc, Encrypting(c, topic, draws), i, bs).Success?
    ensures SameOnBatches(Then(Encrypting(c, topic, draws), Decrypting(c, topic)), Opening(c), i, bs)
    decreases |bs|
  {
    hide Sound, Usable, RewriteBatch, SameOnBatch, Then, Encrypting, Decrypting, Opening;
    if bs != [] {
      DecryptsToOpened(crc, c, topic, draws, i, bs[0]);
      BatchesDecryptToOpened(crc, c, topic, draws, i + 1, bs[1..]);
    }
  }

  /**
   Decrypting what encryption made of any records gives those records in their plain encoding, with empty values turned
   to null if the cipher library returns nil for them, and nothing else changed.
   */
  lemma DecryptEncrypted(crc: Checksum, c: Crypto, topic: string, draws: Draws, b: bytes)
    requires Sound(c) && Usable(c, topic, draws)
    requires var x := Rewrite(crc, Encrypting(c, topic, draws), b); x.Success? && |x.value| <= MAX_INT32
    ensures Rewrite(crc, Decrypting(c, topic), Rewrite(crc, Encrypting(c, topic, draws), b).value)
            == Rewrite(crc, Opening(c), b)
  {
    hide Rewrite, ReadBatches, Sound, Usable, Encrypting, Decrypting, Opening, Then;
    var g, h := Encrypting(c, topic, draws), Decrypting(c, topic);
    RewriteCompose(crc, g, h, b);
    EncryptedReads(crc, g, b);
    BatchesDecryptToOpened(crc, c, topic, draws, 0, ReadBatches(b).value);
    RewritesAgree(crc, Then(g, h), Opening(c), b);
  }

  lemma EncryptedReads(crc: Checksum, g: ValueRewrite, b: bytes)
    requires Rewrite(crc, g, b).Success?
    ensures ReadBatches(b).Success? && RewriteBatches(crc, g, 0, ReadBatches(b).value).Success?
  {
    if b == [] {
      NothingToRead();
    }
  }

  // ----- When nothing is lost -----

  predicate HasEmptyValue(b: RecordBatch) {
    var rs := ReadRecords(b.numRecords, b.records);
    rs.Success? && exists k :: 0 <= k < |rs.value| && rs.value[k].value == Some([])
  }

  predicate HasEmptyValues(b: bytes) {
    var bs := ReadBatches(b);
    bs.Success? && exists i :: 0 <= i < |bs.value| && HasEmptyValue(bs.value[i])
  }

  lemma NothingEmptySame(c: Crypto, i: nat, b: RecordBatch)
    requires !c.emptyIsNil || !HasEmptyValue(b)
    ensures SameOnBatch(Opening(c), Keeping(), i, b)
  {
    hide ReadRecords;
    var rs := ReadRecords(b.numRecords, b.records);
    if rs.Success? {
      forall k | 0 <= k < |rs.value| && rs.value[k].value.Some?
        ensures var v := rs.value[k].value.value; Opening(c)(i, 0 + k, v) == Keeping()(i, 0 + k, v)
      {
        assert c.emptyIsNil ==> rs.value[k].value != Some([]);
      }
    }
  }

  lemma {:induction false} NothingEmptySameAll(c: Crypto, i: nat, bs: seq<RecordBatch>)
    requires !c.emptyIsNil || forall k :: 0 <= k < |bs| ==> !HasEmptyValue(bs[k])
    ensures SameOnBatches(Opening(c), Keeping(), i, bs)
    decreases |bs|
  {
    hide HasEmptyValue, SameOnBatch;
    if bs != [] {
      NothingEmptySame(c, i, bs[0]);
      NothingEmptySameAll(c, i + 1, bs[1..]);
    }
  }

  /** The value of record k of batch i in the bytes b. */
  function ValueAt(b: bytes, i: nat, k: nat): Option<bytes> {
    var bs := ReadBatches(b);
    if bs.Failure? || i >= |bs.value| then None
    else
      var rs := ReadRecords(bs.value[i].numRecords, bs.value[i].records);
      if rs.Failure? || k >= |rs.value| then None else rs.value[k].value
  }

  lemma RewrittenValueAt(crc: Checksum, g: ValueRewrite, b: bytes, i: nat, k: nat)
    requires Rewrite(crc, g, b).Success? && |Rewrite(crc, g, b).value| <= MAX_INT32
    requires ValueAt(b, i, k).Some?
    ensures Success(ValueAt(Rewrite(crc, g, b).value, i, k)) == g(i, k, ValueAt(b, i, k).value)
  {
    hide Rewrite, ReadBatches, ReadRecords, Checked;
    RewriteKeeps(crc, g, b);
    var bs, cs := ReadBatches(b).value, ReadBatches(Rewrite(crc, g, b).value).value;
    assert Rewritten(crc, g, i, bs[i], cs[i]);
    assert 0 + k == k;
  }

  lemma EmptyDiffers(crc: Checksum, c: Crypto, b: bytes)
    requires c.emptyIsNil && HasEmptyValues(b)
    requires Rewrite(crc, Keeping(), b).Success? && |Rewrite(crc, Keeping(), b).value| <= MAX_INT32
    ensures Rewrite(crc, Opening(c), b) != Rewrite(crc, Keeping(), b)
  {
    hide Rewrite, ReadBatches, ReadRecords;
    var bs := ReadBatches(b).value;
    var i :| 0 <= i < |bs| && HasEmptyValue(bs[i]);
    var rs := ReadRecords(bs[i].numRecords, bs[i].records).value;
    var k :| 0 <= k < |rs| && rs[k].value == Some([]);
    RewrittenValueAt(crc, Keeping(), b, i, k);
    var after := Rewrite(crc, Opening(c), b);
    if after.Success? && |after.value| <= MAX_INT32 {
      RewrittenValueAt(crc, Opening(c), b, i, k);
      assert ValueAt(after.value, i, k) == None;
    }
  }

  /**
   Encryption loses nothing exactly when no value is empty but not null, or the cipher library opens an empty plaintext
   to an empty slice.
   */
  lemma LosslessExactlyWithoutEmptyValues(crc: Checksum, c: Crypto, topic: string, draws: Draws, b: bytes)
    requires Sound(c) && Usable(c, topic, draws)
    requires var x := Rewrite(crc, Encrypting(c, topic, draws), b); x.Success? && |x.value| <= MAX_INT32
    requires var y := Rewrite(crc, Keeping(), b); y.Success? && |y.value| <= MAX_INT32
    ensures Rewrite(crc, Decrypting(c, topic), Rewrite(crc, Encrypting(c, topic, draws), b).value)
            == Rewrite(crc, Keeping(), b)
            <==> !c.emptyIsNil || !HasEmptyValues(b)
  {
    EncryptedReads(crc, Keeping(), b);
    hide Rewrite, Sound, Usable, HasEmptyValue, SameOnBatch, ReadBatches;
    DecryptEncrypted(crc, c, topic, draws, b);
    if c.emptyIsNil && HasEmptyValues(b) {
      EmptyDiffers(crc, c, b);
    } else {
      NothingEmptySameAll(c, 0, ReadBatches(b).value);
      RewritesAgree(crc, Opening(c), Keeping(), b);
    }
  }

  /** Canonical records come back byte for byte, on the same condition. */
  lemma EncryptionRoundTrip(crc: Checksum, c: Crypto, topic: string, draws: Draws, b: bytes)
    requires Sound(c) && Usable(c, topic, draws) && Canonical(crc, b) && |b| <= MAX_INT32
    requires var x := Rewrite(crc, Encrypting(c, topic, draws), b); x.Success? && |x.value| <= MAX_INT32
    ensures Rewrite(crc, Decrypting(c, topic), Rewrite(crc, Encrypting(c, topic, draws), b).value) == Success(b)
            <==> !c.emptyIsNil || !HasEmptyValues(b)
  {
    hide Rewrite, Sound, Usable, HasEmptyValues, Canonical;
    KeptExactlyIfCanonical(crc, b);
    LosslessExactlyWithoutEmptyValues(crc, c, topic, draws, b);
  }
}
