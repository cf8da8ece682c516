/**
 Does a request get a reply? For Produce that takes reading ahead, through the header and up to acks
 (proxy/protocol/request_produce_reader.go, mustReply in proxy/processor_default.go).
 */
module ProduceAcks {
  import opened Wire
  import opened SchemaModel
  import opened Streams

  const API_KEY_PRODUCE: int16 := 0

  /** Bytes a nullable string takes, or None where the reader fails. */
  function SkipNullableString(b: bytes): (r: Option<nat>)
    ensures r.Some? ==> 2 <= r.value <= |b|
  {
    if |b| < 2 then None
    else
      var n := IntOf(b[..2]);
      if n < -1 then None
      else if n <= 0 then Some(2)
      else if n > |b| - 2 then None
      else Some(2 + n)
  }

  /** Correlation id and client id. */
  function SkipHeaderV1(b: bytes): (r: Option<nat>)
    ensures r.Some? ==> 6 <= r.value <= |b|
  {
    if |b| < 4 then None
    else
      match SkipNullableString(b[4..])
      case None => None
      case Some(n) => Some(4 + n)
  }

  datatype Peek = Peek(acks: int, n: nat)

  function ReadAcks(b: bytes): Option<Peek> {
    if |b| < 2 then None else Some(Peek(IntOf(b[..2]), 2))
  }

  /** The acks of a Produce request whose header and body follow api key and version, and where they end. */
  function PeekAcks(apiVersion: int16, b: bytes): (r: Option<Peek>)
    ensures r.Some? ==> r.value.n <= |b|
  {
    match SkipHeaderV1(b)
    case None => None
    case Some(n) =>
      if 0 <= apiVersion <= 2 then
        match ReadAcks(b[n..])
        case None => None
        case Some(p) => Some(Peek(p.acks, n + p.n))
      else
        match SkipNullableString(b[n..])
        case None => None
        case Some(m) =>
          match ReadAcks(b[n + m..])
          case None => None
          case Some(p) => Some(Peek(p.acks, n + m + p.n))
  }

  datatype Reply = Reply(expected: bool, read: nat)

  /** Whether a reply is expected, and how many bytes had to be read to tell; None where reading fails. */
  function MustReply(apiKey: int16, apiVersion: int16, acks0Disabled: bool, b: bytes): (r: Option<Reply>)
    ensures r.Some? ==> r.value.read <= |b|
  {
    if apiKey != API_KEY_PRODUCE || acks0Disabled then Some(Reply(true, 0))
    else
      match PeekAcks(apiVersion, b)
      case None => None
      case Some(p) => Some(Reply(p.acks != 0, p.n))
  }

  /** Every request but Produce is answered, and with acks=0 ruled out Produce too. */
  lemma AlwaysReplies(apiKey: int16, apiVersion: int16, acks0Disabled: bool, b: bytes)
    requires apiKey != 0 || acks0Disabled
    ensures MustReply(apiKey, apiVersion, acks0Disabled, b) == Some(Reply(true, 0))
  {
  }

  // ----- The layout the reader is for -----

  /** A Produce request up to acks: header version 1, and from version 3 on a transactional id (versions 0 to 8). */
  function ProduceHead(apiVersion: int16, correlationId: int32, clientId: Option<bytes>, txnId: Option<bytes>,
                       acks: int16): bytes
    requires NullableStringBytes(clientId).Success? && NullableStringBytes(txnId).Success?
  {
    IntBytes(4, correlationId) + NullableStringBytes(clientId).value
    + (if apiVersion >= 3 then NullableStringBytes(txnId).value else []) + IntBytes(2, acks)
  }

  lemma SkipsNullableString(p: Option<bytes>, rest: bytes)
    requires NullableStringBytes(p).Success?
    ensures SkipNullableString(NullableStringBytes(p).value + rest) == Some(|NullableStringBytes(p).value|)
  {
    Widths();
    var n := if p.None? then -1 else |p.value|;
    IntRoundTrip(2, n);
    assert (NullableStringBytes(p).value + rest)[..2] == IntBytes(2, n);
  }

  lemma SkipsHeaderV1(correlationId: int32, clientId: Option<bytes>, rest: bytes)
    requires NullableStringBytes(clientId).Success?
    ensures var h := IntBytes(4, correlationId) + NullableStringBytes(clientId).value;
            SkipHeaderV1(h + rest) == Some(|h|)
  {
    var a, c := IntBytes(4, correlationId), NullableStringBytes(clientId).value;
    SkipsNullableString(clientId, rest);
    assert (a + c + rest)[4..] == c + rest;
  }

  lemma ReadsAcks(acks: int16, rest: bytes)
    ensures ReadAcks(IntBytes(2, acks) + rest) == Some(Peek(acks, 2))
  {
    Widths();
    IntRoundTrip(2, acks);
    assert (IntBytes(2, acks) + rest)[..2] == IntBytes(2, acks);
  }

  /**
   For every Produce request of versions 0 to 8, whatever its client id, transactional id and remaining body:
   "no reply" is decided exactly when acks is 0, after reading exactly up to and including acks.
   */
  lemma ProduceReplyIffAcks(apiVersion: int16, correlationId: int32, clientId: Option<bytes>, txnId: Option<bytes>,
                            acks: int16, rest: bytes)
    requires 0 <= apiVersion <= 8
    requires NullableStringBytes(clientId).Success? && NullableStringBytes(txnId).Success?
    ensures var head := ProduceHead(apiVersion, correlationId, clientId, txnId, acks);
            MustReply(API_KEY_PRODUCE, apiVersion, false, head + rest) == Some(Reply(acks != 0, |head|))
  {
    hide SkipNullableString, SkipHeaderV1, ReadAcks, NullableStringBytes, IntBytes;
    var h := IntBytes(4, correlationId) + NullableStringBytes(clientId).value;
    var t := if apiVersion >= 3 then NullableStringBytes(txnId).value else [];
    var a := IntBytes(2, acks);
    Split(h, t, a, rest);
    SkipsHeaderV1(correlationId, clientId, t + (a + rest));
    SkipsNullableString(txnId, a + rest);
    ReadsAcks(acks, rest);
  }

  lemma Split(h: bytes, t: bytes, a: bytes, rest: bytes)
    ensures var b := h + t + a + rest;
            b == h + (t + (a + rest)) && b[|h|..] == t + (a + rest) && b[|h| + |t|..] == a + rest
  {
  }

  // ----- The reader over a stream -----

  class RequestAcksReader {
    static method ReadAndDiscardNullableString(reader: Tee) returns (ok: bool)
      requires reader.Valid()
      modifies reader, reader.src
      ensures reader.Valid() && old(reader.src.pos) <= reader.src.pos
      ensures var n := SkipNullableString(old(reader.src.Rest()));
              (ok <==> n.Some?) && (ok ==> reader.src.pos == old(reader.src.pos) + n.value)
    {
      ghost var b := reader.src.Rest();
      var s, full := reader.ReadFull(2);
      if !full {
        return false;
      }
      assert s == b[..2];
      var length := IntOf(s);
      if length < -1 {
        return false;
      }
      if length > 0 {
        ok := reader.Discard(length);
        return;
      }
      ok := true;
    }

    static method ReadAndDiscardHeaderV1Part(reader: Tee) returns (ok: bool)
      requires reader.Valid()
      modifies reader, reader.src
      ensures reader.Valid() && old(reader.src.pos) <= reader.src.pos
      ensures var n := SkipHeaderV1(old(reader.src.Rest()));
              (ok <==> n.Some?) && (ok ==> reader.src.pos == old(reader.src.pos) + n.value)
    {
      ghost var b := reader.src.Rest();
      var _, full := reader.ReadFull(4);
      if !full {
        return false;
      }
      assert reader.src.Rest() == b[4..];
      ok := ReadAndDiscardNullableString(reader);
    }

    static method ReadAndDiscardProduceAcks(reader: Tee) returns (acks: Option<int>)
      requires reader.Valid()
      modifies reader, reader.src
      ensures reader.Valid() && old(reader.src.pos) <= reader.src.pos
      ensures var p := ReadAcks(old(reader.src.Rest()));
              && (acks.Some? <==> p.Some?)
              && (acks.Some? ==> acks.value == p.value.acks && reader.src.pos == old(reader.src.pos) + p.value.n)
    {
      ghost var b := reader.src.Rest();
      var s, full := reader.ReadFull(2);
      if !full {
        return None;
      }
      assert s == b[..2];
      acks := Some(IntOf(s));
    }
  }

  /** mustReply: the answer, and the bytes taken from the client to find it. */
  method DecideReply(apiKey: int16, apiVersion: int16, acks0Disabled: bool, src: ByteStream)
    returns (r: Option<bool>, readBytes: bytes)
    requires src.Valid()
    modifies src
    ensures src.Valid() && old(src.pos) <= src.pos && readBytes == src.data[old(src.pos)..src.pos]
    ensures var m := MustReply(apiKey, apiVersion, acks0Disabled, old(src.Rest()));
            && (r.Some? <==> m.Some?)
            && (r.Some? ==> r.value == m.value.expected && src.pos == old(src.pos) + m.value.read)
  {
    if apiKey != API_KEY_PRODUCE || acks0Disabled {
      return Some(true), [];
    }
    ghost var b := src.Rest();
    var reader := new Tee(src);
    var ok := RequestAcksReader.ReadAndDiscardHeaderV1Part(reader);
    if !ok {
      return None, reader.buffer;
    }
    ghost var n := SkipHeaderV1(b).value;
    assert src.Rest() == b[n..];
    if !(0 <= apiVersion <= 2) {
      ok := RequestAcksReader.ReadAndDiscardNullableString(reader);
      if !ok {
        return None, reader.buffer;
      }
      assert src.Rest() == b[n + SkipNullableString(b[n..]).value..];
    }
    var acks := RequestAcksReader.ReadAndDiscardProduceAcks(reader);
    if acks == None {
      return None, reader.buffer;
    }
    r, readBytes := Some(acks.value != 0), reader.buffer;
  }
}
