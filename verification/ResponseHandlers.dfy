/**
 The response side of a proxied connection (DefaultResponseHandler in proxy/processor_default.go,
 SaslAuthV0ResponseHandler in processor_sasl_auth_v0.go, responsesLoop in processor.go).
 */
module ResponseHandlers {
  import opened Wire
  import opened SchemaModel
  import opened SchemaProofs
  import opened Streams
  import opened TaggedHeader
  import opened LocalSasl
  import opened RequestHandlers
  import opened ResponseModel
  import opened ResponseSchemas
  import opened ResponseTheorems
  import Responses

  /** How responses are changed: the response header version of each request, the address mapping, the filters. */
  datatype Changes = Changes(headerVersion: KeyVersion -> int16, mapping: Mapper, filter: Option<Filter>)

  datatype Taken = Taken(tagged: bytes, body: bytes, payload: bytes, consumed: nat)

  /** Bytes of tagged fields behind the 8-byte response header. */
  function TaggedSize(headerVersion: int16, b: bytes): (r: Option<nat>)
    ensures r.Some? ==> r.value <= |b|
  {
    if headerVersion < 0 then None else if headerVersion == 0 then Some(0) else SkipTagged(b)
  }

  function ModifyBody(m: Modifier, body: bytes, fn: Mapper): Option<bytes> {
    match m
    case NoModifier => Some(body)
    case UnsupportedVersion => None
    case Modifier(api, schema) =>
      match Apply(api, schema, body, fn)
      case Failure(_) => None
      case Success(out) => Some(out)
  }

  /** A response as it lies on the wire behind its 8-byte header: Length counts the correlation id, tagged and body. */
  function ReadResponse(headerVersion: int16, b: bytes): (r: Option<(bytes, bytes)>)
    ensures r.Some? ==> |b| >= 8 && IntOf(b[..4]) > 4 && |r.value.0| + |r.value.1| == IntOf(b[..4]) - 4
    ensures r.Some? ==> IntOf(b[..4]) + 4 <= |b| && b[8..IntOf(b[..4]) + 4] == r.value.0 + r.value.1
  {
    if |b| < 8 || IntOf(b[..4]) <= 4 then None
    else
      var length := IntOf(b[..4]);
      match TaggedSize(headerVersion, b[8..])
      case None => None
      case Some(n) =>
        if length - 4 - n < 0 || |b| < length + 4 then None
        else
          assert b[8..length + 4] == b[8..8 + n] + b[8 + n..length + 4];
          Some((b[8..8 + n], b[8 + n..length + 4]))
  }

  /** What is written for it: the modified body behind the same correlation id and tagged fields, filtered. */
  function Finish(changes: Changes, kv: KeyVersion, correlationId: bytes, tagged: bytes, body: bytes): Option<bytes> {
    match ModifyBody(GetResponseModifier(kv.apiKey, kv.apiVersion), body, changes.mapping)
    case None => None
    case Some(newBody) =>
      var payload := correlationId + tagged + newBody;
      if changes.filter.None? then Some(payload)
      else
        match changes.filter.value(kv.apiKey, kv.apiVersion, payload)
        case Failure(_) => None
        case Success(filtered) => Some(filtered)
  }

  /** One response to the request kv, as a function of the broker bytes that are left; None where an error ends the loop. */
  function TakeResponse(changes: Changes, kv: KeyVersion, b: bytes): (r: Option<Taken>)
    ensures r.Some? ==> 8 <= r.value.consumed <= |b| && r.value.consumed == IntOf(b[..4]) + 4
    ensures r.Some? ==> b[8..r.value.consumed] == r.value.tagged + r.value.body
  {
    match ReadResponse(changes.headerVersion(kv), b)
    case None => None
    case Some((tagged, body)) =>
      match Finish(changes, kv, b[4..8], tagged, body)
      case None => None
      case Some(payload) => Some(Taken(tagged, body, payload, IntOf(b[..4]) + 4))
  }

  /** The frame written: len(payload) as uint32, then the payload. */
  function ResponseFrame(payload: bytes): bytes {
    PutBE(4, |payload| % TWO_TO_THE_32) + payload
  }

  lemma ResponseFramePrefix(payload: bytes)
    ensures GetBE(ResponseFrame(payload)[..4]) == |payload| <==> |payload| < TWO_TO_THE_32
  {
    Widths();
    GetPutBE(4, |payload| % TWO_TO_THE_32);
    assert ResponseFrame(payload)[..4] == PutBE(4, |payload| % TWO_TO_THE_32);
  }

  /** A response nobody modifies or filters reaches the client byte for byte. */
  lemma ResponseVerbatim(changes: Changes, kv: KeyVersion, b: bytes)
    requires TakeResponse(changes, kv, b).Some? && IdentityFilter(changes.filter)
    requires kv.apiKey != 3 && kv.apiKey != 10
    ensures var t := TakeResponse(changes, kv, b).value; ResponseFrame(t.payload) == b[..t.consumed]
  {
    ModifierExists(kv.apiKey, kv.apiVersion);
    hide ReadResponse, GetResponseModifier, IntOf, Apply, PutBE;
    var t := TakeResponse(changes, kv, b).value;
    var length := IntOf(b[..4]);
    assert t.payload == b[4..8] + t.tagged + t.body == b[4..8] + b[8..length + 4] == b[4..length + 4];
    IntBytesOf(b[..4]);
    Widths();
    assert |t.payload| == length < TWO_TO_THE_32;
    assert ResponseFrame(t.payload) == IntBytes(4, length) + t.payload;
    assert b[..length + 4] == b[..4] + b[4..length + 4];
  }

  /** Header version 0 has no tagged fields; from version 1 on they are just what the buffer decoder takes. */
  lemma TaggedExactly(headerVersion: int16, b: bytes)
    ensures headerVersion < 0 ==> TaggedSize(headerVersion, b).None?
    ensures headerVersion == 0 ==> TaggedSize(headerVersion, b) == Some(0)
    ensures headerVersion >= 1 && DecTagged(b).Ok? ==> TaggedSize(headerVersion, b) == Some(DecTagged(b).n)
    // the skipper differs only where a count or a size is negative
    ensures headerVersion >= 1 && DecTagged(b).Err? && TaggedSize(headerVersion, b).Some? ==>
              !CountValid(b) || !SizesValid(ToInt64(GetUvarint(b).u), b[GetUvarint(b).n..])
  {
    hide DecTagged, SkipTagged, SizesValid;
    ParsersAgree(b);
  }

  /** A response is read if and only if it is all there: its length counts correlation id, tagged fields and body. */
  lemma ResponseRead(headerVersion: int16, b: bytes)
    ensures ReadResponse(headerVersion, b).Some? <==>
              && |b| >= 8 && 4 < IntOf(b[..4]) <= |b| - 4 && TaggedSize(headerVersion, b[8..]).Some?
              && TaggedSize(headerVersion, b[8..]).value <= IntOf(b[..4]) - 4
    ensures ReadResponse(headerVersion, b).Some? ==>
              var n, end := TaggedSize(headerVersion, b[8..]).value, IntOf(b[..4]) + 4;
              ReadResponse(headerVersion, b).value == (b[8..8 + n], b[8 + n..end])
  {
    hide SkipTagged, IntOf;
  }

  /** What becomes of a body: other keys leave it alone, other versions of the two keys are refused. */
  lemma BodyExactly(kv: KeyVersion, body: bytes, fn: Mapper)
    ensures var m := GetResponseModifier(kv.apiKey, kv.apiVersion); var r := ModifyBody(m, body, fn);
            && (kv.apiKey != 3 && kv.apiKey != 10 ==> r == Some(body))
            && ((kv.apiKey == 3 || kv.apiKey == 10) && !HasModifier(kv.apiKey, kv.apiVersion) ==> r == None)
            && (HasModifier(kv.apiKey, kv.apiVersion) ==>
                  && m.Modifier?
                  && (r.Some? <==>
                        && Decode(m.schema, body).Success? && Decode(m.schema, body).value.Struct?
                        && ResponseAccepted(m.api, Decode(m.schema, body).value, fn)
                        && forall w :: RewrittenResponse(m.api, Decode(m.schema, body).value, w, fn) ==> Sendable(m.schema, w))
                  && (r.Some? ==>
                        && Decode(m.schema, r.value).Success?
                        && RewrittenResponse(m.api, Decode(m.schema, body).value, Decode(m.schema, r.value).value, fn)))
  {
    hide Apply, Decode, ResponseAccepted, RewrittenResponse, Sendable, GetResponseModifier;
    ModifierExists(kv.apiKey, kv.apiVersion);
    if HasModifier(kv.apiKey, kv.apiVersion) {
      EveryVersionApplies(kv.apiKey, kv.apiVersion, body, fn);
      var m := GetResponseModifier(kv.apiKey, kv.apiVersion);
      if Apply(m.api, m.schema, body, fn).Success? {
        EveryVersionRewrites(kv.apiKey, kv.apiVersion, body, fn);
      }
    }
  }

  /** A response as a broker sends it: length, correlation id, tagged fields from header version 1 on, body. */
  function Sent(headerVersion: int16, correlationId: int32, tags: seq<RawTaggedField>, body: bytes): bytes
    requires EncTagged(tags).Success?
  {
    var tagged := if headerVersion >= 1 then EncTagged(tags).value else [];
    IntBytes(4, 4 + |tagged| + |body|) + IntBytes(4, correlationId) + tagged + body
  }

  /**
   For every response a broker sends, whatever follows it: just its bytes are taken, the filters are asked about the
   correlation id, the tagged fields and the body with its addresses rewritten, and what they give is written.
   */
  lemma SentResponse(changes: Changes, kv: KeyVersion, correlationId: int32, tags: seq<RawTaggedField>, body: bytes, rest: bytes)
    requires EncTagged(tags).Success? && changes.headerVersion(kv) >= 0
    requires var n := |Sent(changes.headerVersion(kv), correlationId, tags, body)| - 4; 4 < n <= MAX_INT32
    ensures var sent := Sent(changes.headerVersion(kv), correlationId, tags, body);
            var t := TakeResponse(changes, kv, sent + rest);
            var m := ModifyBody(GetResponseModifier(kv.apiKey, kv.apiVersion), body, changes.mapping);
            if m.None? then t == None
            else
              var plain := sent[4..|sent| - |body|] + m.value;
              var r := if changes.filter.None? then Success(plain) else changes.filter.value(kv.apiKey, kv.apiVersion, plain);
              if r.Failure? then t == None else t.Some? && t.value.payload == r.value && t.value.consumed == |sent|
  {
    hide GetResponseModifier, ModifyBody, EncTagged, DecTagged, SkipTagged, IntOf, IntBytes, ReadResponse, TaggedSize;
    var version := changes.headerVersion(kv);
    var tagged := if version >= 1 then EncTagged(tags).value else [];
    var n := 4 + |tagged| + |body|;
    var a, c := IntBytes(4, n), IntBytes(4, correlationId);
    var sent := Sent(version, correlationId, tags, body);
    var b := sent + rest;
    Parts(a, c, tagged, body, rest);
    Widths();
    IntRoundTrip(4, n);
    if version >= 1 {
      TaggedRead(tags, body + rest);
    }
    TaggedExactly(version, b[8..]);
    ResponseRead(version, b);
    assert b[..4] == a && b[8..] == tagged + (body + rest);
    assert TaggedSize(version, b[8..]) == Some(|tagged|);
    assert ReadResponse(version, b) == Some((tagged, body));
    assert sent[4..|sent| - |body|] == c + tagged;
  }

  lemma Parts(a: bytes, c: bytes, tagged: bytes, body: bytes, rest: bytes)
    requires |a| == 4 && |c| == 4
    ensures var b := a + c + tagged + body + rest;
            && b[..4] == a && b[4..8] == c && b[8..] == tagged + (body + rest) && b[8..8 + |tagged|] == tagged
            && b[8 + |tagged|..8 + |tagged| + |body|] == body
    ensures var s := a + c + tagged + body; s[4..|s| - |body|] == c + tagged
  {
    var b := a + c + tagged + body + rest;
    assert b[8..] == tagged + (body + rest);
  }

  /**
   A response to Metadata of versions 0 to 13 or FindCoordinator of versions 0 to 6 reaches the client with its
   correlation id and tagged fields as they were, and a body that decodes to the broker's body with the addresses
   rewritten and nothing else changed.
   */
  lemma ResponseRewritten(changes: Changes, kv: KeyVersion, b: bytes)
    requires TakeResponse(changes, kv, b).Some? && IdentityFilter(changes.filter)
    requires HasModifier(kv.apiKey, kv.apiVersion)
    ensures var t := TakeResponse(changes, kv, b).value;
            var m := GetResponseModifier(kv.apiKey, kv.apiVersion);
            && m.Modifier? && m.api == (if kv.apiKey == 3 then Metadata else FindCoordinator)
            && exists out ::
                 && t.payload == b[4..8] + t.tagged + out
                 && Decode(m.schema, t.body).Success? && Decode(m.schema, out).Success?
                 && RewrittenResponse(m.api, Decode(m.schema, t.body).value, Decode(m.schema, out).value, changes.mapping)
  {
    hide ReadResponse, GetResponseModifier, IntOf, Apply, Decode, RewrittenResponse;
    ModifierExists(kv.apiKey, kv.apiVersion);
    var t := TakeResponse(changes, kv, b).value;
    var m := GetResponseModifier(kv.apiKey, kv.apiVersion);
    EveryVersionRewrites(kv.apiKey, kv.apiVersion, t.body, changes.mapping);
    var out := Apply(m.api, m.schema, t.body, changes.mapping).value;
    assert t.payload == b[4..8] + t.tagged + out;
  }

  /** DefaultResponseHandler.handleResponse, for the open request kv it receives once the header is read. */
  method HandleResponse(changes: Changes, dst: Sink, src: ByteStream, kv: KeyVersion) returns (ok: bool)
    requires src.Valid()
    modifies dst, src
    ensures src.Valid() && old(src.pos) <= src.pos
    ensures var t := TakeResponse(changes, kv, old(src.Rest()));
            && (ok <==> t.Some?)
            && (ok ==> src.pos == old(src.pos) + t.value.consumed)
            && dst.out == old(dst.out) + if ok then ResponseFrame(t.value.payload) else []
  {
    hide ReadResponse, Finish, ResponseFrame;
    var correlationId, read := ReadFramed(changes.headerVersion(kv), src);
    if read == None {
      return false;
    }
    var payload := FinishResponse(changes, kv, correlationId, read.value.0, read.value.1);
    if payload == None {
      return false;
    }
    FrameOf(payload.value);
    dst.Write(PutBE(4, |payload.value| % TWO_TO_THE_32));
    dst.Write(payload.value);
    ok := true;
  }

  lemma FrameOf(payload: bytes)
    ensures forall out: bytes :: out + PutBE(4, |payload| % TWO_TO_THE_32) + payload == out + ResponseFrame(payload)
  {
  }

  /** Reads header, tagged fields and body; the body length comes from what the tagged fields took. */
  method ReadFramed(version: int16, src: ByteStream) returns (correlationId: bytes, r: Option<(bytes, bytes)>)
    requires src.Valid()
    modifies src
    ensures src.Valid() && old(src.pos) <= src.pos && r == ReadResponse(version, old(src.Rest()))
    ensures r.Some? ==> src.pos == old(src.pos) + IntOf(old(src.Rest())[..4]) + 4 && correlationId == old(src.Rest())[4..8]
  {
    hide SkipTagged, IntOf, DecTagged, GetBE;
    ghost var b := src.Rest();
    var responseHeaderBuf, full := src.ReadFull(8);
    if !full {
      return [], None;
    }
    assert responseHeaderBuf == b[..8] && b[..8][..4] == b[..4] && b[..8][4..] == b[4..8];
    correlationId := responseHeaderBuf[4..];
    var length := IntOf(responseHeaderBuf[..4]);
    if length <= 4 {
      return correlationId, None;
    }
    if version < 0 {
      return correlationId, None;
    }
    assert src.Rest() == b[8..];
    var header := new ResponseHeaderTaggedFields(version);
    var tagged := header.MaybeRead(src);
    if tagged == None {
      return correlationId, None;
    }
    var remainingLen := length - 4 - |tagged.value|;
    if remainingLen < 0 {
      return correlationId, None;
    }
    ghost var n := |tagged.value|;
    assert TaggedSize(version, b[8..]) == Some(n);
    assert tagged.value == b[8..][..n] == b[8..8 + n];
    assert src.Rest() == b[8 + n..];
    var respBody, all := src.ReadFull(remainingLen);
    if !all {
      assert |b| < length + 4;
      return correlationId, None;
    }
    assert respBody == b[8 + n..][..remainingLen] == b[8 + n..length + 4];
    r := Some((tagged.value, respBody));
  }

  /** The rest of handleResponse up to the write: rewrite, then filter. */
  method FinishResponse(changes: Changes, kv: KeyVersion, correlationId: bytes, tagged: bytes, respBody: bytes)
    returns (r: Option<bytes>)
    ensures r == Finish(changes, kv, correlationId, tagged, respBody)
  {
    hide GetResponseModifier, Apply;
    var m := GetResponseModifier(kv.apiKey, kv.apiVersion);
    var body := respBody;
    match m {
      case UnsupportedVersion => return None;
      case NoModifier =>
      case Modifier(api, schema) =>
        var modified := Responses.ApplyModifier(api, schema, respBody, changes.mapping);
        if modified.Failure? {
          return None;
        }
        body := modified.value;
    }
    var payload := correlationId + tagged + body;
    if changes.filter != None {
      var filtered := changes.filter.value(kv.apiKey, kv.apiVersion, payload);
      if filtered.Failure? {
        return None;
      }
      payload := filtered.value;
    }
    r := Some(payload);
  }

  // ----- The loop -----

  /** The loop between two responses: what is left on its two channels, the broker bytes behind it, what it wrote. */
  datatype Delivery = Delivery(handlers: seq<Handler>, open: seq<KeyVersion>, end: nat, out: bytes)

  /** One response; None where reading, rewriting or an empty channel ends the loop. */
  function NextResponse(changes: Changes, data: bytes, d: Delivery): (r: Option<Delivery>)
    requires d.end <= |data|
    ensures r.Some? ==> d.end < r.value.end <= |data|
  {
    if d.handlers == [] then None
    else if d.handlers[0] == SaslAuthV0 then
      if |data| < d.end + 4 then None
      else Some(Delivery(d.handlers[1..], d.open, d.end + 4, d.out + data[d.end..d.end + 4]))
    else if d.open == [] then None
    else
      match TakeResponse(changes, d.open[0], data[d.end..])
      case None => None
      case Some(t) => Some(Delivery(d.handlers[1..], d.open[1..], d.end + t.consumed, d.out + ResponseFrame(t.payload)))
  }

  /** The loop after n responses, if it gets that far. */
  function ReplayResponses(changes: Changes, data: bytes, handlers: seq<Handler>, open: seq<KeyVersion>, n: nat): (r: Option<Delivery>)
    ensures r.Some? ==> r.value.end <= |data|
  {
    if n == 0 then Some(Delivery(handlers, open, 0, []))
    else
      match ReplayResponses(changes, data, handlers, open, n - 1)
      case None => None
      case Some(d) => NextResponse(changes, data, d)
  }

  /** Responses that neither a filter nor a modifier touches. */
  ghost predicate Untouched(changes: Changes, open: seq<KeyVersion>) {
    IdentityFilter(changes.filter) && forall kv <- open :: kv.apiKey != 3 && kv.apiKey != 10
  }

  lemma NextVerbatim(changes: Changes, data: bytes, d: Delivery)
    requires d.end <= |data| && NextResponse(changes, data, d).Some? && Untouched(changes, d.open)
    ensures var e := NextResponse(changes, data, d).value;
            e.out == d.out + data[d.end..e.end] && Untouched(changes, e.open)
  {
    hide TakeResponse, GetResponseModifier, IdentityFilter, ResponseFrame;
    if d.handlers[0] == Default {
      ResponseVerbatim(changes, d.open[0], data[d.end..]);
      var n := TakeResponse(changes, d.open[0], data[d.end..]).value.consumed;
      assert data[d.end..][..n] == data[d.end..d.end + n];
      assert forall kv <- d.open[1..] :: kv in d.open;
    }
  }

  /** Over whole runs: with nothing to rewrite or filter, the client is given exactly the broker's bytes. */
  lemma {:induction false} ResponsesConserved(changes: Changes, data: bytes, handlers: seq<Handler>, open: seq<KeyVersion>, n: nat)
    requires Untouched(changes, open) && ReplayResponses(changes, data, handlers, open, n).Some?
    ensures var d := ReplayResponses(changes, data, handlers, open, n).value; d.out == data[..d.end] && Untouched(changes, d.open)
  {
    hide Untouched, NextResponse;
    if n > 0 {
      ResponsesConserved(changes, data, handlers, open, n - 1);
      var d := ReplayResponses(changes, data, handlers, open, n - 1).value;
      NextVerbatim(changes, data, d);
      var e := NextResponse(changes, data, d).value;
      NextGoesOn(changes, data, d);
      assert data[..d.end] + data[d.end..e.end] == data[..e.end];
    }
  }

  lemma NextGoesOn(changes: Changes, data: bytes, d: Delivery)
    requires d.end <= |data| && NextResponse(changes, data, d).Some?
    ensures d.end < NextResponse(changes, data, d).value.end <= |data|
  {
  }

  class ResponsesLoopContext {
    const changes: Changes
    var nextResponseHandlers: seq<Handler>   // all that the request loop puts, oldest first
    var openRequests: seq<KeyVersion>

    constructor (changes: Changes, handlers: seq<Handler>, open: seq<KeyVersion>)
      ensures this.changes == changes && nextResponseHandlers == handlers && openRequests == open
    {
      this.changes := changes;
      nextResponseHandlers := handlers;
      openRequests := open;
    }

    /** None when none comes before the timeout. */
    method GetNextResponseHandler() returns (h: Option<Handler>)
      modifies this`nextResponseHandlers
      ensures if old(nextResponseHandlers) == [] then h == None && nextResponseHandlers == []
              else h == Some(old(nextResponseHandlers)[0]) && nextResponseHandlers == old(nextResponseHandlers)[1..]
    {
      if nextResponseHandlers == [] {
        return None;
      }
      h := Some(nextResponseHandlers[0]);
      nextResponseHandlers := nextResponseHandlers[1..];
    }

    /** receiveRequestKeyVersion. */
    method ReceiveRequestKeyVersion() returns (kv: Option<KeyVersion>)
      modifies this`openRequests
      ensures if old(openRequests) == [] then kv == None && openRequests == []
              else kv == Some(old(openRequests)[0]) && openRequests == old(openRequests)[1..]
    {
      if openRequests == [] {
        return None;
      }
      kv := Some(openRequests[0]);
      openRequests := openRequests[1..];
    }
  }

  /** SaslAuthV0ResponseHandler.handleResponse: the four bytes of the answer, as they are. */
  method HandleSaslAuthV0Response(dst: Sink, src: ByteStream) returns (ok: bool)
    requires src.Valid()
    modifies dst, src
    ensures src.Valid() && old(src.pos) <= src.pos
    ensures ok <==> |old(src.Rest())| >= 4
    ensures ok ==> src.pos == old(src.pos) + 4
    ensures dst.out == old(dst.out) + if ok then src.data[old(src.pos)..src.pos] else []
  {
    var header, full := src.ReadFull(4);
    if !full {
      return false;
    }
    dst.Write(header);
    ok := true;
  }

  /** One turn of responsesLoop. */
  method HandleNextResponse(ctx: ResponsesLoopContext, dst: Sink, src: ByteStream) returns (ok: bool)
    requires src.Valid()
    modifies ctx, dst, src
    ensures src.Valid() && old(src.pos) <= src.pos
    ensures var d := Delivery(old(ctx.nextResponseHandlers), old(ctx.openRequests), old(src.pos), old(dst.out));
            match NextResponse(ctx.changes, src.data, d)
            case None => !ok && dst.out == old(dst.out)
            case Some(e) => ok && e == Delivery(ctx.nextResponseHandlers, ctx.openRequests, src.pos, dst.out)
  {
    hide TakeResponse, ResponseFrame;
    var h := ctx.GetNextResponseHandler();
    if h == None {
      return false;
    }
    if h == Some(SaslAuthV0) {
      ok := HandleSaslAuthV0Response(dst, src);
    } else {
      var kv := ctx.ReceiveRequestKeyVersion();
      if kv == None {
        return false;
      }
      ok := HandleResponse(ctx.changes, dst, src, kv.value);
    }
  }

  /** responsesLoop until the first error: exactly the responses that the replay allows, and exactly their bytes. */
  method ResponsesLoop(ctx: ResponsesLoopContext, dst: Sink, src: ByteStream) returns (ghost n: nat)
    requires src.Valid() && src.pos == 0 && dst.out == []
    modifies ctx, dst, src
    ensures var d := ReplayResponses(ctx.changes, src.data, old(ctx.nextResponseHandlers), old(ctx.openRequests), n);
            d.Some? && NextResponse(ctx.changes, src.data, d.value).None?
            && d.value.end <= src.pos <= |src.data| && dst.out == d.value.out
  {
    hide NextResponse;
    ghost var handlers, open := ctx.nextResponseHandlers, ctx.openRequests;
    n := 0;
    while true
      invariant src.Valid()
      invariant ReplayResponses(ctx.changes, src.data, handlers, open, n)
                == Some(Delivery(ctx.nextResponseHandlers, ctx.openRequests, src.pos, dst.out))
      decreases |src.data| - src.pos
    {
      ghost var d := Delivery(ctx.nextResponseHandlers, ctx.openRequests, src.pos, dst.out);
      var ok := HandleNextResponse(ctx, dst, src);
      if !ok {
        return;
      }
      NextGoesOn(ctx.changes, src.data, d);
      n := n + 1;
    }
  }
}
