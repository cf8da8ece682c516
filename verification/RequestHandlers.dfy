/**
 The request side of a proxied connection (proxy/processor_default.go, processor_sasl_auth_v0.go, processor.go
 and myCopyN in common.go): what is taken from the client, what is given to the broker, and when.
 */
module RequestHandlers {
  import opened Wire
  import opened SchemaModel
  import opened Streams
  import opened LocalSasl
  import opened ProduceAcks

  const API_KEY_API_VERSIONS: int16 := 18
  const MAX_REQUEST_API_KEY: int16 := 20000

  /** A request filter chain: (api key, api version, payload) -> payload. */
  type Filter = (int16, int16, bytes) -> Result<bytes, string>

  datatype Handler = Default | SaslAuthV0

  /** The frame written for a payload: int32(len(payload)) as four bytes, then the payload. */
  function Frame(payload: bytes): bytes {
    IntBytes(4, ToInt32(|payload|)) + payload
  }

  /** The length prefix of a written frame equals the payload size exactly for payloads below 4 GiB. */
  lemma FramePrefix(payload: bytes)
    ensures GetBE(Frame(payload)[..4]) == |payload| % TWO_TO_THE_32
    ensures GetBE(Frame(payload)[..4]) == |payload| <==> |payload| < TWO_TO_THE_32
  {
    Widths();
    var n := |payload|;
    var i := ToInt32(n);
    assert Frame(payload)[..4] == IntBytes(4, i);
    GetPutBE(4, if i < 0 then i + Pow256(4) else i);
  }

  // ----- One request as a function of the bytes that are left -----

  datatype Rules = Rules(
    localSaslEnabled: bool,
    forbiddenApiKeys: set<int16>,
    producerAcks0Disabled: bool,
    filter: Option<Filter>)

  datatype Verdict =
    | Reject                                                                // an error before anything is written
    | AuthenticateLocally(version: int16)                                   // the SaslHandshake is answered here
    | Forward(kv: KeyVersion, reply: bool, payload: bytes, consumed: nat)   // after filtering

  datatype Gate = Refuse | Local(version: int16) | Pass

  /** The checks on api key and version, the local SASL gate among them. */
  function CheckKey(rules: Rules, localSaslDone: bool, kv: KeyVersion): Gate {
    if kv.apiKey < 0 || kv.apiKey > MAX_REQUEST_API_KEY || kv.apiKey in rules.forbiddenApiKeys then Refuse
    else if !rules.localSaslEnabled then Pass
    else if localSaslDone then if kv.apiKey == API_KEY_SASL_HANDSHAKE then Refuse else Pass
    else if kv.apiKey == API_KEY_SASL_HANDSHAKE then
      if kv.apiVersion == 0 || kv.apiVersion == 1 then Local(kv.apiVersion) else Refuse
    else if kv.apiKey == API_KEY_API_VERSIONS then Pass
    else Refuse
  }

  /** The rest of a request that may pass: read, possibly peeked at for acks, and filtered. */
  function TakePayload(rules: Rules, kv: KeyVersion, b: bytes): (v: Verdict)
    requires kv.length > 4 && |b| >= 8
    ensures !v.AuthenticateLocally?
    ensures v.Forward? ==> v.kv == kv && v.consumed == kv.length + 4 <= |b|
  {
    match MustReply(kv.apiKey, kv.apiVersion, rules.producerAcks0Disabled, b[8..])
    case None => Reject
    case Some(m) =>
      if kv.length - 4 < m.read || |b| < kv.length + 4 then Reject
      else
        var payload := b[4..kv.length + 4];
        if rules.filter.None? then Forward(kv, m.expected, payload, kv.length + 4)
        else
          match rules.filter.value(kv.apiKey, kv.apiVersion, payload)
          case Failure(_) => Reject
          case Success(filtered) => Forward(kv, m.expected, filtered, kv.length + 4)
  }

  function Classify(rules: Rules, localSaslDone: bool, b: bytes): (v: Verdict)
    ensures v.Forward? ==> 8 < v.consumed <= |b|
    ensures v.AuthenticateLocally? ==> |b| >= 8
  {
    if |b| < 8 || ParseKeyVersion(b[..8]).None? then Reject
    else
      var kv := ParseKeyVersion(b[..8]).value;
      match CheckKey(rules, localSaslDone, kv)
      case Refuse => Reject
      case Local(version) => AuthenticateLocally(version)
      case Pass => TakePayload(rules, kv, b)
  }

  ghost predicate IdentityFilter(filter: Option<Filter>) {
    filter.Some? ==> forall k: int16, v: int16, p: bytes :: filter.value(k, v, p) == Success(p)
  }

  /** A forwarded request takes exactly Length + 4 bytes, the ones peeked at for acks included. */
  lemma ForwardConsumes(rules: Rules, done: bool, b: bytes)
    requires Classify(rules, done, b).Forward?
    ensures var v := Classify(rules, done, b); v.consumed == v.kv.length + 4 && ParseKeyVersion(b[..8]) == Some(v.kv)
  {
  }

  /** Without filters, or with filters that change nothing, the frame written is the bytes read. */
  lemma ForwardVerbatim(rules: Rules, done: bool, b: bytes)
    requires Classify(rules, done, b).Forward? && IdentityFilter(rules.filter)
    ensures var v := Classify(rules, done, b); Frame(v.payload) == b[..v.consumed]
  {
    var v := Classify(rules, done, b);
    PayloadVerbatim(rules, v.kv, b);
    assert b[..8][..4] == b[..4];
    assert b[..v.consumed] == b[..4] + b[4..v.consumed];
  }

  lemma PayloadVerbatim(rules: Rules, kv: KeyVersion, b: bytes)
    requires kv.length > 4 && |b| >= 8 && TakePayload(rules, kv, b).Forward? && IdentityFilter(rules.filter)
    ensures TakePayload(rules, kv, b).payload == b[4..kv.length + 4]
    ensures ToInt32(|TakePayload(rules, kv, b).payload|) == kv.length
  {
    hide MustReply;
    assert |b[4..kv.length + 4]| == kv.length;
    assert ToInt32(kv.length) == kv.length;
  }

  /** The gate: before local authentication only ApiVersions passes, and SaslHandshake never does. */
  lemma ForwardGate(rules: Rules, done: bool, b: bytes)
    requires rules.localSaslEnabled && Classify(rules, done, b).Forward?
    ensures var v := Classify(rules, done, b);
            && v.kv.apiKey != API_KEY_SASL_HANDSHAKE
            && (!done ==> v.kv.apiKey == API_KEY_API_VERSIONS)
  {
  }

  // ----- One turn of the loop as a function of the bytes that are left -----

  datatype Event =
    | Forwarded(apiKey: int16)
    | RawToken
    | Authenticated(mechanism: bytes, token: bytes)

  /** A completed turn: the client bytes taken, the bytes for the broker and the client, and what goes on the channels. */
  datatype Turn = Turn(
    event: Event,
    consumed: nat,
    out: bytes,
    answer: bytes,
    done: bool,
    next: Handler,
    record: Option<KeyVersion>,
    response: Option<Handler>)
  {
    /** The two channel puts that can time out. */
    predicate Blocks() {
      record.Some? || response.Some?
    }
  }

  /** A raw token: four bytes of length, then the token, passed on as they are. */
  function TokenTurn(done: bool, b: bytes): (r: Option<Turn>)
    ensures r.Some? ==> 4 <= r.value.consumed <= |b|
  {
    if |b| < 4 || ToInt32(GetBE(b[..4])) > MAX_REQUEST_SIZE || |b| < 4 + GetBE(b[..4]) then None
    else
      var n := 4 + GetBE(b[..4]);
      Some(Turn(RawToken, n, b[..n], [], done, Default, None, Some(Default)))
  }

  predicate IsSaslHandshakeV0(kv: KeyVersion) {
    kv.apiKey == API_KEY_SASL_HANDSHAKE && kv.apiVersion == 0
  }

  /** The turn that forwards a request; what is recorded for its response has the length of the filtered payload. */
  function ForwardTurn(done: bool, kv: KeyVersion, reply: bool, payload: bytes, consumed: nat): Turn {
    var h := if IsSaslHandshakeV0(kv) then SaslAuthV0 else Default;
    Turn(Forwarded(kv.apiKey), consumed, Frame(payload), [], done, h,
         if reply then Some(kv.(length := ToInt32(|payload|))) else None,
         if reply || IsSaslHandshakeV0(kv) then Some(h) else None)
  }

  function DefaultTurn(rules: Rules, authenticators: Authenticators, done: bool, b: bytes): (r: Option<Turn>)
    ensures r.Some? ==> 8 <= r.value.consumed <= |b|
  {
    match Classify(rules, done, b)
    case Reject => None
    case Forward(kv, reply, payload, consumed) => Some(ForwardTurn(done, kv, reply, payload, consumed))
    case AuthenticateLocally(version) =>
      match TakeExchange(authenticators, version, b)
      case None => None
      case Some(x) => Some(Turn(Authenticated(x.mechanism, x.token), x.consumed, [], x.answer, true, Default, None, None))
  }

  /** What the client is answered in a turn that does not complete: that of a local exchange that was refused. */
  function FailedAnswer(rules: Rules, authenticators: Authenticators, h: Handler, done: bool, b: bytes): bytes {
    if h == Default && Classify(rules, done, b).AuthenticateLocally?
    then ExchangeAnswer(authenticators, Classify(rules, done, b).version, b) else []
  }

  function TakeTurn(rules: Rules, authenticators: Authenticators, h: Handler, done: bool, b: bytes): (r: Option<Turn>)
    ensures r.Some? ==> 4 <= r.value.consumed <= |b|
  {
    if h == SaslAuthV0 then TokenTurn(done, b) else DefaultTurn(rules, authenticators, done, b)
  }

  function Listed<T>(o: Option<T>): seq<T> {
    if o.Some? then [o.value] else []
  }

  // ----- The handlers -----

  /** What has been put on the three channels, oldest first; the request-handler channel has capacity one. */
  class RequestsLoopContext {
    const rules: Rules
    const localSasl: LocalSasl
    var localSaslDone: bool
    var openRequests: seq<KeyVersion>
    var nextRequestHandler: Option<Handler>
    var nextResponseHandlers: seq<Handler>

    constructor (rules: Rules, localSasl: LocalSasl)
      requires localSasl.enabled == rules.localSaslEnabled
      ensures this.rules == rules && this.localSasl == localSasl && !localSaslDone && openRequests == []
      ensures nextRequestHandler == Some(Default) && nextResponseHandlers == [Default]
    {
      this.rules := rules;
      this.localSasl := localSasl;
      localSaslDone := false;
      openRequests := [];
      nextRequestHandler := Some(Default);
      nextResponseHandlers := [Default];
    }

    method GetNextRequestHandler() returns (h: Option<Handler>)
      modifies this`nextRequestHandler
      ensures h == old(nextRequestHandler) && nextRequestHandler == None
    {
      h := nextRequestHandler;
      nextRequestHandler := None;
    }

    /** Fails exactly when the one place is taken. */
    method PutNextRequestHandler(h: Handler) returns (ok: bool)
      modifies this`nextRequestHandler
      ensures ok <==> old(nextRequestHandler) == None
      ensures nextRequestHandler == if ok then Some(h) else old(nextRequestHandler)
    {
      if nextRequestHandler != None {
        return false;
      }
      nextRequestHandler := Some(h);
      ok := true;
    }

    /** The response side drains concurrently; a put that stays blocked until its timeout fails (`timely` false). */
    method PutNextHandlers(request: Handler, response: Handler, timely: bool) returns (ok: bool)
      modifies this`nextRequestHandler, this`nextResponseHandlers
      ensures ok <==> old(nextRequestHandler) == None && timely
      ensures old(nextRequestHandler) == None ==> nextRequestHandler == Some(request)
      ensures nextResponseHandlers == old(nextResponseHandlers) + if ok then [response] else []
    {
      ok := PutNextRequestHandler(request);
      if !ok {
        return false;
      }
      if !timely {
        return false;
      }
      nextResponseHandlers := nextResponseHandlers + [response];
    }

    /** sendRequestKeyVersion, with its timeout. */
    method SendRequestKeyVersion(kv: KeyVersion, timely: bool) returns (ok: bool)
      modifies this`openRequests
      ensures ok == timely
      ensures openRequests == old(openRequests) + if ok then [kv] else []
    {
      if timely {
        openRequests := openRequests + [kv];
      }
      ok := timely;
    }

    /** The channels and localSaslDone as a completed turn leaves them. */
    ghost predicate Completed(t: Turn, open: seq<KeyVersion>, responses: seq<Handler>)
      reads this
    {
      && openRequests == open + Listed(t.record) && nextResponseHandlers == responses + Listed(t.response)
      && nextRequestHandler == Some(t.next) && localSaslDone == t.done
    }

    /** As a turn that failed leaves them: an open request may have been recorded. */
    ghost predicate Failed(t: Option<Turn>, done: bool, open: seq<KeyVersion>, responses: seq<Handler>)
      reads this
    {
      && localSaslDone == done && nextResponseHandlers == responses
      && (openRequests == open || (t.Some? && openRequests == open + Listed(t.value.record)))
    }

    /**
     DefaultRequestHandler.handleRequest. `timely` says whether the two blocking channel puts make their deadlines.
     */
    method HandleDefault(dst: Sink, src: ByteStream, client: Sink, timely: bool) returns (ok: bool)
      requires src.Valid() && nextRequestHandler == None && dst != client
      requires localSasl.enabled == rules.localSaslEnabled
      modifies this, dst, src, client
      ensures src.Valid() && old(src.pos) <= src.pos && old(client.out) <= client.out
      ensures ExactFrames(old(client.out)) ==> ExactFrames(client.out)
      ensures var t := DefaultTurn(rules, localSasl.authenticators, old(localSaslDone), old(src.Rest()));
              && (ok <==> t.Some? && (timely || !t.value.Blocks()))
              && (if ok then
                    && src.pos == old(src.pos) + t.value.consumed && dst.out == old(dst.out) + t.value.out
                    && client.out == old(client.out) + t.value.answer
                    && Completed(t.value, old(openRequests), old(nextResponseHandlers))
                  else
                    && (dst.out == old(dst.out) || (t.Some? && dst.out == old(dst.out) + t.value.out))
                    && client.out == old(client.out)
                       + FailedAnswer(rules, localSasl.authenticators, Default, old(localSaslDone), old(src.Rest()))
                    && Failed(t, old(localSaslDone), old(openRequests), old(nextResponseHandlers)))
      // what is recorded has the key and version that stand in the request
      ensures openRequests == old(openRequests)
              || (&& |old(src.Rest())| >= 8 && |openRequests| == |old(openRequests)| + 1
                  && openRequests[|old(openRequests)|].apiKey == IntOf(old(src.Rest())[4..6])
                  && openRequests[|old(openRequests)|].apiVersion == IntOf(old(src.Rest())[6..8]))
    {
      hide TakePayload, Frame, TakeExchange, ExactFrames, ExchangeAnswer, ParseKeyVersion, PutBE, GetBE;
      ghost var b := src.Rest();
      var keyVersionBuf, full := src.ReadFull(8);
      if !full {
        return false;
      }
      assert keyVersionBuf == b[..8];
      var parsed := ParseKeyVersion(keyVersionBuf);
      if parsed == None {
        return false;
      }
      KeyVersionRead(b);
      var kv := parsed.value;
      if kv.apiKey < 0 || kv.apiKey > MAX_REQUEST_API_KEY {
        return false;
      }
      if kv.apiKey in rules.forbiddenApiKeys {
        return false;
      }
      if localSasl.enabled {
        if localSaslDone {
          if kv.apiKey == API_KEY_SASL_HANDSHAKE {
            return false;
          }
        } else if kv.apiKey == API_KEY_SASL_HANDSHAKE {
          if kv.apiVersion != 0 && kv.apiVersion != 1 {
            return false;
          }
          assert src.data[src.pos - 8..] == b;
          var authenticated := localSasl.ReceiveAndSendSASLAuth(src, client, keyVersionBuf, kv.apiVersion);
          if !authenticated {
            return false;
          }
          ExchangeAnswered(localSasl.authenticators, kv.apiVersion, b);
          localSaslDone := true;
          ok := PutNextRequestHandler(Default);
          return;
        } else if kv.apiKey != API_KEY_API_VERSIONS {
          return false;
        }
      }
      assert src.data[src.pos - 8..] == b;
      ok := PassOn(dst, src, kv, keyVersionBuf, timely);
    }

    /** The rest of handleRequest, for a request that may pass: b is the stream from the start of the request. */
    method PassOn(dst: Sink, src: ByteStream, kv: KeyVersion, keyVersionBuf: bytes, timely: bool) returns (ok: bool)
      requires src.Valid() && nextRequestHandler == None && kv.length > 4 && src.pos >= 8
      requires keyVersionBuf == src.data[src.pos - 8..src.pos] && ParseKeyVersion(keyVersionBuf) == Some(kv)
      modifies this, dst, src
      ensures src.Valid() && old(src.pos) <= src.pos
      ensures var v := TakePayload(rules, kv, old(src.data[src.pos - 8..]));
              if v.Reject? then
                && !ok && dst.out == old(dst.out)
                && Failed(None, old(localSaslDone), old(openRequests), old(nextResponseHandlers))
              else
                && v.Forward?
                && var t := ForwardTurn(old(localSaslDone), kv, v.reply, v.payload, v.consumed);
                   && (ok <==> timely || !t.Blocks())
                   && (if ok then
                         && src.pos == old(src.pos) - 8 + v.consumed && dst.out == old(dst.out) + t.out
                         && Completed(t, old(openRequests), old(nextResponseHandlers))
                       else
                         && (dst.out == old(dst.out) || dst.out == old(dst.out) + t.out)
                         && Failed(Some(t), old(localSaslDone), old(openRequests), old(nextResponseHandlers)))
      // what is recorded has the request's own key and version
      ensures openRequests == old(openRequests)
              || exists size: int32 :: openRequests == old(openRequests) + [KeyVersion(size, kv.apiKey, kv.apiVersion)]
    {
      hide TakePayload, Frame;
      var reply, payload, read := ReadPayload(src, kv, keyVersionBuf);
      if !read {
        return false;
      }
      FrameOf(payload);
      ok := Deliver(dst, kv.(length := ToInt32(|payload|)), reply, payload, timely);
    }

    lemma KeyVersionRead(b: bytes)
      requires |b| >= 8 && ParseKeyVersion(b[..8]).Some?
      ensures ParseKeyVersion(b[..8]).value.apiKey == IntOf(b[4..6])
      ensures ParseKeyVersion(b[..8]).value.apiVersion == IntOf(b[6..8])
    {
      assert b[..8][4..6] == b[4..6] && b[..8][6..] == b[6..8];
    }

    lemma FrameOf(payload: bytes)
      ensures forall out: bytes :: out + IntBytes(4, ToInt32(|payload|)) + payload == out + Frame(payload)
    {
    }

    /** Reads what is left of the request and filters it; the length to write is that of the result. */
    method ReadPayload(src: ByteStream, kv: KeyVersion, keyVersionBuf: bytes) returns (reply: bool, payload: bytes, ok: bool)
      requires src.Valid() && kv.length > 4 && src.pos >= 8
      requires keyVersionBuf == src.data[src.pos - 8..src.pos] && ParseKeyVersion(keyVersionBuf) == Some(kv)
      modifies src
      ensures src.Valid() && old(src.pos) <= src.pos
      ensures var v := TakePayload(rules, kv, old(src.data[src.pos - 8..]));
              && (ok <==> v.Forward?)
              && (ok ==> reply == v.reply && payload == v.payload && src.pos == old(src.pos) - 8 + v.consumed)
      // the filters are asked about the request behind its length
      ensures ok ==>
                var request := old(src.data[src.pos - 8..])[4..kv.length + 4];
                if rules.filter.None? then payload == request
                else rules.filter.value(kv.apiKey, kv.apiVersion, request) == Success(payload)
    {
      hide MustReply;
      ghost var b := src.data[src.pos - 8..];
      assert src.Rest() == b[8..];
      payload := [];
      var mustReply, readBytes := DecideReply(kv.apiKey, kv.apiVersion, rules.producerAcks0Disabled, src);
      if mustReply == None {
        return false, payload, false;
      }
      reply := mustReply.value;
      var restLen := kv.length - 4 - |readBytes|;
      if restLen < 0 {
        return reply, payload, false;
      }
      ghost var q := src.pos;
      var restBuf, all := src.ReadFull(restLen);
      if !all {
        return reply, payload, false;
      }
      payload := keyVersionBuf[4..] + readBytes + restBuf;
      Glue(src.data, old(src.pos) - 4, old(src.pos), q, src.pos);
      assert keyVersionBuf[4..] == src.data[old(src.pos) - 4..old(src.pos)];
      assert payload == src.data[old(src.pos) - 4..src.pos] == b[4..kv.length + 4];
      if rules.filter != None {
        var filtered := rules.filter.value(kv.apiKey, kv.apiVersion, payload);
        if filtered.Failure? {
          return reply, payload, false;
        }
        payload := filtered.value;
      }
      ok := true;
    }

    lemma Glue(d: bytes, i: nat, j: nat, k: nat, l: nat)
      requires i <= j <= k <= l <= |d|
      ensures d[i..j] + d[j..k] + d[k..l] == d[i..l]
    {
    }

    /** The tail of handleRequest: record, write, then enqueue the next handlers, in this order. */
    method Deliver(dst: Sink, kv: KeyVersion, mustReply: bool, payload: bytes, timely: bool) returns (ok: bool)
      requires nextRequestHandler == None
      modifies this, dst
      ensures localSaslDone == old(localSaslDone)
      ensures !ok ==> nextResponseHandlers == old(nextResponseHandlers)
      ensures openRequests == old(openRequests) || openRequests == old(openRequests) + (if mustReply then [kv] else [])
      ensures ok <==> timely || (!mustReply && !IsSaslHandshakeV0(kv))
      ensures dst.out == old(dst.out) || dst.out == old(dst.out) + IntBytes(4, kv.length) + payload
      ensures ok ==>
                && dst.out == old(dst.out) + IntBytes(4, kv.length) + payload
                && openRequests == old(openRequests) + (if mustReply then [kv] else [])
                && var h := if IsSaslHandshakeV0(kv) then SaslAuthV0 else Default;
                   && nextRequestHandler == Some(h)
                   && nextResponseHandlers
                        == old(nextResponseHandlers) + (if IsSaslHandshakeV0(kv) || mustReply then [h] else [])
    {
      if mustReply {
        ok := SendRequestKeyVersion(kv, timely);
        if !ok {
          return;
        }
      }
      dst.Write(IntBytes(4, kv.length));
      dst.Write(payload);
      if IsSaslHandshakeV0(kv) {
        ok := PutNextHandlers(SaslAuthV0, SaslAuthV0, timely);
        return;
      }
      if mustReply {
        ok := PutNextHandlers(Default, Default, timely);
      } else {
        ok := PutNextRequestHandler(Default);
      }
    }

    /** SaslAuthV0RequestHandler.handleRequest: one raw token, copied as it is. */
    method HandleSaslAuthV0(dst: Sink, src: ByteStream, bufferSize: nat, timely: bool) returns (ok: bool)
      requires src.Valid() && nextRequestHandler == None && bufferSize > 0
      modifies this, dst, src
      ensures src.Valid() && old(src.pos) <= src.pos
      ensures var t := TokenTurn(old(localSaslDone), old(src.Rest()));
              && (ok <==> t.Some? && timely)
              && (t.Some? ==> src.pos == old(src.pos) + t.value.consumed && dst.out == old(dst.out) + t.value.out)
              && (t.None? ==> dst.out == old(dst.out) || dst.out == old(dst.out) + src.data[old(src.pos)..src.pos])
              && (if ok then Completed(t.value, old(openRequests), old(nextResponseHandlers))
                  else Failed(t, old(localSaslDone), old(openRequests), old(nextResponseHandlers)))
    {
      ghost var b := src.Rest();
      var sizeBuf, full := src.ReadFull(4);
      if !full {
        return false;
      }
      assert sizeBuf == b[..4];
      var length := GetBE(sizeBuf);
      if ToInt32(length) > MAX_REQUEST_SIZE {
        return false;
      }
      ghost var at := src.pos;
      dst.Write(sizeBuf);
      ok := CopyN(dst, src, length, bufferSize);
      assert sizeBuf + src.data[at..src.pos] == src.data[old(src.pos)..src.pos];
      if !ok {
        return false;
      }
      assert b[..4 + length] == src.data[old(src.pos)..src.pos];
      ok := PutNextHandlers(Default, Default, timely);
    }
  }

  /**
   myCopyN on a writer that takes everything: copies through a buffer of the given size. It reports no error
   exactly when all `size` bytes were there, and what it wrote is what it read.
   */
  method CopyN(dst: Sink, src: ByteStream, size: nat, bufferSize: nat) returns (ok: bool)
    requires src.Valid() && bufferSize > 0
    modifies dst, src
    ensures src.Valid() && old(src.pos) <= src.pos
    ensures dst.out == old(dst.out) + src.data[old(src.pos)..src.pos]
    ensures ok <==> size <= |old(src.Rest())|
    ensures if ok then src.pos == old(src.pos) + size else src.pos == |src.data|
  {
    var written := 0;
    while written < size
      invariant src.Valid() && old(src.pos) <= src.pos && written == src.pos - old(src.pos) <= size
      invariant dst.out == old(dst.out) + src.data[old(src.pos)..src.pos]
      decreases |src.data| - src.pos
    {
      ghost var before := src.pos;
      var limit := if size - written < bufferSize then size - written else bufferSize;
      var chunk := src.Read(limit);
      if chunk == [] {
        return false;
      }
      dst.Write(chunk);
      assert src.data[old(src.pos)..before] + chunk == src.data[old(src.pos)..src.pos];
      written := written + |chunk|;
    }
    ok := true;
  }

  // ----- Whole runs -----

  /** A connection: the rules, the authenticators, which turns' channel puts make their deadlines, the client's bytes. */
  datatype World = World(rules: Rules, authenticators: Authenticators, timely: nat -> bool, data: bytes)

  /** The loop between two turns: the client bytes behind it and everything written so far. */
  datatype Progress = Progress(
    handler: Handler,
    done: bool,
    end: nat,
    out: bytes,
    answers: bytes,
    open: seq<KeyVersion>,
    responses: seq<Handler>,
    events: seq<Event>)

  function Start(): Progress {
    Progress(Default, false, 0, [], [], [], [Default], [])
  }

  function NextTurn(w: World, p: Progress): (r: Option<Turn>)
    requires p.end <= |w.data|
    ensures r.Some? ==> 4 <= r.value.consumed <= |w.data| - p.end
  {
    TakeTurn(w.rules, w.authenticators, p.handler, p.done, w.data[p.end..])
  }

  function NextFailedAnswer(w: World, p: Progress): bytes
    requires p.end <= |w.data|
  {
    FailedAnswer(w.rules, w.authenticators, p.handler, p.done, w.data[p.end..])
  }

  function Advance(p: Progress, t: Turn): Progress {
    Progress(t.next, t.done, p.end + t.consumed, p.out + t.out, p.answers + t.answer,
             p.open + Listed(t.record), p.responses + Listed(t.response), p.events + [t.event])
  }

  /** The loop after n turns, if it gets that far: past every turn it can take and whose puts do not time out. */
  function Replay(w: World, n: nat): (r: Option<Progress>)
    ensures r.Some? ==> r.value.end <= |w.data| && |r.value.events| == n
  {
    if n == 0 then Some(Start())
    else
      match Replay(w, n - 1)
      case None => None
      case Some(p) =>
        var t := NextTurn(w, p);
        if t.None? || (t.value.Blocks() && !w.timely(n - 1)) then None else Some(Advance(p, t.value))
  }

  lemma ReplayStart(w: World)
    ensures Replay(w, 0) == Some(Start())
  {
  }

  lemma ReplayNext(w: World, n: nat)
    requires Replay(w, n).Some?
    ensures var p := Replay(w, n).value; var t := NextTurn(w, p);
            Replay(w, n + 1) == if t.None? || (t.value.Blocks() && !w.timely(n)) then None else Some(Advance(p, t.value))
  {
    hide NextTurn;
  }

  lemma ReplayStep(w: World, n: nat)
    requires n > 0 && Replay(w, n).Some?
    ensures Replay(w, n - 1).Some?
    ensures var p := Replay(w, n - 1).value;
            && p.end <= |w.data| && |p.events| == n - 1
            && NextTurn(w, p).Some? && Replay(w, n) == Some(Advance(p, NextTurn(w, p).value))
  {
    hide NextTurn;
  }

  /** A connection whose filters change nothing. */
  ghost predicate Unfiltered(w: World) {
    IdentityFilter(w.rules.filter)
  }

  /** The client bytes up to `end` are the broker's bytes, with the local exchange, if any, cut out of them. */
  ghost predicate Conserved(w: World, p: Progress, localStart: nat, localEnd: nat)
    requires p.end <= |w.data|
  {
    if p.done then
      && localStart <= localEnd <= p.end && p.out == w.data[..localStart] + w.data[localEnd..p.end]
      && exists version: int16 ::
           var x := TakeExchange(w.authenticators, version, w.data[localStart..]);
           x.Some? && x.value.consumed == localEnd - localStart && Authenticated(x.value.mechanism, x.value.token) in p.events
    else p.out == w.data[..p.end]
  }

  lemma Extend(d: bytes, i: nat, j: nat, k: nat)
    requires k <= i <= j <= |d|
    ensures d[..i] + d[i..j] == d[..j]
    ensures d[k..i] + d[i..j] == d[k..j]
    ensures d[j..j] == []
  {
  }

  /** A turn that forwards writes the client bytes it takes. */
  lemma TurnVerbatim(w: World, p: Progress)
    requires p.end <= |w.data| && Unfiltered(w) && NextTurn(w, p).Some? && !NextTurn(w, p).value.event.Authenticated?
    ensures NextTurn(w, p).value.out == w.data[p.end..p.end + NextTurn(w, p).value.consumed]
    ensures NextTurn(w, p).value.done == p.done
  {
    hide TakeExchange, Frame;
    var b, t := w.data[p.end..], NextTurn(w, p).value;
    if p.handler == Default {
      ForwardVerbatim(w.rules, p.done, b);
    }
    assert b[..t.consumed] == w.data[p.end..p.end + t.consumed];
  }

  /** A turn that authenticates is an accepted exchange in the client's bytes, the first one, with local SASL enabled. */
  lemma TurnAuthenticates(w: World, p: Progress) returns (version: int16)
    requires p.end <= |w.data| && NextTurn(w, p).Some? && NextTurn(w, p).value.event.Authenticated?
    ensures w.rules.localSaslEnabled && !p.done && NextTurn(w, p).value.done && NextTurn(w, p).value.out == []
    ensures var x, t := TakeExchange(w.authenticators, version, w.data[p.end..]), NextTurn(w, p).value;
            && x.Some? && t.consumed == x.value.consumed && t.event == Authenticated(x.value.mechanism, x.value.token)
            && Accepts(w.authenticators, x.value.mechanism, x.value.token)
  {
    hide TakeExchange, Frame, TakePayload;
    var b := w.data[p.end..];
    version := Classify(w.rules, p.done, b).version;
    ExchangeIsAuthenticated(w.authenticators, version, b);
    LocalOnlyWhenEnabled(w.rules, p.done, b);
  }

  lemma LocalOnlyWhenEnabled(rules: Rules, done: bool, b: bytes)
    requires Classify(rules, done, b).AuthenticateLocally?
    ensures rules.localSaslEnabled && !done
  {
  }

  /**
   Stream conservation over whole runs: as long as the filters change nothing, after any number of turns the broker has
   been given exactly the client's bytes, minus the one exchange that was authenticated locally.
   */
  lemma {:induction false} ReplayConserves(w: World, n: nat) returns (localStart: nat, localEnd: nat)
    requires Unfiltered(w) && Replay(w, n).Some?
    ensures Conserved(w, Replay(w, n).value, localStart, localEnd)
  {
    hide Replay, NextTurn, TakeExchange, Unfiltered;
    localStart, localEnd := 0, 0;
    if n == 0 {
      ReplayStart(w);
      assert w.data[..0] == [];
    } else {
      ReplayStep(w, n);
      localStart, localEnd := ReplayConserves(w, n - 1);
      var p := Replay(w, n - 1).value;
      var t := NextTurn(w, p).value;
      if t.event.Authenticated? {
        var version := TurnAuthenticates(w, p);
        ConservesExchange(w, p, t, version, localStart, localEnd);
        localStart, localEnd := p.end, p.end + t.consumed;
      } else {
        TurnVerbatim(w, p);
        ConservesForward(w, p, t, localStart, localEnd);
      }
    }
  }

  lemma ConservesForward(w: World, p: Progress, t: Turn, localStart: nat, localEnd: nat)
    requires p.end <= |w.data| && t.consumed <= |w.data| - p.end && Conserved(w, p, localStart, localEnd)
    requires t.out == w.data[p.end..p.end + t.consumed] && t.done == p.done
    ensures Conserved(w, Advance(p, t), localStart, localEnd)
  {
    hide TakeExchange;
    Extend(w.data, p.end, p.end + t.consumed, if p.done then localEnd else 0);
    assert forall e <- p.events :: e in Advance(p, t).events;
  }

  lemma ConservesExchange(w: World, p: Progress, t: Turn, version: int16, localStart: nat, localEnd: nat)
    requires p.end <= |w.data| && t.consumed <= |w.data| - p.end && Conserved(w, p, localStart, localEnd)
    requires !p.done && t.done && t.out == []
    requires var x := TakeExchange(w.authenticators, version, w.data[p.end..]);
             x.Some? && t.consumed == x.value.consumed && t.event == Authenticated(x.value.mechanism, x.value.token)
    ensures Conserved(w, Advance(p, t), p.end, p.end + t.consumed)
  {
    hide TakeExchange;
    assert t.event in Advance(p, t).events;
    assert w.data[p.end + t.consumed..p.end + t.consumed] == [];
  }

  /** Before position i of the run an authenticator accepted a token of the client. */
  predicate AuthenticatedBefore(authenticators: Authenticators, events: seq<Event>, i: nat)
    requires i <= |events|
  {
    exists j :: 0 <= j < i && events[j].Authenticated? && Accepts(authenticators, events[j].mechanism, events[j].token)
  }

  /** The gate: what local SASL lets through, and when. */
  predicate Gated(enabled: bool, authenticators: Authenticators, events: seq<Event>) {
    && (forall i :: 0 <= i < |events| && events[i].Authenticated? ==>
          enabled && Accepts(authenticators, events[i].mechanism, events[i].token))
    && (enabled ==>
          && RawToken !in events
          && forall i :: 0 <= i < |events| && events[i].Forwarded? ==>
               && events[i].apiKey != API_KEY_SASL_HANDSHAKE
               && (events[i].apiKey == API_KEY_API_VERSIONS || AuthenticatedBefore(authenticators, events, i)))
  }

  lemma GatedExtend(enabled: bool, authenticators: Authenticators, events: seq<Event>, e: Event)
    requires Gated(enabled, authenticators, events)
    requires e.Authenticated? ==> enabled && Accepts(authenticators, e.mechanism, e.token)
    requires enabled ==> e != RawToken
    requires enabled && e.Forwarded? ==>
               && e.apiKey != API_KEY_SASL_HANDSHAKE
               && (e.apiKey == API_KEY_API_VERSIONS || AuthenticatedBefore(authenticators, events, |events|))
    ensures Gated(enabled, authenticators, events + [e])
  {
    hide Accepts;
    var all := events + [e];
    forall i | 0 <= i <= |events| && AuthenticatedBefore(authenticators, events, i)
      ensures AuthenticatedBefore(authenticators, all, i)
    {
      var j :| 0 <= j < i && events[j].Authenticated? && Accepts(authenticators, events[j].mechanism, events[j].token);
      assert all[j] == events[j];
    }
    assert forall i :: 0 <= i < |events| ==> all[i] == events[i];
  }

  /** The raw handlers are never scheduled when local SASL is enabled. */
  predicate NoRawHandlers(p: Progress) {
    p.handler == Default && SaslAuthV0 !in p.responses
  }

  lemma TurnGated(w: World, p: Progress)
    requires p.end <= |w.data| && NextTurn(w, p).Some? && NextTurn(w, p).value.event.Forwarded?
    requires w.rules.localSaslEnabled
    ensures var t := NextTurn(w, p).value;
            && t.event.apiKey != API_KEY_SASL_HANDSHAKE && (p.done || t.event.apiKey == API_KEY_API_VERSIONS)
            && t.next == Default && t.response != Some(SaslAuthV0) && t.done == p.done
  {
    hide TakeExchange, Frame, TakePayload;
    ForwardGate(w.rules, p.done, w.data[p.end..]);
  }

  /**
   The local SASL gate over whole runs: when it is enabled, nothing but ApiVersions is forwarded before an authenticator
   has accepted a token that the client sent, SaslHandshake is never forwarded, and the raw handlers are never scheduled.
   */
  lemma {:induction false} ReplayGated(w: World, n: nat)
    requires Replay(w, n).Some?
    ensures var p := Replay(w, n).value;
            && Gated(w.rules.localSaslEnabled, w.authenticators, p.events)
            && (p.done <==> AuthenticatedBefore(w.authenticators, p.events, n))
            && (w.rules.localSaslEnabled ==> NoRawHandlers(p))
  {
    hide Replay, NextTurn, TakeExchange, Accepts, Gated, AuthenticatedBefore;
    if n == 0 {
      ReplayStart(w);
      NothingGated(w.rules.localSaslEnabled, w.authenticators);
    } else {
      ReplayStep(w, n);
      ReplayGated(w, n - 1);
      var p := Replay(w, n - 1).value;
      var t := NextTurn(w, p).value;
      AuthenticatedStep(w.authenticators, p.events, t.event);
      if t.event.Authenticated? {
        var version := TurnAuthenticates(w, p);
        NoHandlersPut(w, p);
      } else {
        ForwardKeepsDone(w, p);
        if w.rules.localSaslEnabled {
          OnlyDefaultTurns(w, p);
          TurnGated(w, p);
        }
      }
      GatedExtend(w.rules.localSaslEnabled, w.authenticators, p.events, t.event);
    }
  }

  lemma NothingGated(enabled: bool, authenticators: Authenticators)
    ensures Gated(enabled, authenticators, []) && !AuthenticatedBefore(authenticators, [], 0)
  {
  }

  lemma OnlyDefaultTurns(w: World, p: Progress)
    requires p.end <= |w.data| && NextTurn(w, p).Some? && p.handler == Default
    ensures NextTurn(w, p).value.event != RawToken
  {
    hide TakeExchange, Frame, TakePayload;
  }

  lemma NoHandlersPut(w: World, p: Progress)
    requires p.end <= |w.data| && NextTurn(w, p).Some? && NextTurn(w, p).value.event.Authenticated?
    ensures NextTurn(w, p).value.next == Default && NextTurn(w, p).value.response == None
  {
    hide TakeExchange, Frame, TakePayload;
  }

  lemma ForwardKeepsDone(w: World, p: Progress)
    requires p.end <= |w.data| && NextTurn(w, p).Some? && !NextTurn(w, p).value.event.Authenticated?
    ensures NextTurn(w, p).value.done == p.done
  {
    hide TakeExchange, Frame, TakePayload;
  }

  lemma AuthenticatedStep(authenticators: Authenticators, events: seq<Event>, e: Event)
    ensures AuthenticatedBefore(authenticators, events + [e], |events| + 1) <==>
              AuthenticatedBefore(authenticators, events, |events|)
              || (e.Authenticated? && Accepts(authenticators, e.mechanism, e.token))
  {
    hide Accepts;
    var all := events + [e];
    assert all[|events|] == e && forall i :: 0 <= i < |events| ==> all[i] == events[i];
  }

  // ----- The loop -----

  /** What a turn that does not complete may have written to the broker: its one frame, or what was read of a raw token. */
  ghost predicate Remainder(t: Option<Turn>, h: Handler, read: bytes, rest: bytes) {
    rest == [] || (if t.Some? then rest == t.value.out else h == SaslAuthV0 && rest == read)
  }

  /** The context holds what the run has come to. */
  ghost predicate Holds(ctx: RequestsLoopContext, p: Progress)
    reads ctx
  {
    && ctx.localSaslDone == p.done && ctx.nextRequestHandler == Some(p.handler)
    && ctx.openRequests == p.open && ctx.nextResponseHandlers == p.responses
  }

  /** One turn of requestsLoop. */
  method HandleNext(ctx: RequestsLoopContext, dst: Sink, src: ByteStream, client: Sink, bufferSize: nat, timely: bool,
                    ghost w: World, ghost p: Progress)
    returns (ok: bool)
    requires src.Valid() && dst != client && bufferSize > 0 && ctx.localSasl.enabled == ctx.rules.localSaslEnabled
    requires w.rules == ctx.rules && w.authenticators == ctx.localSasl.authenticators && w.data == src.data
    requires Holds(ctx, p) && p.end == src.pos
    modifies ctx, dst, src, client
    ensures src.Valid() && old(src.pos) <= src.pos && old(client.out) <= client.out
    ensures ExactFrames(old(client.out)) ==> ExactFrames(client.out)
    ensures var t := NextTurn(w, p);
            && (ok <==> t.Some? && (timely || !t.value.Blocks()))
            && (if ok then
                  && Holds(ctx, Advance(p, t.value)) && src.pos == old(src.pos) + t.value.consumed
                  && dst.out == old(dst.out) + t.value.out && client.out == old(client.out) + t.value.answer
                else
                  && old(dst.out) <= dst.out && client.out == old(client.out) + NextFailedAnswer(w, p)
                  && Remainder(t, p.handler, src.data[old(src.pos)..src.pos], dst.out[|old(dst.out)|..])
                  && ctx.Failed(t, p.done, p.open, p.responses))
  {
    hide DefaultTurn, TokenTurn, ExactFrames, Classify, ExchangeAnswer;
    var h := ctx.GetNextRequestHandler();
    if h == Some(SaslAuthV0) {
      TokensBlock(p.done, src.Rest());
      ok := ctx.HandleSaslAuthV0(dst, src, bufferSize, timely);
    } else {
      ok := ctx.HandleDefault(dst, src, client, timely);
    }
  }

  lemma TokensBlock(done: bool, b: bytes)
    ensures TokenTurn(done, b).Some? ==> TokenTurn(done, b).value.Blocks() && TokenTurn(done, b).value.answer == []
  {
  }

  /**
   requestsLoop from the start of a connection until the first error. After exactly the n turns that the replay of the
   client's bytes allows, the broker and the client were given exactly what the replay says, and the channels hold it;
   only the turn that failed may have left its one frame, or the part of a raw token that was there, and the answer to
   a local exchange that was refused.
   */
  method RequestsLoop(ctx: RequestsLoopContext, dst: Sink, src: ByteStream, client: Sink, bufferSize: nat,
                      timely: nat -> bool)
    returns (ghost n: nat)
    requires src.Valid() && src.pos == 0 && dst.out == [] && client.out == [] && dst != client && bufferSize > 0
    requires ctx.localSasl.enabled == ctx.rules.localSaslEnabled && Holds(ctx, Start())
    modifies ctx, dst, src, client
    ensures var w := World(ctx.rules, ctx.localSasl.authenticators, timely, src.data);
            && Replay(w, n).Some? && Replay(w, n + 1).None?
            && var p := Replay(w, n).value;
               && p.end <= src.pos <= |src.data|
               && p.out <= dst.out
               && Remainder(NextTurn(w, p), p.handler, src.data[p.end..src.pos], dst.out[|p.out|..])
               && client.out == p.answers + NextFailedAnswer(w, p) && ctx.Failed(NextTurn(w, p), p.done, p.open, p.responses)
               // and so, of any replay:
               && Gated(w.rules.localSaslEnabled, w.authenticators, p.events) && (w.rules.localSaslEnabled ==> NoRawHandlers(p))
               && (Unfiltered(w) ==> exists localStart, localEnd :: Conserved(w, p, localStart, localEnd))
    ensures ExactFrames(client.out)
  {
    assert ExactFrames(client.out);
    hide ExactFrames, NextTurn, NextFailedAnswer, Replay, Gated, Conserved, Unfiltered, NoRawHandlers, Holds, Remainder;
    ghost var w := World(ctx.rules, ctx.localSasl.authenticators, timely, src.data);
    var k := 0;
    n := 0;
    ghost var p := Start();
    ReplayStart(w);
    while true
      invariant src.Valid() && n == k && Replay(w, n) == Some(p) && p.end == src.pos && p.out == dst.out
      invariant p.answers == client.out && Holds(ctx, p) && ExactFrames(client.out)
      decreases |src.data| - src.pos
    {
      ReplayNext(w, n);
      var ok := HandleNext(ctx, dst, src, client, bufferSize, timely(k), w, p);
      if !ok {
        ReplayGated(w, n);
        if Unfiltered(w) {
          var localStart, localEnd := ReplayConserves(w, n);
        }
        return;
      }
      p := Advance(p, NextTurn(w, p).value);
      k, n := k + 1, n + 1;
    }
  }
}
