/**
 Authentication answered by the proxy itself (proxy/sasl_local.go): read a SaslHandshake and the credentials,
 write the responses. Authenticators are given functions from the credential bytes to an error message, if any.
 */
module LocalSasl {
  import opened Wire
  import opened SchemaModel
  import opened Streams

  /** doLocalAuth: None is success, otherwise the text of the error. */
  type Authenticator = bytes -> Option<bytes>

  const API_KEY_SASL_HANDSHAKE: int16 := 17
  const API_KEY_SASL_AUTHENTICATE: int16 := 36
  const ERR_NO_ERROR: int16 := 0
  const ERR_UNSUPPORTED_SASL_MECHANISM: int16 := 33
  const ERR_SASL_AUTHENTICATION_FAILED: int16 := 58

  // ----- Requests -----

  /** Length, api key and api version at the start of a request; a length of 4 or less is an error. */
  datatype KeyVersion = KeyVersion(length: int32, apiKey: int16, apiVersion: int16)

  function ParseKeyVersion(b: bytes): (r: Option<KeyVersion>)
    ensures r.Some? ==> |b| == 8 && r.value.length > 4 && IntBytes(4, r.value.length) == b[..4]
  {
    if |b| != 8 then None
    else
      IntBytesOf(b[..4]); IntBytesOf(b[4..6]); IntBytesOf(b[6..]); Widths();
      if IntOf(b[..4]) <= 4 then None else Some(KeyVersion(IntOf(b[..4]), IntOf(b[4..6]), IntOf(b[6..])))
  }

  /** A request header as Request.decode reads it: key, version, correlation id, client id. */
  datatype Header = Header(correlationId: int32, n: nat)

  function ParseHeader(p: bytes, apiKey: int16, apiVersion: int16): (r: Option<Header>)
    ensures r.Some? ==> r.value.n <= |p|
  {
    if |p| < 8 || IntOf(p[..2]) != apiKey || IntOf(p[2..4]) != apiVersion then None
    else
      match GetString(p[8..])
      case Err(_, _) => None
      case Ok(_, n) => IntBytesOf(p[4..8]); Widths(); Some(Header(IntOf(p[4..8]), 8 + n))
  }

  datatype Handshake = Handshake(correlationId: int32, mechanism: bytes)

  /** The whole payload of a SaslHandshake request; bytes left over are an error. */
  function ParseHandshake(p: bytes, version: int16): (r: Option<Handshake>)
    ensures r.Some? ==> |r.value.mechanism| <= MAX_INT16
  {
    match ParseHeader(p, API_KEY_SASL_HANDSHAKE, version)
    case None => None
    case Some(h) =>
      match GetString(p[h.n..])
      case Err(_, _) => None
      case Ok(mechanism, m) =>
        if h.n + m != |p| then None
        else
          Int16Bound(p[h.n..]);
          Some(Handshake(h.correlationId, mechanism))
  }

  lemma Int16Bound(b: bytes)
    requires GetString(b).Ok?
    ensures |GetString(b).value| <= MAX_INT16
  {
    IntBytesOf(b[..2]);
    Widths();
  }

  datatype Credentials = Credentials(correlationId: int32, token: bytes)

  /** getBytes, with null read as no bytes. */
  function GetBytes(b: bytes): (r: Parsed<bytes>)
    ensures r.n <= |b|
  {
    match GetInt(4, b)
    case Err(e, n) => Err(e, n)
    case Ok(length, n) =>
      if length == -1 then Ok([], n)
      else
        match GetRawBytes(length, b[n..])
        case Err(e, m) => Err(e, n + m)
        case Ok(data, m) => Ok(data, n + m)
  }

  /** The whole payload of a SaslAuthenticate request; version 2 has tagged fields and compact bytes. */
  function ParseCredentials(p: bytes, version: int16): Option<Credentials> {
    match ParseHeader(p, API_KEY_SASL_AUTHENTICATE, version)
    case None => None
    case Some(h) =>
      if version == 2 then
        match DecTagged(p[h.n..])
        case Err(_, _) => None
        case Ok(_, m) =>
          match GetCompactString(p[h.n + m..])
          case Err(_, _) => None
          case Ok(token, k) =>
            match DecTagged(p[h.n + m + k..])
            case Err(_, _) => None
            case Ok(_, j) => if h.n + m + k + j != |p| then None else Some(Credentials(h.correlationId, token))
      else
        match GetBytes(p[h.n..])
        case Err(_, _) => None
        case Ok(token, m) => if h.n + m != |p| then None else Some(Credentials(h.correlationId, token))
  }

  // ----- Responses -----

  function HandshakeBody(err: int16, mechanism: bytes): Encoded {
    Then(Success(IntBytes(2, err) + IntBytes(4, 1)), StringBytes(mechanism))
  }

  /** SaslAuthenticateResponse: error, message, no bytes, and from version 1 on a session lifetime of 0. */
  function AuthenticateBody(version: int16, err: int16, msg: Option<bytes>): Encoded {
    var text := if version == 2 then CompactNullableStringBytes(msg) else NullableStringBytes(msg);
    var noBytes := if version == 2 then PutUvarint(1) else IntBytes(4, 0);
    var lifetime := if version == 0 then [] else IntBytes(8, 0);
    var tags := if version == 2 then PutUvarint(0) else [];
    Then(Then(Success(IntBytes(2, err)), text), Success(noBytes + lifetime + tags))
  }

  /** ResponseHeader, or ResponseHeaderV1 with empty tagged fields, in front of a body. */
  function ResponseFrame(flexible: bool, correlationId: int32, body: bytes): bytes {
    (if flexible then IntBytes(4, |body| + 5) else IntBytes(4, |body| + 4))
    + IntBytes(4, correlationId) + (if flexible then PutUvarint(0) else []) + body
  }

  /** The length prefix counts exactly the bytes behind it. */
  predicate ExactFrame(f: bytes) {
    |f| >= 4 && IntOf(f[..4]) == |f| - 4
  }

  lemma ResponseFrameExact(flexible: bool, correlationId: int32, body: bytes)
    requires |body| <= MAX_INT32 - 5
    ensures ExactFrame(ResponseFrame(flexible, correlationId, body))
  {
    Widths();
    var n := |body| + if flexible then 5 else 4;
    IntRoundTrip(4, n);
    assert ResponseFrame(flexible, correlationId, body)[..4] == IntBytes(4, n);
  }

  /** Bytes that are whole frames, each declaring its exact length. */
  ghost predicate ExactFrames(b: bytes)
    decreases |b|
  {
    b == [] || exists n :: 4 <= n <= |b| && ExactFrame(b[..n]) && ExactFrames(b[n..])
  }

  lemma {:induction false} AppendFrame(b: bytes, f: bytes)
    requires ExactFrames(b) && ExactFrame(f)
    ensures ExactFrames(b + f)
    decreases |b|
  {
    if b == [] {
      assert b + f == f && f[..|f|] == f && f[|f|..] == [];
      assert ExactFrames([]);
    } else {
      var n :| 4 <= n <= |b| && ExactFrame(b[..n]) && ExactFrames(b[n..]);
      AppendFrame(b[n..], f);
      assert (b + f)[..n] == b[..n] && (b + f)[n..] == b[n..] + f;
    }
  }

  // ----- The exchange as a function of the client's bytes -----

  type Authenticators = map<bytes, Authenticator>

  /** Some configured authenticator accepts this token. */
  predicate Accepts(authenticators: Authenticators, mechanism: bytes, token: bytes) {
    mechanism in authenticators && authenticators[mechanism](token) == None
  }

  /** What the client puts forward in one message, the bytes that took, and the answer if it is good. */
  datatype Offer = Offer(value: bytes, consumed: nat, answer: bytes)

  /** A whole request that was read, and what it asks about: the mechanism, or the token. */
  datatype Asked = Asked(version: int16, correlationId: int32, value: bytes, consumed: nat)

  /** The SaslHandshake request of the given version at the start of b. */
  function AskedMechanism(version: int16, b: bytes): (r: Option<Asked>)
    ensures r.Some? ==> 8 <= r.value.consumed <= |b| && |r.value.value| <= MAX_INT16
  {
    if |b| < 8 || ParseKeyVersion(b[..8]).None? then None
    else
      var kv := ParseKeyVersion(b[..8]).value;
      if kv.apiKey != API_KEY_SASL_HANDSHAKE || kv.apiVersion != version || kv.length > MAX_REQUEST_SIZE
         || |b| < kv.length + 4 then None
      else
        match ParseHandshake(b[4..kv.length + 4], version)
        case None => None
        case Some(h) => Some(Asked(version, h.correlationId, h.mechanism, kv.length + 4))
  }

  function HandshakeFrame(a: Asked, err: int16): bytes {
    var body := HandshakeBody(err, a.value);
    if body.Failure? then [] else ResponseFrame(false, a.correlationId, body.value)
  }

  /** The mechanism named there, if it is configured. */
  function OfferedMechanism(authenticators: Authenticators, version: int16, b: bytes): (r: Option<Offer>)
    ensures r.Some? ==> 8 <= r.value.consumed <= |b|
  {
    match AskedMechanism(version, b)
    case None => None
    case Some(a) =>
      if a.value in authenticators then Some(Offer(a.value, a.consumed, HandshakeFrame(a, ERR_NO_ERROR))) else None
  }

  /** A handshake that was read is always answered, with an error code if the mechanism is not configured. */
  function HandshakeAnswer(authenticators: Authenticators, version: int16, b: bytes): bytes {
    match AskedMechanism(version, b)
    case None => []
    case Some(a) => HandshakeFrame(a, if a.value in authenticators then ERR_NO_ERROR else ERR_UNSUPPORTED_SASL_MECHANISM)
  }

  /** After handshake version 0: a bare token behind its length, answered by four zero bytes. */
  function OfferedTokenV0(b: bytes): (r: Option<Offer>)
    ensures r.Some? ==> r.value.consumed <= |b|
  {
    if |b| < 4 || ToInt32(GetBE(b[..4])) > MAX_REQUEST_SIZE || |b| < 4 + GetBE(b[..4]) then None
    else Some(Offer(b[4..4 + GetBE(b[..4])], 4 + GetBE(b[..4]), PutBE(4, 0)))
  }

  /** The SaslAuthenticate request of version 0, 1 or 2 at the start of b. */
  function AskedToken(b: bytes): (r: Option<Asked>)
    ensures r.Some? ==> 8 <= r.value.consumed <= |b|
  {
    if |b| < 8 || ParseKeyVersion(b[..8]).None? then None
    else
      var kv := ParseKeyVersion(b[..8]).value;
      if kv.apiKey != API_KEY_SASL_AUTHENTICATE || kv.length > MAX_REQUEST_SIZE || |b| < kv.length + 4
         || !(0 <= kv.apiVersion <= 2) then None
      else
        match ParseCredentials(b[4..kv.length + 4], kv.apiVersion)
        case None => None
        case Some(c) => Some(Asked(kv.apiVersion, c.correlationId, c.token, kv.length + 4))
  }

  /** The answer in the request's version; an error text too long to be encoded leaves none. */
  function TokenFrame(a: Asked, refusal: Option<bytes>): bytes {
    var body := AuthenticateBody(a.version, if refusal == None then ERR_NO_ERROR else ERR_SASL_AUTHENTICATION_FAILED, refusal);
    if body.Failure? then [] else ResponseFrame(a.version == 2, a.correlationId, body.value)
  }

  /** After handshake version 1: the token of a SaslAuthenticate request. */
  function OfferedTokenV1(b: bytes): (r: Option<Offer>)
    ensures r.Some? ==> r.value.consumed <= |b|
  {
    match AskedToken(b)
    case None => None
    case Some(a) => Some(Offer(a.value, a.consumed, TokenFrame(a, None)))
  }

  /** What the client is answered to its token: nothing to a bare one that is refused. */
  function TokenAnswer(authenticator: Authenticator, version: int16, b: bytes): bytes {
    if version == 0 then
      var t := OfferedTokenV0(b);
      if t.Some? && authenticator(t.value.value) == None then t.value.answer else []
    else
      match AskedToken(b)
      case None => []
      case Some(a) => TokenFrame(a, authenticator(a.value))
  }

  function OfferedToken(version: int16, b: bytes): (r: Option<Offer>)
    ensures r.Some? ==> r.value.consumed <= |b|
  {
    if version == 0 then OfferedTokenV0(b) else OfferedTokenV1(b)
  }

  datatype Exchange = Exchange(mechanism: bytes, token: bytes, consumed: nat, answer: bytes)

  /** The whole exchange at the start of b, if it ends in success. */
  function TakeExchange(authenticators: Authenticators, version: int16, b: bytes): (r: Option<Exchange>)
    ensures r.Some? ==> 8 <= r.value.consumed <= |b|
  {
    match OfferedMechanism(authenticators, version, b)
    case None => None
    case Some(m) =>
      match OfferedToken(version, b[m.consumed..])
      case None => None
      case Some(t) =>
        if Accepts(authenticators, m.value, t.value)
        then Some(Exchange(m.value, t.value, m.consumed + t.consumed, m.answer + t.answer))
        else None
  }

  /** All that is written to the client, whether the exchange succeeds or not. */
  function ExchangeAnswer(authenticators: Authenticators, version: int16, b: bytes): bytes {
    HandshakeAnswer(authenticators, version, b)
    + match OfferedMechanism(authenticators, version, b)
      case None => []
      case Some(m) =>
        MechanismConfigured(authenticators, version, b);
        TokenAnswer(authenticators[m.value], version, b[m.consumed..])
  }

  /**
   An exchange succeeds only if an authenticator accepted the token that stands in the client's bytes behind a
   SaslHandshake request naming that authenticator's mechanism.
   */
  lemma ExchangeIsAuthenticated(authenticators: Authenticators, version: int16, b: bytes)
    requires TakeExchange(authenticators, version, b).Some?
    ensures var x := TakeExchange(authenticators, version, b).value;
            && Accepts(authenticators, x.mechanism, x.token)
            && ParseKeyVersion(b[..8]).Some?
            && var n := ParseKeyVersion(b[..8]).value.length + 4;
               && n <= x.consumed <= |b|
               && ParseHandshake(b[4..n], version).Some? && ParseHandshake(b[4..n], version).value.mechanism == x.mechanism
               && OfferedToken(version, b[n..]).Some? && OfferedToken(version, b[n..]).value.value == x.token
               && n + OfferedToken(version, b[n..]).value.consumed == x.consumed
  {
    hide ParseHandshake, OfferedTokenV0, OfferedTokenV1;
  }

  /** A successful exchange is answered as such. */
  lemma ExchangeAnswered(authenticators: Authenticators, version: int16, b: bytes)
    requires TakeExchange(authenticators, version, b).Some?
    ensures ExchangeAnswer(authenticators, version, b) == TakeExchange(authenticators, version, b).value.answer
  {
    hide AskedMechanism, AskedToken, HandshakeBody, AuthenticateBody;
  }

  lemma AuthenticateBodySize(version: int16, err: int16, msg: Option<bytes>)
    ensures msg == None ==> AuthenticateBody(version, err, msg).Success?
    ensures AuthenticateBody(version, err, msg).Success? ==> |AuthenticateBody(version, err, msg).value| <= 0x1_0000
  {
    if msg.Some? && |msg.value| <= MAX_INT16 {
      SmallVarint(|msg.value| + 1);
    }
  }

  lemma SmallVarint(u: nat)
    requires u <= 0x8000
    ensures |PutUvarint(u)| <= 3
  {
    if u >= 128 {
      assert |PutUvarint(u)| == 1 + |PutUvarint(u / 128)|;
      if u / 128 >= 128 {
        assert |PutUvarint(u / 128)| == 1 + |PutUvarint(u / 128 / 128)| && u / 128 / 128 < 128;
      }
    }
  }

  // ----- The exchange over a connection -----

  class LocalSasl {
    const enabled: bool
    const authenticators: Authenticators

    constructor (enabled: bool, authenticators: Authenticators)
      ensures this.enabled == enabled && this.authenticators == authenticators
    {
      this.enabled := enabled;
      this.authenticators := authenticators;
    }

    /**
     receiveAndSendSaslV0orV1, after key and version were read: answers the handshake, with an error code
     when the mechanism is not configured, and returns the mechanism when it is.
     */
    method Handshake(src: ByteStream, client: Sink, keyVersionBuf: bytes, version: int16) returns (r: Option<bytes>)
      requires src.Valid() && src.pos >= 8 && keyVersionBuf == src.data[src.pos - 8..src.pos]
      modifies src, client
      ensures src.Valid() && old(src.pos) <= src.pos && old(client.out) <= client.out
      ensures ExactFrames(old(client.out)) ==> ExactFrames(client.out)
      ensures match OfferedMechanism(authenticators, version, old(src.data[src.pos - 8..]))
              case None => r == None
              case Some(m) => r == Some(m.value) && src.pos == old(src.pos) - 8 + m.consumed
      ensures client.out == old(client.out) + HandshakeAnswer(authenticators, version, old(src.data[src.pos - 8..]))
    {
      hide ExactFrames, ParseHandshake;
      ghost var b := src.data[src.pos - 8..];
      assert keyVersionBuf == b[..8] && src.Rest() == b[8..];
      var kv := ParseKeyVersion(keyVersionBuf);
      if kv == None || kv.value.apiKey != API_KEY_SASL_HANDSHAKE || kv.value.apiVersion != version {
        return None;
      }
      if kv.value.length > MAX_REQUEST_SIZE {
        return None;
      }
      var resp, full := src.ReadFull(kv.value.length - 4);
      if !full {
        return None;
      }
      Rejoined(b, keyVersionBuf, resp, kv.value.length + 4);
      var request := ParseHandshake(keyVersionBuf[4..] + resp, version);
      if request == None {
        return None;
      }
      var mechanism := request.value.mechanism;
      var err := if mechanism in authenticators then ERR_NO_ERROR else ERR_UNSUPPORTED_SASL_MECHANISM;
      var body := HandshakeBody(err, mechanism).value;
      Respond(client, false, request.value.correlationId, body);
      r := if mechanism in authenticators then Some(mechanism) else None;
    }

    /** Writes the header and then the body. */
    method Respond(client: Sink, flexible: bool, correlationId: int32, body: bytes)
      requires |body| <= MAX_INT32 - 5
      modifies client
      ensures client.out == old(client.out) + ResponseFrame(flexible, correlationId, body)
      ensures ExactFrames(old(client.out)) ==> ExactFrames(client.out)
    {
      ghost var before := client.out;
      if flexible {
        client.Write(IntBytes(4, |body| + 5) + IntBytes(4, correlationId) + PutUvarint(0));
      } else {
        client.Write(IntBytes(4, |body| + 4) + IntBytes(4, correlationId));
      }
      client.Write(body);
      assert client.out == before + ResponseFrame(flexible, correlationId, body);
      ResponseFrameExact(flexible, correlationId, body);
      if ExactFrames(before) {
        AppendFrame(before, ResponseFrame(flexible, correlationId, body));
      }
    }

    /** receiveAndSendAuthV0: a bare length-prefixed token, answered by four zero bytes or nothing. */
    method AuthenticateV0(src: ByteStream, client: Sink, mechanism: bytes) returns (ok: bool)
      requires src.Valid() && mechanism in authenticators
      modifies src, client
      ensures src.Valid() && old(src.pos) <= src.pos && old(client.out) <= client.out
      ensures ExactFrames(old(client.out)) ==> ExactFrames(client.out)
      ensures var t := OfferedTokenV0(old(src.Rest()));
              && (ok <==> t.Some? && Accepts(authenticators, mechanism, t.value.value))
              && (ok ==> src.pos == old(src.pos) + t.value.consumed)
      ensures client.out == old(client.out) + TokenAnswer(authenticators[mechanism], 0, old(src.Rest()))
    {
      hide ExactFrames;
      ghost var b := src.Rest();
      var sizeBuf, full := src.ReadFull(4);
      if !full {
        return false;
      }
      assert sizeBuf == b[..4];
      var length := GetBE(sizeBuf);
      if ToInt32(length) > MAX_REQUEST_SIZE {
        return false;
      }
      var saslAuthBytes, rest := src.ReadFull(length);
      if !rest {
        return false;
      }
      assert saslAuthBytes == b[4..4 + length];
      if authenticators[mechanism](saslAuthBytes) != None {
        return false;
      }
      client.Write(PutBE(4, 0));
      Widths();
      IntRoundTrip(4, 0);
      assert PutBE(4, 0)[..4] == IntBytes(4, 0);
      if ExactFrames(old(client.out)) {
        AppendFrame(old(client.out), PutBE(4, 0));
      }
      ok := true;
    }

    /** receiveAndSendAuthV1: a SaslAuthenticate request of version 0, 1 or 2 and its response. */
    method AuthenticateV1(src: ByteStream, client: Sink, mechanism: bytes) returns (ok: bool)
      requires src.Valid() && mechanism in authenticators
      modifies src, client
      ensures src.Valid() && old(src.pos) <= src.pos && old(client.out) <= client.out
      ensures ExactFrames(old(client.out)) ==> ExactFrames(client.out)
      ensures var t := OfferedTokenV1(old(src.Rest()));
              && (ok <==> t.Some? && Accepts(authenticators, mechanism, t.value.value))
              && (ok ==> src.pos == old(src.pos) + t.value.consumed)
      ensures client.out == old(client.out) + TokenAnswer(authenticators[mechanism], 1, old(src.Rest()))
    {
      hide ExactFrames, ParseCredentials, ParseKeyVersion, AuthenticateBody, ResponseFrame;
      ghost var b := src.Rest();
      var keyVersionBuf, full := src.ReadFull(8);
      if !full {
        return false;
      }
      assert keyVersionBuf == b[..8];
      var kv := ParseKeyVersion(keyVersionBuf);
      if kv == None || kv.value.apiKey != API_KEY_SASL_AUTHENTICATE || kv.value.length > MAX_REQUEST_SIZE {
        return false;
      }
      var version := kv.value.apiVersion;
      KeyVersionLength(b[..8]);
      var resp, rest := src.ReadFull(kv.value.length - 4);
      if !rest {
        return false;
      }
      if !(0 <= version <= 2) {
        return false;
      }
      Rejoined(b, keyVersionBuf, resp, kv.value.length + 4);
      var request := ParseCredentials(keyVersionBuf[4..] + resp, version);
      if request == None {
        return false;
      }
      var authErr := authenticators[mechanism](request.value.token);
      var err := if authErr == None then ERR_NO_ERROR else ERR_SASL_AUTHENTICATION_FAILED;
      var body := AuthenticateBody(version, err, authErr);
      AuthenticateBodySize(version, err, authErr);
      if body.Failure? {
        return false;
      }
      Respond(client, version == 2, request.value.correlationId, body.value);
      ok := authErr == None;
    }

    /**
     receiveAndSendSASLAuthV0 and V1, after key and version were read: succeeds exactly when the client's bytes hold
     an exchange that the configured authenticators accept, and then takes and answers exactly that.
     */
    method ReceiveAndSendSASLAuth(src: ByteStream, client: Sink, keyVersionBuf: bytes, version: int16) returns (ok: bool)
      requires src.Valid() && src.pos >= 8 && keyVersionBuf == src.data[src.pos - 8..src.pos]
      modifies src, client
      ensures src.Valid() && old(src.pos) <= src.pos && old(client.out) <= client.out
      ensures ExactFrames(old(client.out)) ==> ExactFrames(client.out)
      ensures match TakeExchange(authenticators, version, old(src.data[src.pos - 8..]))
              case None => !ok
              case Some(x) => ok && src.pos == old(src.pos) - 8 + x.consumed
      ensures client.out == old(client.out) + ExchangeAnswer(authenticators, version, old(src.data[src.pos - 8..]))
    {
      hide ExactFrames, OfferedMechanism, HandshakeAnswer, OfferedTokenV0, AskedToken, TokenFrame;
      ghost var b := src.data[src.pos - 8..];
      ghost var before := client.out;
      var mechanism := Handshake(src, client, keyVersionBuf, version);
      if mechanism == None {
        assert client.out == before + (HandshakeAnswer(authenticators, version, b) + []);
        return false;
      }
      MechanismConfigured(authenticators, version, b);
      ghost var m := OfferedMechanism(authenticators, version, b).value;
      assert src.Rest() == b[m.consumed..];
      if version == 0 {
        ok := AuthenticateV0(src, client, mechanism.value);
      } else {
        ok := AuthenticateV1(src, client, mechanism.value);
      }
      ghost var answer := TokenAnswer(authenticators[m.value], version, b[m.consumed..]);
      assert client.out == before + (HandshakeAnswer(authenticators, version, b) + answer);
    }
  }

  lemma Rejoined(b: bytes, head: bytes, tail: bytes, end: nat)
    requires 8 <= end <= |b| && head == b[..8] && |tail| == end - 8 && tail == b[8..][..end - 8]
    ensures head[4..] + tail == b[4..end]
  {
    assert head[4..] == b[4..8] && tail == b[8..end];
  }

  lemma KeyVersionLength(b: bytes)
    requires ParseKeyVersion(b).Some?
    ensures ParseKeyVersion(b).value.length > 4
  {
  }

  lemma MechanismConfigured(authenticators: Authenticators, version: int16, b: bytes)
    requires OfferedMechanism(authenticators, version, b).Some?
    ensures OfferedMechanism(authenticators, version, b).value.value in authenticators
  {
  }
}
