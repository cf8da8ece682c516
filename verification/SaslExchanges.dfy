/**
 The local SASL exchange for requests as clients write them (proxy/sasl_local.go, and sasl_handshake.go,
 sasl_authenticate_v0.go to v2.go, request.go in proxy/protocol): what an authenticator is asked, and what is answered.
 */
module SaslExchanges {
  import opened Wire
  import opened SchemaModel
  import opened SchemaProofs
  import opened LocalSasl

  // ----- Requests as clients write them -----

  /** int16 length and text; null is the length -1. */
  function NullableText(s: Option<bytes>): bytes {
    if s.None? then IntBytes(2, -1) else IntBytes(2, |s.value|) + s.value
  }

  predicate ShortText(s: Option<bytes>) {
    s.Some? ==> |s.value| <= 32767
  }

  /** What stands behind the length of a request: key, version, correlation id, client id, body. */
  function Payload(apiKey: int16, apiVersion: int16, correlationId: int32, clientId: Option<bytes>, body: bytes): bytes {
    IntBytes(2, apiKey) + IntBytes(2, apiVersion) + IntBytes(4, correlationId) + NullableText(clientId) + body
  }

  function Framed(payload: bytes): bytes {
    IntBytes(4, |payload|) + payload
  }

  function HandshakeRequest(version: int16, correlationId: int32, clientId: Option<bytes>, mechanism: bytes): bytes {
    Framed(Payload(17, version, correlationId, clientId, NullableText(Some(mechanism))))
  }

  /** int32 length and bytes; null is the length -1. */
  function NullableBytes(s: Option<bytes>): bytes {
    if s.None? then IntBytes(4, -1) else IntBytes(4, |s.value|) + s.value
  }

  function TokenOf(token: Option<bytes>): bytes {
    if token.None? then [] else token.value
  }

  /** SaslAuthenticate of versions 0 and 1. */
  function AuthenticateRequest(version: int16, correlationId: int32, clientId: Option<bytes>, token: Option<bytes>): bytes {
    Framed(Payload(36, version, correlationId, clientId, NullableBytes(token)))
  }

  /** Version 2 is flexible: tagged fields behind the header and behind the body, and a compact length. */
  function FlexibleBody(headerTags: seq<RawTaggedField>, token: bytes, tags: seq<RawTaggedField>): bytes
    requires EncTagged(headerTags).Success? && EncTagged(tags).Success?
  {
    EncTagged(headerTags).value + PutUvarint(|token| + 1) + token + EncTagged(tags).value
  }

  function FlexibleRequest(correlationId: int32, clientId: Option<bytes>, headerTags: seq<RawTaggedField>, token: bytes,
                           tags: seq<RawTaggedField>): bytes
    requires EncTagged(headerTags).Success? && EncTagged(tags).Success?
  {
    Framed(Payload(36, 2, correlationId, clientId, FlexibleBody(headerTags, token, tags)))
  }

  // ----- Answers as clients expect them -----

  /** Error code and the one mechanism. */
  function HandshakeResponse(correlationId: int32, err: int16, mechanism: bytes): bytes {
    Framed(IntBytes(4, correlationId) + IntBytes(2, err) + IntBytes(4, 1) + NullableText(Some(mechanism)))
  }

  /** Error code, message, no bytes, and from version 1 on a session lifetime of 0. */
  function AuthenticateResponse(version: int16, correlationId: int32, err: int16, message: Option<bytes>): bytes {
    if version == 2 then
      var text := if message.None? then [0] else PutUvarint(|message.value| + 1) + message.value;
      Framed(IntBytes(4, correlationId) + [0] + IntBytes(2, err) + text + [1] + IntBytes(8, 0) + [0])
    else
      Framed(IntBytes(4, correlationId) + IntBytes(2, err) + NullableText(message) + IntBytes(4, 0)
             + (if version == 1 then IntBytes(8, 0) else []))
  }

  // ----- Reading them -----

  lemma TextRead(s: Option<bytes>, rest: bytes)
    requires ShortText(s)
    ensures GetString(NullableText(s) + rest) == Ok(TokenOf(s), |NullableText(s)|)
  {
    Widths();
    var n := if s.None? then -1 else |s.value|;
    IntRoundTrip(2, n);
    var b := NullableText(s) + rest;
    assert b[..2] == IntBytes(2, n);
    assert s.Some? ==> b[2..2 + |s.value|] == s.value;
  }

  lemma BytesRead(s: Option<bytes>, rest: bytes)
    requires s.Some? ==> |s.value| <= MAX_INT32
    ensures GetBytes(NullableBytes(s) + rest) == Ok(TokenOf(s), |NullableBytes(s)|)
  {
    Widths();
    var n := if s.None? then -1 else |s.value|;
    IntRoundTrip(4, n);
    var b := NullableBytes(s) + rest;
    assert b[..4] == IntBytes(4, n);
    if s.Some? {
      assert b[4..] == s.value + rest && (s.value + rest)[..|s.value|] == s.value;
    }
  }

  lemma HeaderRead(apiKey: int16, apiVersion: int16, correlationId: int32, clientId: Option<bytes>, body: bytes)
    requires ShortText(clientId)
    ensures var p := Payload(apiKey, apiVersion, correlationId, clientId, body);
            && ParseHeader(p, apiKey, apiVersion) == Some(Header(correlationId, 8 + |NullableText(clientId)|))
            && p[8 + |NullableText(clientId)|..] == body
  {
    hide IntBytes, IntOf, GetString, NullableText;
    Widths();
    IntRoundTrip(2, apiKey);
    IntRoundTrip(2, apiVersion);
    IntRoundTrip(4, correlationId);
    TextRead(clientId, body);
    var p := Payload(apiKey, apiVersion, correlationId, clientId, body);
    assert p[..2] == IntBytes(2, apiKey) && p[2..4] == IntBytes(2, apiVersion) && p[4..8] == IntBytes(4, correlationId);
    assert p[8..] == NullableText(clientId) + body;
    assert p[8 + |NullableText(clientId)|..] == p[8..][|NullableText(clientId)|..];
  }

  /** The frame around a payload, with anything behind it. */
  lemma FrameRead(apiKey: int16, apiVersion: int16, correlationId: int32, clientId: Option<bytes>, body: bytes, rest: bytes)
    requires |Payload(apiKey, apiVersion, correlationId, clientId, body)| <= MAX_INT32
    ensures var p := Payload(apiKey, apiVersion, correlationId, clientId, body); var b := Framed(p) + rest;
            && |b| >= 8 && ParseKeyVersion(b[..8]) == Some(KeyVersion(|p|, apiKey, apiVersion))
            && |p| + 4 == |Framed(p)| <= |b| && b[4..|p| + 4] == p
  {
    hide IntBytes, IntOf, NullableText;
    var p := Payload(apiKey, apiVersion, correlationId, clientId, body);
    var b := Framed(p) + rest;
    Widths();
    IntRoundTrip(2, apiKey);
    IntRoundTrip(2, apiVersion);
    IntRoundTrip(4, |p|);
    assert |p| >= 8 && |b| >= 12;
    var h := b[..8];
    assert h[..4] == IntBytes(4, |p|) && h[4..6] == IntBytes(2, apiKey) && h[6..] == IntBytes(2, apiVersion);
  }

  // ----- What is offered -----

  lemma HandshakeAsked(version: int16, correlationId: int32, clientId: Option<bytes>, mechanism: bytes, rest: bytes)
    requires ShortText(clientId) && |mechanism| <= 32767
    ensures var request := HandshakeRequest(version, correlationId, clientId, mechanism);
            AskedMechanism(version, request + rest) == Some(Asked(version, correlationId, mechanism, |request|))
  {
    hide ParseHeader, ParseKeyVersion, GetString, IntBytes;
    var body := NullableText(Some(mechanism));
    HeaderRead(17, version, correlationId, clientId, body);
    FrameRead(17, version, correlationId, clientId, body, rest);
    TextRead(Some(mechanism), []);
    assert body + [] == body;
  }

  lemma TokenAsked(version: int16, correlationId: int32, clientId: Option<bytes>, token: Option<bytes>, rest: bytes)
    requires ShortText(clientId) && 0 <= version <= 1
    requires |AuthenticateRequest(version, correlationId, clientId, token)| - 4 <= 104857600
    ensures var request := AuthenticateRequest(version, correlationId, clientId, token);
            AskedToken(request + rest) == Some(Asked(version, correlationId, TokenOf(token), |request|))
  {
    hide ParseHeader, ParseKeyVersion, GetBytes, IntBytes;
    var body := NullableBytes(token);
    HeaderRead(36, version, correlationId, clientId, body);
    FrameRead(36, version, correlationId, clientId, body, rest);
    BytesRead(token, []);
    assert body + [] == body;
  }

  lemma CompactRead(token: bytes, rest: bytes)
    requires |token| <= MAX_INT32
    ensures GetCompactString(PutUvarint(|token| + 1) + token + rest) == Ok(token, |PutUvarint(|token| + 1) + token|)
  {
    hide PutUvarint, GetVarint, GetCompactLength, GetCompactNullableLength, GetCompactString;
    var c := PutUvarint(|token| + 1);
    CompactLengthRoundTrip(|token|, token + rest);
    Middle(c, token, rest);
    CompactBody(c + (token + rest), |token|, |c|);
    assert |c + token| == |c| + |token|;
  }

  lemma CompactBody(b: bytes, i: nat, n: nat)
    requires GetCompactLength(b) == Ok(i, n)
    ensures n + i <= |b| && GetCompactString(b) == Ok(b[n..n + i], n + i)
  {
    hide GetCompactLength;
  }

  lemma Middle(a: bytes, b: bytes, c: bytes)
    ensures a + b + c == a + (b + c) && (a + b + c)[|a|..|a| + |b|] == b
  {
  }

  lemma FlexibleTokenAsked(correlationId: int32, clientId: Option<bytes>, headerTags: seq<RawTaggedField>, token: bytes,
                           tags: seq<RawTaggedField>, rest: bytes)
    requires ShortText(clientId) && EncTagged(headerTags).Success? && EncTagged(tags).Success?
    requires |FlexibleRequest(correlationId, clientId, headerTags, token, tags)| - 4 <= 104857600
    ensures var request := FlexibleRequest(correlationId, clientId, headerTags, token, tags);
            AskedToken(request + rest) == Some(Asked(2, correlationId, token, |request|))
  {
    hide ParseHeader, ParseKeyVersion, DecTagged, EncTagged, GetCompactString, PutUvarint, IntBytes;
    var h, c, t := EncTagged(headerTags).value, PutUvarint(|token| + 1) + token, EncTagged(tags).value;
    var body := FlexibleBody(headerTags, token, tags);
    var p := Payload(36, 2, correlationId, clientId, body);
    HeaderRead(36, 2, correlationId, clientId, body);
    FrameRead(36, 2, correlationId, clientId, body, rest);
    var n := 8 + |NullableText(clientId)|;
    assert p[n..] == body;
    Suffixes(p, n, h, c, t);
    TaggedRead(headerTags, c + t);
    CompactRead(token, t);
    TaggedRead(tags, []);
    assert t + [] == t;
  }

  // ----- What is answered -----

  lemma HandshakeFramed(version: int16, correlationId: int32, mechanism: bytes, n: nat, err: int16)
    requires |mechanism| <= 32767
    ensures HandshakeFrame(Asked(version, correlationId, mechanism, n), err) == HandshakeResponse(correlationId, err, mechanism)
  {
    hide IntBytes;
    var body := IntBytes(2, err) + IntBytes(4, 1) + NullableText(Some(mechanism));
    assert HandshakeBody(err, mechanism) == Success(body);
    assert IntBytes(4, correlationId) + [] + body
        == IntBytes(4, correlationId) + IntBytes(2, err) + IntBytes(4, 1) + NullableText(Some(mechanism));
  }

  lemma TokenFramed(version: int16, correlationId: int32, token: bytes, n: nat, refusal: Option<bytes>)
    requires 0 <= version <= 2 && ShortText(refusal)
    ensures TokenFrame(Asked(version, correlationId, token, n), refusal)
            == AuthenticateResponse(version, correlationId, if refusal == None then 0 else 58, refusal)
  {
    if version == 2 {
      FlexibleFramed(correlationId, token, n, refusal);
    } else {
      PlainFramed(version, correlationId, token, n, refusal);
    }
  }

  lemma PlainFramed(version: int16, correlationId: int32, token: bytes, n: nat, refusal: Option<bytes>)
    requires 0 <= version <= 1 && ShortText(refusal)
    ensures TokenFrame(Asked(version, correlationId, token, n), refusal)
            == AuthenticateResponse(version, correlationId, if refusal == None then 0 else 58, refusal)
  {
    hide IntBytes, PutUvarint;
    var c, err := IntBytes(4, correlationId), if refusal == None then 0 else 58;
    var e, text, lifetime := IntBytes(2, err), NullableText(refusal), if version == 1 then IntBytes(8, 0) else [];
    assert AuthenticateBody(version, err, refusal) == Success(e + text + (IntBytes(4, 0) + lifetime + []));
    hide AuthenticateBody, NullableText;
    Regroup(c, [], e, text, IntBytes(4, 0), lifetime, []);
  }

  lemma FlexibleFramed(correlationId: int32, token: bytes, n: nat, refusal: Option<bytes>)
    requires ShortText(refusal)
    ensures TokenFrame(Asked(2, correlationId, token, n), refusal)
            == AuthenticateResponse(2, correlationId, if refusal == None then 0 else 58, refusal)
  {
    var err := if refusal == None then 0 else 58;
    var text := if refusal.None? then [0] else PutUvarint(|refusal.value| + 1) + refusal.value;
    var body := IntBytes(2, err) + text + ([1] + IntBytes(8, 0) + [0]);
    FlexibleBodyOf(err, refusal);
    FlexibleFrameOf(correlationId, token, n, refusal, body);
    hide AuthenticateBody, PutUvarint, IntBytes, TokenFrame;
    Regroup(IntBytes(4, correlationId), [0], IntBytes(2, err), text, [1], IntBytes(8, 0), [0]);
  }

  lemma FlexibleFrameOf(correlationId: int32, token: bytes, n: nat, refusal: Option<bytes>, body: bytes)
    requires AuthenticateBody(2, if refusal == None then 0 else 58, refusal) == Success(body)
    ensures TokenFrame(Asked(2, correlationId, token, n), refusal) == Framed(IntBytes(4, correlationId) + [0] + body)
  {
    assert PutUvarint(0) == [0];
    hide AuthenticateBody, PutUvarint, IntBytes;
    var size, c := IntBytes(4, |body| + 5), IntBytes(4, correlationId);
    assert size + c + [0] + body == size + (c + [0] + body);
  }

  lemma FlexibleBodyOf(err: int16, refusal: Option<bytes>)
    requires ShortText(refusal)
    ensures var text := if refusal.None? then [0] else PutUvarint(|refusal.value| + 1) + refusal.value;
            AuthenticateBody(2, err, refusal) == Success(IntBytes(2, err) + text + ([1] + IntBytes(8, 0) + [0]))
  {
    assert PutUvarint(1) == [1] && PutUvarint(0) == [0];
    hide PutUvarint, IntBytes;
  }

  lemma Regroup(c: bytes, h: bytes, e: bytes, text: bytes, x: bytes, y: bytes, z: bytes)
    ensures c + h + (e + text + (x + y + z)) == c + h + e + text + x + y + z
    ensures h == [] ==> c + h == c
    ensures z == [] ==> c + h + e + text + x + y + z == c + h + e + text + x + y
  {
  }

  // ----- Whole exchanges -----

  /** What becomes of an exchange of two requests, with the answer to the token in either case. */
  predicate Settled(authenticators: Authenticators, version: int16, mechanism: bytes, token: bytes, size: nat, b: bytes,
                    handshakeAnswer: bytes, accepted: bytes, refused: bytes) {
    if mechanism in authenticators && authenticators[mechanism](token) == None then
      && TakeExchange(authenticators, version, b) == Some(Exchange(mechanism, token, size, handshakeAnswer + accepted))
      && ExchangeAnswer(authenticators, version, b) == handshakeAnswer + accepted
    else
      && TakeExchange(authenticators, version, b) == None
      && (mechanism in authenticators ==> ExchangeAnswer(authenticators, version, b) == handshakeAnswer + refused)
  }

  lemma HandshakeOffered(authenticators: Authenticators, version: int16, correlationId: int32, clientId: Option<bytes>,
                         mechanism: bytes, rest: bytes)
    requires ShortText(clientId) && |mechanism| <= 32767
    ensures var request := HandshakeRequest(version, correlationId, clientId, mechanism); var b := request + rest;
            && OfferedMechanism(authenticators, version, b)
               == (if mechanism in authenticators
                   then Some(Offer(mechanism, |request|, HandshakeResponse(correlationId, 0, mechanism))) else None)
            && HandshakeAnswer(authenticators, version, b)
               == HandshakeResponse(correlationId, if mechanism in authenticators then 0 else 33, mechanism)
            && b[|request|..] == rest
  {
    hide AskedMechanism, HandshakeFrame, HandshakeRequest;
    HandshakeAsked(version, correlationId, clientId, mechanism, rest);
    var n := |HandshakeRequest(version, correlationId, clientId, mechanism)|;
    HandshakeFramed(version, correlationId, mechanism, n, 0);
    HandshakeFramed(version, correlationId, mechanism, n, 33);
  }

  /** A SaslHandshake naming a mechanism that is not configured is answered with error 33, and nothing else is done. */
  lemma UnknownMechanism(authenticators: Authenticators, version: int16, correlationId: int32, clientId: Option<bytes>,
                         mechanism: bytes, rest: bytes)
    requires ShortText(clientId) && |mechanism| <= 32767 && mechanism !in authenticators
    ensures var b := HandshakeRequest(version, correlationId, clientId, mechanism) + rest;
            && TakeExchange(authenticators, version, b) == None
            && ExchangeAnswer(authenticators, version, b) == HandshakeResponse(correlationId, 33, mechanism)
  {
    hide OfferedMechanism, HandshakeAnswer, HandshakeRequest, HandshakeResponse;
    HandshakeOffered(authenticators, version, correlationId, clientId, mechanism, rest);
  }

  /**
   SaslHandshake 1 and SaslAuthenticate 0 or 1, whatever follows: the authenticator of the mechanism named is asked about
   just the token that was sent, both requests are taken and no more, and each is answered with its own correlation id.
   */
  lemma ExchangeV1(authenticators: Authenticators, clientId: Option<bytes>, handshakeId: int32, mechanism: bytes,
                   version: int16, correlationId: int32, token: Option<bytes>, rest: bytes)
    requires ShortText(clientId) && |mechanism| <= 32767 && 0 <= version <= 1
    requires |AuthenticateRequest(version, correlationId, clientId, token)| - 4 <= 104857600
    requires mechanism in authenticators ==> ShortText(authenticators[mechanism](TokenOf(token)))
    ensures var handshake := HandshakeRequest(1, handshakeId, clientId, mechanism);
            var request := AuthenticateRequest(version, correlationId, clientId, token);
            Settled(authenticators, 1, mechanism, TokenOf(token), |handshake| + |request|, handshake + (request + rest),
                    HandshakeResponse(handshakeId, 0, mechanism), AuthenticateResponse(version, correlationId, 0, None),
                    if mechanism in authenticators
                    then AuthenticateResponse(version, correlationId, 58, authenticators[mechanism](TokenOf(token))) else [])
  {
    hide HandshakeRequest, AuthenticateRequest, HandshakeResponse, AuthenticateResponse, AskedToken, TokenFrame;
    hide OfferedMechanism, HandshakeAnswer;
    var request := AuthenticateRequest(version, correlationId, clientId, token);
    HandshakeOffered(authenticators, 1, handshakeId, clientId, mechanism, request + rest);
    TokenAsked(version, correlationId, clientId, token, rest);
    TokenFramed(version, correlationId, TokenOf(token), |request|, None);
    if mechanism in authenticators {
      TokenFramed(version, correlationId, TokenOf(token), |request|, authenticators[mechanism](TokenOf(token)));
    }
  }

  /** The same with SaslAuthenticate 2, whatever tagged fields the request has. */
  lemma ExchangeV2(authenticators: Authenticators, clientId: Option<bytes>, handshakeId: int32, mechanism: bytes,
                   correlationId: int32, headerTags: seq<RawTaggedField>, token: bytes, tags: seq<RawTaggedField>, rest: bytes)
    requires ShortText(clientId) && |mechanism| <= 32767 && EncTagged(headerTags).Success? && EncTagged(tags).Success?
    requires |FlexibleRequest(correlationId, clientId, headerTags, token, tags)| - 4 <= 104857600
    requires mechanism in authenticators ==> ShortText(authenticators[mechanism](token))
    ensures var handshake := HandshakeRequest(1, handshakeId, clientId, mechanism);
            var request := FlexibleRequest(correlationId, clientId, headerTags, token, tags);
            Settled(authenticators, 1, mechanism, token, |handshake| + |request|, handshake + (request + rest),
                    HandshakeResponse(handshakeId, 0, mechanism), AuthenticateResponse(2, correlationId, 0, None),
                    if mechanism in authenticators
                    then AuthenticateResponse(2, correlationId, 58, authenticators[mechanism](token)) else [])
  {
    hide HandshakeRequest, FlexibleRequest, HandshakeResponse, AuthenticateResponse, AskedToken, TokenFrame;
    hide OfferedMechanism, HandshakeAnswer, EncTagged;
    var request := FlexibleRequest(correlationId, clientId, headerTags, token, tags);
    HandshakeOffered(authenticators, 1, handshakeId, clientId, mechanism, request + rest);
    FlexibleTokenAsked(correlationId, clientId, headerTags, token, tags, rest);
    TokenFramed(2, correlationId, token, |request|, None);
    if mechanism in authenticators {
      TokenFramed(2, correlationId, token, |request|, authenticators[mechanism](token));
    }
  }

  /** SaslHandshake 0 and a bare token behind its length: four zero bytes, or no answer to the token. */
  lemma ExchangeV0(authenticators: Authenticators, clientId: Option<bytes>, handshakeId: int32, mechanism: bytes, token: bytes,
                   rest: bytes)
    requires ShortText(clientId) && |mechanism| <= 32767 && |token| <= 104857600
    ensures var handshake := HandshakeRequest(0, handshakeId, clientId, mechanism);
            var message := IntBytes(4, |token|) + token;
            Settled(authenticators, 0, mechanism, token, |handshake| + |message|, handshake + (message + rest),
                    HandshakeResponse(handshakeId, 0, mechanism), [0, 0, 0, 0], [])
  {
    hide HandshakeRequest, HandshakeResponse, OfferedMechanism, HandshakeAnswer, OfferedTokenV0;
    var message := IntBytes(4, |token|) + token;
    HandshakeOffered(authenticators, 0, handshakeId, clientId, mechanism, message + rest);
    BareTokenOffered(token, rest);
  }

  lemma BareTokenOffered(token: bytes, rest: bytes)
    requires |token| <= 104857600
    ensures OfferedTokenV0(IntBytes(4, |token|) + token + rest) == Some(Offer(token, 4 + |token|, [0, 0, 0, 0]))
  {
    Widths();
    GetPutBE(4, |token|);
    var b := IntBytes(4, |token|) + token + rest;
    assert b[..4] == PutBE(4, |token|) && b[4..4 + |token|] == token;
    FourZeros();
  }

  lemma FourZeros()
    ensures PutBE(4, 0) == [0, 0, 0, 0]
  {
    assert PutBE(1, 0) == [0] && PutBE(2, 0) == [0, 0] && PutBE(3, 0) == [0, 0, 0];
  }

  lemma Suffixes(p: bytes, n: nat, h: bytes, c: bytes, t: bytes)
    requires n <= |p| && p[n..] == h + c + t
    ensures p[n..] == h + (c + t) && n + |h| + |c| + |t| == |p|
    ensures p[n + |h|..] == c + t && p[n + |h| + |c|..] == t
  {
    assert p[n + |h|..] == p[n..][|h|..] && p[n + |h| + |c|..] == p[n..][|h| + |c|..];
  }
}
