/**
 The request loop, the response loop and the broker as one state machine (proxy/processor.go and the handlers):
 every channel operation, read and write is a step, and the steps of the three interleave freely.
 */
module Pipeline {
  import opened Wire
  import opened LocalSasl
  import opened ProduceAcks
  import R = RequestHandlers

  type Handler = R.Handler

  const MIN_OPEN_REQUESTS := 16

  datatype Config = Config(rules: R.Rules, authenticators: Authenticators, configuredOpenRequests: nat)
  {
    /** newProcessor's lower bound on the channel size. */
    function MaxOpenRequests(): nat {
      if configuredOpenRequests < MIN_OPEN_REQUESTS then MIN_OPEN_REQUESTS else configuredOpenRequests
    }
  }

  /** A message on its way to the broker: a framed request, or the raw token that follows a SaslHandshake v0. */
  datatype Message = Framed(kv: KeyVersion, reply: bool) | RawToken

  predicate Expected(m: Message) {
    m.Framed? ==> m.reply
  }

  /** The handler a response to m needs. */
  function HandlerFor(m: Message): Handler {
    if m.Framed? then R.Default else R.SaslAuthV0
  }

  datatype RequestPc =
    | AtHead
    | Handling(h: Handler)                                    // the handler was taken off its channel
    | Recording(kv: KeyVersion)                               // before sendRequestKeyVersion
    | Writing(kv: KeyVersion, reply: bool)                    // before the write to the broker
    | PuttingRequest(next: Handler, response: Option<Handler>)
    | PuttingResponse(put: Handler)
    | RequestsStopped(failed: bool)                           // failed is false for a nil error

  datatype ResponsePc =
    | Waiting                                                 // before getNextResponseHandler
    | Reading(h: Handler)                                     // before the first read of a response
    | Matching(answers: Message)                              // header read, before receiveRequestKeyVersion
    | Delivering(kv: KeyVersion, answers: Message)
    | ResponsesStopped

  /** A response the client got: by which handler, with which open request, and in answer to what. */
  datatype Processed = Processed(h: Handler, kv: Option<KeyVersion>, answers: Message)

  type Event = R.Event

  datatype State = State(
    localSaslDone: bool,
    requestPc: RequestPc,
    responsePc: ResponsePc,
    // the three channels
    openRequests: seq<KeyVersion>,
    requestHandlers: seq<Handler>,
    responseHandlers: seq<Handler>,
    // the broker connection
    toBroker: seq<Message>,
    fromBroker: seq<Message>,
    // history
    sent: seq<Message>,          // messages expecting a reply, as they were written
    enqueued: seq<Handler>,      // response handlers, as they were put
    recorded: seq<KeyVersion>,   // open requests, as they were recorded
    answered: nat,               // replies the broker has given
    taken: nat,                  // response handlers taken off their channel
    read: nat,                   // replies whose first bytes were read
    matched: nat,                // open requests received by the response loop
    processed: seq<Processed>,
    events: seq<Event>)

  function Init(): State {
    State(false, AtHead, Waiting, [], [R.Default], [R.Default], [], [], [], [R.Default], [], 0, 0, 0, 0, [], [])
  }

  datatype Action =
    | TakeRequestHandler
    | ReadRequest(kv: KeyVersion, reply: bool)
    | AuthenticateLocally(kv: KeyVersion, mechanism: bytes, token: bytes)
    | Record
    | Write
    | WriteToken
    | PutRequestHandler
    | PutResponseHandler
    | TimeOutRequests
    | FailRequests
    | Answer
    | TakeResponseHandler
    | ReadResponse
    | Match
    | Deliver
    | TimeOutResponses
    | FailResponses

  // Each action: the state after it, or None where it cannot happen.

  function TakeRequestHandlerStep(s: State): Option<State> {
    if s.requestPc != AtHead then None
    else if s.requestHandlers == [] then Some(s.(requestPc := RequestsStopped(false)))
    else Some(s.(requestPc := Handling(s.requestHandlers[0]), requestHandlers := s.requestHandlers[1..]))
  }

  function ReadRequestStep(c: Config, s: State, kv: KeyVersion, reply: bool): Option<State> {
    if s.requestPc != Handling(R.Default) || !R.CheckKey(c.rules, s.localSaslDone, kv).Pass?
       || !(reply || kv.apiKey == API_KEY_PRODUCE) then None
    else Some(s.(requestPc := if reply then Recording(kv) else Writing(kv, reply)))
  }

  /** The exchange with the client succeeds: an authenticator accepts the token. */
  function AuthenticateStep(c: Config, s: State, kv: KeyVersion, mechanism: bytes, token: bytes): Option<State> {
    if s.requestPc != Handling(R.Default) || !R.CheckKey(c.rules, s.localSaslDone, kv).Local?
       || !Accepts(c.authenticators, mechanism, token) then None
    else Some(s.(localSaslDone := true, requestPc := PuttingRequest(R.Default, None),
                 events := s.events + [R.Authenticated(mechanism, token)]))
  }

  function RecordStep(c: Config, s: State): Option<State> {
    if !s.requestPc.Recording? || |s.openRequests| >= c.MaxOpenRequests() then None
    else
      var kv := s.requestPc.kv;
      Some(s.(requestPc := Writing(kv, true), openRequests := s.openRequests + [kv], recorded := s.recorded + [kv]))
  }

  function WriteStep(s: State): Option<State> {
    if !s.requestPc.Writing? then None
    else
      var (kv, reply) := (s.requestPc.kv, s.requestPc.reply);
      var next := if R.IsSaslHandshakeV0(kv) then R.SaslAuthV0 else R.Default;
      var t := s.(requestPc := PuttingRequest(next, if R.IsSaslHandshakeV0(kv) || reply then Some(next) else None),
                  events := s.events + [R.Forwarded(kv.apiKey)]);
      Some(Send(t, Framed(kv, reply)))
  }

  function WriteTokenStep(s: State): Option<State> {
    if s.requestPc != Handling(R.SaslAuthV0) then None
    else Some(Send(s.(requestPc := PuttingRequest(R.Default, Some(R.Default)), events := s.events + [R.RawToken]), RawToken))
  }

  function Send(s: State, m: Message): State {
    s.(toBroker := s.toBroker + [m], sent := s.sent + if Expected(m) then [m] else [])
  }

  function PutRequestHandlerStep(s: State): Option<State> {
    if !s.requestPc.PuttingRequest? then None
    else if |s.requestHandlers| >= 1 then Some(s.(requestPc := RequestsStopped(true)))
    else
      var r := s.requestPc.response;
      Some(s.(requestHandlers := s.requestHandlers + [s.requestPc.next],
              requestPc := if r.None? then AtHead else PuttingResponse(r.value)))
  }

  function PutResponseHandlerStep(c: Config, s: State): Option<State> {
    if !s.requestPc.PuttingResponse? || |s.responseHandlers| >= c.MaxOpenRequests() + 1 then None
    else
      var h := s.requestPc.put;
      Some(s.(requestPc := AtHead, responseHandlers := s.responseHandlers + [h], enqueued := s.enqueued + [h]))
  }

  /** A put that stayed blocked on a full channel until its timer fired. */
  function TimeOutRequestsStep(c: Config, s: State): Option<State> {
    if (s.requestPc.Recording? && |s.openRequests| >= c.MaxOpenRequests())
       || (s.requestPc.PuttingResponse? && |s.responseHandlers| >= c.MaxOpenRequests() + 1)
    then Some(s.(requestPc := RequestsStopped(true))) else None
  }

  /** Any error of a read, a write or a check. */
  function FailRequestsStep(s: State): Option<State> {
    if s.requestPc.Handling? || s.requestPc.Writing? then Some(s.(requestPc := RequestsStopped(true))) else None
  }

  /** The broker takes one message and answers it if it expects an answer. */
  function AnswerStep(s: State): Option<State> {
    if s.toBroker == [] then None
    else if !Expected(s.toBroker[0]) then Some(s.(toBroker := s.toBroker[1..]))
    else Some(s.(toBroker := s.toBroker[1..], fromBroker := s.fromBroker + [s.toBroker[0]], answered := s.answered + 1))
  }

  function TakeResponseHandlerStep(s: State): Option<State> {
    if s.responsePc != Waiting || s.responseHandlers == [] then None
    else Some(s.(responsePc := Reading(s.responseHandlers[0]), responseHandlers := s.responseHandlers[1..],
                 taken := s.taken + 1))
  }

  /** The default handler reads a header; the raw one reads, and passes on, the whole answer. */
  function ReadResponseStep(s: State): Option<State> {
    if !s.responsePc.Reading? || s.fromBroker == [] then None
    else
      var t := s.(fromBroker := s.fromBroker[1..], read := s.read + 1);
      if s.responsePc.h == R.Default then Some(t.(responsePc := Matching(s.fromBroker[0])))
      else Some(t.(responsePc := Waiting, processed := s.processed + [Processed(s.responsePc.h, None, s.fromBroker[0])]))
  }

  function MatchStep(s: State): Option<State> {
    if !s.responsePc.Matching? || s.openRequests == [] then None
    else Some(s.(responsePc := Delivering(s.openRequests[0], s.responsePc.answers),
                 openRequests := s.openRequests[1..], matched := s.matched + 1))
  }

  function DeliverStep(s: State): Option<State> {
    if !s.responsePc.Delivering? then None
    else Some(s.(responsePc := Waiting,
                 processed := s.processed + [Processed(R.Default, Some(s.responsePc.kv), s.responsePc.answers)]))
  }

  /** A get that stayed blocked on an empty channel until its timer fired. */
  function TimeOutResponsesStep(s: State): Option<State> {
    if (s.responsePc == Waiting && s.responseHandlers == []) || (s.responsePc.Matching? && s.openRequests == [])
    then Some(s.(responsePc := ResponsesStopped)) else None
  }

  function FailResponsesStep(s: State): Option<State> {
    if s.responsePc.Reading? || s.responsePc.Delivering? then Some(s.(responsePc := ResponsesStopped)) else None
  }

  function Step(c: Config, s: State, a: Action): Option<State> {
    match a
    case TakeRequestHandler => TakeRequestHandlerStep(s)
    case ReadRequest(kv, reply) => ReadRequestStep(c, s, kv, reply)
    case AuthenticateLocally(kv, mechanism, token) => AuthenticateStep(c, s, kv, mechanism, token)
    case Record => RecordStep(c, s)
    case Write => WriteStep(s)
    case WriteToken => WriteTokenStep(s)
    case PutRequestHandler => PutRequestHandlerStep(s)
    case PutResponseHandler => PutResponseHandlerStep(c, s)
    case TimeOutRequests => TimeOutRequestsStep(c, s)
    case FailRequests => FailRequestsStep(s)
    case Answer => AnswerStep(s)
    case TakeResponseHandler => TakeResponseHandlerStep(s)
    case ReadResponse => ReadResponseStep(s)
    case Match => MatchStep(s)
    case Deliver => DeliverStep(s)
    case TimeOutResponses => TimeOutResponsesStep(s)
    case FailResponses => FailResponsesStep(s)
  }

  /** A run: any sequence of actions, each possible where it happens. */
  function Run(c: Config, s: State, actions: seq<Action>): Option<State>
    decreases |actions|
  {
    if actions == [] then Some(s)
    else
      match Step(c, s, actions[0])
      case None => None
      case Some(t) => Run(c, t, actions[1..])
  }

  ghost predicate Reachable(c: Config, s: State) {
    exists actions :: Run(c, Init(), actions) == Some(s)
  }

  // ----- The invariant -----

  /** The open requests that belong to a list of messages. */
  function Calls(ms: seq<Message>): (r: seq<KeyVersion>)
    ensures |r| <= |ms|
  {
    if ms == [] then []
    else if ms[0].Framed? then [ms[0].kv] + Calls(ms[1..])
    else Calls(ms[1..])
  }

  /** The messages of a list that expect an answer. */
  function Expecting(ms: seq<Message>): seq<Message> {
    if ms == [] then [] else (if Expected(ms[0]) then [ms[0]] else []) + Expecting(ms[1..])
  }

  /** The broker has answered a prefix of what it was sent, in order. */
  predicate BrokerInv(s: State) {
    && s.read <= s.answered <= |s.sent|
    && s.fromBroker == s.sent[s.read..s.answered]
    && Expecting(s.toBroker) == s.sent[s.answered..]
    && forall i :: 0 <= i < |s.sent| ==> Expected(s.sent[i])
  }

  /** Response handler number k was put for reply number k. */
  predicate HandlersInv(s: State) {
    && |s.sent| <= |s.enqueued| <= |s.sent| + 1
    && forall i :: 0 <= i < |s.sent| ==> s.enqueued[i] == HandlerFor(s.sent[i])
  }

  /** Where the request loop is decides what is on its own channel, and whether the next response handler is out. */
  predicate RequestInv(c: Config, s: State) {
    && Calls(s.sent) <= s.recorded && |s.recorded| <= |Calls(s.sent)| + 1
    && |s.openRequests| <= c.MaxOpenRequests()
    && var next := |s.sent|;
       match s.requestPc
       case AtHead => |s.enqueued| == next + 1 && s.requestHandlers == [s.enqueued[next]] && s.recorded == Calls(s.sent)
       case Handling(h) =>
         |s.enqueued| == next + 1 && s.requestHandlers == [] && h == s.enqueued[next] && s.recorded == Calls(s.sent)
       case Recording(kv) =>
         && |s.enqueued| == next + 1 && s.requestHandlers == [] && s.enqueued[next] == R.Default && s.recorded == Calls(s.sent)
         && R.CheckKey(c.rules, s.localSaslDone, kv).Pass?
       case Writing(kv, reply) =>
         && |s.enqueued| == next + 1 && s.requestHandlers == [] && s.enqueued[next] == R.Default
         && s.recorded == Calls(s.sent) + (if reply then [kv] else [])
         && (reply || kv.apiKey == API_KEY_PRODUCE) && R.CheckKey(c.rules, s.localSaslDone, kv).Pass?
       case PuttingRequest(h, response) =>
         && s.requestHandlers == [] && s.recorded == Calls(s.sent)
         && (if response.None? then |s.enqueued| == next + 1 && h == R.Default == s.enqueued[next]
             else |s.enqueued| == next && h == response.value)
       case PuttingResponse(h) => |s.enqueued| == next && s.requestHandlers == [h] && s.recorded == Calls(s.sent)
       case RequestsStopped(failed) => failed
  }

  predicate ResponseInv(s: State)
    requires s.read <= |s.sent|
  {
    && s.read <= s.taken <= |s.enqueued| && s.responseHandlers == s.enqueued[s.taken..]
    && s.matched <= |Calls(s.sent[..s.read])| && s.matched <= |s.recorded| && s.openRequests == s.recorded[s.matched..]
    && var upToDate := s.matched == |Calls(s.sent[..s.read])|;
       match s.responsePc
       case Waiting => s.taken == s.read == |s.processed| && upToDate
       case Reading(h) => s.taken == s.read + 1 == |s.processed| + 1 && h == s.enqueued[s.read] && upToDate
       case Matching(m) =>
         && s.taken == s.read == |s.processed| + 1 && s.sent[s.read - 1] == m && m.Framed?
         && s.matched == |Calls(s.sent[..s.read - 1])|
       case Delivering(kv, m) =>
         s.taken == s.read == |s.processed| + 1 && s.sent[s.read - 1] == m && m.Framed? && m.kv == kv && upToDate
       case ResponsesStopped => |s.processed| <= s.read
  }

  /** Every processed response went through the right handler with the right open request. */
  predicate ProcessedInv(s: State) {
    && |s.processed| <= |s.sent|
    && forall i :: 0 <= i < |s.processed| ==>
         && s.processed[i].answers == s.sent[i]
         && s.processed[i].h == HandlerFor(s.sent[i])
         && (s.sent[i].Framed? ==> s.processed[i].kv == Some(s.sent[i].kv))
  }

  /** The local SASL gate. */
  predicate GateInv(c: Config, s: State) {
    && (s.localSaslDone <==> R.AuthenticatedBefore(c.authenticators, s.events, |s.events|))
    && R.Gated(c.rules.localSaslEnabled, c.authenticators, s.events)
    && (TokensExcluded(c) ==> NothingRaw(s))
  }

  /** The rules let no SaslHandshake through to the broker, so no raw token can follow one. */
  predicate TokensExcluded(c: Config) {
    c.rules.localSaslEnabled || API_KEY_SASL_HANDSHAKE in c.rules.forbiddenApiKeys
  }

  /** No raw SASL v0 handler is out or about to be put, and no raw token was ever sent. */
  predicate NothingRaw(s: State) {
    && R.SaslAuthV0 !in s.enqueued && R.SaslAuthV0 !in s.requestHandlers && s.requestPc != PuttingResponse(R.SaslAuthV0)
    && !(s.requestPc.PuttingRequest? && s.requestPc.next == R.SaslAuthV0)
    && s.requestPc != Handling(R.SaslAuthV0) && RawToken !in s.sent
  }

  predicate Inv(c: Config, s: State) {
    BrokerInv(s) && HandlersInv(s) && RequestInv(c, s) && ResponseInv(s) && ProcessedInv(s) && GateInv(c, s)
  }

  lemma {:induction false} CallsAppend(ms: seq<Message>, ns: seq<Message>)
    ensures Calls(ms + ns) == Calls(ms) + Calls(ns)
  {
    if ms == [] {
      assert ms + ns == ns && Calls(ms) + Calls(ns) == Calls(ns);
    } else {
      CallsAppend(ms[1..], ns);
      assert (ms + ns)[1..] == ms[1..] + ns && (ms + ns)[0] == ms[0];
      if ms[0].Framed? {
        assert [ms[0].kv] + (Calls(ms[1..]) + Calls(ns)) == [ms[0].kv] + Calls(ms[1..]) + Calls(ns);
      }
    }
  }

  lemma {:induction false} ExpectingAppend(ms: seq<Message>, ns: seq<Message>)
    ensures Expecting(ms + ns) == Expecting(ms) + Expecting(ns)
  {
    if ms == [] {
      assert ms + ns == ns && Expecting(ms) + Expecting(ns) == Expecting(ns);
    } else {
      ExpectingAppend(ms[1..], ns);
      assert (ms + ns)[1..] == ms[1..] + ns && (ms + ns)[0] == ms[0];
      var e := if Expected(ms[0]) then [ms[0]] else [];
      assert e + (Expecting(ms[1..]) + Expecting(ns)) == e + Expecting(ms[1..]) + Expecting(ns);
    }
  }

  lemma {:induction false} CallsPrefix(ms: seq<Message>, k: nat)
    requires k <= |ms|
    ensures Calls(ms[..k]) <= Calls(ms)
    ensures k < |ms| && ms[k].Framed? ==> |Calls(ms[..k])| < |Calls(ms)| && Calls(ms)[|Calls(ms[..k])|] == ms[k].kv
    ensures k < |ms| ==> Calls(ms[..k + 1]) == Calls(ms[..k]) + if ms[k].Framed? then [ms[k].kv] else []
  {
    CallsAppend(ms[..k], ms[k..]);
    assert ms[..k] + ms[k..] == ms;
    if k < |ms| {
      CallsAppend(ms[..k], [ms[k]]);
      assert ms[..k] + [ms[k]] == ms[..k + 1];
    }
  }

  lemma InitInv(c: Config)
    ensures Inv(c, Init())
  {
    R.NothingGated(c.rules.localSaslEnabled, c.authenticators);
  }

  lemma TakeRequestHandlerKeepsInv(c: Config, s: State)
    requires Inv(c, s) && TakeRequestHandlerStep(s).Some?
    ensures Inv(c, TakeRequestHandlerStep(s).value)
  {
  }

  lemma ReadRequestKeepsInv(c: Config, s: State, kv: KeyVersion, reply: bool)
    requires Inv(c, s) && ReadRequestStep(c, s, kv, reply).Some?
    ensures Inv(c, ReadRequestStep(c, s, kv, reply).value)
  {
  }

  lemma AuthenticateKeepsInv(c: Config, s: State, kv: KeyVersion, mechanism: bytes, token: bytes)
    requires Inv(c, s) && AuthenticateStep(c, s, kv, mechanism, token).Some?
    ensures Inv(c, AuthenticateStep(c, s, kv, mechanism, token).value)
  {
    hide R.Gated, R.AuthenticatedBefore, Accepts;
    var e := R.Authenticated(mechanism, token);
    R.GatedExtend(c.rules.localSaslEnabled, c.authenticators, s.events, e);
    R.AuthenticatedStep(c.authenticators, s.events, e);
  }

  lemma RecordKeepsInv(c: Config, s: State)
    requires Inv(c, s) && RecordStep(c, s).Some?
    ensures Inv(c, RecordStep(c, s).value)
  {
  }

  lemma SendKeepsBroker(s: State, m: Message)
    requires BrokerInv(s)
    ensures BrokerInv(Send(s, m))
  {
    ExpectingAppend(s.toBroker, [m]);
  }

  lemma SendKeepsResponses(s: State, m: Message)
    requires s.read <= |s.sent| && ResponseInv(s)
    ensures ResponseInv(Send(s, m))
  {
    var t := Send(s, m);
    assert t.sent[..s.read] == s.sent[..s.read];
    assert s.read > 0 ==> t.sent[..s.read - 1] == s.sent[..s.read - 1];
  }

  lemma SendKeepsProcessed(s: State, m: Message)
    requires ProcessedInv(s)
    ensures ProcessedInv(Send(s, m))
  {
  }

  lemma SendAddsCall(s: State, m: Message)
    ensures Calls(Send(s, m).sent) == Calls(s.sent) + if m.Framed? && m.reply then [m.kv] else []
  {
    CallsAppend(s.sent, if Expected(m) then [m] else []);
  }

  /** The request loop's position and the events matter to no other part of the invariant. */
  lemma RequestPcFrame(s: State, pc: RequestPc, handlers: seq<Handler>, events: seq<Event>)
    requires s.read <= |s.sent|
    ensures var t := s.(requestPc := pc, requestHandlers := handlers, events := events);
            && ResponseInv(t) == ResponseInv(s) && ProcessedInv(t) == ProcessedInv(s) && BrokerInv(t) == BrokerInv(s)
  {
  }

  lemma WriteKeepsRequests(c: Config, s: State)
    requires Inv(c, s) && WriteStep(s).Some?
    ensures HandlersInv(WriteStep(s).value) && RequestInv(c, WriteStep(s).value) && GateInv(c, WriteStep(s).value)
  {
    hide BrokerInv, ResponseInv, ProcessedInv;
    SendAddsCall(s, Framed(s.requestPc.kv, s.requestPc.reply));
    hide R.Gated, R.AuthenticatedBefore;
    var e := R.Forwarded(s.requestPc.kv.apiKey);
    R.GatedExtend(c.rules.localSaslEnabled, c.authenticators, s.events, e);
    R.AuthenticatedStep(c.authenticators, s.events, e);
  }

  lemma WriteKeepsInv(c: Config, s: State)
    requires Inv(c, s) && WriteStep(s).Some?
    ensures Inv(c, WriteStep(s).value)
  {
    var t := WriteStep(s).value;
    var u := s.(requestPc := t.requestPc, events := t.events);
    WriteKeepsRequests(c, s);
    assert s.read <= |s.sent|;
    hide BrokerInv, HandlersInv, RequestInv, ResponseInv, ProcessedInv, GateInv;
    RequestPcFrame(s, t.requestPc, s.requestHandlers, t.events);
    SendKeepsBroker(u, Framed(s.requestPc.kv, s.requestPc.reply));
    SendKeepsResponses(u, Framed(s.requestPc.kv, s.requestPc.reply));
    SendKeepsProcessed(u, Framed(s.requestPc.kv, s.requestPc.reply));
  }

  lemma WriteTokenKeepsRequests(c: Config, s: State)
    requires Inv(c, s) && WriteTokenStep(s).Some?
    ensures var t := WriteTokenStep(s).value; HandlersInv(t) && RequestInv(c, t) && GateInv(c, t)
  {
    hide BrokerInv, ResponseInv, ProcessedInv, R.Gated, R.AuthenticatedBefore;
    SendAddsCall(s, RawToken);
    R.GatedExtend(c.rules.localSaslEnabled, c.authenticators, s.events, R.RawToken);
    R.AuthenticatedStep(c.authenticators, s.events, R.RawToken);
  }

  lemma WriteTokenKeepsInv(c: Config, s: State)
    requires Inv(c, s) && WriteTokenStep(s).Some?
    ensures Inv(c, WriteTokenStep(s).value)
  {
    var t := WriteTokenStep(s).value;
    var u := s.(requestPc := t.requestPc, events := t.events);
    WriteTokenKeepsRequests(c, s);
    assert s.read <= |s.sent|;
    hide BrokerInv, HandlersInv, RequestInv, ResponseInv, ProcessedInv, GateInv;
    RequestPcFrame(s, t.requestPc, s.requestHandlers, t.events);
    SendKeepsBroker(u, RawToken);
    SendKeepsResponses(u, RawToken);
    SendKeepsProcessed(u, RawToken);
  }

  lemma PutRequestHandlerKeepsInv(c: Config, s: State)
    requires Inv(c, s) && PutRequestHandlerStep(s).Some?
    ensures Inv(c, PutRequestHandlerStep(s).value)
  {
    var t := PutRequestHandlerStep(s).value;
    RequestPcFrame(s, t.requestPc, t.requestHandlers, s.events);
    PutRequestHandlerKeepsRequests(c, s);
    PutRequestHandlerKeepsGate(c, s);
    hide BrokerInv, HandlersInv, RequestInv, ResponseInv, ProcessedInv, GateInv;
  }

  lemma PutRequestHandlerKeepsRequests(c: Config, s: State)
    requires HandlersInv(s) && RequestInv(c, s) && PutRequestHandlerStep(s).Some?
    ensures HandlersInv(PutRequestHandlerStep(s).value) && RequestInv(c, PutRequestHandlerStep(s).value)
  {
  }

  lemma PutRequestHandlerKeepsGate(c: Config, s: State)
    requires RequestInv(c, s) && GateInv(c, s) && PutRequestHandlerStep(s).Some?
    ensures GateInv(c, PutRequestHandlerStep(s).value)
  {
  }

  lemma PutResponseHandlerKeepsInv(c: Config, s: State)
    requires Inv(c, s) && PutResponseHandlerStep(c, s).Some?
    ensures Inv(c, PutResponseHandlerStep(c, s).value)
  {
  }

  lemma RequestErrorsKeepInv(c: Config, s: State)
    requires Inv(c, s)
    ensures FailRequestsStep(s).Some? ==> Inv(c, FailRequestsStep(s).value)
    ensures TimeOutRequestsStep(c, s).Some? ==> Inv(c, TimeOutRequestsStep(c, s).value)
  {
    RequestPcFrame(s, RequestsStopped(true), s.requestHandlers, s.events);
    hide BrokerInv, ResponseInv, ProcessedInv;
  }

  lemma AnswerKeepsInv(c: Config, s: State)
    requires Inv(c, s) && AnswerStep(s).Some?
    ensures Inv(c, AnswerStep(s).value)
  {
    hide RequestInv, ResponseInv, ProcessedInv, GateInv, HandlersInv;
    if Expected(s.toBroker[0]) {
      assert s.sent[s.answered..][0] == s.toBroker[0];
      assert s.sent[s.answered..][1..] == s.sent[s.answered + 1..];
    }
    AnswerFrame(c, s);
  }

  /** The broker touches nothing but its own connection. */
  lemma AnswerFrame(c: Config, s: State)
    requires AnswerStep(s).Some? && s.read <= |s.sent|
    ensures var t := AnswerStep(s).value;
            && RequestInv(c, t) == RequestInv(c, s) && ResponseInv(t) == ResponseInv(s)
            && ProcessedInv(t) == ProcessedInv(s) && GateInv(c, t) == GateInv(c, s) && HandlersInv(t) == HandlersInv(s)
  {
    hide RequestInv, GateInv, HandlersInv;
    AnswerFrameRequests(c, s);
  }

  lemma AnswerFrameRequests(c: Config, s: State)
    requires AnswerStep(s).Some?
    ensures var t := AnswerStep(s).value;
            RequestInv(c, t) == RequestInv(c, s) && GateInv(c, t) == GateInv(c, s) && HandlersInv(t) == HandlersInv(s)
  {
  }

  lemma TakeResponseHandlerKeepsInv(c: Config, s: State)
    requires Inv(c, s) && TakeResponseHandlerStep(s).Some?
    ensures Inv(c, TakeResponseHandlerStep(s).value)
  {
  }

  lemma ReadResponseKeepsInv(c: Config, s: State)
    requires Inv(c, s) && ReadResponseStep(s).Some?
    ensures Inv(c, ReadResponseStep(s).value)
  {
    ReadResponseFrame(c, s);
    ReadResponseBroker(s);
    ReadResponseResponses(s);
    hide BrokerInv, HandlersInv, RequestInv, ResponseInv, ProcessedInv, GateInv;
  }

  lemma ReadResponseBroker(s: State)
    requires BrokerInv(s) && ReadResponseStep(s).Some?
    ensures BrokerInv(ReadResponseStep(s).value)
  {
  }

  lemma ReadResponseResponses(s: State)
    requires BrokerInv(s) && ResponseInv(s) && ProcessedInv(s) && ReadResponseStep(s).Some?
    requires s.responsePc.h == HandlerFor(s.sent[s.read])
    ensures ResponseInv(ReadResponseStep(s).value) && ProcessedInv(ReadResponseStep(s).value)
  {
    CallsPrefix(s.sent, s.read);
    assert s.fromBroker[0] == s.sent[s.read];
  }

  lemma ReadResponseFrame(c: Config, s: State)
    requires Inv(c, s) && ReadResponseStep(s).Some?
    ensures var t := ReadResponseStep(s).value;
            && RequestInv(c, t) == RequestInv(c, s) && GateInv(c, t) == GateInv(c, s) && HandlersInv(t) == HandlersInv(s)
    ensures s.responsePc.h == HandlerFor(s.sent[s.read])
  {
  }

  lemma MatchKeepsInv(c: Config, s: State)
    requires Inv(c, s) && MatchStep(s).Some?
    ensures Inv(c, MatchStep(s).value)
  {
    CallsPrefix(s.sent, s.read - 1);
    assert s.openRequests[0] == s.recorded[s.matched];
  }

  lemma DeliverKeepsInv(c: Config, s: State)
    requires Inv(c, s) && DeliverStep(s).Some?
    ensures Inv(c, DeliverStep(s).value)
  {
  }

  lemma ResponseErrorsKeepInv(c: Config, s: State)
    requires Inv(c, s)
    ensures FailResponsesStep(s).Some? ==> Inv(c, FailResponsesStep(s).value)
    ensures TimeOutResponsesStep(s).Some? ==> Inv(c, TimeOutResponsesStep(s).value)
  {
    if s.responsePc.Matching? {
      CallsPrefix(s.sent, s.read - 1);
    }
  }

  /** Every step of either loop or of the broker keeps the invariant. */
  lemma StepKeepsInv(c: Config, s: State, a: Action)
    requires Inv(c, s) && Step(c, s, a).Some?
    ensures Inv(c, Step(c, s, a).value)
  {
    match a
    case TakeRequestHandler => TakeRequestHandlerKeepsInv(c, s);
    case ReadRequest(kv, reply) => ReadRequestKeepsInv(c, s, kv, reply);
    case AuthenticateLocally(kv, mechanism, token) => AuthenticateKeepsInv(c, s, kv, mechanism, token);
    case Record => RecordKeepsInv(c, s);
    case Write => WriteKeepsInv(c, s);
    case WriteToken => WriteTokenKeepsInv(c, s);
    case PutRequestHandler => PutRequestHandlerKeepsInv(c, s);
    case PutResponseHandler => PutResponseHandlerKeepsInv(c, s);
    case Answer => AnswerKeepsInv(c, s);
    case TakeResponseHandler => TakeResponseHandlerKeepsInv(c, s);
    case ReadResponse => ReadResponseKeepsInv(c, s);
    case Match => MatchKeepsInv(c, s);
    case Deliver => DeliverKeepsInv(c, s);
    case _ =>
      RequestErrorsKeepInv(c, s);
      ResponseErrorsKeepInv(c, s);
  }

  lemma {:induction false} RunKeepsInv(c: Config, s: State, actions: seq<Action>)
    requires Inv(c, s) && Run(c, s, actions).Some?
    ensures Inv(c, Run(c, s, actions).value)
    decreases |actions|
  {
    if actions != [] {
      StepKeepsInv(c, s, actions[0]);
      RunKeepsInv(c, Step(c, s, actions[0]).value, actions[1..]);
    }
  }

  lemma ReachableInv(c: Config, s: State)
    requires Reachable(c, s)
    ensures Inv(c, s)
  {
    var actions :| Run(c, Init(), actions) == Some(s);
    InitInv(c);
    RunKeepsInv(c, Init(), actions);
  }

  // ----- What holds in every reachable state, for every interleaving -----

  /**
   The i-th response that reaches the client answers the i-th reply-expecting message, was handled by the handler kind
   that message needs, and, if framed, was paired with that request's own key and version.
   */
  lemma ResponsesCorrelate(c: Config, s: State, i: nat)
    requires Reachable(c, s) && i < |s.processed|
    ensures i < |s.sent| && s.processed[i].answers == s.sent[i] && s.processed[i].h == HandlerFor(s.sent[i])
    ensures s.sent[i].Framed? ==> s.processed[i].kv == Some(s.sent[i].kv)
  {
    ReachableInv(c, s);
  }

  /** Once a response header is read, the open request it answers is at the head of its channel. */
  lemma OpenRequestPresent(c: Config, s: State)
    requires Reachable(c, s) && s.responsePc.Matching?
    ensures s.openRequests != [] && s.responsePc.answers == Framed(s.openRequests[0], true)
    ensures Step(c, s, TimeOutResponses).None?
  {
    ReachableInv(c, s);
    CallsPrefix(s.sent, s.read - 1);
    hide GateInv, ProcessedInv, HandlersInv;
    assert s.openRequests[0] == s.recorded[s.matched];
  }

  /**
   At the head of the request loop exactly one request handler is queued, and whenever one is put the channel is empty:
   neither "handler is missing" nor "channel is full" can occur, and the loop never ends without an error.
   */
  lemma OneRequestHandler(c: Config, s: State)
    requires Reachable(c, s)
    ensures s.requestPc == AtHead ==> |s.requestHandlers| == 1
    ensures s.requestPc.PuttingRequest? ==> s.requestHandlers == []
    ensures s.requestPc != RequestsStopped(false)
  {
    ReachableInv(c, s);
  }

  /** Raw tokens among the messages whose reply the response loop has not taken up. */
  function TokensInFlight(ms: seq<Message>): (n: nat)
    ensures n == |ms| - |Calls(ms)|
  {
    if ms == [] then 0 else (if ms[0] == RawToken then 1 else 0) + TokensInFlight(ms[1..])
  }

  lemma BrokerBounds(s: State)
    requires BrokerInv(s)
    ensures s.read <= |s.sent|
  {
  }

  /** Queued response handlers never outnumber open requests and raw tokens in flight by more than the initial one. */
  lemma QueuedHandlers(c: Config, s: State)
    requires Reachable(c, s)
    ensures s.read <= |s.sent|
    ensures |s.responseHandlers| + (if s.requestPc.PuttingResponse? then 1 else 0)
            <= |s.openRequests| + TokensInFlight(s.sent[s.read..]) + 1
  {
    ReachableInv(c, s);
    hide GateInv, ProcessedInv, BrokerInv, Reachable;
    assert s.read <= |s.sent| by { BrokerBounds(s); }
    CallsAppend(s.sent[..s.read], s.sent[s.read..]);
    assert s.sent[..s.read] + s.sent[s.read..] == s.sent;
  }

  /** As long as no raw token is in flight, putting a response handler never finds its channel full. */
  lemma ResponseHandlerFits(c: Config, s: State)
    requires Reachable(c, s) && s.read <= |s.sent| && RawToken !in s.sent[s.read..]
    ensures |s.responseHandlers| <= 1 + if c.configuredOpenRequests < 16 then 16 else c.configuredOpenRequests
    ensures s.requestPc.PuttingResponse? ==> Step(c, s, PutResponseHandler).Some?
    ensures s.requestPc.PuttingResponse? ==> Step(c, s, TimeOutRequests).None?
  {
    QueuedHandlers(c, s);
    ReachableInv(c, s);
    NoTokens(s.sent[s.read..]);
  }

  lemma {:induction false} NoTokens(ms: seq<Message>)
    requires RawToken !in ms
    ensures TokensInFlight(ms) == 0
  {
    if ms != [] {
      assert ms[0] in ms;
      NoTokens(ms[1..]);
    }
  }

  /** The response loop finds no handler only while the request loop is between writing a request and putting the next. */
  lemma HandlerMissingOnlyBetween(c: Config, s: State)
    requires Reachable(c, s) && s.responsePc == Waiting && s.responseHandlers == []
    ensures s.requestPc.RequestsStopped? || s.requestPc.PuttingResponse?
            || (s.requestPc.PuttingRequest? && s.requestPc.response.Some?)
  {
    ReachableInv(c, s);
  }

  /**
   With local SASL enabled: nothing but ApiVersions before an authenticator has accepted a token of the client, no
   SaslHandshake and no raw token ever.
   */
  lemma SaslGate(c: Config, s: State, i: nat)
    requires Reachable(c, s) && c.rules.localSaslEnabled && i < |s.events| && s.events[i].Forwarded?
    ensures s.events[i].apiKey != API_KEY_SASL_HANDSHAKE
    ensures s.events[i].apiKey == R.API_KEY_API_VERSIONS || R.AuthenticatedBefore(c.authenticators, s.events, i)
    ensures R.SaslAuthV0 !in s.requestHandlers && R.SaslAuthV0 !in s.responseHandlers && RawToken !in s.sent
  {
    ReachableInv(c, s);
    assert forall h <- s.responseHandlers :: h in s.enqueued;
  }

  predicate Progress(a: Action) {
    !a.TimeOutRequests? && !a.FailRequests? && !a.TimeOutResponses? && !a.FailResponses?
  }

  /**
   No deadlock: while both loops run, some step other than an error is possible unless the request loop is waiting
   for the client and every reply has been delivered.
   */
  lemma NoDeadlock(c: Config, s: State) returns (a: Action)
    requires Reachable(c, s) && !s.requestPc.RequestsStopped? && s.responsePc != ResponsesStopped
    requires s.requestPc.Handling? ==> |s.processed| < |s.sent|
    ensures Progress(a) && Step(c, s, a).Some?
  {
    ReachableInv(c, s);
    match s.requestPc
    case AtHead => a := TakeRequestHandler;
    case Writing(_, _) => a := Write;
    case PuttingRequest(_, _) => a := PutRequestHandler;
    case Recording(_) =>
      if |s.openRequests| < c.MaxOpenRequests() {
        a := Record;
      } else {
        assert s.sent[..|s.sent|] == s.sent;
        a := ResponseProgress(c, s);
      }
    case PuttingResponse(_) =>
      if |s.responseHandlers| < c.MaxOpenRequests() + 1 {
        a := PutResponseHandler;
      } else {
        a := ResponseProgress(c, s);
      }
    case Handling(_) => a := ResponseProgress(c, s);
  }

  /** While a reply is outstanding and its handler is out, the broker or the response loop can move. */
  lemma ResponseProgress(c: Config, s: State) returns (a: Action)
    requires Reachable(c, s) && s.responsePc != ResponsesStopped
    requires |s.processed| < |s.sent| && (s.responsePc == Waiting ==> s.responseHandlers != [])
    ensures Progress(a) && Step(c, s, a).Some?
  {
    ReachableInv(c, s);
    match s.responsePc
    case Waiting => a := TakeResponseHandler;
    case Reading(_) => a := if s.fromBroker != [] then ReadResponse else Answer;
    case Matching(_) =>
      OpenRequestPresent(c, s);
      a := Match;
    case Delivering(_, _) => a := Deliver;
  }

  // ----- Where the capacity does not suffice -----

  const HANDSHAKE_V0: KeyVersion := KeyVersion(8, API_KEY_SASL_HANDSHAKE, 0)

  /** k handshakes and their tokens went out, and neither the broker nor the response loop has moved. */
  predicate Pipelined(s: State, k: nat) {
    && s.requestPc == AtHead && s.requestHandlers == [R.Default] && s.responsePc == Waiting
    && |s.openRequests| == k && |s.responseHandlers| == 1 + 2 * k
  }

  lemma {:induction false} RunAppend(c: Config, s: State, actions: seq<Action>, a: Action)
    requires Run(c, s, actions).Some?
    ensures Run(c, s, actions + [a]) == Step(c, Run(c, s, actions).value, a)
    decreases |actions|
  {
    hide Step;
    if actions == [] {
      assert actions + [a] == [a];
      assert forall t :: Run(c, t, []) == Some(t);
    } else {
      assert (actions + [a])[1..] == actions[1..] + [a];
      RunAppend(c, Step(c, s, actions[0]).value, actions[1..], a);
    }
  }

  lemma Reach(c: Config, s: State, a: Action) returns (t: State)
    requires Reachable(c, s) && Step(c, s, a).Some?
    ensures Reachable(c, t) && t == Step(c, s, a).value
  {
    t := Step(c, s, a).value;
    var actions :| Run(c, Init(), actions) == Some(s);
    RunAppend(c, Init(), actions, a);
  }

  /** The request loop forwards a SaslHandshake v0, up to where it puts the next response handler. */
  lemma SendHandshake(c: Config, s: State, k: nat) returns (t: State)
    requires Reachable(c, s) && Pipelined(s, k) && k < c.MaxOpenRequests()
    requires R.CheckKey(c.rules, s.localSaslDone, HANDSHAKE_V0).Pass?
    ensures Reachable(c, t) && t.requestPc == PuttingResponse(R.SaslAuthV0) && t.requestHandlers == [R.SaslAuthV0]
    ensures t.responsePc == Waiting && t.responseHandlers == s.responseHandlers && |t.openRequests| == k + 1
    ensures t.localSaslDone == s.localSaslDone
  {
    hide Reachable;
    t := Reach(c, s, TakeRequestHandler);
    t := Reach(c, t, ReadRequest(HANDSHAKE_V0, true));
    t := Reach(c, t, Record);
    t := Reach(c, t, Write);
    t := Reach(c, t, PutRequestHandler);
  }

  lemma SendPair(c: Config, s: State, k: nat) returns (t: State)
    requires Reachable(c, s) && Pipelined(s, k) && k < c.MaxOpenRequests() && 2 * k + 2 <= c.MaxOpenRequests()
    requires R.CheckKey(c.rules, s.localSaslDone, HANDSHAKE_V0).Pass?
    ensures Reachable(c, t) && Pipelined(t, k + 1) && t.localSaslDone == s.localSaslDone
  {
    hide Reachable;
    t := SendHandshake(c, s, k);
    t := Reach(c, t, PutResponseHandler);
    t := Reach(c, t, TakeRequestHandler);
    t := Reach(c, t, WriteToken);
    t := Reach(c, t, PutRequestHandler);
    t := Reach(c, t, PutResponseHandler);
  }

  /**
   With raw tokens in flight the response handler channel can fill up, whatever its size: a client that sends enough
   SaslHandshake v0 requests with their tokens before anything is answered blocks the request loop until it times out.
   */
  lemma PipelinedTokensFillTheChannel(c: Config) returns (s: State)
    requires !TokensExcluded(c)
    ensures Reachable(c, s) && s.requestPc.PuttingResponse?
    ensures Step(c, s, PutResponseHandler).None? && Step(c, s, TimeOutRequests).Some?
  {
    s := Init();
    assert Run(c, Init(), []) == Some(s);
    var k, m := 0, c.MaxOpenRequests();
    while 2 * k + 2 <= m
      invariant 0 <= 2 * k <= m && Reachable(c, s) && Pipelined(s, k)
      decreases m - 2 * k
    {
      hide Reachable;
      s := SendPair(c, s, k);
      k := k + 1;
    }
    hide Reachable;
    s := SendHandshake(c, s, k);
    if 2 * k < m {
      s := Reach(c, s, PutResponseHandler);
      s := Reach(c, s, TakeRequestHandler);
      s := Reach(c, s, WriteToken);
      s := Reach(c, s, PutRequestHandler);
    }
  }

  /**
   Exactly when it fits: putting a response handler never finds its channel full, in any run and for any channel size,
   if and only if the rules keep SaslHandshake from the broker.
   */
  lemma ResponseHandlersAlwaysFit(c: Config)
    ensures (forall s :: Reachable(c, s) && s.requestPc.PuttingResponse? ==> Step(c, s, PutResponseHandler).Some?)
            <==> TokensExcluded(c)
  {
    hide Step;
    if TokensExcluded(c) {
      forall s | Reachable(c, s) && s.requestPc.PuttingResponse?
        ensures Step(c, s, PutResponseHandler).Some?
      {
        ReachableInv(c, s);
        hide Reachable;
        ResponseHandlerFits(c, s);
      }
    } else {
      var s := PipelinedTokensFillTheChannel(c);
    }
  }
}
