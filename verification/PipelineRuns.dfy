/**
 The handlers and the state machine together: every run of the request loop's methods is a run of the machine, in which
 the broker and the response loop take up each reply, so what holds in every reachable state holds of the methods.
 */
module PipelineRuns {
  import opened Wire
  import opened LocalSasl
  import opened ProduceAcks
  import opened Pipeline
  import R = RequestHandlers
  import H = ResponseHandlers

  /** Both loops wait, and every message that was sent has been answered and delivered. */
  predicate Drained(s: State) {
    && s.requestPc == AtHead && s.responsePc == Waiting && s.toBroker == [] && s.fromBroker == []
    && s.openRequests == [] && |s.responseHandlers| == 1 && s.responseHandlers == s.requestHandlers
  }

  /** The machine and the loop's methods are at the same point. */
  predicate SamePoint(s: State, p: R.Progress) {
    && s.requestHandlers == [p.handler] && s.localSaslDone == p.done
    && s.events == p.events && s.recorded == p.open && s.enqueued == p.responses
  }

  ghost predicate SameConfig(c: Config, w: R.World) {
    c.rules == w.rules && c.authenticators == w.authenticators
  }

  /** The request loop's steps for a framed request, up to the head of the loop. */
  lemma Forward(c: Config, s: State, kv: KeyVersion, reply: bool) returns (t: State)
    requires Reachable(c, s) && Drained(s) && s.requestHandlers == [R.Default]
    requires R.CheckKey(c.rules, s.localSaslDone, kv).Pass? && (reply || kv.apiKey == API_KEY_PRODUCE)
    ensures Reachable(c, t) && t.requestPc == AtHead && t.responsePc == Waiting
    ensures var h := if R.IsSaslHandshakeV0(kv) then R.SaslAuthV0 else R.Default;
            && t.toBroker == [Framed(kv, reply)] && t.fromBroker == [] && t.requestHandlers == [h]
            && t.responseHandlers == [R.Default] + (if reply then [h] else [])
            && t.openRequests == (if reply then [kv] else []) && t.recorded == s.recorded + t.openRequests
            && t.enqueued == s.enqueued + (if reply then [h] else []) && t.localSaslDone == s.localSaslDone
            && t.events == s.events + [R.Forwarded(kv.apiKey)]
  {
    hide Reachable;
    t := Reach(c, s, TakeRequestHandler);
    t := Reach(c, t, ReadRequest(kv, reply));
    if reply {
      t := Reach(c, t, Record);
    }
    t := Reach(c, t, Write);
    t := Reach(c, t, PutRequestHandler);
    if reply {
      t := Reach(c, t, PutResponseHandler);
    }
  }

  lemma Token(c: Config, s: State) returns (t: State)
    requires Reachable(c, s) && Drained(s) && s.requestHandlers == [R.SaslAuthV0]
    ensures Reachable(c, t) && t.requestPc == AtHead && t.responsePc == Waiting
    ensures t.toBroker == [RawToken] && t.fromBroker == [] && t.requestHandlers == [R.Default] && t.openRequests == []
    ensures t.responseHandlers == [R.SaslAuthV0, R.Default] && t.recorded == s.recorded
    ensures t.enqueued == s.enqueued + [R.Default] && t.localSaslDone == s.localSaslDone
    ensures t.events == s.events + [R.RawToken]
  {
    hide Reachable;
    t := Reach(c, s, TakeRequestHandler);
    t := Reach(c, t, WriteToken);
    t := Reach(c, t, PutRequestHandler);
    t := Reach(c, t, PutResponseHandler);
  }

  lemma Authenticate(c: Config, s: State, kv: KeyVersion, mechanism: bytes, token: bytes) returns (t: State)
    requires Reachable(c, s) && Drained(s) && s.requestHandlers == [R.Default]
    requires R.CheckKey(c.rules, s.localSaslDone, kv).Local? && Accepts(c.authenticators, mechanism, token)
    ensures Reachable(c, t) && Drained(t) && t.requestHandlers == [R.Default] && t.localSaslDone
    ensures t.recorded == s.recorded && t.enqueued == s.enqueued && t.events == s.events + [R.Authenticated(mechanism, token)]
  {
    hide Reachable, Accepts;
    t := Reach(c, s, TakeRequestHandler);
    t := Reach(c, t, AuthenticateLocally(kv, mechanism, token));
    t := Reach(c, t, PutRequestHandler);
  }

  /** The broker takes the one message there is, and the response loop delivers the answer, if there is to be one. */
  lemma Drain(c: Config, s: State, m: Message, h: Handler) returns (t: State)
    requires Reachable(c, s) && s.requestPc == AtHead && s.responsePc == Waiting && s.toBroker == [m] && s.fromBroker == []
    requires s.requestHandlers == [h] && s.openRequests == (if m.Framed? && m.reply then [m.kv] else [])
    requires s.responseHandlers == if Expected(m) then [HandlerFor(m), h] else [h]
    ensures Reachable(c, t) && Drained(t)
    ensures t.requestHandlers == s.requestHandlers && t.localSaslDone == s.localSaslDone && t.events == s.events
    ensures t.recorded == s.recorded && t.enqueued == s.enqueued
  {
    hide Reachable;
    t := Reach(c, s, Answer);
    if Expected(m) {
      t := Reach(c, t, TakeResponseHandler);
      t := Reach(c, t, ReadResponse);
      if m.Framed? {
        t := Reach(c, t, Match);
        t := Reach(c, t, Deliver);
      }
    }
  }

  /** What the machine has to know of a turn that forwards a request. */
  lemma ForwardedTurn(w: R.World, p: R.Progress) returns (kv: KeyVersion, reply: bool)
    requires p.end <= |w.data| && R.NextTurn(w, p).Some? && R.NextTurn(w, p).value.event.Forwarded?
    ensures p.handler == R.Default
    ensures var t := R.NextTurn(w, p).value;
            && R.CheckKey(w.rules, p.done, kv).Pass? && (reply || kv.apiKey == API_KEY_PRODUCE)
            && t.event == R.Forwarded(kv.apiKey) && t.done == p.done
            && t.next == (if R.IsSaslHandshakeV0(kv) then R.SaslAuthV0 else R.Default)
            && t.record == (if reply then Some(kv) else None) && t.response == (if reply then Some(t.next) else None)
  {
    hide R.Frame, TakeExchange, MustReply;
    var b := w.data[p.end..];
    var v := R.Classify(w.rules, p.done, b);
    kv, reply := v.kv.(length := ToInt32(|v.payload|)), v.reply;
    if kv.apiKey != API_KEY_PRODUCE {
      AlwaysReplies(kv.apiKey, kv.apiVersion, w.rules.producerAcks0Disabled, b[8..]);
    }
  }

  lemma AuthenticatedTurn(w: R.World, p: R.Progress) returns (kv: KeyVersion)
    requires p.end <= |w.data| && R.NextTurn(w, p).Some? && R.NextTurn(w, p).value.event.Authenticated?
    ensures p.handler == R.Default
    ensures var t := R.NextTurn(w, p).value;
            && R.CheckKey(w.rules, p.done, kv).Local? && Accepts(w.authenticators, t.event.mechanism, t.event.token)
            && t.done && t.next == R.Default && t.record == None && t.response == None
  {
    var version := R.TurnAuthenticates(w, p);
    hide R.Frame, TakeExchange, MustReply;
    kv := ParseKeyVersion(w.data[p.end..][..8]).value;
  }

  lemma TokenTurn(w: R.World, p: R.Progress)
    requires p.end <= |w.data| && R.NextTurn(w, p).Some? && R.NextTurn(w, p).value.event.RawToken?
    ensures p.handler == R.SaslAuthV0
    ensures var t := R.NextTurn(w, p).value;
            t.done == p.done && t.next == R.Default && t.record == None && t.response == Some(R.Default)
  {
    hide R.Frame, TakeExchange, MustReply;
  }

  /** One turn of the methods is some steps of the machine. */
  lemma TurnIsSteps(c: Config, s: State, w: R.World, p: R.Progress) returns (t: State)
    requires SameConfig(c, w) && p.end <= |w.data| && R.NextTurn(w, p).Some?
    requires Reachable(c, s) && Drained(s) && SamePoint(s, p)
    ensures Reachable(c, t) && Drained(t) && SamePoint(t, R.Advance(p, R.NextTurn(w, p).value))
  {
    hide Reachable, R.NextTurn, R.CheckKey, Accepts;
    match R.NextTurn(w, p).value.event
    case Forwarded(_) =>
      var kv, reply := ForwardedTurn(w, p);
      t := Forward(c, s, kv, reply);
      t := Drain(c, t, Framed(kv, reply), R.NextTurn(w, p).value.next);
    case RawToken =>
      TokenTurn(w, p);
      t := Token(c, s);
      t := Drain(c, t, RawToken, R.Default);
    case Authenticated(mechanism, token) =>
      var kv := AuthenticatedTurn(w, p);
      t := Authenticate(c, s, kv, mechanism, token);
  }

  /**
   Refinement: whatever point the request loop's methods come to on whatever client bytes, the machine reaches, with the
   same events, the same handler next, the same open requests recorded and the same response handlers put.
   */
  lemma {:induction false} ReplayIsReachable(c: Config, w: R.World, n: nat) returns (s: State)
    requires SameConfig(c, w) && R.Replay(w, n).Some?
    ensures Reachable(c, s) && Drained(s) && SamePoint(s, R.Replay(w, n).value)
  {
    hide R.Replay, R.NextTurn;
    if n == 0 {
      R.ReplayStart(w);
      s := Init();
      assert Run(c, Init(), []) == Some(s);
    } else {
      hide Reachable;
      R.ReplayStep(w, n);
      s := ReplayIsReachable(c, w, n - 1);
      s := TurnIsSteps(c, s, w, R.Replay(w, n - 1).value);
    }
  }

  /** The response loop's steps for one reply. */
  lemma TakeReply(c: Config, s: State) returns (t: State)
    requires Reachable(c, s) && s.responsePc == Waiting && s.fromBroker != [] && s.responseHandlers != []
    requires s.responseHandlers[0] == R.Default ==> s.openRequests != []
    ensures Reachable(c, t) && t.responsePc == Waiting && t.fromBroker == s.fromBroker[1..]
    ensures t.responseHandlers == s.responseHandlers[1..]
    ensures var h := s.responseHandlers[0];
            if h == R.Default then
              && t.openRequests == s.openRequests[1..]
              && t.processed == s.processed + [Processed(h, Some(s.openRequests[0]), s.fromBroker[0])]
            else
              t.openRequests == s.openRequests && t.processed == s.processed + [Processed(h, None, s.fromBroker[0])]
  {
    hide Reachable;
    t := Reach(c, s, TakeResponseHandler);
    t := Reach(c, t, ReadResponse);
    if s.responseHandlers[0] == R.Default {
      t := Reach(c, t, Match);
      t := Reach(c, t, Deliver);
    }
  }

  /**
   One response of the response loop's methods is some steps of the machine: when a reply has come, the machine takes
   the same handler and, for a framed reply, the same open request off the channels.
   */
  lemma ResponseIsSteps(c: Config, s: State, changes: H.Changes, data: bytes, d: H.Delivery) returns (t: State)
    requires d.end <= |data| && H.NextResponse(changes, data, d).Some?
    requires Reachable(c, s) && s.responsePc == Waiting && s.fromBroker != []
    requires s.responseHandlers == d.handlers && s.openRequests == d.open
    ensures Reachable(c, t) && t.responsePc == Waiting && t.fromBroker == s.fromBroker[1..]
    ensures var e := H.NextResponse(changes, data, d).value; t.responseHandlers == e.handlers && t.openRequests == e.open
    ensures |t.processed| == |s.processed| + 1 && t.processed[..|s.processed|] == s.processed
    ensures var last := t.processed[|s.processed|];
            && last.h == d.handlers[0] && last.answers == s.fromBroker[0]
            && (last.h == R.Default ==> d.open != [] && last.kv == Some(d.open[0]))
  {
    hide H.TakeResponse, H.ResponseFrame, Reachable;
    t := TakeReply(c, s);
  }
}
