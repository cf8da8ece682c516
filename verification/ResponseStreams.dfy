/**
 A broker's whole answer stream (responsesLoop in proxy/processor.go): any sequence of responses and raw SASL answers is
 taken apart where one ends and the next begins, and each reaches the client as the handlers make it.
 */
module ResponseStreams {
  import opened Wire
  import opened SchemaModel
  import opened LocalSasl
  import opened RequestHandlers
  import opened ResponseSchemas
  import opened ResponseHandlers

  /** What a broker sends: a response to the request kv, or the four bytes that follow a raw SASL token. */
  datatype BrokerMessage =
    | Response(kv: KeyVersion, correlationId: int32, tags: seq<RawTaggedField>, body: bytes)
    | RawAnswer(answer: bytes)

  predicate Sendable(changes: Changes, m: BrokerMessage) {
    match m
    case RawAnswer(answer) => |answer| == 4
    case Response(kv, correlationId, tags, body) =>
      && changes.headerVersion(kv) >= 0 && EncTagged(tags).Success?
      && 8 < |Sent(changes.headerVersion(kv), correlationId, tags, body)| <= 4 + MAX_INT32
  }

  function WireOf(changes: Changes, m: BrokerMessage): bytes
    requires Sendable(changes, m)
  {
    match m
    case RawAnswer(answer) => answer
    case Response(kv, correlationId, tags, body) => Sent(changes.headerVersion(kv), correlationId, tags, body)
  }

  /** What the client is to get for it: the filtered response with its addresses rewritten, or the answer as it is. */
  function Owed(changes: Changes, m: BrokerMessage): Option<bytes>
    requires Sendable(changes, m)
  {
    match m
    case RawAnswer(answer) => Some(answer)
    case Response(kv, _, _, body) =>
      match ModifyBody(GetResponseModifier(kv.apiKey, kv.apiVersion), body, changes.mapping)
      case None => None
      case Some(newBody) =>
        var sent := WireOf(changes, m);
        var plain := sent[4..|sent| - |body|] + newBody;
        var r := if changes.filter.None? then Success(plain) else changes.filter.value(kv.apiKey, kv.apiVersion, plain);
        if r.Failure? then None else Some(PutBE(4, |r.value| % 0x1_0000_0000) + r.value)
  }

  predicate Deliverable(changes: Changes, ms: seq<BrokerMessage>) {
    forall m <- ms :: Sendable(changes, m) && Owed(changes, m).Some?
  }

  function Wires(changes: Changes, ms: seq<BrokerMessage>): bytes
    requires Deliverable(changes, ms)
  {
    if ms == [] then [] else WireOf(changes, ms[0]) + Wires(changes, ms[1..])
  }

  function AllOwed(changes: Changes, ms: seq<BrokerMessage>): bytes
    requires Deliverable(changes, ms)
  {
    if ms == [] then [] else Owed(changes, ms[0]).value + AllOwed(changes, ms[1..])
  }

  /** The handlers and open requests that belong to a list of messages. */
  function HandlersOf(ms: seq<BrokerMessage>): seq<Handler> {
    if ms == [] then [] else [if ms[0].RawAnswer? then SaslAuthV0 else Default] + HandlersOf(ms[1..])
  }

  function OpenOf(ms: seq<BrokerMessage>): seq<KeyVersion> {
    if ms == [] then [] else (if ms[0].RawAnswer? then [] else [ms[0].kv]) + OpenOf(ms[1..])
  }

  lemma ResponseOwed(changes: Changes, m: BrokerMessage, rest: bytes)
    requires m.Response? && Sendable(changes, m)
    ensures var t := TakeResponse(changes, m.kv, WireOf(changes, m) + rest);
            if Owed(changes, m).None? then t == None
            else
              && t.Some? && t.value.consumed == |WireOf(changes, m)|
              && ResponseHandlers.ResponseFrame(t.value.payload) == Owed(changes, m).value
  {
    SentResponse(changes, m.kv, m.correlationId, m.tags, m.body, rest);
    hide Sent, TakeResponse, GetResponseModifier, ModifyBody, EncTagged;
  }

  /** One message at the head of what is left. */
  lemma OneDelivered(changes: Changes, data: bytes, d: Delivery, m: BrokerMessage)
    requires Sendable(changes, m) && d.end + |WireOf(changes, m)| <= |data|
    requires data[d.end..d.end + |WireOf(changes, m)|] == WireOf(changes, m)
    requires d.handlers != [] && d.handlers[0] == (if m.RawAnswer? then SaslAuthV0 else Default)
    requires m.Response? ==> d.open != [] && d.open[0] == m.kv
    ensures NextResponse(changes, data, d)
            == if Owed(changes, m).None? then None
               else Some(Delivery(d.handlers[1..], if m.Response? then d.open[1..] else d.open,
                                  d.end + |WireOf(changes, m)|, d.out + Owed(changes, m).value))
  {
    match m
    case RawAnswer(answer) =>
    case Response(kv, _, _, _) =>
      hide Sendable, WireOf, Owed, NextResponse, TakeResponse, ResponseHandlers.ResponseFrame;
      var n := |WireOf(changes, m)|;
      var rest := data[d.end + n..];
      assert data[d.end..] == WireOf(changes, m) + rest;
      ResponseOwed(changes, m, rest);
      NextUnfolds(changes, data, d);
  }

  lemma NextUnfolds(changes: Changes, data: bytes, d: Delivery)
    requires d.end <= |data| && d.handlers != [] && d.handlers[0] == Default && d.open != []
    ensures var t := TakeResponse(changes, d.open[0], data[d.end..]);
            NextResponse(changes, data, d)
            == if t.None? then None
               else Some(Delivery(d.handlers[1..], d.open[1..], d.end + t.value.consumed,
                                  d.out + ResponseHandlers.ResponseFrame(t.value.payload)))
  {
    hide TakeResponse, ResponseHandlers.ResponseFrame;
  }

  /** Where the bytes of one message end, those of the others begin. */
  lemma Heads(data: bytes, i: nat, w: bytes, more: bytes, rest: bytes)
    requires i <= |data| && data[i..] == w + more + rest
    ensures i + |w| + |more| <= |data| && data[i..i + |w|] == w && data[i + |w|..] == more + rest
  {
    assert data[i..][..|w|] == w && data[i..][|w|..] == more + rest;
  }

  lemma {:induction false} StreamFrom(changes: Changes, data: bytes, at: Delivery, ms: seq<BrokerMessage>, rest: bytes,
                                      hs: seq<Handler>, open: seq<KeyVersion>, h0: seq<Handler>, o0: seq<KeyVersion>, n: nat)
    requires Deliverable(changes, ms) && at.end <= |data| && data[at.end..] == Wires(changes, ms) + rest
    requires at.handlers == HandlersOf(ms) + hs && at.open == OpenOf(ms) + open
    requires ReplayResponses(changes, data, h0, o0, n) == Some(at)
    ensures ReplayResponses(changes, data, h0, o0, n + |ms|)
            == Some(Delivery(hs, open, at.end + |Wires(changes, ms)|, at.out + AllOwed(changes, ms)))
    decreases |ms|
  {
    hide Sendable, WireOf, Owed, NextResponse;
    if ms == [] {
      assert at.handlers == hs && at.open == open && at.out + [] == at.out;
    } else {
      var next := StreamStep(changes, data, at, ms, rest, hs, open);
      OneMore(changes, data, h0, o0, n);
      FirstBytes(changes, ms);
      hide Wires, AllOwed, HandlersOf, OpenOf, ReplayResponses, Deliverable;
      StreamFrom(changes, data, next, ms[1..], rest, hs, open, h0, o0, n + 1);
      assert next.out + AllOwed(changes, ms[1..]) == at.out + AllOwed(changes, ms);
    }
  }

  lemma StreamStep(changes: Changes, data: bytes, at: Delivery, ms: seq<BrokerMessage>, rest: bytes,
                   hs: seq<Handler>, open: seq<KeyVersion>) returns (next: Delivery)
    requires ms != [] && Deliverable(changes, ms) && at.end <= |data| && data[at.end..] == Wires(changes, ms) + rest
    requires at.handlers == HandlersOf(ms) + hs && at.open == OpenOf(ms) + open
    ensures Deliverable(changes, ms[1..]) && Sendable(changes, ms[0]) && Owed(changes, ms[0]).Some?
    ensures NextResponse(changes, data, at) == Some(next) && next.end <= |data|
    ensures next.handlers == HandlersOf(ms[1..]) + hs && next.open == OpenOf(ms[1..]) + open
    ensures next.end == at.end + |WireOf(changes, ms[0])| && next.out == at.out + Owed(changes, ms[0]).value
    ensures data[next.end..] == Wires(changes, ms[1..]) + rest
  {
    var m, more := ms[0], ms[1..];
    FirstBytes(changes, ms);
    FirstHandlers(ms, hs, open);
    hide *;
    next := FirstDelivered(changes, data, at, m, Wires(changes, more), rest);
  }

  /** One message at the head of the bytes that are left. */
  lemma FirstDelivered(changes: Changes, data: bytes, at: Delivery, m: BrokerMessage, more: bytes, rest: bytes)
    returns (next: Delivery)
    requires Sendable(changes, m) && Owed(changes, m).Some?
    requires at.end <= |data| && data[at.end..] == WireOf(changes, m) + more + rest
    requires at.handlers != [] && at.handlers[0] == (if m.RawAnswer? then SaslAuthV0 else Default)
    requires m.Response? ==> at.open != [] && at.open[0] == m.kv
    ensures NextResponse(changes, data, at) == Some(next) && next.end <= |data|
    ensures next == Delivery(at.handlers[1..], if m.Response? then at.open[1..] else at.open,
                             at.end + |WireOf(changes, m)|, at.out + Owed(changes, m).value)
    ensures data[next.end..] == more + rest
  {
    hide *;
    Heads(data, at.end, WireOf(changes, m), more, rest);
    OneDelivered(changes, data, at, m);
    next := Delivery(at.handlers[1..], if m.Response? then at.open[1..] else at.open,
                     at.end + |WireOf(changes, m)|, at.out + Owed(changes, m).value);
  }

  lemma FirstBytes(changes: Changes, ms: seq<BrokerMessage>)
    requires ms != [] && Deliverable(changes, ms)
    ensures Sendable(changes, ms[0]) && Owed(changes, ms[0]).Some? && Deliverable(changes, ms[1..])
    ensures Wires(changes, ms) == WireOf(changes, ms[0]) + Wires(changes, ms[1..])
    ensures AllOwed(changes, ms) == Owed(changes, ms[0]).value + AllOwed(changes, ms[1..])
  {
    hide Sendable, WireOf, Owed;
    assert ms[0] in ms && forall x <- ms[1..] :: x in ms;
  }

  lemma FirstHandlers(ms: seq<BrokerMessage>, hs: seq<Handler>, open: seq<KeyVersion>)
    requires ms != []
    ensures var handlers, kvs := HandlersOf(ms) + hs, OpenOf(ms) + open;
            && handlers != [] && handlers[0] == (if ms[0].RawAnswer? then SaslAuthV0 else Default)
            && handlers[1..] == HandlersOf(ms[1..]) + hs
            && (ms[0].Response? ==> kvs != [] && kvs[0] == ms[0].kv)
            && (if ms[0].Response? then kvs[1..] else kvs) == OpenOf(ms[1..]) + open
  {
    var h, handlers, kvs := if ms[0].RawAnswer? then SaslAuthV0 else Default, HandlersOf(ms[1..]), OpenOf(ms[1..]);
    assert HandlersOf(ms) == [h] + handlers;
    assert OpenOf(ms) == if ms[0].RawAnswer? then kvs else [ms[0].kv] + kvs;
    hide HandlersOf, OpenOf;
    Cons(h, handlers, hs);
    if ms[0].Response? {
      Cons(ms[0].kv, kvs, open);
    }
  }

  lemma Cons<T>(x: T, xs: seq<T>, ys: seq<T>)
    ensures ([x] + xs + ys)[0] == x && ([x] + xs + ys)[1..] == xs + ys
  {
  }

  lemma OneMore(changes: Changes, data: bytes, h0: seq<Handler>, o0: seq<KeyVersion>, n: nat)
    requires ReplayResponses(changes, data, h0, o0, n).Some?
    ensures ReplayResponses(changes, data, h0, o0, n + 1)
            == NextResponse(changes, data, ReplayResponses(changes, data, h0, o0, n).value)
  {
    hide NextResponse;
  }

  /**
   Over whole runs: if the channels hold the handler and the open request of each message, in order, the loop takes just
   the bytes of all messages and gives the client just what is owed for each, one after the other.
   */
  lemma StreamDelivered(changes: Changes, ms: seq<BrokerMessage>, rest: bytes, hs: seq<Handler>, open: seq<KeyVersion>)
    requires Deliverable(changes, ms)
    ensures ReplayResponses(changes, Wires(changes, ms) + rest, HandlersOf(ms) + hs, OpenOf(ms) + open, |ms|)
            == Some(Delivery(hs, open, |Wires(changes, ms)|, AllOwed(changes, ms)))
  {
    hide Deliverable, NextResponse;
    var data := Wires(changes, ms) + rest;
    var h0, o0 := HandlersOf(ms) + hs, OpenOf(ms) + open;
    assert data[0..] == data;
    StreamFrom(changes, data, Delivery(h0, o0, 0, []), ms, rest, hs, open, h0, o0, 0);
    assert [] + AllOwed(changes, ms) == AllOwed(changes, ms);
  }
}
