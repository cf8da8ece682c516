/**
 What the request loop does with the bytes of a request, told by positions in the client's bytes (handleRequest in
 proxy/processor_default.go): which requests pass, what the broker is given for them, and what is recorded.
 */
module RequestTheorems {
  import opened Wire
  import opened LocalSasl
  import opened ProduceAcks
  import opened RequestHandlers

  // ----- The bytes of one request -----

  function LengthAt(d: bytes, i: nat): int32
    requires i + 8 <= |d|
  {
    IntBytesOf(d[i..i + 4]);
    Widths();
    IntOf(d[i..i + 4])
  }

  function KeyAt(d: bytes, i: nat): int16
    requires i + 8 <= |d|
  {
    IntBytesOf(d[i + 4..i + 6]);
    Widths();
    IntOf(d[i + 4..i + 6])
  }

  function VersionAt(d: bytes, i: nat): int16
    requires i + 8 <= |d|
  {
    IntBytesOf(d[i + 6..i + 8]);
    Widths();
    IntOf(d[i + 6..i + 8])
  }

  /** The request that stands at i, whole: more than its key and version, behind a length that counts it. */
  predicate RequestAt(d: bytes, i: nat) {
    i + 8 <= |d| && 4 < LengthAt(d, i) <= |d| - i - 4
  }

  /** What the broker is to be given for the request at i: its bytes behind the length, as the filters leave them. */
  function FilteredAt(rules: Rules, d: bytes, i: nat): Result<bytes, string>
    requires RequestAt(d, i)
  {
    var request := d[i + 4..i + 4 + LengthAt(d, i)];
    if rules.filter.None? then Success(request) else rules.filter.value(KeyAt(d, i), VersionAt(d, i), request)
  }

  /** Keys 0 to 20000 that are not forbidden; with local SASL 18 at any time, 17 never, and the others once it is done. */
  predicate MayPass(rules: Rules, done: bool, apiKey: int16) {
    && 0 <= apiKey <= 20000 && apiKey !in rules.forbiddenApiKeys
    && (rules.localSaslEnabled ==> apiKey == 18 || (done && apiKey != 17))
  }

  /** The acks of a Produce request can be read in it; None stands for no reply to come. */
  function ReplyAt(rules: Rules, d: bytes, i: nat): Option<bool>
    requires RequestAt(d, i)
  {
    match MustReply(KeyAt(d, i), VersionAt(d, i), rules.producerAcks0Disabled, d[i + 8..])
    case None => None
    case Some(m) => if m.read <= LengthAt(d, i) - 4 then Some(m.expected) else None
  }

  lemma ReplyOfOthers(rules: Rules, d: bytes, i: nat)
    requires RequestAt(d, i) && (KeyAt(d, i) != 0 || rules.producerAcks0Disabled)
    ensures ReplyAt(rules, d, i) == Some(true)
  {
    AlwaysReplies(KeyAt(d, i), VersionAt(d, i), rules.producerAcks0Disabled, d[i + 8..]);
  }

  // ----- Which requests pass -----

  predicate Forwardable(w: World, p: Progress)
    requires p.end <= |w.data|
  {
    && p.handler == Default && RequestAt(w.data, p.end) && MayPass(w.rules, p.done, KeyAt(w.data, p.end))
    && ReplyAt(w.rules, w.data, p.end).Some? && FilteredAt(w.rules, w.data, p.end).Success?
  }

  /** The turn that forwards the request at i. */
  function Forwarding(rules: Rules, done: bool, d: bytes, i: nat): Turn
    requires RequestAt(d, i) && ReplyAt(rules, d, i).Some? && FilteredAt(rules, d, i).Success?
  {
    var payload := FilteredAt(rules, d, i).value;
    var reply := ReplyAt(rules, d, i).value;
    var raw := KeyAt(d, i) == 17 && VersionAt(d, i) == 0;
    var h := if raw then SaslAuthV0 else Default;
    Turn(Forwarded(KeyAt(d, i)), LengthAt(d, i) + 4,
         IntBytes(4, ToInt32(|payload|)) + payload, [], done, h,
         if reply then Some(KeyVersion(ToInt32(|payload|), KeyAt(d, i), VersionAt(d, i))) else None,
         if reply || raw then Some(h) else None)
  }

  lemma HeaderAt(d: bytes, i: nat)
    requires i + 8 <= |d|
    ensures ParseKeyVersion(d[i..][..8])
            == if LengthAt(d, i) <= 4 then None else Some(KeyVersion(LengthAt(d, i), KeyAt(d, i), VersionAt(d, i)))
  {
    var b := d[i..][..8];
    assert b[..4] == d[i..i + 4] && b[4..6] == d[i + 4..i + 6] && b[6..] == d[i + 6..i + 8];
  }

  lemma KeysThatPass(rules: Rules, done: bool, kv: KeyVersion)
    ensures CheckKey(rules, done, kv).Pass? <==> MayPass(rules, done, kv.apiKey)
    ensures CheckKey(rules, done, kv).Local? <==>
              && kv.apiKey == 17 && (kv.apiVersion == 0 || kv.apiVersion == 1)
              && 17 !in rules.forbiddenApiKeys && rules.localSaslEnabled && !done
    ensures CheckKey(rules, done, kv).Local? ==> CheckKey(rules, done, kv).version == kv.apiVersion
  {
  }

  lemma PayloadAt(rules: Rules, d: bytes, i: nat)
    requires i + 8 <= |d| && LengthAt(d, i) > 4
    ensures var v := TakePayload(rules, KeyVersion(LengthAt(d, i), KeyAt(d, i), VersionAt(d, i)), d[i..]);
            if RequestAt(d, i) && ReplyAt(rules, d, i).Some? && FilteredAt(rules, d, i).Success? then
              && v.Forward? && v.reply == ReplyAt(rules, d, i).value && v.payload == FilteredAt(rules, d, i).value
              && v.consumed == LengthAt(d, i) + 4
            else v.Reject?
  {
    hide MustReply, IntOf;
    assert d[i..][8..] == d[i + 8..];
    if RequestAt(d, i) {
      assert d[i..][4..LengthAt(d, i) + 4] == d[i + 4..i + 4 + LengthAt(d, i)];
    }
  }

  /**
   Exactly which requests are forwarded, and what that does: for any filters, the broker gets the filtered request behind
   its size; recorded are that size and the request's own key and version; the raw handlers follow SaslHandshake 0 alone.
   */
  lemma ForwardsExactly(w: World, p: Progress)
    requires p.end <= |w.data|
    ensures NextTurn(w, p).Some? && NextTurn(w, p).value.event.Forwarded? <==> Forwardable(w, p)
    ensures Forwardable(w, p) ==> NextTurn(w, p) == Some(Forwarding(w.rules, p.done, w.data, p.end))
  {
    hide IntOf, MustReply, TakeExchange, TakePayload, IntBytes;
    var d, i := w.data, p.end;
    if p.handler == Default && i + 8 <= |d| {
      HeaderAt(d, i);
      if LengthAt(d, i) > 4 {
        PayloadAt(w.rules, d, i);
        KeysThatPass(w.rules, p.done, KeyVersion(LengthAt(d, i), KeyAt(d, i), VersionAt(d, i)));
      }
    }
  }

  /** Exactly when a local exchange is tried: an allowed SaslHandshake of version 0 or 1 before one has succeeded. */
  lemma AuthenticatesExactly(w: World, p: Progress)
    requires p.end <= |w.data|
    ensures NextTurn(w, p).Some? && NextTurn(w, p).value.event.Authenticated? <==>
              && p.handler == Default && w.rules.localSaslEnabled && !p.done && 17 !in w.rules.forbiddenApiKeys
              && p.end + 8 <= |w.data| && LengthAt(w.data, p.end) > 4
              && KeyAt(w.data, p.end) == 17 && 0 <= VersionAt(w.data, p.end) <= 1
              && TakeExchange(w.authenticators, VersionAt(w.data, p.end), w.data[p.end..]).Some?
  {
    hide IntOf, MustReply, TakeExchange, TakePayload, IntBytes;
    var d, i := w.data, p.end;
    if p.handler == Default && i + 8 <= |d| {
      HeaderAt(d, i);
      if LengthAt(d, i) > 4 {
        PayloadAt(w.rules, d, i);
        KeysThatPass(w.rules, p.done, KeyVersion(LengthAt(d, i), KeyAt(d, i), VersionAt(d, i)));
      }
    }
  }

  /** Exactly which raw tokens are passed on; a size of 2 GiB or more is negative to the limit's check and passes it. */
  lemma TokensExactly(w: World, p: Progress)
    requires p.end <= |w.data|
    ensures NextTurn(w, p).Some? && NextTurn(w, p).value.event.RawToken? <==>
              && p.handler == SaslAuthV0 && p.end + 4 <= |w.data|
              && var size := GetBE(w.data[p.end..p.end + 4]);
                 (size <= 104857600 || size >= 0x8000_0000) && p.end + 4 + size <= |w.data|
    ensures NextTurn(w, p).Some? && NextTurn(w, p).value.event.RawToken? ==>
              var end := p.end + 4 + GetBE(w.data[p.end..p.end + 4]);
              NextTurn(w, p) == Some(Turn(RawToken, end - p.end, w.data[p.end..end], [], p.done, Default, None, Some(Default)))
  {
    hide MustReply, TakeExchange, TakePayload, GetBE, IntBytes;
    var b := w.data[p.end..];
    if p.handler == SaslAuthV0 && |b| >= 4 {
      assert b[..4] == w.data[p.end..p.end + 4];
      FourBytes(b[..4]);
      var n := 4 + GetBE(b[..4]);
      assert n <= |b| ==> b[..n] == w.data[p.end..p.end + n];
    }
  }

  lemma FourBytes(b: bytes)
    requires |b| == 4
    ensures GetBE(b) < TWO_TO_THE_32
  {
    PutGetBE(b);
    Widths();
  }

  // ----- Over whole runs -----

  /** In the first n turns of a run, the turns that forwarded a request which expects a reply, first to last. */
  ghost predicate Calling(w: World, n: nat, turns: seq<nat>)
    requires Replay(w, n).Some?
  {
    && (forall k :: 0 <= k < |turns| ==> turns[k] < n)
    && (forall j, k :: 0 <= j < k < |turns| ==> turns[j] < turns[k])
    && (forall i :: 0 <= i < n ==> (i in turns <==> CallsAt(w, i)))
  }

  /** Turn i starts where the replay has come to, and forwards a request that expects a reply. */
  ghost predicate CallsAt(w: World, i: nat) {
    && Replay(w, i).Some? && Forwardable(w, Replay(w, i).value)
    && ReplyAt(w.rules, w.data, Replay(w, i).value.end) == Some(true)
  }

  /** kv has the key and version of the request at which turn i starts, and the size of what the filters made of it. */
  ghost predicate RecordedFor(w: World, i: nat, kv: KeyVersion)
    requires CallsAt(w, i)
  {
    var start := Replay(w, i).value.end;
    && kv.apiKey == KeyAt(w.data, start) && kv.apiVersion == VersionAt(w.data, start)
    && kv.length == ToInt32(|FilteredAt(w.rules, w.data, start).value|)
  }

  lemma TurnRecords(w: World, p: Progress)
    requires p.end <= |w.data| && NextTurn(w, p).Some?
    ensures NextTurn(w, p).value.record.Some? <==>
              Forwardable(w, p) && ReplyAt(w.rules, w.data, p.end) == Some(true)
    ensures NextTurn(w, p).value.record.Some? ==>
              NextTurn(w, p).value.record.value
              == KeyVersion(ToInt32(|FilteredAt(w.rules, w.data, p.end).value|), KeyAt(w.data, p.end), VersionAt(w.data, p.end))
  {
    ForwardsExactly(w, p);
    if !Forwardable(w, p) {
      OnlyForwardsRecord(w, p);
    }
  }

  lemma OnlyForwardsRecord(w: World, p: Progress)
    requires p.end <= |w.data| && NextTurn(w, p).Some? && !NextTurn(w, p).value.event.Forwarded?
    ensures NextTurn(w, p).value.record.None?
  {
    hide TakeExchange, MustReply, Frame;
  }

  /**
   Over whole runs: the open requests recorded are, in order, those of the forwarded requests that expect a reply, each
   with the api key and version that stand in its own bytes and with the size that was sent to the broker.
   */
  lemma {:induction false} RecordedExactly(w: World, n: nat) returns (turns: seq<nat>)
    requires Replay(w, n).Some?
    ensures Calling(w, n, turns) && |turns| == |Replay(w, n).value.open|
    ensures forall k :: 0 <= k < |turns| ==> CallsAt(w, turns[k]) && RecordedFor(w, turns[k], Replay(w, n).value.open[k])
  {
    hide Replay, NextTurn, Forwardable, ReplyAt, FilteredAt;
    turns := [];
    if n == 0 {
      ReplayStart(w);
    } else {
      ReplayStep(w, n);
      turns := RecordedExactly(w, n - 1);
      var p := Replay(w, n - 1).value;
      TurnRecords(w, p);
      if NextTurn(w, p).value.record.Some? {
        turns := turns + [n - 1];
      }
    }
  }

  /** Over whole runs: each turn adds to the broker's bytes the filtered request behind its size, the token, or nothing. */
  lemma WrittenExactly(w: World, n: nat)
    requires Replay(w, n + 1).Some?
    ensures Replay(w, n).Some?
    ensures var p, q := Replay(w, n).value, Replay(w, n + 1).value;
            && p.end < q.end <= |w.data| && |q.events| == n + 1
            && match q.events[n]
               case Forwarded(apiKey) =>
                 && Forwardable(w, p) && apiKey == KeyAt(w.data, p.end)
                 && q.end == p.end + 4 + LengthAt(w.data, p.end)
                 && var payload := FilteredAt(w.rules, w.data, p.end).value;
                    q.out == p.out + IntBytes(4, ToInt32(|payload|)) + payload
               case RawToken => q.out == p.out + w.data[p.end..q.end]
               case Authenticated(_, _) => q.out == p.out
  {
    hide Replay, NextTurn, IntBytes;
    ReplayStep(w, n + 1);
    var p, q := Replay(w, n).value, Replay(w, n + 1).value;
    ForwardsExactly(w, p);
    TokensExactly(w, p);
    assert q.events[n] == NextTurn(w, p).value.event;
    if q.events[n].Forwarded? {
      var payload := FilteredAt(w.rules, w.data, p.end).value;
      assert p.out + (IntBytes(4, ToInt32(|payload|)) + payload) == p.out + IntBytes(4, ToInt32(|payload|)) + payload;
    } else if q.events[n].Authenticated? {
      var version := TurnAuthenticates(w, p);
      assert p.out + [] == p.out;
    }
  }
}
