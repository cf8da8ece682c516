/**
 Lookups by host and port (GetNetAddressMapping, nextDynamicPort and ListenDynamicInstance in proxy/proxy.go): an
 address stands for one host and port only, so a lookup leads to the broker it was for.
 */
module BrokerLookups {
  import opened Wire
  import opened Listeners

  // ----- Addresses -----

  predicate Digits(s: string) {
    forall i :: 0 <= i < |s| ==> '0' <= s[i] <= '9'
  }

  /** The number that decimal digits denote. */
  function Value(s: string): nat
    requires Digits(s)
  {
    if s == "" then 0
    else
      10 * Value(s[..|s| - 1]) + (s[|s| - 1] as int - '0' as int)
  }

  lemma {:induction false} DecimalDenotes(n: nat)
    ensures Decimal(n) != "" && Digits(Decimal(n)) && Value(Decimal(n)) == n
  {
    var front := if n < 10 then "" else Decimal(n / 10);
    DigitAt(n % 10);
    if n >= 10 {
      DecimalDenotes(n / 10);
    }
    assert Decimal(n) == front + ["0123456789"[n % 10]];
    hide Decimal;
    OneMore(front, "0123456789"[n % 10]);
  }

  lemma OneMore(s: string, c: char)
    requires Digits(s) && '0' <= c <= '9'
    ensures Digits(s + [c]) && Value(s + [c]) == 10 * Value(s) + (c as int - '0' as int)
  {
    assert (s + [c])[..|s + [c]| - 1] == s;
  }

  lemma DigitAt(d: nat)
    requires d < 10
    ensures var c := "0123456789"[d]; '0' <= c <= '9' && c as int == '0' as int + d
  {
  }

  /** The text of a port is read back as the port. */
  lemma ItoaDenotes(i: int)
    ensures Itoa(i) != "" && ':' !in Itoa(i)
    ensures if i >= 0 then Digits(Itoa(i)) && Value(Itoa(i)) == i
            else Itoa(i)[0] == '-' && Digits(Itoa(i)[1..]) && Value(Itoa(i)[1..]) == -i
  {
    hide Value;
    DecimalDenotes(if i < 0 then -i else i);
  }

  lemma ItoaInjective(i: int, j: int)
    requires Itoa(i) == Itoa(j)
    ensures i == j
  {
    hide Itoa, Value;
    ItoaDenotes(i);
    ItoaDenotes(j);
    assert i >= 0 ==> Itoa(i)[0] in Itoa(i);
    assert j >= 0 ==> Itoa(j)[0] in Itoa(j);
  }

  /** Where the last colon stands is no choice. */
  lemma LastColon(a: string, d: string, b: string, e: string)
    requires a + ":" + d == b + ":" + e && ':' !in d && ':' !in e
    ensures a == b && d == e
  {
    var s := a + ":" + d;
    assert forall i :: |a| < i < |s| ==> s[i] == d[i - |a| - 1];
    assert forall i :: |b| < i < |s| ==> s[i] == e[i - |b| - 1];
    assert s[|a|] == ':' && s[|b|] == ':';
    assert a == s[..|a|] && b == s[..|b|] && d == s[|a| + 1..] && e == s[|b| + 1..];
  }

  function Bracketed(host: string): string {
    if ':' in host then "[" + host + "]" else host
  }

  lemma BracketedInjective(h: string, k: string)
    requires Bracketed(h) == Bracketed(k)
    ensures h == k
  {
    if ':' in h {
      assert ':' in Bracketed(h) by {
        var i :| 0 <= i < |h| && h[i] == ':';
        assert Bracketed(h)[i + 1] == ':';
      }
      assert h == Bracketed(h)[1..|h| + 1];
    }
    if ':' in k {
      assert ':' in Bracketed(k) by {
        var i :| 0 <= i < |k| && k[i] == ':';
        assert Bracketed(k)[i + 1] == ':';
      }
      assert k == Bracketed(k)[1..|k| + 1];
    }
  }

  /** Different hosts or ports, also of IPv6 addresses, have different addresses; and the port's digits are at the end. */
  lemma AddressIsUnique(h1: string, p1: int32, h2: string, p2: int32)
    ensures JoinHostPort(h1, p1) == JoinHostPort(h2, p2) <==> h1 == h2 && p1 == p2
    ensures p1 >= 0 ==> exists d :: Digits(d) && Value(d) == p1 && JoinHostPort(h1, p1) == Bracketed(h1) + ":" + d
  {
    hide Itoa, Value;
    ItoaDenotes(p1);
    ItoaDenotes(p2);
    assert JoinHostPort(h1, p1) == Bracketed(h1) + ":" + Itoa(p1);
    if JoinHostPort(h1, p1) == JoinHostPort(h2, p2) {
      assert JoinHostPort(h2, p2) == Bracketed(h2) + ":" + Itoa(p2);
      LastColon(Bracketed(h1), Itoa(p1), Bracketed(h2), Itoa(p2));
      BracketedInjective(h1, h2);
      ItoaInjective(p1, p2);
    }
  }

  // ----- Where a lookup leads -----

  /** The entry's listener connects to this host and port and to no other. */
  ghost predicate Targets(e: Entry, host: string, port: int32) {
    forall h: string, p: int32 :: e.broker == JoinHostPort(h, p) <==> h == host && p == port
  }

  lemma TargetsOf(e: Entry, host: string, port: int32)
    requires e.broker == JoinHostPort(host, port)
    ensures Targets(e, host, port)
  {
    hide JoinHostPort;
    forall h: string, p: int32
      ensures e.broker == JoinHostPort(h, p) <==> h == host && p == port
    {
      AddressIsUnique(h, p, host, port);
    }
  }

  /**
   A lookup that is answered, other than from the addresses reached by server name, is answered with the advertised
   address of a listener that connects to just the host and port asked for.
   */
  lemma LookupLeads(s: Settings, t: Table, host: string, port: int32, brokerId: int32, o: Outcome) returns (i: nat)
    requires ValidTable(s, t) && GetNetAddressMapping(s, t, host, port, brokerId, o).1.Success?
    requires JoinHostPort(host, port) in t.table || JoinHostPort(host, port) !in s.sni
    ensures var (u, r) := GetNetAddressMapping(s, t, host, port, brokerId, o);
            && ValidTable(s, u) && i < |u.entries| && Targets(u.entries[i], host, port)
            && r == Success(u.entries[i].advertised)
  {
    hide JoinHostPort, Targets, Listen;
    var broker := JoinHostPort(host, port);
    var (u, r) := GetNetAddressMapping(s, t, host, port, brokerId, o);
    if broker !in t.table {
      AnswerLeadsToBroker(s, t, broker, brokerId, o);
      ListenKeepsValid(s, t, broker, brokerId, o);
    }
    i := u.table[broker];
    TargetsOf(u.entries[i], host, port);
  }

  /** In a run, outside deterministic mode, different hosts or ports are answered by different listeners, for good. */
  lemma LookupsDiffer(s: Settings, t: Table, run: seq<Lookup>, h1: string, p1: int32, k1: nat, a1: HostPort,
                      h2: string, p2: int32, k2: nat, a2: HostPort) returns (i: nat, j: nat)
    requires ValidTable(s, t) && !s.ports.deterministic && k1 <= |run| && k2 <= |run| && (h1 != h2 || p1 != p2)
    requires AnsweredAt(s, t, run, JoinHostPort(h1, p1), k1, a1) && AnsweredAt(s, t, run, JoinHostPort(h2, p2), k2, a2)
    ensures var u := After(s, t, run);
            && i < |u.entries| && j < |u.entries| && i != j
            && Targets(u.entries[i], h1, p1) && u.entries[i].advertised == a1
            && Targets(u.entries[j], h2, p2) && u.entries[j].advertised == a2
  {
    hide JoinHostPort, Targets, After, AnsweredAt;
    AnswerStands(s, t, run, JoinHostPort(h1, p1), k1, a1);
    AnswerStands(s, t, run, JoinHostPort(h2, p2), k2, a2);
    AddressIsUnique(h1, p1, h2, p2);
    var u := After(s, t, run);
    i, j := u.table[JoinHostPort(h1, p1)], u.table[JoinHostPort(h2, p2)];
    TargetsOf(u.entries[i], h1, p1);
    TargetsOf(u.entries[j], h2, p2);
  }

  /** In any mode, at any one time. */
  lemma BrokersDiffer(s: Settings, t: Table, h1: string, p1: int32, h2: string, p2: int32)
    requires ValidTable(s, t) && JoinHostPort(h1, p1) in t.table && JoinHostPort(h2, p2) in t.table
    requires h1 != h2 || p1 != p2
    ensures t.table[JoinHostPort(h1, p1)] != t.table[JoinHostPort(h2, p2)]
  {
    hide JoinHostPort;
    AddressIsUnique(h1, p1, h2, p2);
  }

  // ----- When a lookup is answered, and what it starts -----

  /** The port a new listener is asked to listen on: any (0), or one of the configured ports, if there is one. */
  function RequestedPort(s: Settings, t: Table, brokerId: int32): Option<int> {
    var min, max := s.ports.minPort, s.ports.maxPorts;
    if !s.ports.deterministic && min == 0 then Some(0)
    else if max == 0 then None
    else
      var offset := if s.ports.deterministic then brokerId else t.counter;
      if min + offset % max <= 65535 then Some(min + offset % max) else None
  }

  /** Listening on the port and advertising what it listens on both work. */
  predicate CanStart(o: Outcome, port: Option<int>) {
    && port.Some? && 0 <= port.value <= 65535 && o.listen(port.value).Some?
    && o.advertise(o.listen(port.value).value).Some?
  }

  predicate HasBroker(t: Table, brokerId: int32) {
    exists e <- t.entries :: e.brokerId == brokerId
  }

  /** Exactly when a locked step for a new address succeeds. */
  predicate CanListen(s: Settings, t: Table, brokerId: int32, o: Outcome) {
    if s.ports.deterministic then
      && brokerId >= 0 && RequestedPort(s, t, brokerId).Some?
      && (HasBroker(t, brokerId) || CanStart(o, RequestedPort(s, t, brokerId)))
    else CanStart(o, RequestedPort(s, t, brokerId))
  }

  lemma PortRequested(s: Settings, t: Table, brokerId: int32)
    requires s.ports.deterministic ==> brokerId >= 0
    ensures var port := NextDynamicPort(s.ports.minPort, s.ports.maxPorts, if s.ports.deterministic then brokerId else t.counter);
            s.ports.deterministic || s.ports.minPort > 0 ==>
              (port.Some? <==> RequestedPort(s, t, brokerId).Some?)
              && (port.Some? ==> port.value == RequestedPort(s, t, brokerId).value)
  {
    if s.ports.maxPorts > 0 {
      PortInRange(s.ports.minPort, s.ports.maxPorts, if s.ports.deterministic then brokerId else t.counter);
    }
  }

  /**
   A locked step for a new address succeeds exactly when it can; a listener it starts has the default IP and the port the
   system gave, is advertised as the outside says for that port, and belongs to the broker id asked for.
   */
  lemma ListenExactly(s: Settings, t: Table, broker: Address, brokerId: int32, o: Outcome)
    requires ValidTable(s, t) && broker !in t.table
    ensures var (u, r) := Listen(s, t, broker, brokerId, o);
            && (r.Success? <==> CanListen(s, t, brokerId, o))
            && (r.Failure? ==> u.table == t.table && u.entries == t.entries)
            && (r.Success? && !(s.ports.deterministic && HasBroker(t, brokerId)) ==>
                  var port := o.listen(RequestedPort(s, t, brokerId).value).value;
                  var e := Entry(broker, HostPort(s.defaultListenerIP, port), o.advertise(port).value, brokerId);
                  && u.entries == t.entries + [e] && u.table == t.table[broker := |t.entries|] && r.value == e.advertised)
  {
    hide NextDynamicPort, ValidTable;
    if s.ports.deterministic ==> brokerId >= 0 {
      PortRequested(s, t, brokerId);
    }
  }

  /** Exactly which lookups are answered. */
  lemma LookupAnswered(s: Settings, t: Table, host: string, port: int32, brokerId: int32, o: Outcome)
    requires ValidTable(s, t)
    ensures var broker := JoinHostPort(host, port); var r := GetNetAddressMapping(s, t, host, port, brokerId, o).1;
            && (r.Success? <==>
                  && host != "" && port > 0
                  && (broker in t.table || broker in s.sni || (!s.ports.disabled && CanListen(s, t, brokerId, o))))
            && (r.Success? && broker !in t.table && broker in s.sni ==> r == Success(s.sni[broker]))
  {
    hide JoinHostPort, Listen, CanListen;
    var broker := JoinHostPort(host, port);
    if broker !in t.table {
      ListenExactly(s, t, broker, brokerId, o);
    }
  }
}
