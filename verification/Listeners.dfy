/**
 The listener table: from broker addresses to listeners, started on demand (proxy/proxy.go, proxy_config.go, and the
 dynamic port checks of Validate in config/config.go).
 */
module Listeners {
  import opened Wire

  type Address = string                                    // "host:port" of a broker, as net.JoinHostPort writes it
  datatype HostPort = HostPort(host: string, port: int)    // a listener's or an advertised address

  const UNKNOWN_BROKER_ID: int32 := -1

  // ----- Ports -----

  /** nextDynamicPort: uint16 arithmetic; None when the port number would wrap, or when no ports are configured. */
  function NextDynamicPort(minPort: uint16, maxPorts: uint16, offset: uint64): Option<uint16> {
    if maxPorts == 0 then None
    else
      var port := (minPort + offset % maxPorts) % 0x1_0000;
      if port < minPort then None else Some(port)
  }

  /** A port is found exactly when it does not pass 65535, and then lies in [minPort, minPort + maxPorts). */
  lemma PortInRange(minPort: uint16, maxPorts: uint16, offset: uint64)
    requires maxPorts > 0
    ensures NextDynamicPort(minPort, maxPorts, offset).Some? <==> minPort + offset % maxPorts <= 0xffff
    ensures NextDynamicPort(minPort, maxPorts, offset).Some? ==>
              && NextDynamicPort(minPort, maxPorts, offset).value == minPort + offset % maxPorts
              && minPort <= NextDynamicPort(minPort, maxPorts, offset).value < minPort + maxPorts
  {
    var sum := minPort + offset % maxPorts;
    if sum > 0xffff {
      assert sum % 0x1_0000 == sum - 0x1_0000;
    }
  }

  /** Offsets less than maxPorts apart get different ports. */
  lemma PortsDiffer(minPort: uint16, maxPorts: uint16, o1: uint64, o2: uint64)
    requires maxPorts > 0 && o1 < o2 < o1 + maxPorts
    requires NextDynamicPort(minPort, maxPorts, o1).Some? && NextDynamicPort(minPort, maxPorts, o2).Some?
    ensures NextDynamicPort(minPort, maxPorts, o1) != NextDynamicPort(minPort, maxPorts, o2)
  {
    PortInRange(minPort, maxPorts, o1);
    PortInRange(minPort, maxPorts, o2);
    RemaindersDiffer(o1, o2, maxPorts);
  }

  lemma RemaindersDiffer(a: int, b: int, m: int)
    requires m > 0 && a < b < a + m
    ensures a % m != b % m
  {
    if a % m == b % m {
      Division(a, m);
      Division(b, m);
      Multiple(m, a / m, b / m);
    }
  }

  lemma Division(a: int, m: int)
    requires m > 0
    ensures a == m * (a / m) + a % m
  {
  }

  /** Different multiples of m are at least m apart. */
  lemma Multiple(m: int, p: int, q: int)
    requires m > 0
    ensures m * q - m * p >= m || m * q - m * p <= 0
  {
    if q > p {
      AtLeast(m, q - p);
    } else {
      AtLeast(m, p - q);
    }
    assert m * q - m * p == m * (q - p) == -(m * (p - q));
  }

  lemma {:induction false} AtLeast(m: int, d: nat)
    requires m > 0
    ensures m * d >= 0 && (d > 0 ==> m * d >= m)
  {
    if d > 0 {
      AtLeast(m, d - 1);
      assert m * d == m * (d - 1) + m;
    }
  }

  datatype DynamicPorts = DynamicPorts(deterministic: bool, disabled: bool, minPort: uint16, maxPorts: uint16)

  /** The part of Validate about dynamic ports: None is an error, otherwise the settings with the default filled in. */
  function Validate(d: DynamicPorts): Option<DynamicPorts> {
    if d.disabled then Some(d)
    else if d.minPort == 0 && d.deterministic then None
    else if d.minPort == 0 && d.maxPorts > 0 then None
    else if d.maxPorts == 0 && d.minPort > 0 then Some(d.(maxPorts := (0x1_0000 - d.minPort) % 0x1_0000))
    else Some(d)
  }

  /** With the default, every offset gets a port. */
  lemma DefaultPortsSuffice(d: DynamicPorts, offset: uint64)
    requires !d.disabled && d.minPort > 0 && d.maxPorts == 0
    ensures Validate(d).Some? && NextDynamicPort(d.minPort, Validate(d).value.maxPorts, offset).Some?
  {
    PortInRange(d.minPort, Validate(d).value.maxPorts, offset);
  }

  /** What Validate refuses and what it leaves: ports to choose from, or none and then neither mode that needs them. */
  lemma ValidatedPorts(d: DynamicPorts)
    ensures Validate(d).None? <==> !d.disabled && d.minPort == 0 && (d.deterministic || d.maxPorts > 0)
    ensures Validate(d).Some? && !d.disabled ==>
              var v := Validate(d).value;
              && v.minPort == d.minPort && v.deterministic == d.deterministic
              && (if v.minPort == 0 then v.maxPorts == 0 && !v.deterministic
                  else v.maxPorts == if d.maxPorts > 0 then d.maxPorts else 65536 - d.minPort)
  {
  }

  // ----- The configured servers -----

  datatype Server = Server(broker: Address, listener: HostPort, advertised: HostPort)

  /** No server is configured twice in different ways, and external servers are advertised as they listen. */
  predicate Consistent(bootstrap: seq<Server>, external: seq<Server>) {
    && (forall a <- bootstrap, b <- bootstrap :: a.broker == b.broker ==> a == b)
    && (forall a <- external, b <- external :: a.broker == b.broker ==> a.listener == b.listener)
    && (forall i :: 0 <= i < |external| && FirstOf(external, i) ==> external[i].listener == external[i].advertised)
    && (forall a <- bootstrap, b <- external :: a.broker == b.broker ==> a.advertised == b.listener)
  }

  predicate FirstOf(servers: seq<Server>, i: nat)
    requires i < |servers|
  {
    forall j :: 0 <= j < i ==> servers[j].broker != servers[i].broker
  }

  /** The table's initial configs, if the configuration is consistent (getBrokerToListenerConfig). */
  method GetBrokerToListenerConfig(bootstrap: seq<Server>, external: seq<Server>) returns (r: Option<map<Address, Server>>)
    ensures r.Some? <==> Consistent(bootstrap, external)
    ensures r.Some? ==>
              && (forall k <- r.value :: r.value[k].broker == k && (r.value[k] in bootstrap || r.value[k] in external))
              && (forall b <- bootstrap :: b.broker in r.value && r.value[b.broker] == b)
              && (forall e <- external :: e.broker in r.value && r.value[e.broker].advertised == e.listener)
  {
    var m: map<Address, Server> := map[];
    for i := 0 to |bootstrap|
      invariant forall k <- m :: m[k].broker == k && m[k] in bootstrap[..i]
      invariant forall b <- bootstrap[..i] :: b.broker in m && m[b.broker] == b
    {
      var v := bootstrap[i];
      assert bootstrap[..i + 1] == bootstrap[..i] + [v];
      if v.broker in m {
        if m[v.broker] != v {
          return None;
        }
      } else {
        m := m[v.broker := v];
      }
    }
    assert bootstrap[..|bootstrap|] == bootstrap;
    var x := CollectExternal(external);
    if x == None {
      return None;
    }
    r := MergeExternal(m, x.value);
    MergedIsConsistent(bootstrap, external, m, x.value);
  }

  lemma MergedIsConsistent(bootstrap: seq<Server>, external: seq<Server>, m: map<Address, Server>, x: map<Address, Server>)
    requires Consistent([], external) && Consistent(bootstrap, [])
    requires forall k <- m :: m[k].broker == k && m[k] in bootstrap
    requires forall b <- bootstrap :: b.broker in m && m[b.broker] == b
    requires forall k <- x :: x[k].broker == k && x[k] in external && x[k].listener == x[k].advertised
    requires forall e <- external :: e.broker in x && x[e.broker].listener == e.listener
    ensures Consistent(bootstrap, external) <==> forall k <- x :: k in m ==> m[k].advertised == x[k].advertised
  {
    if Consistent(bootstrap, external) {
      forall k | k in x && k in m
        ensures m[k].advertised == x[k].advertised
      {
        assert m[k] in bootstrap && x[k] in external;
      }
    }
  }

  method CollectExternal(external: seq<Server>) returns (r: Option<map<Address, Server>>)
    ensures r.Some? <==> Consistent([], external)
    ensures r.Some? ==>
              && (forall k <- r.value ::
                    r.value[k].broker == k && r.value[k] in external && r.value[k].listener == r.value[k].advertised)
              && (forall e <- external :: e.broker in r.value && r.value[e.broker].listener == e.listener)
  {
    var m: map<Address, Server> := map[];
    for i := 0 to |external|
      invariant forall k <- m :: m[k].broker == k && m[k] in external[..i] && m[k].listener == m[k].advertised
      invariant forall j :: 0 <= j < i ==> external[j].broker in m && m[external[j].broker].listener == external[j].listener
      invariant forall j :: 0 <= j < i && FirstOf(external, j) ==> external[j].listener == external[j].advertised
    {
      var v := external[i];
      assert external[..i + 1] == external[..i] + [v];
      if v.broker in m {
        assert m[v.broker] in external;
        if m[v.broker].listener != v.listener {
          return None;
        }
      } else {
        assert FirstOf(external, i);
        if v.listener != v.advertised {
          return None;
        }
        m := m[v.broker := v];
      }
    }
    r := Some(m);
  }

  /** The external servers come in the map's order, which is any order. */
  method MergeExternal(configured: map<Address, Server>, x: map<Address, Server>) returns (r: Option<map<Address, Server>>)
    requires forall k <- x :: x[k].broker == k
    ensures r.Some? <==> forall k <- x :: k in configured ==> configured[k].advertised == x[k].advertised
    ensures r.Some? ==> r.value == x + configured
  {
    var m := configured;
    var todo := x.Keys;
    while todo != {}
      invariant todo <= x.Keys
      invariant m == (map k | k in x && k !in todo :: x[k]) + configured
      invariant forall k <- x :: k in configured && k !in todo ==> configured[k].advertised == x[k].advertised
      decreases |todo|
    {
      var k :| k in todo;
      var v := x[k];
      if v.broker in m {
        if m[v.broker].advertised != v.advertised {
          assert m[k] == configured[k];
          return None;
        }
      } else {
        m := m[v.broker := v];
      }
      MergeStep(configured, x, todo, k);
      todo := todo - {k};
    }
    r := Some(m);
    assert m == x + configured;
  }

  lemma MergeStep(configured: map<Address, Server>, x: map<Address, Server>, todo: set<Address>, k: Address)
    requires k in todo && k in x
    ensures (map j | j in x && j !in todo - {k} :: x[j]) + configured
            == if k in configured then (map j | j in x && j !in todo :: x[j]) + configured
               else ((map j | j in x && j !in todo :: x[j]) + configured)[k := x[k]]
  {
  }

  // ----- The table as a value -----

  /** One started or configured listener. Its broker address may change later, the rest may not. */
  datatype Entry = Entry(broker: Address, listener: HostPort, advertised: HostPort, brokerId: int32)

  /** `sni` has the broker addresses that are reached by server name, with that name and the port of the SNI listener. */
  datatype Settings = Settings(ports: DynamicPorts, defaultListenerIP: string, sni: map<Address, HostPort>)

  /** `entries` lists every listener ever set up, `table` points into it. */
  datatype Table = Table(table: map<Address, nat>, entries: seq<Entry>, counter: uint64)

  /** What the outside answers: the port it listens on when asked for one (0 for any), and the advertised address. */
  datatype Outcome = Outcome(listen: uint16 -> Option<int>, advertise: int -> Option<HostPort>)

  datatype MappingError =
    | InvalidAddress
    | NegativeBrokerId
    | NoPort
    | ListenFailed
    | AdvertiseFailed
    | NotFound

  type Mapped = Result<HostPort, MappingError>

  predicate ValidTable(s: Settings, t: Table) {
    // every key is its entry's current broker address
    && (forall k <- t.table :: t.table[k] < |t.entries| && t.entries[t.table[k]].broker == k)
    // every entry is in the table, under one key only
    && (forall i :: 0 <= i < |t.entries| ==> t.entries[i].broker in t.table && t.table[t.entries[i].broker] == i)
    // in deterministic mode a broker id has at most one listener
    && (s.ports.deterministic ==>
          forall i, j :: 0 <= i < j < |t.entries| && t.entries[i].brokerId >= 0 ==>
            t.entries[i].brokerId != t.entries[j].brokerId)
  }

  /** The entry of a broker id, or -1 (findListenerConfig; ids are unique where it is used). */
  function Find(entries: seq<Entry>, brokerId: int32): (i: int)
    ensures -1 <= i < |entries|
    ensures i >= 0 ==> entries[i].brokerId == brokerId
    ensures i == -1 ==> forall j :: 0 <= j < |entries| ==> entries[j].brokerId != brokerId
  {
    if entries == [] then -1
    else if entries[|entries| - 1].brokerId == brokerId then |entries| - 1
    else
      var i := Find(entries[..|entries| - 1], brokerId);
      assert forall j :: 0 <= j < |entries| - 1 ==> entries[j] == entries[..|entries| - 1][j];
      i
  }

  function Enter(t: Table, e: Entry): Table {
    t.(table := t.table[e.broker := |t.entries|], entries := t.entries + [e])
  }

  /** Starts a listener on the given port for a new address and enters it. */
  function Start(s: Settings, t: Table, broker: Address, brokerId: int32, port: uint16, o: Outcome): (Table, Mapped) {
    var listening := o.listen(port);
    if listening.None? then (t, Failure(ListenFailed))
    else
      var advertised := o.advertise(listening.value);
      if advertised.None? then (t, Failure(AdvertiseFailed))
      else
        var e := Entry(broker, HostPort(s.defaultListenerIP, listening.value), advertised.value, brokerId);
        (Enter(t, e), Success(advertised.value))
  }

  /** ListenDynamicInstance, which runs under the write lock. */
  function Listen(s: Settings, t: Table, broker: Address, brokerId: int32, o: Outcome): (Table, Mapped)
    requires ValidTable(s, t)
  {
    var ports := s.ports;
    if broker in t.table then (t, Success(t.entries[t.table[broker]].advertised))
    else if ports.deterministic then
      if brokerId < 0 then (t, Failure(NegativeBrokerId))
      else
        var port := NextDynamicPort(ports.minPort, ports.maxPorts, brokerId);
        var i := Find(t.entries, brokerId);
        if port.None? then (t, Failure(NoPort))
        else if i >= 0 then (Rekey(t, i, broker), Success(t.entries[i].advertised))
        else Start(s, t, broker, brokerId, port.value, o)
    else if ports.minPort == 0 then Start(s, t, broker, brokerId, 0, o)
    else
      var port := NextDynamicPort(ports.minPort, ports.maxPorts, t.counter);
      if port.None? then (t, Failure(NoPort))
      else Start(s, t.(counter := (t.counter + 1) % TWO_TO_THE_64), broker, brokerId, port.value, o)
  }

  /** The entry i moves to a new broker address; its old key goes. */
  function Rekey(t: Table, i: nat, broker: Address): Table
    requires i < |t.entries|
  {
    var e := t.entries[i];
    t.(table := (t.table - {e.broker})[broker := i], entries := t.entries[i := e.(broker := broker)])
  }

  lemma RekeyKeepsValid(s: Settings, t: Table, i: nat, broker: Address)
    requires ValidTable(s, t) && i < |t.entries| && broker !in t.table
    ensures ValidTable(s, Rekey(t, i, broker))
  {
    var u := Rekey(t, i, broker);
    forall j | 0 <= j < |u.entries|
      ensures u.entries[j].broker in u.table && u.table[u.entries[j].broker] == j
    {
      if j != i {
        assert t.table[t.entries[j].broker] == j && t.table[t.entries[i].broker] == i;
      }
    }
    forall k | k in u.table
      ensures u.table[k] < |u.entries| && u.entries[u.table[k]].broker == k
    {
      if k != broker {
        assert k in t.table && t.entries[t.table[k]].broker == k;
      }
    }
  }

  lemma EnterKeepsValid(s: Settings, t: Table, e: Entry)
    requires ValidTable(s, t) && e.broker !in t.table
    requires e.brokerId < 0 || (s.ports.deterministic ==> forall x <- t.entries :: x.brokerId != e.brokerId)
    ensures ValidTable(s, Enter(t, e))
  {
  }

  lemma StartKeepsValid(s: Settings, t: Table, broker: Address, brokerId: int32, port: uint16, o: Outcome)
    requires ValidTable(s, t) && broker !in t.table
    requires s.ports.deterministic ==> forall e <- t.entries :: e.brokerId != brokerId
    ensures ValidTable(s, Start(s, t, broker, brokerId, port, o).0)
  {
  }

  lemma ListenKeepsValid(s: Settings, t: Table, broker: Address, brokerId: int32, o: Outcome)
    requires ValidTable(s, t)
    ensures ValidTable(s, Listen(s, t, broker, brokerId, o).0)
  {
    var ports := s.ports;
    if broker !in t.table {
      if !ports.deterministic {
        var u := t.(counter := (t.counter + 1) % TWO_TO_THE_64);
        var port := NextDynamicPort(ports.minPort, ports.maxPorts, t.counter);
        StartKeepsValid(s, t, broker, brokerId, 0, o);
        StartKeepsValid(s, u, broker, brokerId, if port.Some? then port.value else 0, o);
      } else if brokerId >= 0 {
        var port := NextDynamicPort(ports.minPort, ports.maxPorts, brokerId);
        var i := Find(t.entries, brokerId);
        if i >= 0 {
          RekeyKeepsValid(s, t, i, broker);
        } else {
          StartKeepsValid(s, t, broker, brokerId, if port.Some? then port.value else 0, o);
        }
      }
    }
  }

  // ----- Runs: any interleaving of lookups is a sequence of these locked steps -----

  /** A locked step of some lookup; lookups that find their address change nothing. */
  datatype Lookup = Lookup(broker: Address, brokerId: int32, o: Outcome)

  function After(s: Settings, t: Table, steps: seq<Lookup>): (u: Table)
    requires ValidTable(s, t)
    ensures ValidTable(s, u)
    decreases |steps|
  {
    if steps == [] then t
    else
      ListenKeepsValid(s, t, steps[0].broker, steps[0].brokerId, steps[0].o);
      After(s, Listen(s, t, steps[0].broker, steps[0].brokerId, steps[0].o).0, steps[1..])
  }

  lemma ListenKeepsEntry(s: Settings, t: Table, l: Lookup, i: nat)
    requires ValidTable(s, t) && i < |t.entries|
    ensures var u := Listen(s, t, l.broker, l.brokerId, l.o).0;
            && i < |u.entries| && u.entries[i].(broker := t.entries[i].broker) == t.entries[i]
            && (!s.ports.deterministic || t.entries[i].brokerId < 0 ==> u.entries[i] == t.entries[i])
  {
  }

  /** A listener, once set up, keeps its own address, its advertised address and its broker id for ever. */
  lemma {:induction false} ListenersStay(s: Settings, t: Table, steps: seq<Lookup>, i: nat)
    requires ValidTable(s, t) && i < |t.entries|
    ensures var u := After(s, t, steps);
            && i < |u.entries|
            && u.entries[i].listener == t.entries[i].listener && u.entries[i].advertised == t.entries[i].advertised
            && u.entries[i].brokerId == t.entries[i].brokerId
    // only re-keying in deterministic mode, of a listener with a broker id, moves its target
    ensures !s.ports.deterministic || t.entries[i].brokerId < 0 ==> After(s, t, steps).entries[i] == t.entries[i]
    decreases |steps|
  {
    if steps != [] {
      hide Listen, ValidTable;
      ListenKeepsValid(s, t, steps[0].broker, steps[0].brokerId, steps[0].o);
      ListenKeepsEntry(s, t, steps[0], i);
      ListenersStay(s, Listen(s, t, steps[0].broker, steps[0].brokerId, steps[0].o).0, steps[1..], i);
    }
  }

  /** Bootstrap and external entries are never removed, and outside deterministic mode no mapping ever changes. */
  lemma MappingsStay(s: Settings, t: Table, steps: seq<Lookup>, k: Address)
    requires ValidTable(s, t) && k in t.table
    requires !s.ports.deterministic || t.entries[t.table[k]].brokerId < 0
    ensures var u := After(s, t, steps);
            && k in u.table && u.table[k] == t.table[k] && u.entries[u.table[k]] == t.entries[t.table[k]]
  {
    ListenersStay(s, t, steps, t.table[k]);
    assert After(s, t, steps).entries[t.table[k]].broker == k;
  }

  /** An answer is the advertised address of the listener that now connects to the broker asked for. */
  lemma AnswerLeadsToBroker(s: Settings, t: Table, broker: Address, brokerId: int32, o: Outcome)
    requires ValidTable(s, t) && Listen(s, t, broker, brokerId, o).1.Success?
    ensures var (u, r) := Listen(s, t, broker, brokerId, o);
            && broker in u.table && u.table[broker] < |u.entries|
            && u.entries[u.table[broker]].broker == broker
            && r == Success(u.entries[u.table[broker]].advertised)
  {
    ListenKeepsValid(s, t, broker, brokerId, o);
  }

  /** What one lookup does, with the read lock and then perhaps the write lock (GetNetAddressMapping). */
  function GetNetAddressMapping(s: Settings, t: Table, host: string, port: int32, brokerId: int32, o: Outcome): (Table, Mapped)
    requires ValidTable(s, t)
  {
    var broker := JoinHostPort(host, port);
    if host == "" || port <= 0 then (t, Failure(InvalidAddress))
    else if broker in t.table then (t, Success(t.entries[t.table[broker]].advertised))
    else if broker in s.sni then (t, Success(s.sni[broker]))
    else if s.ports.disabled then (t, Failure(NotFound))
    else Listen(s, t, broker, brokerId, o)
  }

  function JoinHostPort(host: string, port: int32): Address {
    (if ':' in host then "[" + host + "]" else host) + ":" + Itoa(port)
  }

  function Itoa(i: int): string {
    if i < 0 then "-" + Decimal(-i) else Decimal(i)
  }

  function Decimal(n: nat): string {
    (if n < 10 then "" else Decimal(n / 10)) + ["0123456789"[n % 10]]
  }

  /** In the run, a lookup of the broker answers a: it finds it in the k-th state, or its locked step is the k-th. */
  predicate AnsweredAt(s: Settings, t: Table, run: seq<Lookup>, broker: Address, k: nat, a: HostPort)
    requires ValidTable(s, t) && k <= |run|
  {
    var u := After(s, t, run[..k]);
    || (broker in u.table && a == u.entries[u.table[broker]].advertised)
    || (k < |run| && run[k].broker == broker && Listen(s, u, broker, run[k].brokerId, run[k].o).1 == Success(a))
  }

  lemma {:induction false} AfterSplit(s: Settings, t: Table, run: seq<Lookup>, k: nat)
    requires ValidTable(s, t) && k <= |run|
    ensures After(s, t, run) == After(s, After(s, t, run[..k]), run[k..])
    decreases |run|
  {
    hide Listen, ValidTable;
    if k == 0 {
      assert run[..0] == [] && run[0..] == run;
    } else {
      ListenKeepsValid(s, t, run[0].broker, run[0].brokerId, run[0].o);
      var u := Listen(s, t, run[0].broker, run[0].brokerId, run[0].o).0;
      AfterSplit(s, u, run[1..], k - 1);
      assert run[..k][1..] == run[1..][..k - 1] && run[..k][0] == run[0] && run[1..][k - 1..] == run[k..];
    }
  }

  /** An answer given at some point of a run is what the table says at the run's end. */
  lemma AnswerStands(s: Settings, t: Table, run: seq<Lookup>, broker: Address, k: nat, a: HostPort)
    requires ValidTable(s, t) && !s.ports.deterministic && k <= |run| && AnsweredAt(s, t, run, broker, k, a)
    ensures var u := After(s, t, run); broker in u.table && u.entries[u.table[broker]].advertised == a
  {
    hide Listen;
    var u := After(s, t, run[..k]);
    AfterSplit(s, t, run, k);
    if broker in u.table && a == u.entries[u.table[broker]].advertised {
      MappingsStay(s, u, run[k..], broker);
    } else {
      var l := run[k];
      AnswerLeadsToBroker(s, u, broker, l.brokerId, l.o);
      ListenKeepsValid(s, u, broker, l.brokerId, l.o);
      assert run[k..][0] == l;
      MappingsStay(s, Listen(s, u, broker, l.brokerId, l.o).0, run[k..][1..], broker);
    }
  }

  /**
   Outside deterministic mode all lookups of one broker address in a run give the same answer, however their reads and
   locked steps interleave: a second listener for one broker is never started.
   */
  lemma AnswersAgree(s: Settings, t: Table, run: seq<Lookup>, broker: Address, k1: nat, a1: HostPort, k2: nat, a2: HostPort)
    requires ValidTable(s, t) && !s.ports.deterministic && k1 <= |run| && k2 <= |run|
    requires AnsweredAt(s, t, run, broker, k1, a1) && AnsweredAt(s, t, run, broker, k2, a2)
    ensures a1 == a2
  {
    hide AnsweredAt, After;
    AnswerStands(s, t, run, broker, k1, a1);
    AnswerStands(s, t, run, broker, k2, a2);
  }

  /** In deterministic mode a broker id keeps its listener: a new address for it re-keys, and the target follows. */
  lemma RekeyFollows(s: Settings, t: Table, broker: Address, brokerId: int32, o: Outcome, i: nat)
    requires ValidTable(s, t) && s.ports.deterministic && brokerId >= 0 && broker !in t.table
    requires i < |t.entries| && t.entries[i].brokerId == brokerId
    requires NextDynamicPort(s.ports.minPort, s.ports.maxPorts, brokerId).Some?
    ensures var (u, r) := Listen(s, t, broker, brokerId, o);
            && r == Success(t.entries[i].advertised) && |u.entries| == |t.entries|
            && u.entries[i].broker == broker && t.entries[i].broker !in u.table
            && forall j :: 0 <= j < |t.entries| && j != i ==> u.entries[j] == t.entries[j]
  {
    assert Find(t.entries, brokerId) == i;
  }

  /** The operating system listens where it is asked to. */
  ghost predicate Honest(o: Outcome) {
    forall p: uint16 :: p > 0 && o.listen(p).Some? ==> o.listen(p) == Some(p)
  }

  /** In deterministic mode the listening port of a broker is a function of its id. */
  predicate PortsDetermined(s: Settings, t: Table) {
    forall e <- t.entries :: e.brokerId >= 0 ==>
      NextDynamicPort(s.ports.minPort, s.ports.maxPorts, e.brokerId) == Some(e.listener.port)
  }

  lemma ListenDeterminesPorts(s: Settings, t: Table, l: Lookup)
    requires ValidTable(s, t) && s.ports.deterministic && s.ports.minPort > 0 && PortsDetermined(s, t) && Honest(l.o)
    ensures PortsDetermined(s, Listen(s, t, l.broker, l.brokerId, l.o).0)
  {
    var u := Listen(s, t, l.broker, l.brokerId, l.o).0;
    forall e | e in u.entries && e.brokerId >= 0
      ensures NextDynamicPort(s.ports.minPort, s.ports.maxPorts, e.brokerId) == Some(e.listener.port)
    {
      var j :| 0 <= j < |u.entries| && u.entries[j] == e;
      if j < |t.entries| {
        assert t.entries[j] in t.entries && u.entries[j].listener == t.entries[j].listener;
      }
    }
  }

  lemma {:induction false} DeterministicPorts(s: Settings, t: Table, steps: seq<Lookup>)
    requires ValidTable(s, t) && s.ports.deterministic && s.ports.minPort > 0
    requires PortsDetermined(s, t) && forall l <- steps :: Honest(l.o)
    ensures PortsDetermined(s, After(s, t, steps))
    decreases |steps|
  {
    if steps != [] {
      hide Listen, ValidTable, PortsDetermined, Honest;
      var l := steps[0];
      ListenKeepsValid(s, t, l.broker, l.brokerId, l.o);
      ListenDeterminesPorts(s, t, l);
      DeterministicPorts(s, Listen(s, t, l.broker, l.brokerId, l.o).0, steps[1..]);
    }
  }

  /** One locked step in sequential mode: at most one new listener, on the port of the counter, which moves on. */
  lemma SequentialStep(s: Settings, t: Table, l: Lookup)
    requires ValidTable(s, t) && !s.ports.deterministic && s.ports.minPort > 0 && s.ports.maxPorts > 0
    requires Honest(l.o) && t.counter + 1 < TWO_TO_THE_64
    ensures var u := Listen(s, t, l.broker, l.brokerId, l.o).0; var n := |t.entries|;
            || (u.entries == t.entries && t.counter <= u.counter <= t.counter + 1)
            || (u.counter == t.counter + 1 && |u.entries| == n + 1 && u.entries[..n] == t.entries
                && NextDynamicPort(s.ports.minPort, s.ports.maxPorts, t.counter) == Some(u.entries[n].listener.port))
  {
    PortInRange(s.ports.minPort, s.ports.maxPorts, t.counter);
  }

  /** The entries from n on were given the ports of these increasing values of the counter, from lo on and below hi. */
  predicate Tracks(ports: DynamicPorts, entries: seq<Entry>, n: nat, counters: seq<nat>, lo: nat, hi: nat) {
    && |entries| == n + |counters| && lo <= hi < TWO_TO_THE_64
    && (forall k :: 0 <= k < |counters| ==> lo <= counters[k] < hi)
    && (forall j, k :: 0 <= j < k < |counters| ==> counters[j] < counters[k])
    && forall k :: 0 <= k < |counters| ==>
         NextDynamicPort(ports.minPort, ports.maxPorts, counters[k]) == Some(entries[n + k].listener.port)
  }

  lemma TracksMore(ports: DynamicPorts, entries: seq<Entry>, n: nat, counters: seq<nat>, lo: nat, hi: nat)
    requires Tracks(ports, entries, n + 1, counters, lo + 1, hi)
    requires NextDynamicPort(ports.minPort, ports.maxPorts, lo) == Some(entries[n].listener.port)
    ensures Tracks(ports, entries, n, [lo] + counters, lo, hi)
  {
    hide NextDynamicPort;
    var cs := [lo] + counters;
    forall k | 0 <= k < |cs|
      ensures NextDynamicPort(ports.minPort, ports.maxPorts, cs[k]) == Some(entries[n + k].listener.port)
    {
      if k > 0 {
        assert cs[k] == counters[k - 1] && n + k == n + 1 + (k - 1);
      }
    }
  }

  /** The listeners a run in sequential mode adds were given the ports of increasing values of the counter. */
  lemma {:induction false} SequentialPorts(s: Settings, t: Table, steps: seq<Lookup>) returns (counters: seq<nat>)
    requires ValidTable(s, t) && !s.ports.deterministic && s.ports.minPort > 0 && s.ports.maxPorts > 0
    requires t.counter + |steps| < TWO_TO_THE_64 && forall l <- steps :: Honest(l.o)
    ensures var u := After(s, t, steps);
            u.counter <= t.counter + |steps| && Tracks(s.ports, u.entries, |t.entries|, counters, t.counter, u.counter)
    decreases |steps|
  {
    counters := [];
    if steps != [] {
      hide Listen, ValidTable, Honest, NextDynamicPort;
      var l, n := steps[0], |t.entries|;
      ListenKeepsValid(s, t, l.broker, l.brokerId, l.o);
      SequentialStep(s, t, l);
      var v := Listen(s, t, l.broker, l.brokerId, l.o).0;
      counters := SequentialPorts(s, v, steps[1..]);
      if v.entries != t.entries {
        hide Tracks;
        ListenersStay(s, v, steps[1..], n);
        TracksMore(s.ports, After(s, t, steps).entries, n, counters, t.counter, After(s, t, steps).counter);
        counters := [t.counter] + counters;
      }
    }
  }

  /** In sequential mode the listeners that up to maxPorts lookups in a row add listen on different ports. */
  lemma SequentialPortsDiffer(s: Settings, t: Table, steps: seq<Lookup>, i: nat, j: nat)
    requires ValidTable(s, t) && !s.ports.deterministic && s.ports.minPort > 0 && s.ports.maxPorts > 0
    requires |steps| <= s.ports.maxPorts && t.counter + |steps| < TWO_TO_THE_64 && forall l <- steps :: Honest(l.o)
    requires |t.entries| <= i < j < |After(s, t, steps).entries|
    ensures After(s, t, steps).entries[i].listener.port != After(s, t, steps).entries[j].listener.port
  {
    hide Listen, ValidTable, Honest, NextDynamicPort;
    var u, n, ports := After(s, t, steps), |t.entries|, s.ports;
    var counters := SequentialPorts(s, t, steps);
    assert NextDynamicPort(ports.minPort, ports.maxPorts, counters[i - n]) == Some(u.entries[n + (i - n)].listener.port);
    assert NextDynamicPort(ports.minPort, ports.maxPorts, counters[j - n]) == Some(u.entries[n + (j - n)].listener.port);
    PortsDiffer(ports.minPort, ports.maxPorts, counters[i - n], counters[j - n]);
  }
}
