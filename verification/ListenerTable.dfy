/** The listener table as the source keeps it: a map of shared, mutable listener configs (proxy/proxy.go, proxy_config.go). */
module ListenerTable {
  import opened Wire
  import opened Listeners
  import opened BrokerLookups

  class ListenerConfig {
    var brokerAddress: Address
    const listener: HostPort
    const advertised: HostPort
    const brokerId: int32
    ghost const id: nat       // configs are numbered in the order they enter the table

    constructor (broker: Address, listener: HostPort, advertised: HostPort, brokerId: int32, ghost id: nat)
      ensures Entry() == Listeners.Entry(broker, listener, advertised, brokerId) && this.id == id
    {
      this.brokerAddress := broker;
      this.listener := listener;
      this.advertised := advertised;
      this.brokerId := brokerId;
      this.id := id;
    }

    ghost function Entry(): Listeners.Entry
      reads this
    {
      Listeners.Entry(brokerAddress, listener, advertised, brokerId)
    }

    /** The goroutine that accepts connections on this listener reads its target here, at every accept. */
    method GetBrokerAddress() returns (a: Address)
      ensures a == Entry().broker
    {
      a := brokerAddress;
    }

    method SetBrokerAddress(a: Address)
      modifies this`brokerAddress
      ensures Entry() == old(Entry()).(broker := a)
    {
      brokerAddress := a;
    }
  }

  ghost function Configured(v: Server): Listeners.Entry {
    Listeners.Entry(v.broker, v.listener, v.advertised, UNKNOWN_BROKER_ID)
  }

  /** The table has the servers of these addresses and nothing else. */
  ghost predicate AllConfigured(t: Table, servers: map<Address, Server>, done: set<Address>)
    requires done <= servers.Keys
  {
    && t.table.Keys == done
    && forall k <- done :: t.table[k] < |t.entries| && t.entries[t.table[k]] == Configured(servers[k])
  }

  lemma EnterConfigured(s: Settings, t: Table, servers: map<Address, Server>, done: set<Address>, k: Address)
    requires ValidTable(s, t) && done <= servers.Keys && k in servers.Keys - done && servers[k].broker == k
    requires AllConfigured(t, servers, done)
    ensures k !in t.table
    ensures var u := Enter(t, Configured(servers[k])); ValidTable(s, u) && AllConfigured(u, servers, done + {k})
  {
    EnterKeepsValid(s, t, Configured(servers[k]));
  }

  class ListenerMap {
    const settings: Settings
    var brokerToListenerConfig: map<Address, ListenerConfig>
    var counter: uint64
    ghost var created: seq<ListenerConfig>    // every config ever entered, in order

    /** The table starts with the configured servers, which have no broker id. */
    constructor (settings: Settings, servers: map<Address, Server>)
      requires forall k <- servers :: servers[k].broker == k
      ensures this.settings == settings && Valid() && fresh(Repr())
      ensures Abs().table.Keys == servers.Keys && counter == 0
      ensures forall k <- servers :: Abs().entries[Abs().table[k]] == Configured(servers[k])
    {
      this.settings := settings;
      brokerToListenerConfig := map[];
      counter := 0;
      created := [];
      new;
      Configure(servers);
    }

    method Configure(servers: map<Address, Server>)
      requires forall k <- servers :: servers[k].broker == k
      requires Valid() && AllConfigured(Abs(), servers, {})
      modifies this`brokerToListenerConfig, this`created
      ensures Valid() && fresh(Repr() - old(Repr())) && counter == old(counter)
      ensures AllConfigured(Abs(), servers, servers.Keys)
    {
      hide ValidTable, Enter, AllConfigured, Numbered, Configured;
      var todo := servers.Keys;
      ghost var done: set<Address> := {};
      while todo != {}
        invariant todo <= servers.Keys && done == servers.Keys - todo
        invariant Valid() && fresh(Repr() - old(Repr())) && counter == old(counter)
        invariant AllConfigured(Abs(), servers, done)
        decreases |todo|
      {
        var k :| k in todo;
        EnterConfigured(settings, Abs(), servers, done, k);
        AddConfigured(servers[k]);
        done := done + {k};
        todo := todo - {k};
      }
      assert done == servers.Keys;
    }

    ghost function Repr(): set<object>
      reads this
    {
      {this} + (set c: object | c in created)
    }

    ghost function Abs(): Table
      reads this, created
    {
      Table(map k | k in brokerToListenerConfig :: brokerToListenerConfig[k].id,
            seq(|created|, i requires 0 <= i < |created| reads this, created => created[i].Entry()),
            counter)
    }

    ghost predicate Numbered()
      reads this
    {
      && (forall i :: 0 <= i < |created| ==> created[i].id == i)
      && (forall k <- brokerToListenerConfig :: brokerToListenerConfig[k].id < |created|
            && created[brokerToListenerConfig[k].id] == brokerToListenerConfig[k])
    }

    ghost predicate Valid()
      reads this, created
    {
      Numbered() && ValidTable(settings, Abs())
    }

    method AddConfigured(v: Server)
      requires Numbered() && v.broker !in brokerToListenerConfig
      modifies this`brokerToListenerConfig, this`created
      ensures Numbered() && fresh(Repr() - old(Repr())) && Abs() == Enter(old(Abs()), Configured(v))
    {
      ghost var t := Abs();
      var cfg := new ListenerConfig(v.broker, v.listener, v.advertised, UNKNOWN_BROKER_ID, |created|);
      brokerToListenerConfig := brokerToListenerConfig[v.broker := cfg];
      created := created + [cfg];
      assert Abs().entries == t.entries + [cfg.Entry()];
      assert Abs().table == t.table[v.broker := |t.entries|];
    }

    /** findListenerConfig: looks through the map in whatever order it comes. */
    method FindListenerConfig(brokerId: int32) returns (c: ListenerConfig?)
      ensures c != null ==> c in brokerToListenerConfig.Values && c.brokerId == brokerId
      ensures c == null ==> forall k <- brokerToListenerConfig :: brokerToListenerConfig[k].brokerId != brokerId
    {
      var todo := brokerToListenerConfig.Keys;
      while todo != {}
        invariant todo <= brokerToListenerConfig.Keys
        invariant forall k <- brokerToListenerConfig :: k !in todo ==> brokerToListenerConfig[k].brokerId != brokerId
        decreases |todo|
      {
        var k :| k in todo;
        if brokerToListenerConfig[k].brokerId == brokerId {
          return brokerToListenerConfig[k];
        }
        todo := todo - {k};
      }
      c := null;
    }

    /** In deterministic mode there is only one config it can find, the one the specification finds. */
    lemma FoundIsUnique(brokerId: int32, c: ListenerConfig?)
      requires Valid() && settings.ports.deterministic && brokerId >= 0
      requires c != null ==> c in brokerToListenerConfig.Values && c.brokerId == brokerId
      requires c == null ==> forall k <- brokerToListenerConfig :: brokerToListenerConfig[k].brokerId != brokerId
      ensures var i := Find(Abs().entries, brokerId); if i < 0 then c == null else c == created[i]
    {
      var t := Abs();
      var i := Find(t.entries, brokerId);
      if c != null {
        assert created[c.id] == c && t.entries[c.id].brokerId == brokerId;
      }
    }

    /** GetNetAddressMapping, when no other lookup comes between its read and its locked step. */
    method GetNetAddressMapping(host: string, port: int32, brokerId: int32, o: Outcome) returns (r: Mapped)
      requires Valid()
      modifies Repr()
      ensures Valid() && fresh(Repr() - old(Repr())) && old(created) <= created
      ensures (Abs(), r) == Listeners.GetNetAddressMapping(settings, old(Abs()), host, port, brokerId, o)
      ensures r.Success? && (JoinHostPort(host, port) in old(Abs()).table || JoinHostPort(host, port) !in settings.sni) ==>
                exists e <- Abs().entries :: Targets(e, host, port) && r.value == e.advertised
    {
      hide Listen, ValidTable, Targets;
      ghost var t := Abs();
      if Listeners.GetNetAddressMapping(settings, t, host, port, brokerId, o).1.Success?
         && (JoinHostPort(host, port) in t.table || JoinHostPort(host, port) !in settings.sni) {
        var i := LookupLeads(settings, t, host, port, brokerId, o);
      }
      if host == "" || port <= 0 {
        return Failure(InvalidAddress);
      }
      var broker := JoinHostPort(host, port);
      if broker in brokerToListenerConfig {
        return Success(brokerToListenerConfig[broker].advertised);
      }
      if broker in settings.sni {
        return Success(settings.sni[broker]);
      }
      if !settings.ports.disabled {
        r := ListenDynamicInstance(broker, brokerId, o);
        return;
      }
      r := Failure(NotFound);
    }

    /** ListenDynamicInstance, under the write lock. */
    method ListenDynamicInstance(broker: Address, brokerId: int32, o: Outcome) returns (r: Mapped)
      requires Valid()
      modifies Repr()
      ensures Valid() && fresh(Repr() - old(Repr())) && old(created) <= created
      ensures (Abs(), r) == Listen(settings, old(Abs()), broker, brokerId, o)
    {
      hide ValidTable, Start, Rekey, NextDynamicPort, Find;
      ghost var t := Abs();
      ListenKeepsValid(settings, t, broker, brokerId, o);
      if broker in brokerToListenerConfig {
        return Success(brokerToListenerConfig[broker].advertised);
      }
      var ports := settings.ports;
      var listenPort := 0;
      if ports.deterministic {
        if brokerId < 0 {
          return Failure(NegativeBrokerId);
        }
        var port := NextDynamicPort(ports.minPort, ports.maxPorts, brokerId);
        if port == None {
          return Failure(NoPort);
        }
        listenPort := port.value;
        var cfg := FindListenerConfig(brokerId);
        FoundIsUnique(brokerId, cfg);
        if cfg != null {
          assert cfg.id == Find(t.entries, brokerId);
          r := RekeyConfig(cfg, broker);
          return;
        }
      } else if ports.minPort != 0 {
        var port := NextDynamicPort(ports.minPort, ports.maxPorts, counter);
        if port == None {
          return Failure(NoPort);
        }
        listenPort := port.value;
        counter := (counter + 1) % TWO_TO_THE_64;
        assert Abs() == t.(counter := (t.counter + 1) % TWO_TO_THE_64);
      }
      r := StartListener(broker, brokerId, listenPort, o);
    }

    /** A known broker came back under another address: its config moves to the new key and target. */
    method RekeyConfig(cfg: ListenerConfig, broker: Address) returns (r: Mapped)
      requires Valid() && broker !in brokerToListenerConfig && cfg in created
      modifies this`brokerToListenerConfig, cfg
      ensures Numbered() && cfg.id < |created|
      ensures Abs() == Rekey(old(Abs()), cfg.id, broker) && r == Success(old(Abs()).entries[cfg.id].advertised)
    {
      ghost var t := Abs();
      var oldBroker := cfg.GetBrokerAddress();
      assert t.entries[cfg.id] == cfg.Entry() && t.table[oldBroker] == cfg.id;
      if oldBroker != broker {
        MoveConfig(cfg, oldBroker, broker);
      }
      r := Success(cfg.advertised);
    }

    method MoveConfig(cfg: ListenerConfig, oldBroker: Address, broker: Address)
      requires Numbered() && cfg in created && cfg.brokerAddress == oldBroker != broker
      modifies this`brokerToListenerConfig, cfg
      ensures Numbered() && Abs() == Rekey(old(Abs()), cfg.id, broker)
    {
      ghost var t := Abs();
      brokerToListenerConfig := brokerToListenerConfig - {oldBroker};
      cfg.SetBrokerAddress(broker);
      brokerToListenerConfig := brokerToListenerConfig[broker := cfg];
      assert Abs().entries == t.entries[cfg.id := t.entries[cfg.id].(broker := broker)];
      assert Abs().table == (t.table - {oldBroker})[broker := cfg.id];
    }

    /** The end of ListenDynamicInstance: listen, work out the advertised address, enter the config. */
    method StartListener(broker: Address, brokerId: int32, listenPort: uint16, o: Outcome) returns (r: Mapped)
      requires Numbered() && broker !in brokerToListenerConfig
      modifies this`brokerToListenerConfig, this`created
      ensures Numbered() && fresh(Repr() - old(Repr())) && old(created) <= created
      ensures (Abs(), r) == Start(settings, old(Abs()), broker, brokerId, listenPort, o)
    {
      ghost var t := Abs();
      var listening := o.listen(listenPort);
      if listening == None {
        return Failure(ListenFailed);
      }
      var advertised := o.advertise(listening.value);
      if advertised == None {
        return Failure(AdvertiseFailed);
      }
      var address := HostPort(settings.defaultListenerIP, listening.value);
      var cfg := new ListenerConfig(broker, address, advertised.value, brokerId, |created|);
      brokerToListenerConfig := brokerToListenerConfig[broker := cfg];
      created := created + [cfg];
      assert Abs().entries == t.entries + [cfg.Entry()];
      assert Abs().table == t.table[broker := |t.entries|];
      r := Success(advertised.value);
    }
  }
}
