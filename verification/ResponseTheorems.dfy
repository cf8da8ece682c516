/**
 Which responses are rewritten, that their schemas are those of the protocol, when rewriting succeeds, and that it has
 one possible result (proxy/protocol/responses.go).
 */
module ResponseTheorems {
  import opened Wire
  import opened SchemaModel
  import opened SchemaProofs
  import opened SchemaLimits
  import opened ResponseModel
  import opened ResponseProofs
  import opened ResponseSchemas

  // ----- The protocol's responses, field by field with the versions that have them -----

  function Since(present: bool, fs: seq<Field>): seq<Field> {
    if present then fs else []
  }

  /** Flexible versions have compact texts and arrays, and tagged fields at the end of every struct. */
  function Text(flexible: bool): Schema {
    if flexible then TCompactStr else TStr
  }

  function NullableText(flexible: bool): Schema {
    if flexible then TCompactNullableStr else TNullableStr
  }

  function ArrayOf(flexible: bool, name: string, ty: Schema): Field {
    if flexible then CompactArrayField(name, ty) else ArrayField(name, ty)
  }

  function Tail(flexible: bool): seq<Field> {
    Since(flexible, [TaggedField("")])
  }

  function MetadataBroker(v: nat): Schema {
    TStruct("", [Mfield("node_id", TInt32), Mfield("host", Text(v >= 9)), Mfield("port", TInt32)]
                + Since(v >= 1, [Mfield("", NullableText(v >= 9))]) + Tail(v >= 9))
  }

  function MetadataPartition(v: nat): Schema {
    TStruct("", [Mfield("", TInt16), Mfield("", TInt32), Mfield("", TInt32)] + Since(v >= 7, [Mfield("", TInt32)])
                + [ArrayOf(v >= 9, "", TInt32), ArrayOf(v >= 9, "", TInt32)]
                + Since(v >= 5, [ArrayOf(v >= 9, "", TInt32)]) + Tail(v >= 9))
  }

  function MetadataTopic(v: nat): Schema {
    TStruct("", [Mfield("", TInt16), Mfield("", if v >= 12 then NullableText(true) else Text(v >= 9))]
                + Since(v >= 10, [Mfield("", TUuid)]) + Since(v >= 1, [Mfield("", TBool)])
                + [ArrayOf(v >= 9, "", MetadataPartition(v))]
                + Since(v >= 8, [Mfield("", TInt32)]) + Tail(v >= 9))
  }

  function MetadataResponse(v: nat): Schema {
    TStruct("", Since(v >= 3, [Mfield("", TInt32)]) + [ArrayOf(v >= 9, "brokers", MetadataBroker(v))]
                + Since(v >= 2, [Mfield("", NullableText(v >= 9))]) + Since(v >= 1, [Mfield("", TInt32)])
                + [ArrayOf(v >= 9, "", MetadataTopic(v))] + Since(8 <= v <= 10, [Mfield("", TInt32)])
                + Since(v >= 13, [Mfield("", TInt16)]) + Tail(v >= 9))
  }

  function Coordinator(flexible: bool): Field {
    Mfield("coordinator", TStruct("", [Mfield("node_id", TInt32), Mfield("host", Text(flexible)), Mfield("port", TInt32)]))
  }

  function FindCoordinatorResponse(v: nat): Schema {
    if v < 4 then
      TStruct("", Since(v >= 1, [Mfield("", TInt32)]) + [Mfield("", TInt16)]
                  + Since(v >= 1, [Mfield("", NullableText(v >= 3))]) + [Coordinator(v >= 3)] + Tail(v >= 3))
    else
      TStruct("", [Mfield("", TInt32), ArrayOf(true, "coordinators", TStruct("",
                     [Mfield("", TCompactStr), Coordinator(true), Mfield("", TInt16), Mfield("", TCompactNullableStr)]
                     + Tail(true)))]
                  + Tail(true))
  }

  /** The names the modifiers look for stay, the others do not matter on the wire. */
  function Name(n: string): string {
    if n in {"brokers", "host", "port", "node_id", "coordinator", "coordinators"} then n else ""
  }

  function Erased(s: Schema): Schema {
    match s
    case TStruct(_, fields) => TStruct("", seq(|fields|, i requires 0 <= i < |fields| => ErasedField(fields[i])))
    case _ => s
  }

  function ErasedField(f: Field): Field {
    match f
    case Mfield(n, ty) => Mfield(Name(n), Erased(ty))
    case ArrayField(n, ty) => ArrayField(Name(n), Erased(ty))
    case CompactArrayField(n, ty) => CompactArrayField(Name(n), Erased(ty))
    case TaggedField(n) => TaggedField("")
  }

  lemma BrokerShape(v: nat)
    requires v <= 13
    ensures Erased(if v == 0 then METADATA_BROKER_V0 else if v < 9 then METADATA_BROKER_V1 else METADATA_BROKER_V9)
            == MetadataBroker(v)
  {
  }

  lemma NamesErased()
    ensures Name("error_code") == Name("partition") == Name("leader") == Name("leader_epoch") == ""
    ensures Name("replicas") == Name("isr") == Name("offline_replicas") == ""
    ensures Name("topic") == Name("name") == Name("topic_id") == Name("is_internal") == Name("partition_metadata") == ""
    ensures Name("topic_authorized_operations") == Name("topic_metadata") == Name("rack") == Name("key") == ""
    ensures Name("throttle_time_ms") == Name("cluster_id") == Name("controller_id") == Name("error_message") == ""
    ensures Name("cluster_authorized_operations") == ""
    ensures Name(BROKERS) == "brokers" && Name(HOST) == "host" && Name(PORT) == "port" && Name(NODE_ID) == "node_id"
    ensures Name(COORDINATOR) == "coordinator" && Name(COORDINATORS) == "coordinators"
  {
  }

  lemma PartitionShape(v: nat)
    requires v <= 13
    ensures Erased(PARTITION_SCHEMAS[if v < 5 then 0 else if v < 7 then 1 else if v < 9 then 2 else 3]) == MetadataPartition(v)
  {
    NamesErased();
    hide Name;
  }

  lemma OldTopicShape(v: nat)
    requires v < 9
    ensures Erased(TOPIC_SCHEMAS[[0, 1, 1, 1, 1, 2, 2, 3, 4][v]]) == MetadataTopic(v)
  {
    NamesErased();
    hide MetadataPartition, Name;
    PartitionShape(v);
  }

  lemma NewTopicShape(v: nat)
    requires 9 <= v <= 13
    ensures Erased(TOPIC_SCHEMAS[[5, 6, 6, 7, 7][v - 9]]) == MetadataTopic(v)
  {
    NamesErased();
    hide MetadataPartition, Name;
    PartitionShape(v);
  }

  lemma FirstMetadataShape(v: nat)
    requires v < 3
    ensures Erased(METADATA_SCHEMAS[v]) == MetadataResponse(v)
  {
    NamesErased();
    hide MetadataTopic, MetadataBroker, Name;
    BrokerShape(v);
    OldTopicShape(v);
  }

  lemma ThrottledMetadataShape(v: nat)
    requires 3 <= v < 5
    ensures Erased(METADATA_SCHEMAS[v]) == MetadataResponse(v)
  {
    NamesErased();
    hide MetadataTopic, MetadataBroker, Name;
    BrokerShape(v);
    OldTopicShape(v);
  }

  lemma OldMetadataShape(v: nat)
    requires 5 <= v < 9
    ensures Erased(METADATA_SCHEMAS[v]) == MetadataResponse(v)
  {
    NamesErased();
    hide MetadataTopic, MetadataBroker, Name;
    BrokerShape(v);
    OldTopicShape(v);
  }

  lemma NewMetadataShape(v: nat)
    requires 9 <= v < 11
    ensures Erased(METADATA_SCHEMAS[v]) == MetadataResponse(v)
  {
    NamesErased();
    hide MetadataTopic, MetadataBroker, Name;
    BrokerShape(v);
    NewTopicShape(v);
  }

  lemma LastMetadataShape(v: nat)
    requires 11 <= v < 14
    ensures Erased(METADATA_SCHEMAS[v]) == MetadataResponse(v)
  {
    NamesErased();
    hide MetadataTopic, MetadataBroker, Name;
    BrokerShape(v);
    NewTopicShape(v);
  }

  /** Every version's Metadata schema is the protocol's response of that version. */
  lemma MetadataShape(v: nat)
    requires v < |METADATA_SCHEMAS|
    ensures |METADATA_SCHEMAS| == 14 && Erased(METADATA_SCHEMAS[v]) == MetadataResponse(v)
  {
    hide MetadataResponse, Erased;
    if v < 3 {
      FirstMetadataShape(v);
    } else if v < 5 {
      ThrottledMetadataShape(v);
    } else if v < 9 {
      OldMetadataShape(v);
    } else if v < 11 {
      NewMetadataShape(v);
    } else {
      LastMetadataShape(v);
    }
  }

  /** And so is every version's FindCoordinator schema. */
  lemma FindCoordinatorShape(v: nat)
    requires v < |FIND_COORDINATOR_SCHEMAS|
    ensures |FIND_COORDINATOR_SCHEMAS| == 7 && Erased(FIND_COORDINATOR_SCHEMAS[v]) == FindCoordinatorResponse(v)
  {
    NamesErased();
    CoordinatorShape();
    hide Name, Coordinator;
    if v >= 4 {
      CoordinatorsShape();
      assert Erased(FIND_COORDINATOR_V4) == FindCoordinatorResponse(v);
    }
  }

  lemma CoordinatorShape()
    ensures ErasedField(Mfield(COORDINATOR, COORDINATOR_V0)) == Coordinator(false)
    ensures ErasedField(Mfield(COORDINATOR, COORDINATOR_V9)) == Coordinator(true)
  {
    NamesErased();
    hide Name;
    assert Erased(COORDINATOR_V0)
        == TStruct("", [Mfield("node_id", TInt32), Mfield("host", TStr), Mfield("port", TInt32)]);
    assert Erased(COORDINATOR_V9)
        == TStruct("", [Mfield("node_id", TInt32), Mfield("host", TCompactStr), Mfield("port", TInt32)]);
  }

  lemma CoordinatorsShape()
    ensures Erased(COORDINATORS_V4)
            == TStruct("", [Mfield("", TCompactStr), Coordinator(true), Mfield("", TInt16), Mfield("", TCompactNullableStr)]
                           + Tail(true))
  {
    NamesErased();
    CoordinatorShape();
    hide Name, Coordinator;
  }

  /** The schema a modifier decodes with is the protocol's response of that key and version. */
  lemma EveryVersionShape(apiKey: int16, apiVersion: int16)
    requires HasModifier(apiKey, apiVersion)
    ensures var m := GetResponseModifier(apiKey, apiVersion);
            && m.Modifier?
            && (apiKey == 3 ==> m.api == Metadata && Erased(m.schema) == MetadataResponse(apiVersion))
            && (apiKey == 10 ==> m.api == FindCoordinator && Erased(m.schema) == FindCoordinatorResponse(apiVersion))
  {
    hide Erased, MetadataResponse, FindCoordinatorResponse;
    ModifierExists(apiKey, apiVersion);
    if apiKey == 3 {
      MetadataShape(apiVersion);
    } else {
      FindCoordinatorShape(apiVersion);
    }
  }

  // ----- Rewriting has one result -----

  lemma SlotAgain(v: Value, w: Value, name: string)
    requires v.Struct? && w.Struct? && w.schema == v.schema && |w.values| == |v.values|
    ensures Slot(w.schema, w.values, name) == Slot(v.schema, v.values, name)
  {
  }

  lemma AddressUnique(v: Value, w: Value, fn: Mapper)
    requires Rewritten(v, w, fn)
    ensures MapAddress(v, fn) == Success(w)
  {
    var host, port, node := Get(v, HOST), Get(v, PORT), Get(v, NODE_ID);
    if !(host.s == [] && port.i32 <= 0) {
      NamesDiffer();
      var (h, p) := fn(host.s, port.i32, node.i32).value;
      SlotAgain(v, w, HOST);
      SlotAgain(v, w, PORT);
      SlotsDiffer(v.schema, v.values, HOST, PORT);
      PutGet(v, HOST, Str(h));
      var i, j := Slot(v.schema, v.values, HOST), Slot(v.schema, v.values, PORT);
      var r := Put(Put(v, HOST, Str(h)), PORT, Int32(p));
      forall k | 0 <= k < |v.values|
        ensures r.values[k] == w.values[k]
      {
        if k != i && k != j {
          assert forall n <- {HOST, PORT} :: Slot(v.schema, v.values, n) != k;
        }
      }
      assert r.values == w.values;
    }
  }

  /** v with one field changed is v with that field put. */
  lemma PutUnique(v: Value, w: Value, name: string)
    requires v.Struct? && w.Struct? && SameExcept(v, w, {name}) && Slot(v.schema, v.values, name) >= 0
    ensures w == Put(v, name, Get(w, name))
  {
    SlotAgain(v, w, name);
    var i := Slot(v.schema, v.values, name);
    forall k | 0 <= k < |v.values| && k != i
      ensures w.values[k] == v.values[k]
    {
      assert forall n <- {name} :: Slot(v.schema, v.values, n) != k;
    }
    assert w.values == v.values[i := w.values[i]];
  }

  lemma {:induction false} BrokersUnique(es: seq<Value>, ws: seq<Value>, fn: Mapper)
    requires |es| == |ws| && forall i :: 0 <= i < |es| ==> Rewritten(es[i], ws[i], fn)
    ensures MapBrokers(es, fn) == Success(ws)
  {
    hide Rewritten, MapAddress;
    if es != [] {
      assert Rewritten(es[0], ws[0], fn);
      IsStruct(es[0], ws[0], fn);
      AddressUnique(es[0], ws[0], fn);
      forall i | 0 <= i < |es| - 1
        ensures Rewritten(es[1..][i], ws[1..][i], fn)
      {
        assert es[1..][i] == es[i + 1] && ws[1..][i] == ws[i + 1];
      }
      BrokersUnique(es[1..], ws[1..], fn);
      assert ws == [ws[0]] + ws[1..];
    }
  }

  lemma IsStruct(v: Value, w: Value, fn: Mapper)
    requires Rewritten(v, w, fn)
    ensures v.Struct? && w.Struct?
  {
  }

  lemma CoordinatorUnique(v: Value, w: Value, fn: Mapper)
    requires RewrittenCoordinator(v, w, fn)
    ensures MapCoordinator(v, fn) == Success(w)
  {
    AddressUnique(Get(v, COORDINATOR), Get(w, COORDINATOR), fn);
    PutUnique(v, w, COORDINATOR);
  }

  lemma BothStructs(v: Value, w: Value, fn: Mapper)
    requires RewrittenCoordinator(v, w, fn)
    ensures v.Struct? && w.Struct?
  {
  }

  lemma {:induction false} CoordinatorsUnique(es: seq<Value>, ws: seq<Value>, fn: Mapper)
    requires |es| == |ws| && forall i :: 0 <= i < |es| ==> RewrittenCoordinator(es[i], ws[i], fn)
    ensures MapCoordinators(es, fn) == Success(ws)
  {
    hide MapCoordinator, RewrittenCoordinator;
    if es != [] {
      assert RewrittenCoordinator(es[0], ws[0], fn);
      BothStructs(es[0], ws[0], fn);
      CoordinatorUnique(es[0], ws[0], fn);
      forall i | 0 <= i < |es| - 1
        ensures RewrittenCoordinator(es[1..][i], ws[1..][i], fn)
      {
        assert es[1..][i] == es[i + 1] && ws[1..][i] == ws[i + 1];
      }
      CoordinatorsUnique(es[1..], ws[1..], fn);
      assert ws == [ws[0]] + ws[1..];
    }
  }

  /** The edit gives w if and only if w is v with just its addresses rewritten: there is one such value or none. */
  lemma ModifyExactly(api: Api, v: Value, w: Value, fn: Mapper)
    requires v.Struct?
    ensures Modify(api, v, fn) == Success(w) <==> RewrittenResponse(api, v, w, fn)
  {
    if Modify(api, v, fn) == Success(w) {
      ModifyRewrites(api, v, fn);
    }
    if RewrittenResponse(api, v, w, fn) {
      match api
      case Metadata =>
        BrokersUnique(Get(v, BROKERS).elems, Get(w, BROKERS).elems, fn);
        PutUnique(v, w, BROKERS);
      case FindCoordinator =>
        if Get(v, COORDINATORS).Nil? {
          CoordinatorUnique(v, w, fn);
        } else {
          CoordinatorsUnique(Get(v, COORDINATORS).elems, Get(w, COORDINATORS).elems, fn);
          PutUnique(v, w, COORDINATORS);
        }
    }
  }

  // ----- When rewriting succeeds -----

  /** The mapping accepts the address, or the entry has none. */
  ghost predicate Accepted(v: Value, fn: Mapper)
    requires v.Struct?
  {
    var host, port, node := Get(v, "host"), Get(v, "port"), Get(v, "node_id");
    && host.Str? && port.Int32? && node.Int32?
    && ((host.s == [] && port.i32 <= 0) || fn(host.s, port.i32, node.i32).Success?)
  }

  ghost predicate AllAccepted(es: seq<Value>, fn: Mapper) {
    forall e <- es :: e.Struct? && Accepted(e, fn)
  }

  ghost predicate CoordinatorAccepted(v: Value, fn: Mapper)
    requires v.Struct?
  {
    Get(v, "coordinator").Struct? && Accepted(Get(v, "coordinator"), fn)
  }

  /** Every address in the response is accepted. */
  ghost predicate ResponseAccepted(api: Api, v: Value, fn: Mapper)
    requires v.Struct?
  {
    match api
    case Metadata => Get(v, "brokers").Array? && AllAccepted(Get(v, "brokers").elems, fn)
    case FindCoordinator =>
      var list := Get(v, "coordinators");
      if list.Nil? then CoordinatorAccepted(v, fn)
      else list.Array? && forall e <- list.elems :: e.Struct? && CoordinatorAccepted(e, fn)
  }

  lemma {:induction false} BrokersMap(es: seq<Value>, fn: Mapper)
    ensures MapBrokers(es, fn).Success? <==> AllAccepted(es, fn)
  {
    if es != [] {
      BrokersMap(es[1..], fn);
      assert es == [es[0]] + es[1..];
    }
  }

  lemma {:induction false} CoordinatorsMap(es: seq<Value>, fn: Mapper)
    ensures MapCoordinators(es, fn).Success? <==> forall e <- es :: e.Struct? && CoordinatorAccepted(e, fn)
  {
    if es != [] {
      CoordinatorsMap(es[1..], fn);
      assert es == [es[0]] + es[1..];
    }
  }

  lemma ModifySucceeds(api: Api, v: Value, fn: Mapper)
    requires v.Struct?
    ensures Modify(api, v, fn).Success? <==> ResponseAccepted(api, v, fn)
  {
    match api
    case Metadata =>
      if Get(v, BROKERS).Array? {
        BrokersMap(Get(v, BROKERS).elems, fn);
      }
    case FindCoordinator =>
      if Get(v, COORDINATORS).Array? {
        CoordinatorsMap(Get(v, COORDINATORS).elems, fn);
      }
  }

  /** w is a decoded value that fits the wire: each part within its limit, all within 100 MiB. */
  predicate Sendable(s: Schema, w: Value) {
    Encodable(s, w) && WireSize(s, w) <= 104857600
  }

  /**
   Exactly when a response is rewritten, and to what: it decodes, the mapping accepts every address in it, and the value
   with just these addresses rewritten is within the encoder's limits; then the output decodes to that value.
   */
  lemma ApplyExactly(api: Api, s: Schema, b: bytes, fn: Mapper)
    requires ElementsOccupy(s)
    ensures Apply(api, s, b, fn).Success? <==>
              && Decode(s, b).Success?
              && exists w :: RewrittenResponse(api, Decode(s, b).value, w, fn) && Sendable(s, w)
    ensures Apply(api, s, b, fn).Success? ==>
              && Decode(s, b).value.Struct? && ResponseAccepted(api, Decode(s, b).value, fn)
              && forall w :: RewrittenResponse(api, Decode(s, b).value, w, fn) ==>
                               Decode(s, Apply(api, s, b, fn).value) == Success(w) && Sendable(s, w)
  {
    hide Modify, Decode, Encode, RewrittenResponse, Encodable, WireSize, ResponseAccepted;
    if Decode(s, b).Success? {
      DecodedIsStruct(s, b);
      var v := Decode(s, b).value;
      ModifySucceeds(api, v, fn);
      forall w
        ensures Modify(api, v, fn) == Success(w) <==> RewrittenResponse(api, v, w, fn)
        ensures Encode(s, w).Success? <==> Sendable(s, w)
      {
        ModifyExactly(api, v, w, fn);
        EncodeExactly(s, w);
      }
      if Modify(api, v, fn).Success? {
        assert RewrittenResponse(api, v, Modify(api, v, fn).value, fn);
      }
      if Apply(api, s, b, fn).Success? {
        ApplyRewrites(api, s, b, fn);
      }
    }
  }

  /** The same for every key and version that is rewritten; nothing but the mapping and the limits can stand in the way. */
  lemma EveryVersionApplies(apiKey: int16, apiVersion: int16, b: bytes, fn: Mapper)
    requires HasModifier(apiKey, apiVersion)
    ensures var m := GetResponseModifier(apiKey, apiVersion);
            && m.Modifier?
            && (Apply(m.api, m.schema, b, fn).Success? <==>
                  && Decode(m.schema, b).Success? && Decode(m.schema, b).value.Struct?
                  && ResponseAccepted(m.api, Decode(m.schema, b).value, fn)
                  && forall w :: RewrittenResponse(m.api, Decode(m.schema, b).value, w, fn) ==> Sendable(m.schema, w))
  {
    hide Decode, RewrittenResponse, Sendable, ResponseAccepted, Modify;
    ModifierExists(apiKey, apiVersion);
    ElementsOfEveryVersion(apiKey, apiVersion);
    var m := GetResponseModifier(apiKey, apiVersion);
    ApplyExactly(m.api, m.schema, b, fn);
    if Decode(m.schema, b).Success? {
      DecodedIsStruct(m.schema, b);
      var v := Decode(m.schema, b).value;
      ModifySucceeds(m.api, v, fn);
      if Modify(m.api, v, fn).Success? {
        ModifyExactly(m.api, v, Modify(m.api, v, fn).value, fn);
      }
    }
  }
}
