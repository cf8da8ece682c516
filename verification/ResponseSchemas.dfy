/** The versioned Metadata and FindCoordinator response schemas (proxy/protocol/responses.go). */
module ResponseSchemas {
  import opened Wire
  import opened SchemaModel
  import opened SchemaProofs
  import opened ResponseModel
  import opened ResponseProofs

  const METADATA_BROKER_V0 := TStruct("metadata_broker_v0",
    [Mfield(NODE_ID, TInt32), Mfield(HOST, TStr), Mfield(PORT, TInt32)])

  const METADATA_BROKER_V1 := TStruct("metadata_broker_v1",
    [Mfield(NODE_ID, TInt32), Mfield(HOST, TStr), Mfield(PORT, TInt32), Mfield("rack", TNullableStr)])

  const METADATA_BROKER_V9 := TStruct("metadata_broker_schema9",
    [Mfield(NODE_ID, TInt32), Mfield(HOST, TCompactStr), Mfield(PORT, TInt32), Mfield("rack", TCompactNullableStr),
     TaggedField("broker_tagged_fields")])

  const PARTITION_METADATA_V0 := TStruct("partition_metadata_v0",
    [Mfield("error_code", TInt16), Mfield("partition", TInt32), Mfield("leader", TInt32),
     ArrayField("replicas", TInt32), ArrayField("isr", TInt32)])

  const PARTITION_METADATA_V2 := TStruct("partition_metadata_v2",
    [Mfield("error_code", TInt16), Mfield("partition", TInt32), Mfield("leader", TInt32),
     ArrayField("replicas", TInt32), ArrayField("isr", TInt32), ArrayField("offline_replicas", TInt32)])

  const PARTITION_METADATA_V7 := TStruct("partition_metadata_v7",
    [Mfield("error_code", TInt16), Mfield("partition", TInt32), Mfield("leader", TInt32), Mfield("leader_epoch", TInt32),
     ArrayField("replicas", TInt32), ArrayField("isr", TInt32), ArrayField("offline_replicas", TInt32)])

  const PARTITION_METADATA_V9 := TStruct("partition_metadata_schema9",
    [Mfield("error_code", TInt16), Mfield("partition", TInt32), Mfield("leader", TInt32), Mfield("leader_epoch", TInt32),
     CompactArrayField("replicas", TInt32), CompactArrayField("isr", TInt32), CompactArrayField("offline_replicas", TInt32),
     TaggedField("partition_metadata_tagged_fields")])

  const TOPIC_METADATA_V0 := TStruct("topic_metadata_v0",
    [Mfield("error_code", TInt16), Mfield("topic", TStr), ArrayField("partition_metadata", PARTITION_METADATA_V0)])

  const TOPIC_METADATA_V1 := TStruct("topic_metadata_v1",
    [Mfield("error_code", TInt16), Mfield("topic", TStr), Mfield("is_internal", TBool),
     ArrayField("partition_metadata", PARTITION_METADATA_V0)])

  const TOPIC_METADATA_V2 := TStruct("topic_metadata_v2",
    [Mfield("error_code", TInt16), Mfield("topic", TStr), Mfield("is_internal", TBool),
     ArrayField("partition_metadata", PARTITION_METADATA_V2)])

  const TOPIC_METADATA_V7 := TStruct("topic_metadata_v7",
    [Mfield("error_code", TInt16), Mfield("topic", TStr), Mfield("is_internal", TBool),
     ArrayField("partition_metadata", PARTITION_METADATA_V7)])

  const TOPIC_METADATA_V8 := TStruct("topic_metadata_v8",
    [Mfield("error_code", TInt16), Mfield("name", TStr), Mfield("is_internal", TBool),
     ArrayField("partition_metadata", PARTITION_METADATA_V7), Mfield("topic_authorized_operations", TInt32)])

  const TOPIC_METADATA_V9 := TStruct("topic_metadata_schema9",
    [Mfield("error_code", TInt16), Mfield("name", TCompactStr), Mfield("is_internal", TBool),
     CompactArrayField("partition_metadata", PARTITION_METADATA_V9), Mfield("topic_authorized_operations", TInt32),
     TaggedField("topic_metadata_tagged_fields")])

  const TOPIC_METADATA_V10 := TStruct("topic_metadata_schema10",
    [Mfield("error_code", TInt16), Mfield("name", TCompactStr), Mfield("topic_id", TUuid), Mfield("is_internal", TBool),
     CompactArrayField("partition_metadata", PARTITION_METADATA_V9), Mfield("topic_authorized_operations", TInt32),
     TaggedField("topic_metadata_tagged_fields")])

  const TOPIC_METADATA_V12 := TStruct("topic_metadata_schema12",
    [Mfield("error_code", TInt16), Mfield("name", TCompactNullableStr), Mfield("topic_id", TUuid), Mfield("is_internal", TBool),
     CompactArrayField("partition_metadata", PARTITION_METADATA_V9), Mfield("topic_authorized_operations", TInt32),
     TaggedField("topic_metadata_tagged_fields")])

  const METADATA_V0 := TStruct("metadata_response_v0",
    [ArrayField(BROKERS, METADATA_BROKER_V0), ArrayField("topic_metadata", TOPIC_METADATA_V0)])

  const METADATA_V1 := TStruct("metadata_response_v1",
    [ArrayField(BROKERS, METADATA_BROKER_V1), Mfield("controller_id", TInt32),
     ArrayField("topic_metadata", TOPIC_METADATA_V1)])

  const METADATA_V2 := TStruct("metadata_response_v2",
    [ArrayField(BROKERS, METADATA_BROKER_V1), Mfield("cluster_id", TNullableStr), Mfield("controller_id", TInt32),
     ArrayField("topic_metadata", TOPIC_METADATA_V1)])

  const METADATA_V3 := TStruct("metadata_response_v3",
    [Mfield("throttle_time_ms", TInt32), ArrayField(BROKERS, METADATA_BROKER_V1), Mfield("cluster_id", TNullableStr),
     Mfield("controller_id", TInt32), ArrayField("topic_metadata", TOPIC_METADATA_V1)])

  const METADATA_V5 := TStruct("metadata_response_v5",
    [Mfield("throttle_time_ms", TInt32), ArrayField(BROKERS, METADATA_BROKER_V1), Mfield("cluster_id", TNullableStr),
     Mfield("controller_id", TInt32), ArrayField("topic_metadata", TOPIC_METADATA_V2)])

  const METADATA_V7 := TStruct("metadata_response_v7",
    [Mfield("throttle_time_ms", TInt32), ArrayField(BROKERS, METADATA_BROKER_V1), Mfield("cluster_id", TNullableStr),
     Mfield("controller_id", TInt32), ArrayField("topic_metadata", TOPIC_METADATA_V7)])

  const METADATA_V8 := TStruct("metadata_response_v8",
    [Mfield("throttle_time_ms", TInt32), ArrayField(BROKERS, METADATA_BROKER_V1), Mfield("cluster_id", TNullableStr),
     Mfield("controller_id", TInt32), ArrayField("topic_metadata", TOPIC_METADATA_V8),
     Mfield("cluster_authorized_operations", TInt32)])

  const METADATA_V9 := TStruct("metadata_response_v9",
    [Mfield("throttle_time_ms", TInt32), CompactArrayField(BROKERS, METADATA_BROKER_V9),
     Mfield("cluster_id", TCompactNullableStr), Mfield("controller_id", TInt32),
     CompactArrayField("topic_metadata", TOPIC_METADATA_V9), Mfield("cluster_authorized_operations", TInt32),
     TaggedField("response_tagged_fields")])

  const METADATA_V10 := TStruct("metadata_response_v10",
    [Mfield("throttle_time_ms", TInt32), CompactArrayField(BROKERS, METADATA_BROKER_V9),
     Mfield("cluster_id", TCompactNullableStr), Mfield("controller_id", TInt32),
     CompactArrayField("topic_metadata", TOPIC_METADATA_V10), Mfield("cluster_authorized_operations", TInt32),
     TaggedField("response_tagged_fields")])

  const METADATA_V11 := TStruct("metadata_response_v11",
    [Mfield("throttle_time_ms", TInt32), CompactArrayField(BROKERS, METADATA_BROKER_V9),
     Mfield("cluster_id", TCompactNullableStr), Mfield("controller_id", TInt32),
     CompactArrayField("topic_metadata", TOPIC_METADATA_V10), TaggedField("response_tagged_fields")])

  const METADATA_V12 := TStruct("metadata_response_v12",
    [Mfield("throttle_time_ms", TInt32), CompactArrayField(BROKERS, METADATA_BROKER_V9),
     Mfield("cluster_id", TCompactNullableStr), Mfield("controller_id", TInt32),
     CompactArrayField("topic_metadata", TOPIC_METADATA_V12), TaggedField("response_tagged_fields")])

  const METADATA_V13 := TStruct("metadata_response_v13",
    [Mfield("throttle_time_ms", TInt32), CompactArrayField(BROKERS, METADATA_BROKER_V9),
     Mfield("cluster_id", TCompactNullableStr), Mfield("controller_id", TInt32),
     CompactArrayField("topic_metadata", TOPIC_METADATA_V12), Mfield("error_code", TInt16),
     TaggedField("response_tagged_fields")])

  const METADATA_SCHEMAS: seq<Schema> :=
    [METADATA_V0, METADATA_V1, METADATA_V2, METADATA_V3, METADATA_V3, METADATA_V5, METADATA_V5, METADATA_V7,
     METADATA_V8, METADATA_V9, METADATA_V10, METADATA_V11, METADATA_V12, METADATA_V13]

  const COORDINATOR_V0 := TStruct("find_coordinator_broker_v0",
    [Mfield(NODE_ID, TInt32), Mfield(HOST, TStr), Mfield(PORT, TInt32)])

  const COORDINATOR_V9 := TStruct("find_coordinator_broker_schema9",
    [Mfield(NODE_ID, TInt32), Mfield(HOST, TCompactStr), Mfield(PORT, TInt32)])

  const FIND_COORDINATOR_V0 := TStruct("find_coordinator_response_v0",
    [Mfield("error_code", TInt16), Mfield(COORDINATOR, COORDINATOR_V0)])

  const FIND_COORDINATOR_V1 := TStruct("find_coordinator_response_v1",
    [Mfield("throttle_time_ms", TInt32), Mfield("error_code", TInt16), Mfield("error_message", TNullableStr),
     Mfield(COORDINATOR, COORDINATOR_V0)])

  const FIND_COORDINATOR_V3 := TStruct("find_coordinator_response_v3",
    [Mfield("throttle_time_ms", TInt32), Mfield("error_code", TInt16), Mfield("error_message", TCompactNullableStr),
     Mfield(COORDINATOR, COORDINATOR_V9), TaggedField("response_tagged_fields")])

  const COORDINATORS_V4 := TStruct("find_coordinator_coordinators_schema4",
    [Mfield("key", TCompactStr), Mfield(COORDINATOR, COORDINATOR_V9), Mfield("error_code", TInt16),
     Mfield("error_message", TCompactNullableStr), TaggedField("coordinators_tagged_fields")])

  const FIND_COORDINATOR_V4 := TStruct("find_coordinator_response_v4",
    [Mfield("throttle_time_ms", TInt32), CompactArrayField(COORDINATORS, COORDINATORS_V4),
     TaggedField("response_tagged_fields")])

  const FIND_COORDINATOR_SCHEMAS: seq<Schema> :=
    [FIND_COORDINATOR_V0, FIND_COORDINATOR_V1, FIND_COORDINATOR_V1, FIND_COORDINATOR_V3,
     FIND_COORDINATOR_V4, FIND_COORDINATOR_V4, FIND_COORDINATOR_V4]

  const API_KEY_METADATA := 3
  const API_KEY_FIND_COORDINATOR := 10

  datatype Modifier =
    | NoModifier
    | UnsupportedVersion
    | Modifier(api: Api, schema: Schema)

  /** GetResponseModifier: which rewriting a response gets, if any. */
  function GetResponseModifier(apiKey: int16, apiVersion: int16): Modifier {
    if apiKey != API_KEY_METADATA && apiKey != API_KEY_FIND_COORDINATOR then NoModifier
    else
      var api := if apiKey == API_KEY_METADATA then Metadata else FindCoordinator;
      var schemas := if apiKey == API_KEY_METADATA then METADATA_SCHEMAS else FIND_COORDINATOR_SCHEMAS;
      if apiVersion < 0 || apiVersion >= |schemas| then UnsupportedVersion else Modifier(api, schemas[apiVersion])
  }

  /** The responses that are rewritten: Metadata (key 3) of versions 0 to 13, FindCoordinator (key 10) of 0 to 6. */
  predicate HasModifier(apiKey: int16, apiVersion: int16) {
    (apiKey == 3 && 0 <= apiVersion <= 13) || (apiKey == 10 && 0 <= apiVersion <= 6)
  }

  /** These have a modifier, other versions of the two keys are refused, and no other key has one. */
  lemma ModifierExists(apiKey: int16, apiVersion: int16)
    ensures GetResponseModifier(apiKey, apiVersion).Modifier? <==> HasModifier(apiKey, apiVersion)
    ensures GetResponseModifier(apiKey, apiVersion).NoModifier? <==> apiKey != 3 && apiKey != 10
    ensures HasModifier(apiKey, apiVersion) ==>
              GetResponseModifier(apiKey, apiVersion).api == if apiKey == 3 then Metadata else FindCoordinator
  {
    assert |METADATA_SCHEMAS| == 14 && |FIND_COORDINATOR_SCHEMAS| == 7;
  }

  // ----- Facts about every version -----

  /** A field whose array elements, if it has any, take space. */
  predicate SoundField(f: Field) {
    && (f.TaggedField? || ElementsOccupy(f.ty))
    && (f.ArrayField? || f.CompactArrayField? ==> Occupies(f.ty))
  }

  lemma {:induction false} SoundFields(fs: seq<Field>)
    requires forall f <- fs :: SoundField(f)
    ensures ElementsOccupyFields(fs)
  {
    if fs != [] {
      assert SoundField(fs[0]);
      SoundFields(fs[1..]);
    }
  }

  lemma SoundStruct(s: Schema)
    requires s.TStruct? && |s.fields| > 0 && !(s.fields[0].Mfield? && s.fields[0].ty.TStruct?)
    requires forall f <- s.fields :: SoundField(f)
    ensures ElementsOccupy(s) && Occupies(s)
  {
    SoundFields(s.fields);
  }

  predicate Sound(s: Schema) {
    ElementsOccupy(s) && Occupies(s)
  }

  const PARTITION_SCHEMAS: seq<Schema> :=
    [PARTITION_METADATA_V0, PARTITION_METADATA_V2, PARTITION_METADATA_V7, PARTITION_METADATA_V9]

  lemma PartitionSound(i: nat)
    requires i < |PARTITION_SCHEMAS|
    ensures Sound(PARTITION_SCHEMAS[i])
  {
    SoundStruct(PARTITION_SCHEMAS[i]);
  }

  const TOPIC_SCHEMAS: seq<Schema> :=
    [TOPIC_METADATA_V0, TOPIC_METADATA_V1, TOPIC_METADATA_V2, TOPIC_METADATA_V7, TOPIC_METADATA_V8,
     TOPIC_METADATA_V9, TOPIC_METADATA_V10, TOPIC_METADATA_V12]

  lemma TopicSound(i: nat)
    requires i < |TOPIC_SCHEMAS|
    ensures Sound(TOPIC_SCHEMAS[i])
  {
    if i < 5 {
      OldTopicSound(i);
    } else {
      NewTopicSound(i);
    }
  }

  lemma OldTopicSound(i: nat)
    requires i < 5
    ensures Sound(TOPIC_SCHEMAS[i])
  {
    PartitionSound([0, 0, 1, 2, 2][i]);
    SoundStruct(TOPIC_SCHEMAS[i]);
  }

  lemma NewTopicSound(i: nat)
    requires 5 <= i < |TOPIC_SCHEMAS|
    ensures Sound(TOPIC_SCHEMAS[i])
  {
    PartitionSound(3);
    SoundStruct(TOPIC_SCHEMAS[i]);
  }

  lemma MetadataSound(i: nat)
    requires i < |METADATA_SCHEMAS|
    ensures ElementsOccupy(METADATA_SCHEMAS[i])
  {
    TopicSound([0, 1, 1, 1, 1, 2, 2, 3, 4, 5, 6, 6, 7, 7][i]);
    SoundStruct(if i == 0 then METADATA_BROKER_V0 else if i < 9 then METADATA_BROKER_V1 else METADATA_BROKER_V9);
    SoundFields(METADATA_SCHEMAS[i].fields);
  }

  lemma FindCoordinatorSound(i: nat)
    requires i < |FIND_COORDINATOR_SCHEMAS|
    ensures ElementsOccupy(FIND_COORDINATOR_SCHEMAS[i])
  {
    SoundStruct(COORDINATOR_V0);
    SoundStruct(COORDINATOR_V9);
    SoundStruct(COORDINATORS_V4);
    SoundFields(FIND_COORDINATOR_SCHEMAS[i].fields);
  }

  lemma ElementsOfEveryVersion(apiKey: int16, apiVersion: int16)
    requires HasModifier(apiKey, apiVersion)
    ensures GetResponseModifier(apiKey, apiVersion).Modifier?
    ensures ElementsOccupy(GetResponseModifier(apiKey, apiVersion).schema)
  {
    if apiKey == API_KEY_METADATA {
      MetadataSound(apiVersion);
    } else {
      FindCoordinatorSound(apiVersion);
    }
  }

  /**
   For every version of Metadata and FindCoordinator that is rewritten: when that succeeds, its output decodes to the
   decoded input with exactly the broker or coordinator addresses replaced.
   */
  lemma EveryVersionRewrites(apiKey: int16, apiVersion: int16, b: bytes, fn: Mapper)
    requires HasModifier(apiKey, apiVersion)
    requires var m := GetResponseModifier(apiKey, apiVersion); m.Modifier? ==> Apply(m.api, m.schema, b, fn).Success?
    ensures var m := GetResponseModifier(apiKey, apiVersion);
            && m.Modifier? && m.api == (if apiKey == 3 then Metadata else FindCoordinator)
            && var out := Apply(m.api, m.schema, b, fn).value;
               && Decode(m.schema, b).Success? && Decode(m.schema, out).Success?
               && RewrittenResponse(m.api, Decode(m.schema, b).value, Decode(m.schema, out).value, fn)
  {
    ModifierExists(apiKey, apiVersion);
    ElementsOfEveryVersion(apiKey, apiVersion);
    var m := GetResponseModifier(apiKey, apiVersion);
    ApplyRewrites(m.api, m.schema, b, fn);
  }

  // ----- The modifiers find what they look for -----

  /** A schema with the three fields every address entry is read through. */
  predicate AddressSchema(s: Schema) {
    && s.TStruct?
    && var h, p, n := IndexOf(s.fields, HOST), IndexOf(s.fields, PORT), IndexOf(s.fields, NODE_ID);
       && h >= 0 && s.fields[h].Mfield? && (s.fields[h].ty == TStr || s.fields[h].ty == TCompactStr)
       && p >= 0 && s.fields[p] == Mfield(PORT, TInt32)
       && n >= 0 && s.fields[n] == Mfield(NODE_ID, TInt32)
  }

  lemma {:induction false} TypedAt(fs: seq<Field>, vs: seq<Value>, i: nat)
    requires |fs| == |vs| && TypedFields(fs, vs) && i < |fs|
    ensures TypedField(fs[i], vs[i])
  {
    if i > 0 {
      TypedAt(fs[1..], vs[1..], i - 1);
    }
  }

  /** The only thing that can go wrong is the address mapping. */
  predicate OnlyMappingFails<T>(r: Result<T, ModifyError>) {
    r.Failure? ==> r.error.Mapping?
  }

  lemma AddressFound(s: Schema, v: Value, fn: Mapper)
    requires AddressSchema(s) && Typed(s, v)
    ensures OnlyMappingFails(MapAddress(v, fn))
  {
    TypedAt(s.fields, v.values, IndexOf(s.fields, HOST));
    TypedAt(s.fields, v.values, IndexOf(s.fields, PORT));
    TypedAt(s.fields, v.values, IndexOf(s.fields, NODE_ID));
  }

  lemma {:induction false} BrokersFound(ty: Schema, es: seq<Value>, fn: Mapper)
    requires AddressSchema(ty) && TypedElems(ty, es)
    ensures OnlyMappingFails(MapBrokers(es, fn))
  {
    if es != [] {
      AddressFound(ty, es[0], fn);
      BrokersFound(ty, es[1..], fn);
    }
  }

  predicate CoordinatorSchema(s: Schema) {
    && s.TStruct? && IndexOf(s.fields, COORDINATOR) >= 0
    && var f := s.fields[IndexOf(s.fields, COORDINATOR)]; f.Mfield? && AddressSchema(f.ty)
  }

  lemma CoordinatorFound(s: Schema, v: Value, fn: Mapper)
    requires CoordinatorSchema(s) && Typed(s, v)
    ensures OnlyMappingFails(MapCoordinator(v, fn))
  {
    var i := IndexOf(s.fields, COORDINATOR);
    TypedAt(s.fields, v.values, i);
    AddressFound(s.fields[i].ty, v.values[i], fn);
  }

  lemma {:induction false} CoordinatorsFound(ty: Schema, es: seq<Value>, fn: Mapper)
    requires CoordinatorSchema(ty) && TypedElems(ty, es)
    ensures OnlyMappingFails(MapCoordinators(es, fn))
  {
    if es != [] {
      CoordinatorFound(ty, es[0], fn);
      CoordinatorsFound(ty, es[1..], fn);
    }
  }

  predicate IsArrayOf(f: Field, p: Schema -> bool) {
    (f.ArrayField? || f.CompactArrayField?) && p(f.ty)
  }

  /** A schema the modifier for api was written for. */
  predicate Suits(api: Api, s: Schema) {
    && s.TStruct?
    && match api
       case Metadata =>
         var i := IndexOf(s.fields, BROKERS);
         i >= 0 && IsArrayOf(s.fields[i], AddressSchema)
       case FindCoordinator =>
         var i := IndexOf(s.fields, COORDINATORS);
         if i >= 0 then IsArrayOf(s.fields[i], CoordinatorSchema) else CoordinatorSchema(s)
  }

  lemma SuitableFound(api: Api, s: Schema, v: Value, fn: Mapper)
    requires Suits(api, s) && Typed(s, v)
    ensures OnlyMappingFails(Modify(api, v, fn))
  {
    var i := IndexOf(s.fields, if api.Metadata? then BROKERS else COORDINATORS);
    if i >= 0 {
      TypedAt(s.fields, v.values, i);
    }
    if api.Metadata? {
      BrokersFound(s.fields[i].ty, v.values[i].elems, fn);
    } else if i >= 0 {
      CoordinatorsFound(s.fields[i].ty, v.values[i].elems, fn);
    } else {
      CoordinatorFound(s, v, fn);
    }
  }

  lemma IsAddressSchema(s: Schema)
    requires s.TStruct? && |s.fields| >= 3
    requires s.fields[0] == Mfield(NODE_ID, TInt32) && s.fields[2] == Mfield(PORT, TInt32)
    requires s.fields[1] == Mfield(HOST, TStr) || s.fields[1] == Mfield(HOST, TCompactStr)
    ensures AddressSchema(s)
  {
    NamesDiffer();
  }

  lemma IsSuited(api: Api, s: Schema, i: nat)
    requires s.TStruct? && i < |s.fields|
    requires api.Metadata? ==> IsArrayOf(s.fields[i], AddressSchema) && s.fields[i].name == BROKERS
    requires api.FindCoordinator? ==> IsArrayOf(s.fields[i], CoordinatorSchema) && s.fields[i].name == COORDINATORS
    requires forall j :: 0 <= j < i ==> |s.fields[j].name| > 12
    ensures Suits(api, s)
  {
    assert |BROKERS| == 7 && |COORDINATORS| == 12;
  }

  lemma IsCoordinatorSchema(s: Schema, i: nat)
    requires s.TStruct? && i < |s.fields| && s.fields[i].Mfield? && s.fields[i].name == COORDINATOR
    requires AddressSchema(s.fields[i].ty)
    requires forall j :: 0 <= j < |s.fields| && j != i ==> |s.fields[j].name| != 11
    ensures CoordinatorSchema(s)
  {
    assert |COORDINATOR| == 11;
  }

  lemma MetadataSuits(i: nat)
    requires i < |METADATA_SCHEMAS|
    ensures Suits(Metadata, METADATA_SCHEMAS[i])
  {
    IsAddressSchema(if i == 0 then METADATA_BROKER_V0 else if i < 9 then METADATA_BROKER_V1 else METADATA_BROKER_V9);
    var s := METADATA_SCHEMAS[i];
    if i >= 3 {
      assert s.fields[0].name == "throttle_time_ms" && |s.fields[0].name| == 16;
    }
    IsSuited(Metadata, s, if i < 3 then 0 else 1);
  }

  lemma FindCoordinatorSuits(i: nat)
    requires i < |FIND_COORDINATOR_SCHEMAS|
    ensures Suits(FindCoordinator, FIND_COORDINATOR_SCHEMAS[i])
  {
    if i == 0 {
      FirstCoordinatorSuits();
    } else if i < 3 {
      OldCoordinatorSuits(i);
    } else if i == 3 {
      FlexibleCoordinatorSuits();
    } else {
      NewCoordinatorSuits();
    }
  }

  lemma FirstCoordinatorSuits()
    ensures Suits(FindCoordinator, FIND_COORDINATOR_SCHEMAS[0])
  {
    IsAddressSchema(COORDINATOR_V0);
    var s := FIND_COORDINATOR_SCHEMAS[0];
    assert |"error_code"| == 10;
    IsCoordinatorSchema(s, 1);
    assert |COORDINATOR| == 11 && |COORDINATORS| == 12;
    assert forall j :: 0 <= j < |s.fields| ==> |s.fields[j].name| != 12;
  }

  lemma OldCoordinatorSuits(i: nat)
    requires 1 <= i < 3
    ensures Suits(FindCoordinator, FIND_COORDINATOR_SCHEMAS[i])
  {
    IsAddressSchema(COORDINATOR_V0);
    var s := FIND_COORDINATOR_SCHEMAS[i];
    assert |"throttle_time_ms"| == 16 && |"error_code"| == 10 && |"error_message"| == 13;
    IsCoordinatorSchema(s, 3);
    assert |COORDINATOR| == 11 && |COORDINATORS| == 12;
    assert forall j :: 0 <= j < |s.fields| ==> |s.fields[j].name| != 12;
  }

  lemma FlexibleCoordinatorSuits()
    ensures Suits(FindCoordinator, FIND_COORDINATOR_SCHEMAS[3])
  {
    IsAddressSchema(COORDINATOR_V9);
    var s := FIND_COORDINATOR_SCHEMAS[3];
    assert |"throttle_time_ms"| == 16 && |"error_code"| == 10 && |"error_message"| == 13 && |"response_tagged_fields"| == 22;
    IsCoordinatorSchema(s, 3);
    assert |COORDINATOR| == 11 && |COORDINATORS| == 12;
    assert forall j :: 0 <= j < |s.fields| ==> |s.fields[j].name| != 12;
  }

  lemma NewCoordinatorSuits()
    ensures Suits(FindCoordinator, FIND_COORDINATOR_V4)
  {
    IsAddressSchema(COORDINATOR_V9);
    assert |"throttle_time_ms"| == 16 && |"error_code"| == 10 && |"error_message"| == 13 && |"key"| == 3;
    assert |"coordinators_tagged_fields"| == 26;
    IsCoordinatorSchema(COORDINATORS_V4, 1);
    IsSuited(FindCoordinator, FIND_COORDINATOR_V4, 1);
  }

  /** In every version a decoded response holds the fields the modifier reads, so only the mapping can refuse it. */
  lemma EveryVersionFound(apiKey: int16, apiVersion: int16, b: bytes, fn: Mapper)
    requires HasModifier(apiKey, apiVersion)
    ensures var m := GetResponseModifier(apiKey, apiVersion);
            && m.Modifier?
            && (Decode(m.schema, b).Success? ==>
                  && Decode(m.schema, b).value.Struct?
                  && OnlyMappingFails(Modify(m.api, Decode(m.schema, b).value, fn)))
  {
    ModifierExists(apiKey, apiVersion);
    var m := GetResponseModifier(apiKey, apiVersion);
    if apiKey == API_KEY_METADATA {
      MetadataSuits(apiVersion);
    } else {
      FindCoordinatorSuits(apiVersion);
    }
    if Decode(m.schema, b).Success? {
      DecodedTyped(m.schema, b);
      SuitableFound(m.api, m.schema, Decode(m.schema, b).value, fn);
    }
  }
}
