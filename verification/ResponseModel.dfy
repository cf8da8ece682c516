/**
 Rewriting broker addresses in decoded Metadata and FindCoordinator responses
 (proxy/protocol/responses.go and Struct.Get/Replace in schema.go), as functions on values.
 */
module ResponseModel {
  import opened Wire
  import opened SchemaModel

  const BROKERS := "brokers"
  const HOST := "host"
  const PORT := "port"
  const NODE_ID := "node_id"
  const COORDINATOR := "coordinator"
  const COORDINATORS := "coordinators"

  datatype ModifyError =
    | BrokersNotFound
    | CoordinatorNotFound
    | CoordinatorsNotFound
    | HostNotFound
    | PortNotFound
    | NodeNotFound
    | ElementNotAStruct  // the source's type assertion on an array element panics
    | Mapping(reason: string)

  /** The address mapping (host, port, node id) -> (host, port) of config.NetAddressMappingFunc. */
  type Mapper = (bytes, int32, int32) -> Result<(bytes, int32), string>

  /** Position of the field called name, or -1 (schema.fieldsByName). */
  function IndexOf(fs: seq<Field>, name: string): (i: int)
    ensures -1 <= i < |fs|
    ensures i >= 0 ==> fs[i].name == name && forall j :: 0 <= j < i ==> fs[j].name != name
    ensures i == -1 ==> forall j :: 0 <= j < |fs| ==> fs[j].name != name
  {
    if fs == [] then -1
    else if fs[0].name == name then 0
    else
      var i := IndexOf(fs[1..], name);
      assert forall j :: 1 <= j < |fs| ==> fs[j] == fs[1..][j - 1];
      if i < 0 then -1 else i + 1
  }

  /** Where Struct.Get finds a field: an index into both the schema's fields and the values. */
  function Slot(s: Schema, values: seq<Value>, name: string): (i: int)
    ensures -1 <= i < |values|
  {
    if !s.TStruct? then -1
    else
      var i := IndexOf(s.fields, name);
      if i >= |values| then -1 else i
  }

  function Get(v: Value, name: string): Value
    requires v.Struct?
  {
    var i := Slot(v.schema, v.values, name);
    if i < 0 then Nil else v.values[i]
  }

  function Put(v: Value, name: string, x: Value): Value
    requires v.Struct? && Slot(v.schema, v.values, name) >= 0
  {
    Struct(v.schema, v.values[Slot(v.schema, v.values, name) := x])
  }

  /** One broker or coordinator: its host and port replaced by what the mapping gives. */
  function MapAddress(v: Value, fn: Mapper): Result<Value, ModifyError>
    requires v.Struct?
  {
    var host, port, node := Get(v, HOST), Get(v, PORT), Get(v, NODE_ID);
    if !host.Str? then Failure(HostNotFound)
    else if !port.Int32? then Failure(PortNotFound)
    else if !node.Int32? then Failure(NodeNotFound)
    else if host.s == [] && port.i32 <= 0 then Success(v)
    else
      match fn(host.s, port.i32, node.i32)
      case Failure(e) => Failure(Mapping(e))
      case Success((newHost, newPort)) => Success(Put(Put(v, HOST, Str(newHost)), PORT, Int32(newPort)))
  }

  function MapBrokers(es: seq<Value>, fn: Mapper): (r: Result<seq<Value>, ModifyError>)
    ensures r.Success? ==> |r.value| == |es|
  {
    if es == [] then Success([])
    else if !es[0].Struct? then Failure(ElementNotAStruct)
    else
      match MapAddress(es[0], fn)
      case Failure(e) => Failure(e)
      case Success(v) =>
        match MapBrokers(es[1..], fn)
        case Failure(e) => Failure(e)
        case Success(vs) => Success([v] + vs)
  }

  function MapMetadata(v: Value, fn: Mapper): Result<Value, ModifyError>
    requires v.Struct?
  {
    var brokers := Get(v, BROKERS);
    if !brokers.Array? then Failure(BrokersNotFound)
    else
      match MapBrokers(brokers.elems, fn)
      case Failure(e) => Failure(e)
      case Success(es) => Success(Put(v, BROKERS, Array(es)))
  }

  function MapCoordinator(v: Value, fn: Mapper): Result<Value, ModifyError>
    requires v.Struct?
  {
    var coordinator := Get(v, COORDINATOR);
    if !coordinator.Struct? then Failure(CoordinatorNotFound)
    else
      match MapAddress(coordinator, fn)
      case Failure(e) => Failure(e)
      case Success(c) => Success(Put(v, COORDINATOR, c))
  }

  function MapCoordinators(es: seq<Value>, fn: Mapper): (r: Result<seq<Value>, ModifyError>)
    ensures r.Success? ==> |r.value| == |es|
  {
    if es == [] then Success([])
    else if !es[0].Struct? then Failure(ElementNotAStruct)
    else
      match MapCoordinator(es[0], fn)
      case Failure(e) => Failure(e)
      case Success(v) =>
        match MapCoordinators(es[1..], fn)
        case Failure(e) => Failure(e)
        case Success(vs) => Success([v] + vs)
  }

  function MapFindCoordinator(v: Value, fn: Mapper): Result<Value, ModifyError>
    requires v.Struct?
  {
    var coordinators := Get(v, COORDINATORS);
    if coordinators.Nil? then MapCoordinator(v, fn)
    else if !coordinators.Array? then Failure(CoordinatorsNotFound)
    else
      match MapCoordinators(coordinators.elems, fn)
      case Failure(e) => Failure(e)
      case Success(es) => Success(Put(v, COORDINATORS, Array(es)))
  }

  datatype Api = Metadata | FindCoordinator

  function Modify(api: Api, v: Value, fn: Mapper): Result<Value, ModifyError>
    requires v.Struct?
  {
    match api
    case Metadata => MapMetadata(v, fn)
    case FindCoordinator => MapFindCoordinator(v, fn)
  }

  datatype ApplyError = Decoding(d: DecodeError) | Modifying(m: ModifyError) | Encoding(e: EncodeError)

  /** responseModifier.Apply. */
  function Apply(api: Api, s: Schema, b: bytes, fn: Mapper): Result<bytes, ApplyError> {
    match Decode(s, b)
    case Failure(e) => Failure(Decoding(e))
    case Success(v) =>
      DecodedIsStruct(s, b);
      match Modify(api, v, fn)
      case Failure(e) => Failure(Modifying(e))
      case Success(w) =>
        match Encode(s, w)
        case Failure(e) => Failure(Encoding(e))
        case Success(out) => Success(out)
  }

  lemma DecodedIsStruct(s: Schema, b: bytes)
    requires Decode(s, b).Success?
    ensures Decode(s, b).value.Struct?
  {
  }

  // ----- What rewriting means -----

  /** w is v with the fields at `names` possibly changed and everything else as it was. */
  ghost predicate SameExcept(v: Value, w: Value, names: set<string>)
    requires v.Struct? && w.Struct?
  {
    && w.schema == v.schema && |w.values| == |v.values|
    && forall i :: 0 <= i < |v.values| && (forall n <- names :: Slot(v.schema, v.values, n) != i) ==>
         w.values[i] == v.values[i]
  }

  /** An address entry and its rewritten form. */
  ghost predicate Rewritten(v: Value, w: Value, fn: Mapper) {
    && v.Struct? && w.Struct? && SameExcept(v, w, {HOST, PORT})
    && Get(v, HOST).Str? && Get(v, PORT).Int32? && Get(v, NODE_ID).Int32?
    && var host, port, node := Get(v, HOST).s, Get(v, PORT).i32, Get(v, NODE_ID).i32;
       if host == [] && port <= 0 then w == v
       else
         && fn(host, port, node).Success?
         && Get(w, HOST) == Str(fn(host, port, node).value.0)
         && Get(w, PORT) == Int32(fn(host, port, node).value.1)
  }

  ghost predicate RewrittenMetadata(v: Value, w: Value, fn: Mapper) {
    && v.Struct? && w.Struct? && SameExcept(v, w, {BROKERS})
    && Get(v, BROKERS).Array? && Get(w, BROKERS).Array?
    && |Get(w, BROKERS).elems| == |Get(v, BROKERS).elems|
    && forall i :: 0 <= i < |Get(v, BROKERS).elems| ==> Rewritten(Get(v, BROKERS).elems[i], Get(w, BROKERS).elems[i], fn)
  }

  ghost predicate RewrittenCoordinator(v: Value, w: Value, fn: Mapper) {
    && v.Struct? && w.Struct? && SameExcept(v, w, {COORDINATOR})
    && Rewritten(Get(v, COORDINATOR), Get(w, COORDINATOR), fn)
  }

  ghost predicate RewrittenFindCoordinator(v: Value, w: Value, fn: Mapper) {
    && v.Struct? && w.Struct?
    && if Get(v, COORDINATORS).Nil? then RewrittenCoordinator(v, w, fn)
       else
         && SameExcept(v, w, {COORDINATORS})
         && Get(v, COORDINATORS).Array? && Get(w, COORDINATORS).Array?
         && |Get(w, COORDINATORS).elems| == |Get(v, COORDINATORS).elems|
         && forall i :: 0 <= i < |Get(v, COORDINATORS).elems| ==>
              RewrittenCoordinator(Get(v, COORDINATORS).elems[i], Get(w, COORDINATORS).elems[i], fn)
  }

  ghost predicate RewrittenResponse(api: Api, v: Value, w: Value, fn: Mapper) {
    match api
    case Metadata => RewrittenMetadata(v, w, fn)
    case FindCoordinator => RewrittenFindCoordinator(v, w, fn)
  }

  lemma NamesDiffer()
    ensures HOST != PORT && HOST != NODE_ID && PORT != NODE_ID
  {
    assert |HOST| == 4 && |PORT| == 4 && HOST[0] == 'h' && PORT[0] == 'p';
    assert |NODE_ID| == 7;
  }

  lemma SlotsDiffer(s: Schema, values: seq<Value>, m: string, n: string)
    requires m != n && Slot(s, values, m) >= 0
    ensures Slot(s, values, m) != Slot(s, values, n)
  {
  }

  lemma PutGet(v: Value, name: string, x: Value)
    requires v.Struct? && Slot(v.schema, v.values, name) >= 0
    ensures Put(v, name, x).Struct? && Get(Put(v, name, x), name) == x && SameExcept(v, Put(v, name, x), {name})
    ensures forall n :: Slot(v.schema, Put(v, name, x).values, n) == Slot(v.schema, v.values, n)
    ensures forall n :: n != name ==> Get(Put(v, name, x), n) == Get(v, n)
  {
    forall n | n != name
      ensures Get(Put(v, name, x), n) == Get(v, n)
    {
      SlotsDiffer(v.schema, v.values, name, n);
    }
  }

  lemma MapAddressRewrites(v: Value, fn: Mapper)
    requires v.Struct? && MapAddress(v, fn).Success?
    ensures Rewritten(v, MapAddress(v, fn).value, fn)
  {
    NamesDiffer();
    var host, port, node := Get(v, HOST), Get(v, PORT), Get(v, NODE_ID);
    if !(host.s == [] && port.i32 <= 0) {
      var (h, p) := fn(host.s, port.i32, node.i32).value;
      var u := Put(v, HOST, Str(h));
      PutGet(v, HOST, Str(h));
      PutGet(u, PORT, Int32(p));
    }
  }

  lemma {:induction false} MapBrokersRewrites(es: seq<Value>, fn: Mapper)
    requires MapBrokers(es, fn).Success?
    ensures forall i :: 0 <= i < |es| ==> Rewritten(es[i], MapBrokers(es, fn).value[i], fn)
  {
    if es != [] {
      MapAddressRewrites(es[0], fn);
      MapBrokersRewrites(es[1..], fn);
      var out := MapBrokers(es, fn).value;
      forall i | 0 <= i < |es|
        ensures Rewritten(es[i], out[i], fn)
      {
        if i > 0 {
          assert es[i] == es[1..][i - 1] && out[i] == MapBrokers(es[1..], fn).value[i - 1];
        }
      }
    }
  }

  lemma MapCoordinatorRewrites(v: Value, fn: Mapper)
    requires v.Struct? && MapCoordinator(v, fn).Success?
    ensures RewrittenCoordinator(v, MapCoordinator(v, fn).value, fn)
  {
    MapAddressRewrites(Get(v, COORDINATOR), fn);
    PutGet(v, COORDINATOR, MapAddress(Get(v, COORDINATOR), fn).value);
  }

  lemma {:induction false} MapCoordinatorsRewrites(es: seq<Value>, fn: Mapper)
    requires MapCoordinators(es, fn).Success?
    ensures forall i :: 0 <= i < |es| ==> RewrittenCoordinator(es[i], MapCoordinators(es, fn).value[i], fn)
  {
    if es != [] {
      MapCoordinatorRewrites(es[0], fn);
      MapCoordinatorsRewrites(es[1..], fn);
      var out := MapCoordinators(es, fn).value;
      forall i | 0 <= i < |es|
        ensures RewrittenCoordinator(es[i], out[i], fn)
      {
        if i > 0 {
          assert es[i] == es[1..][i - 1] && out[i] == MapCoordinators(es[1..], fn).value[i - 1];
        }
      }
    }
  }

  /** A successful rewrite changes the addresses and nothing else. */
  lemma ModifyRewrites(api: Api, v: Value, fn: Mapper)
    requires v.Struct? && Modify(api, v, fn).Success?
    ensures RewrittenResponse(api, v, Modify(api, v, fn).value, fn)
  {
    match api
    case Metadata =>
      MapBrokersRewrites(Get(v, BROKERS).elems, fn);
      PutGet(v, BROKERS, Array(MapBrokers(Get(v, BROKERS).elems, fn).value));
    case FindCoordinator =>
      if Get(v, COORDINATORS).Nil? {
        MapCoordinatorRewrites(v, fn);
      } else {
        MapCoordinatorsRewrites(Get(v, COORDINATORS).elems, fn);
        PutGet(v, COORDINATORS, Array(MapCoordinators(Get(v, COORDINATORS).elems, fn).value));
      }
  }
}
