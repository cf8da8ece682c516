/** Response rewriting preserves meaning: the main theorem of the response path. */
module ResponseProofs {
  import opened Wire
  import opened SchemaModel
  import opened SchemaProofs
  import opened SchemaTheorems
  import opened ResponseModel

  /** A value the decoder can produce and, on schemas whose elements take space, accept again. */
  predicate Good(s: Schema, v: Value) {
    Typed(s, v) && ArraysBounded(s, v)
  }

  predicate GoodField(f: Field, v: Value) {
    TypedField(f, v) && ArraysBoundedField(f, v)
  }

  predicate GoodFields(fs: seq<Field>, vs: seq<Value>)
    requires |fs| == |vs|
  {
    TypedFields(fs, vs) && ArraysBoundedFields(fs, vs)
  }

  predicate GoodElems(ty: Schema, vs: seq<Value>) {
    TypedElems(ty, vs) && ArraysBoundedElems(ty, vs)
  }

  lemma {:induction false} FieldAt(fs: seq<Field>, vs: seq<Value>, i: nat)
    requires |fs| == |vs| && GoodFields(fs, vs) && i < |fs|
    ensures GoodField(fs[i], vs[i])
  {
    if i > 0 {
      FieldAt(fs[1..], vs[1..], i - 1);
    }
  }

  lemma {:induction false} PutField(fs: seq<Field>, vs: seq<Value>, i: nat, x: Value)
    requires |fs| == |vs| && GoodFields(fs, vs) && i < |fs| && GoodField(fs[i], x)
    ensures GoodFields(fs, vs[i := x])
  {
    if i == 0 {
      assert vs[i := x][1..] == vs[1..];
    } else {
      PutField(fs[1..], vs[1..], i - 1, x);
      assert vs[i := x][1..] == vs[1..][i - 1 := x];
    }
  }

  lemma PutGood(s: Schema, v: Value, name: string, x: Value)
    requires v.Struct? && Good(s, v) && Slot(s, v.values, name) >= 0
    requires GoodField(s.fields[Slot(s, v.values, name)], x)
    ensures Good(s, Put(v, name, x))
  {
    PutField(s.fields, v.values, Slot(s, v.values, name), x);
  }

  /** A scalar field accepts any other value of the same kind. */
  lemma SameKind(f: Field, x: Value, y: Value)
    requires GoodField(f, x) && ((x.Str? && y.Str?) || (x.Int32? && y.Int32?))
    ensures GoodField(f, y)
  {
    if f.Mfield? {
      assert Typed(f.ty, x) && Typed(f.ty, y);
    }
  }

  lemma MapAddressGood(s: Schema, v: Value, fn: Mapper)
    requires v.Struct? && Good(s, v) && MapAddress(v, fn).Success?
    ensures Good(s, MapAddress(v, fn).value)
  {
    var host, port, node := Get(v, HOST), Get(v, PORT), Get(v, NODE_ID);
    if !(host.s == [] && port.i32 <= 0) {
      var (h, p) := fn(host.s, port.i32, node.i32).value;
      var u := Put(v, HOST, Str(h));
      FieldAt(s.fields, v.values, Slot(s, v.values, HOST));
      SameKind(s.fields[Slot(s, v.values, HOST)], host, Str(h));
      PutGood(s, v, HOST, Str(h));
      PutGet(v, HOST, Str(h));
      FieldAt(s.fields, v.values, Slot(s, v.values, PORT));
      SameKind(s.fields[Slot(s, v.values, PORT)], port, Int32(p));
      PutGood(s, u, PORT, Int32(p));
    }
  }

  lemma {:induction false} MapBrokersGood(ty: Schema, es: seq<Value>, fn: Mapper)
    requires GoodElems(ty, es) && MapBrokers(es, fn).Success?
    ensures GoodElems(ty, MapBrokers(es, fn).value)
  {
    if es != [] {
      MapAddressGood(ty, es[0], fn);
      MapBrokersGood(ty, es[1..], fn);
      assert MapBrokers(es, fn).value[1..] == MapBrokers(es[1..], fn).value;
    }
  }

  lemma MapCoordinatorGood(s: Schema, v: Value, fn: Mapper)
    requires v.Struct? && Good(s, v) && MapCoordinator(v, fn).Success?
    ensures Good(s, MapCoordinator(v, fn).value)
  {
    var i := Slot(s, v.values, COORDINATOR);
    FieldAt(s.fields, v.values, i);
    MapAddressGood(s.fields[i].ty, v.values[i], fn);
    PutGood(s, v, COORDINATOR, MapAddress(v.values[i], fn).value);
  }

  lemma {:induction false} MapCoordinatorsGood(ty: Schema, es: seq<Value>, fn: Mapper)
    requires GoodElems(ty, es) && MapCoordinators(es, fn).Success?
    ensures GoodElems(ty, MapCoordinators(es, fn).value)
  {
    if es != [] {
      MapCoordinatorGood(ty, es[0], fn);
      MapCoordinatorsGood(ty, es[1..], fn);
      assert MapCoordinators(es, fn).value[1..] == MapCoordinators(es[1..], fn).value;
    }
  }

  lemma MapMetadataGood(s: Schema, v: Value, fn: Mapper)
    requires v.Struct? && Good(s, v) && MapMetadata(v, fn).Success?
    ensures Good(s, MapMetadata(v, fn).value)
  {
    var i := Slot(s, v.values, BROKERS);
    FieldAt(s.fields, v.values, i);
    ArrayFieldKind(s.fields[i], v.values[i]);
    MapBrokersGood(s.fields[i].ty, v.values[i].elems, fn);
    ArrayGood(s.fields[i], v.values[i], MapBrokers(v.values[i].elems, fn).value);
    PutGood(s, v, BROKERS, Array(MapBrokers(v.values[i].elems, fn).value));
  }

  lemma MapFindCoordinatorGood(s: Schema, v: Value, fn: Mapper)
    requires v.Struct? && Good(s, v) && MapFindCoordinator(v, fn).Success?
    ensures Good(s, MapFindCoordinator(v, fn).value)
  {
    if Get(v, COORDINATORS).Nil? {
      MapCoordinatorGood(s, v, fn);
    } else {
      var i := Slot(s, v.values, COORDINATORS);
      FieldAt(s.fields, v.values, i);
      ArrayFieldKind(s.fields[i], v.values[i]);
      MapCoordinatorsGood(s.fields[i].ty, v.values[i].elems, fn);
      ArrayGood(s.fields[i], v.values[i], MapCoordinators(v.values[i].elems, fn).value);
      PutGood(s, v, COORDINATORS, Array(MapCoordinators(v.values[i].elems, fn).value));
    }
  }

  lemma ArrayGood(f: Field, x: Value, es: seq<Value>)
    requires x.Array? && GoodField(f, x) && |es| == |x.elems|
    requires f.ArrayField? || f.CompactArrayField? ==> GoodElems(f.ty, es)
    ensures GoodField(f, Array(es))
  {
    if f.Mfield? {
      assert !Typed(f.ty, x);
    }
  }

  lemma ArrayFieldKind(f: Field, x: Value)
    requires x.Array? && GoodField(f, x)
    ensures (f.ArrayField? || f.CompactArrayField?) && GoodElems(f.ty, x.elems)
  {
    if f.Mfield? {
      assert !Typed(f.ty, x);
    }
  }

  lemma ModifyGood(api: Api, s: Schema, v: Value, fn: Mapper)
    requires v.Struct? && Good(s, v) && Modify(api, v, fn).Success?
    ensures Modify(api, v, fn).value.Struct? && Good(s, Modify(api, v, fn).value)
  {
    match api
    case Metadata => MapMetadataGood(s, v, fn);
    case FindCoordinator => MapFindCoordinatorGood(s, v, fn);
  }

  /**
   Whenever Apply succeeds, its output decodes, and to the input's value with every broker or coordinator
   address replaced by what the mapping gives for it and nothing else changed.
   */
  lemma ApplyRewrites(api: Api, s: Schema, b: bytes, fn: Mapper)
    requires ElementsOccupy(s) && Apply(api, s, b, fn).Success?
    ensures var out := Apply(api, s, b, fn).value;
            && Decode(s, b).Success? && Decode(s, out).Success?
            && RewrittenResponse(api, Decode(s, b).value, Decode(s, out).value, fn)
  {
    var v := Decode(s, b).value;
    var w := Modify(api, v, fn).value;
    DecodedTyped(s, b);
    DecodedBounded(s, b);
    ModifyGood(api, s, v, fn);
    EncodeDecodeOccupied(s, w);
    ModifyRewrites(api, v, fn);
  }

  /** A mapping that leaves every address alone. */
  ghost predicate Identity(fn: Mapper) {
    forall h: bytes, p: int32, n: int32 :: fn(h, p, n) == Success((h, p))
  }

  lemma PutSame(v: Value, name: string)
    requires v.Struct? && Slot(v.schema, v.values, name) >= 0
    ensures Put(v, name, Get(v, name)) == v
  {
    var i := Slot(v.schema, v.values, name);
    assert v.values[i := v.values[i]] == v.values;
  }

  lemma MapAddressIdentity(v: Value, fn: Mapper)
    requires v.Struct? && Identity(fn) && MapAddress(v, fn).Success?
    ensures MapAddress(v, fn).value == v
  {
    if !(Get(v, HOST).s == [] && Get(v, PORT).i32 <= 0) {
      PutSame(v, HOST);
      PutSame(v, PORT);
    }
  }

  lemma {:induction false} MapBrokersIdentity(es: seq<Value>, fn: Mapper)
    requires Identity(fn) && MapBrokers(es, fn).Success?
    ensures MapBrokers(es, fn).value == es
  {
    if es != [] {
      MapAddressIdentity(es[0], fn);
      MapBrokersIdentity(es[1..], fn);
    }
  }

  lemma MapCoordinatorIdentity(v: Value, fn: Mapper)
    requires v.Struct? && Identity(fn) && MapCoordinator(v, fn).Success?
    ensures MapCoordinator(v, fn).value == v
  {
    MapAddressIdentity(Get(v, COORDINATOR), fn);
    PutSame(v, COORDINATOR);
  }

  lemma {:induction false} MapCoordinatorsIdentity(es: seq<Value>, fn: Mapper)
    requires Identity(fn) && MapCoordinators(es, fn).Success?
    ensures MapCoordinators(es, fn).value == es
  {
    if es != [] {
      MapCoordinatorIdentity(es[0], fn);
      MapCoordinatorsIdentity(es[1..], fn);
    }
  }

  /** With nothing to rewrite, the response comes out byte for byte exactly when it came in canonical. */
  lemma ApplyIdentity(api: Api, s: Schema, b: bytes, fn: Mapper)
    requires ElementsOccupy(s) && Identity(fn) && Apply(api, s, b, fn).Success?
    ensures Apply(api, s, b, fn).value == b <==> Canonical(s, b)
    ensures Decode(s, Apply(api, s, b, fn).value) == Decode(s, b)
  {
    var v := Decode(s, b).value;
    match api {
      case Metadata =>
        MapBrokersIdentity(Get(v, BROKERS).elems, fn);
        PutSame(v, BROKERS);
      case FindCoordinator =>
        if Get(v, COORDINATORS).Nil? {
          MapCoordinatorIdentity(v, fn);
        } else {
          MapCoordinatorsIdentity(Get(v, COORDINATORS).elems, fn);
          PutSame(v, COORDINATORS);
        }
    }
    assert Modify(api, v, fn).value == v;
    NormalForm(s, b);
  }
}
