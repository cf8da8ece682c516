/**
 The response modifier as the source runs it: decoded structs are edited in place, in loops,
 and the versioned response schemas (proxy/protocol/responses.go).
 */
module Responses {
  import opened Wire
  import opened SchemaModel
  import opened SchemaProofs
  import opened ResponseModel
  import opened ResponseProofs
  import opened ResponseTheorems
  import Encoders
  import Decoder

  datatype Kind = KNil | KBool | KInt16 | KInt32 | KString | KPtr | KSlice | KArray

  /** reflect.TypeOf(v).Kind(). */
  function KindOf(v: Value): Kind {
    match v
    case Nil => KNil
    case Bool(_) => KBool
    case Int16(_) => KInt16
    case Int32(_) => KInt32
    case Str(_) => KString
    case StrPtr(_) => KPtr
    case Uuid(_) => KArray
    case Tagged(_) => KSlice
    case Array(_) => KSlice
    case Struct(_, _) => KPtr
  }

  datatype ReplaceError = NewValueNil | NameNotFound | IndexOutOfRange | OldValueNotFound | KindsDiffer

  /** A *Struct: its values can be replaced, its schema cannot. */
  class StructRef {
    const schema: Schema
    var values: seq<Value>

    constructor (schema: Schema, values: seq<Value>)
      ensures this.schema == schema && this.values == values
    {
      this.schema := schema;
      this.values := values;
    }

    function Value(): Value
      reads this
    {
      Struct(schema, values)
    }

    /** Overwrites one field, or reports why not and changes nothing. */
    method Replace(name: string, x: Value) returns (err: Option<ReplaceError>)
      modifies this
      ensures err.None? <==>
                && x != Nil && old(Slot(schema, values, name)) >= 0
                && KindOf(old(ResponseModel.Get(Value(), name))) == KindOf(x)
      ensures Value() == if err.None? then Put(old(Value()), name, x) else old(Value())
    {
      if x == Nil {
        return Some(NewValueNil);
      }
      var i := if schema.TStruct? then IndexOf(schema.fields, name) else -1;
      if i < 0 {
        return Some(NameNotFound);
      }
      if i >= |values| {
        return Some(IndexOutOfRange);
      }
      if values[i] == Nil {
        return Some(OldValueNotFound);
      }
      if KindOf(values[i]) != KindOf(x) {
        return Some(KindsDiffer);
      }
      values := values[i := x];
      err := None;
    }
  }

  /** The outcome of an in-place edit agrees with the function that describes it. */
  ghost predicate Edited(r: Result<Value, ModifyError>, err: Option<ModifyError>, after: Value) {
    match r
    case Success(v) => err == None && after == v
    case Failure(e) => err == Some(e)
  }

  /** The part of both modifiers that rewrites one entry. */
  method ModifyAddress(entry: StructRef, fn: Mapper) returns (err: Option<ModifyError>)
    modifies entry
    ensures Edited(MapAddress(old(entry.Value()), fn), err, entry.Value())
  {
    NamesDiffer();
    ghost var v := entry.Value();
    var host := Get(entry.Value(), HOST);
    if !host.Str? {
      return Some(HostNotFound);
    }
    var port := Get(entry.Value(), PORT);
    if !port.Int32? {
      return Some(PortNotFound);
    }
    var node := Get(entry.Value(), NODE_ID);
    if !node.Int32? {
      return Some(NodeNotFound);
    }
    if host.s == [] && port.i32 <= 0 {
      return None;
    }
    var mapped := fn(host.s, port.i32, node.i32);
    if mapped.Failure? {
      return Some(Mapping(mapped.error));
    }
    var (newHost, newPort) := mapped.value;
    PutGet(v, HOST, Str(newHost));
    if host.s != newHost {
      var e := entry.Replace(HOST, Str(newHost));
      assert e == None;
    } else {
      PutSame(v, HOST);
    }
    assert entry.Value() == Put(v, HOST, Str(newHost));
    if port.i32 != newPort {
      var e := entry.Replace(PORT, Int32(newPort));
      assert e == None;
    } else {
      PutSame(entry.Value(), PORT);
    }
    err := None;
  }

  /** MapBrokers with the entries before i already mapped. */
  lemma MapBrokersStep(es: seq<Value>, done: seq<Value>, i: nat, fn: Mapper)
    requires i < |es| && |done| == i
    ensures !es[i].Struct? ==> MapBrokers(es[i..], fn) == Failure(ElementNotAStruct)
    ensures es[i].Struct? && MapAddress(es[i], fn).Failure? ==>
              MapBrokers(es[i..], fn) == Failure(MapAddress(es[i], fn).error)
    ensures es[i].Struct? && MapAddress(es[i], fn).Success? ==>
              Prefixed(done, MapBrokers(es[i..], fn))
              == Prefixed(done + [MapAddress(es[i], fn).value], MapBrokers(es[i + 1..], fn))
  {
    assert es[i..][1..] == es[i + 1..];
    if es[i].Struct? && MapAddress(es[i], fn).Success? && MapBrokers(es[i + 1..], fn).Success? {
      var vs := MapBrokers(es[i + 1..], fn).value;
      assert done + ([MapAddress(es[i], fn).value] + vs) == done + [MapAddress(es[i], fn).value] + vs;
    }
  }

  lemma MapCoordinatorsStep(es: seq<Value>, done: seq<Value>, i: nat, fn: Mapper)
    requires i < |es| && |done| == i
    ensures !es[i].Struct? ==> MapCoordinators(es[i..], fn) == Failure(ElementNotAStruct)
    ensures es[i].Struct? && MapCoordinator(es[i], fn).Failure? ==>
              MapCoordinators(es[i..], fn) == Failure(MapCoordinator(es[i], fn).error)
    ensures es[i].Struct? && MapCoordinator(es[i], fn).Success? ==>
              Prefixed(done, MapCoordinators(es[i..], fn))
              == Prefixed(done + [MapCoordinator(es[i], fn).value], MapCoordinators(es[i + 1..], fn))
  {
    assert es[i..][1..] == es[i + 1..];
    if es[i].Struct? && MapCoordinator(es[i], fn).Success? && MapCoordinators(es[i + 1..], fn).Success? {
      var vs := MapCoordinators(es[i + 1..], fn).value;
      assert done + ([MapCoordinator(es[i], fn).value] + vs) == done + [MapCoordinator(es[i], fn).value] + vs;
    }
  }

  function Prefixed(done: seq<Value>, r: Result<seq<Value>, ModifyError>): Result<seq<Value>, ModifyError> {
    if r.Success? then Success(done + r.value) else r
  }

  lemma PrefixedEmpty(r: Result<seq<Value>, ModifyError>)
    ensures Prefixed([], r) == r
  {
    if r.Success? {
      assert [] + r.value == r.value;
    }
  }

  /**
   modifyMetadataResponse. The entries of the decoded array are edited through their own references;
   the array with the edited entries is stored back at the end.
   */
  method ModifyMetadata(decoded: StructRef, fn: Mapper) returns (err: Option<ModifyError>)
    modifies decoded
    ensures Edited(MapMetadata(old(decoded.Value()), fn), err, decoded.Value())
  {
    var brokersArray := Get(decoded.Value(), BROKERS);
    if !brokersArray.Array? {
      return Some(BrokersNotFound);
    }
    var es, out := brokersArray.elems, [];
    assert es[0..] == es;
    PrefixedEmpty(MapBrokers(es, fn));
    for i := 0 to |es|
      invariant |out| == i && decoded.Value() == old(decoded.Value())
      invariant MapBrokers(es, fn) == Prefixed(out, MapBrokers(es[i..], fn))
    {
      MapBrokersStep(es, out, i, fn);
      if !es[i].Struct? {
        return Some(ElementNotAStruct);
      }
      var broker := new StructRef(es[i].schema, es[i].values);
      assert broker.Value() == es[i];
      err := ModifyAddress(broker, fn);
      if err != None {
        return;
      }
      out := out + [broker.Value()];
    }
    assert out + [] == out;
    decoded.values := decoded.values[Slot(decoded.schema, decoded.values, BROKERS) := Array(out)];
    err := None;
  }

  method ModifyCoordinator(decoded: StructRef, fn: Mapper) returns (err: Option<ModifyError>)
    modifies decoded
    ensures Edited(MapCoordinator(old(decoded.Value()), fn), err, decoded.Value())
  {
    var c := Get(decoded.Value(), COORDINATOR);
    if !c.Struct? {
      return Some(CoordinatorNotFound);
    }
    var coordinator := new StructRef(c.schema, c.values);
    assert coordinator.Value() == c;
    err := ModifyAddress(coordinator, fn);
    if err != None {
      return;
    }
    decoded.values := decoded.values[Slot(decoded.schema, decoded.values, COORDINATOR) := coordinator.Value()];
  }

  method ModifyFindCoordinator(decoded: StructRef, fn: Mapper) returns (err: Option<ModifyError>)
    modifies decoded
    ensures Edited(MapFindCoordinator(old(decoded.Value()), fn), err, decoded.Value())
  {
    var coordinators := Get(decoded.Value(), COORDINATORS);
    if coordinators == Nil {
      err := ModifyCoordinator(decoded, fn);
      return;
    }
    if !coordinators.Array? {
      return Some(CoordinatorsNotFound);
    }
    var es, out := coordinators.elems, [];
    assert es[0..] == es;
    PrefixedEmpty(MapCoordinators(es, fn));
    for i := 0 to |es|
      invariant |out| == i && decoded.Value() == old(decoded.Value())
      invariant MapCoordinators(es, fn) == Prefixed(out, MapCoordinators(es[i..], fn))
    {
      MapCoordinatorsStep(es, out, i, fn);
      if !es[i].Struct? {
        return Some(ElementNotAStruct);
      }
      var element := new StructRef(es[i].schema, es[i].values);
      assert element.Value() == es[i];
      err := ModifyCoordinator(element, fn);
      if err != None {
        return;
      }
      out := out + [element.Value()];
    }
    assert out + [] == out;
    decoded.values := decoded.values[Slot(decoded.schema, decoded.values, COORDINATORS) := Array(out)];
    err := None;
  }

  /** responseModifier.Apply: decode, edit in place, encode. */
  method ApplyModifier(api: Api, s: Schema, resp: bytes, fn: Mapper) returns (r: Result<bytes, ApplyError>)
    ensures r == Apply(api, s, resp, fn)
    ensures r.Success? && ElementsOccupy(s) ==>
              && Decode(s, resp).Success? && Decode(s, r.value).Success?
              && RewrittenResponse(api, Decode(s, resp).value, Decode(s, r.value).value, fn)
    ensures ElementsOccupy(s) ==>
              (r.Success? <==>
                 && Decode(s, resp).Success?
                 && exists w :: RewrittenResponse(api, Decode(s, resp).value, w, fn) && Sendable(s, w))
  {
    hide RewrittenResponse, Sendable;
    if ElementsOccupy(s) {
      ApplyExactly(api, s, resp, fn);
    }
    var decoded := Decoder.DecodeSchema(resp, s);
    if decoded.Failure? {
      return Failure(Decoding(decoded.error));
    }
    DecodedIsStruct(s, resp);
    DecodedTyped(s, resp);
    var st := new StructRef(decoded.value.schema, decoded.value.values);
    assert st.Value() == decoded.value;
    var err;
    if api == Metadata {
      err := ModifyMetadata(st, fn);
    } else {
      err := ModifyFindCoordinator(st, fn);
    }
    if err != None {
      return Failure(Modifying(err.value));
    }
    var encoded, _, _ := Encoders.EncodeSchema(s, st.Value());
    if encoded.Failure? {
      return Failure(Encoding(encoded.error));
    }
    r := Success(encoded.value);
    if ElementsOccupy(s) {
      ApplyRewrites(api, s, resp, fn);
    }
  }
}
