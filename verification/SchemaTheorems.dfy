/** The main results about whole schema messages. */
module SchemaTheorems {
  import opened Wire
  import opened SchemaModel
  import opened SchemaProofs

  /**
   Round trip, every schema tree: a typed struct that the encoder accepts decodes back to itself
   if and only if its arrays pass the decoder's length checks; if they do not, decoding fails
   and never returns another value.
   */
  lemma EncodeDecode(s: Schema, v: Value)
    requires Typed(s, v) && v.Struct? && Encode(s, v).Success?
    ensures Fits(s, v, 0) <==> Decode(s, Encode(s, v).value) == Success(v)
    ensures Decode(s, Encode(s, v).value).Success? ==> Decode(s, Encode(s, v).value).value == v
  {
    RoundTrip(s, v, []);
    assert Encode(s, v).value + [] == Encode(s, v).value;
  }

  /** Round trip on schemas whose array elements take space: only over-long plain arrays break it. */
  lemma EncodeDecodeOccupied(s: Schema, v: Value)
    requires ElementsOccupy(s) && Typed(s, v) && v.Struct? && Encode(s, v).Success?
    ensures ArraysBounded(s, v) <==> Decode(s, Encode(s, v).value) == Success(v)
  {
    FitsIffBounded(s, v, 0);
    EncodeDecode(s, v);
  }

  /** An array of empty structs is accepted by the encoder and rejected by the decoder. */
  lemma RoundTripNeedsSpace()
    ensures var e := TStruct("e", []);
            var s := TStruct("s", [ArrayField("a", e)]);
            var v := Struct(s, [Array([Struct(e, [])])]);
            Typed(s, v) && Encode(s, v).Success? && Decode(s, Encode(s, v).value).Failure?
  {
    var e := TStruct("e", []);
    var f := ArrayField("a", e);
    var s := TStruct("s", [f]);
    var x := Struct(e, []);
    var v := Struct(s, [Array([x])]);
    assert EncElems(e, [x]) == Success([]) by {
      assert [x][1..] == [];
      assert EncElems(e, []) == Success([]);
    }
    assert EncField(f, Array([x])) == Success(IntBytes(4, 1) + []);
    assert [f][1..] == [] && [Array([x])][1..] == [];
    assert EncFields([], []) == Success([]);
    assert EncFields([f], [Array([x])]) == Success(IntBytes(4, 1) + [] + []);
    assert TypedElems(e, [x]);
    assert TypedField(f, Array([x]));
    assert !FitsField(f, Array([x]), 0);
    assert !Fits(s, v, 0) by {
      assert Size(EncFields([], [])) == 0;
    }
    EncodeDecode(s, v);
  }

  /**
   Normal form: a message that decodes to something the encoder accepts re-encodes to a message that
   decodes to the same value, and to the same bytes exactly when it was canonical.
   */
  lemma NormalForm(s: Schema, b: bytes)
    requires ElementsOccupy(s) && Decode(s, b).Success? && Encode(s, Decode(s, b).value).Success?
    ensures var v := Decode(s, b).value;
            && Decode(s, Encode(s, v).value) == Success(v)
            && |Encode(s, v).value| <= |b|
            && (Encode(s, v).value == b <==> Canonical(s, b))
  {
    var v := Decode(s, b).value;
    DecodedTyped(s, b);
    DecodedBounded(s, b);
    EncodeDecodeOccupied(s, v);
    Reencode(s, b);
    assert b[..|b|] == b;
  }

  /** Decoding is not injective: a null array and an empty one, a null STRING and an empty one, are the same value. */
  lemma DecodingForgetsNulls(n: int32, rest: bytes)
    requires n < 0
    ensures DecField(ArrayField("a", TInt32), IntBytes(4, n) + rest)
            == DecField(ArrayField("a", TInt32), IntBytes(4, 0) + rest)
    ensures Dec(TStr, IntBytes(2, -1) + rest) == Dec(TStr, IntBytes(2, 0) + rest)
  {
    Widths();
    IntRoundTrip(4, n);
    IntRoundTrip(4, 0);
    IntRoundTrip(2, -1);
    IntRoundTrip(2, 0);
    assert (IntBytes(4, n) + rest)[..4] == IntBytes(4, n) && (IntBytes(4, 0) + rest)[..4] == IntBytes(4, 0);
    assert (IntBytes(4, n) + rest)[4..] == rest == (IntBytes(4, 0) + rest)[4..];
    assert (IntBytes(2, -1) + rest)[..2] == IntBytes(2, -1) && (IntBytes(2, 0) + rest)[..2] == IntBytes(2, 0);
    assert (IntBytes(2, 0) + rest)[2..2 + 0] == [];
  }
}
