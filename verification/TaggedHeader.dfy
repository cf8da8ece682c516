/**
 The streaming skipper of response-header tagged fields (proxy/protocol/response_header.go) and its agreement
 with the buffer decoder of the same grammar (SchemaTaggedFields.decode, KIP-482).
 */
module TaggedHeader {
  import opened Wire
  import opened SchemaModel
  import opened Streams

  /** The bytes of one tag, size and data as the skipper walks over them, or None if it fails. */
  function SkipTag(b: bytes): (r: Option<nat>)
    ensures r.Some? ==> r.value <= |b|
  {
    var tag := GetUvarint(b);
    if !tag.UValue? then None
    else
      var size := GetUvarint(b[tag.n..]);
      if !size.UValue? then None
      else
        var n := ToInt64(size.u);
        var at := tag.n + size.n;
        if n > |b| - at then None else Some(if n < 0 then at else at + n)
  }

  function SkipTags(k: nat, b: bytes): (r: Option<nat>)
    ensures r.Some? ==> r.value <= |b|
  {
    if k == 0 then Some(0)
    else
      match SkipTag(b)
      case None => None
      case Some(n) =>
        match SkipTags(k - 1, b[n..])
        case None => None
        case Some(m) => Some(n + m)
  }

  function SkipTagged(b: bytes): (r: Option<nat>)
    ensures r.Some? ==> r.value <= |b|
  {
    var count := GetUvarint(b);
    if !count.UValue? then None
    else
      var k := ToInt64(count.u);
      match SkipTags(if k < 0 then 0 else k, b[count.n..])
      case None => None
      case Some(n) => Some(count.n + n)
  }

  /** Every announced size is that of present or null data; the others are what only the skipper lets pass. */
  predicate SizesValid(k: nat, b: bytes)
    decreases k
  {
    k == 0
    || (&& SkipTag(b).Some?
        && ToInt64(GetUvarint(b[GetUvarint(b).n..]).u) >= -1
        && SizesValid(k - 1, b[SkipTag(b).value..]))
  }

  predicate CountValid(b: bytes) {
    GetUvarint(b).UValue? && ToInt64(GetUvarint(b).u) >= 0
  }

  lemma TagsAgreeOne(b: bytes)
    ensures DecTag(b).Ok? <==> SkipTag(b).Some? && ToInt64(GetUvarint(b[GetUvarint(b).n..]).u) >= -1
    ensures DecTag(b).Ok? ==> SkipTag(b).value == DecTag(b).n
  {
  }

  lemma {:induction false} TagsAgree(k: nat, b: bytes)
    ensures DecTags(k, b).Ok? <==> SkipTags(k, b).Some? && SizesValid(k, b)
    ensures DecTags(k, b).Ok? ==> SkipTags(k, b).value == DecTags(k, b).n
  {
    hide DecTag, SkipTag;
    if k > 0 {
      TagsAgreeOne(b);
      if SkipTag(b).Some? {
        TagsAgree(k - 1, b[SkipTag(b).value..]);
      }
    }
  }

  /**
   Two parsers of one grammar: the decoder accepts exactly the inputs that the skipper accepts and whose count
   and sizes are valid, and then both consume the same bytes.
   */
  lemma ParsersAgree(b: bytes)
    ensures DecTagged(b).Ok? <==>
              SkipTagged(b).Some? && CountValid(b) && SizesValid(ToInt64(GetUvarint(b).u), b[GetUvarint(b).n..])
    ensures DecTagged(b).Ok? ==> SkipTagged(b) == Some(DecTagged(b).n)
  {
    hide DecTags, SkipTags, SizesValid, GetUvarint;
    var count := GetUvarint(b);
    if CountValid(b) {
      TagsAgree(ToInt64(count.u), b[count.n..]);
    }
  }

  function Plus(n: nat, s: Option<nat>): Option<nat> {
    if s.Some? then Some(n + s.value) else None
  }

  lemma SkipTagsUnfold(k: nat, b: bytes)
    ensures k == 0 ==> SkipTags(k, b) == Some(0)
    ensures k > 0 && SkipTag(b).Some? ==> SkipTags(k, b) == Plus(SkipTag(b).value, SkipTags(k - 1, b[SkipTag(b).value..]))
    ensures k > 0 && SkipTag(b).None? ==> SkipTags(k, b) == None
  {
  }

  class ResponseHeaderTaggedFields {
    const version: int16

    constructor (version: int16)
      ensures this.version == version
    {
      this.version := version;
    }

    /** Returns the tagged-field bytes and leaves the stream right behind them. */
    method MaybeRead(reader: ByteStream) returns (r: Option<bytes>)
      requires reader.Valid()
      modifies reader
      ensures reader.Valid() && old(reader.pos) <= reader.pos
      ensures version < 1 ==> r == Some([]) && reader.pos == old(reader.pos)
      ensures version >= 1 ==>
                var n := SkipTagged(old(reader.Rest()));
                && (n.Some? <==> r.Some?)
                && (n.Some? ==> r.value == old(reader.Rest())[..n.value] && reader.pos == old(reader.pos) + n.value)
      // where the buffer decoder succeeds, so does this, on exactly the same bytes
      ensures version >= 1 && DecTagged(old(reader.Rest())).Ok? ==>
                && r == Some(old(reader.Rest())[..DecTagged(old(reader.Rest())).n])
                && reader.pos == old(reader.pos) + DecTagged(old(reader.Rest())).n
    {
      hide SkipTags, DecTagged;
      if version < 1 {
        return Some([]);
      }
      ghost var b := reader.Rest();
      ParsersAgree(b);
      var tee := new Tee(reader);
      var count := tee.ReadUvarint();
      if count == None {
        return None;
      }
      assert reader.Rest() == b[GetUvarint(b).n..];
      var ok := SkipFields(ToInt64(count.value), tee);
      if !ok {
        return None;
      }
      assert tee.buffer == b[..|b| - |reader.Rest()|];
      r := Some(tee.buffer);
    }

    /** The loop over the announced fields; it runs zero times when the count, as an int64, is negative. */
    method SkipFields(k: int64, tee: Tee) returns (ok: bool)
      requires tee.Valid()
      modifies tee, tee.src
      ensures tee.Valid() && old(tee.src.pos) <= tee.src.pos
      ensures var n := SkipTags(if k < 0 then 0 else k, old(tee.src.Rest()));
              && (ok <==> n.Some?)
              && (ok ==> tee.src.pos == old(tee.src.pos) + n.value)
    {
      hide SkipTag, SkipTags;
      ghost var len, c, used := if k < 0 then 0 else k, tee.src.Rest(), 0;
      assert c[0..] == c;
      var i := 0;
      while i < k
        invariant 0 <= i <= len && len == if k < 0 then 0 else k
        invariant tee.Valid() && tee.src.pos == old(tee.src.pos) + used && used <= |c| && tee.src.Rest() == c[used..]
        invariant SkipTags(len, c) == Plus(used, SkipTags(len - i, c[used..]))
      {
        ghost var d := tee.src.Rest();
        SkipTagsUnfold(len - i, d);
        var one := SkipOne(tee);
        if !one {
          return false;
        }
        ghost var m := SkipTag(d).value;
        assert d[m..] == c[used + m..];
        used := used + m;
        i := i + 1;
      }
      SkipTagsUnfold(0, c[used..]);
      ok := true;
    }

    method SkipOne(tee: Tee) returns (ok: bool)
      requires tee.Valid()
      modifies tee, tee.src
      ensures tee.Valid() && old(tee.src.pos) <= tee.src.pos
      ensures var n := SkipTag(old(tee.src.Rest()));
              && (ok <==> n.Some?)
              && (ok ==> tee.src.pos == old(tee.src.pos) + n.value)
    {
      var tag := tee.ReadUvarint();
      if tag == None {
        return false;
      }
      assert tee.src.Rest() == old(tee.src.Rest())[GetUvarint(old(tee.src.Rest())).n..];
      var size := tee.ReadUvarint();
      if size == None {
        return false;
      }
      if size.value == 0 {
        return true;
      }
      ok := tee.Discard(ToInt64(size.value));
    }
  }
}
