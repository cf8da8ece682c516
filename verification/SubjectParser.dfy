/** The subject parser: a cursor that moves over the input (proxy/clientcertvalidate/parser.go). */
module SubjectParser {
  import opened Wire
  import opened StringOrder
  import opened SubjectGrammar

  datatype Kind = Strings | Patterns

  /** What a subject asks of a certificate; the values of string subjects are sorted. */
  datatype ParsedSubject = ParsedSubject(kind: Kind, kvs: map<string, seq<string>>)

  /** A field given twice counts as it is given last. */
  function Collect(kind: Kind, fs: seq<SubjectField>): map<string, seq<string>> {
    if fs == [] then map[]
    else
      var last := fs[|fs| - 1];
      Collect(kind, fs[..|fs| - 1])[last.name := if kind == Strings then Sorted(last.values) else last.values]
  }

  /** What is asked for is just the fields that are given. */
  lemma {:induction false} CollectedNames(kind: Kind, fs: seq<SubjectField>, name: string)
    ensures name in Collect(kind, fs) <==> exists f <- fs :: f.name == name
    decreases |fs|
  {
    if fs != [] {
      var front, last := fs[..|fs| - 1], fs[|fs| - 1];
      CollectedNames(kind, front, name);
      assert fs == front + [last];
      hide Collect;
      assert (exists f <- fs :: f.name == name) <==> (exists f <- front :: f.name == name) || last.name == name;
    }
  }

  /** Each as it is given last, and sorted in a string subject. */
  lemma {:induction false} CollectedValues(kind: Kind, fs: seq<SubjectField>, i: nat)
    requires i < |fs| && forall j :: i < j < |fs| ==> fs[j].name != fs[i].name
    ensures fs[i].name in Collect(kind, fs)
    ensures Collect(kind, fs)[fs[i].name] == if kind == Strings then Sorted(fs[i].values) else fs[i].values
    decreases |fs|
  {
    if i < |fs| - 1 {
      CollectedValues(kind, fs[..|fs| - 1], i);
      assert fs[|fs| - 1].name != fs[i].name;
    }
  }

  /** Only patterns have to compile. */
  function GivenFor(kind: Kind, g: Given): Given {
    if kind == Strings then g.(ok := v => true) else g
  }

  /** What Parse gives for the characters its cursor sees. */
  function ParseSubject(s: string, g: Given): Result<ParsedSubject, ParserError> {
    if |s| < 2 then Failure(MissingPrefix)
    else if (s[0] != 's' && s[0] != 'r') || s[1] != ':' then Failure(InvalidPrefix(s[..2]))
    else
      var kind := if s[0] == 's' then Strings else Patterns;
      match ReadFields(GivenFor(kind, g), s, 2)
      case Failure(e) => Failure(e)
      case Success(fs) => Success(ParsedSubject(kind, Collect(kind, fs)))
  }

  // ----- What the cursor sees of the configured text -----

  predicate Quoted(raw: string) {
    raw != "" && (raw[0] == '\'' || raw[|raw| - 1] == '\'')
  }

  predicate Ascii(raw: string) {
    forall c <- raw :: c as int < 0x80
  }

  /** strings.TrimSuffix, then strings.TrimPrefix, of one single quote each. */
  function TrimQuotes(raw: string): (s: string)
    ensures |s| <= |raw|
  {
    var s := if raw != "" && raw[|raw| - 1] == '\'' then raw[..|raw| - 1] else raw;
    if s != "" && s[0] == '\'' then s[1..] else s
  }

  /** Bytes of a character in UTF-8. */
  function Utf8Size(c: char): nat {
    if c as int < 0x80 then 1 else if c as int < 0x800 then 2 else if c as int < 0x1_0000 then 3 else 4
  }

  /** len(input): bytes, where the cursor counts characters. */
  function ByteLength(raw: string): (n: nat)
    ensures n >= |raw|
  {
    if raw == "" then 0 else Utf8Size(raw[0]) + ByteLength(raw[1..])
  }

  const NUL := '\0'

  /**
   The cursor runs over as many characters as the untrimmed text has bytes. Behind the trimmed characters it finds the
   zeros of the slice's spare capacity (and where that ends too, the source panics instead of reading on).
   */
  function View(raw: string): (s: string)
    ensures |s| == ByteLength(raw)
  {
    TrimQuotes(raw) + seq(ByteLength(raw) - |TrimQuotes(raw)|, i => NUL)
  }

  lemma {:induction false} ByteLengthExact(raw: string)
    ensures ByteLength(raw) == |raw| <==> Ascii(raw)
  {
    if raw != "" {
      ByteLengthExact(raw[1..]);
      assert raw == [raw[0]] + raw[1..];
      assert raw[0] in raw && forall c <- raw[1..] :: c in raw;
    }
  }

  /** The cursor sees just the configured text exactly when that is ASCII and not quoted. */
  lemma ViewExact(raw: string)
    ensures |TrimQuotes(raw)| == ByteLength(raw) <==> !Quoted(raw) && Ascii(raw)
    ensures !Quoted(raw) && Ascii(raw) ==> View(raw) == raw
    ensures Quoted(raw) || !Ascii(raw) ==> View(raw) != "" && View(raw)[|View(raw)| - 1] == NUL
  {
    ByteLengthExact(raw);
  }

  lemma {:induction false} SubjectTextEnds(fs: seq<SubjectField>)
    requires fs != [] && forall f <- fs :: ValidField(f)
    ensures (forall f <- fs :: f.values != []) && SubjectText(fs) != "" && SubjectText(fs)[|SubjectText(fs)| - 1] == ']'
  {
    hide WellFormed, Join;
    ValidHasValues(fs);
    if |fs| > 1 {
      SubjectTextEnds(fs[1..]);
    } else {
      assert SubjectText(fs[1..]) == "";
    }
  }

  /** A quoted subject and one with characters beyond ASCII never parse: the cursor ends on something that is no field. */
  lemma OnlyPlainSubjectsParse(raw: string, g: Given)
    requires ParseSubject(View(raw), g).Success?
    ensures !Quoted(raw) && Ascii(raw)
  {
    hide ReadFields, ValidField, SubjectText, Collect, View;
    ViewExact(raw);
    var s := View(raw);
    var kind := if s[0] == 's' then Strings else Patterns;
    FieldsRendered(GivenFor(kind, g), s, 2);
    var fs := ReadFields(GivenFor(kind, g), s, 2).value;
    if fs != [] {
      SubjectTextEnds(fs);
      assert s[|s| - 1] == s[2..][|s| - 3];
    } else {
      NoText();
      assert s[2..] == "" && s[|s| - 1] == ':';
    }
  }

  lemma NoText()
    ensures SubjectText([]) == ""
  {
  }

  function Prefix(kind: Kind): string {
    if kind == Strings then "s:" else "r:"
  }

  lemma NotQuoted(kind: Kind, fs: seq<SubjectField>)
    requires forall f <- fs :: ValidField(f)
    ensures (forall f <- fs :: f.values != []) && !Quoted(Prefix(kind) + SubjectText(fs))
  {
    hide WellFormed;
    ValidHasValues(fs);
    if fs == [] {
      NoText();
    } else {
      SubjectTextEnds(fs);
    }
  }

  /**
   Which texts the parser accepts, of all there are: exactly the ASCII ones that are a prefix and the text of some
   supported fields with well-formed values (which compile, for patterns), and they ask for what these fields ask.
   */
  lemma AcceptedSubjects(raw: string, g: Given, subject: ParsedSubject)
    ensures ParseSubject(View(raw), g) == Success(subject) <==>
            Ascii(raw)
            && exists fs: seq<SubjectField> ::
                 && (forall f <- fs :: ValidField(f)) && AllPass(GivenFor(subject.kind, g).ok, fs)
                 && raw == Prefix(subject.kind) + SubjectText(fs) && subject.kvs == Collect(subject.kind, fs)
  {
    hide ReadFields, SubjectText, Collect, View, Ascii, Quoted, WellFormed, AllPass;
    var given := GivenFor(subject.kind, g);
    ViewExact(raw);
    if ParseSubject(View(raw), g) == Success(subject) {
      OnlyPlainSubjectsParse(raw, g);
      FieldsRendered(given, raw, 2);
      assert raw == Prefix(subject.kind) + raw[2..];
    }
    forall fs: seq<SubjectField> | (forall f <- fs :: ValidField(f)) && AllPass(given.ok, fs)
        && Ascii(raw) && raw == Prefix(subject.kind) + SubjectText(fs)
      ensures ParseSubject(View(raw), g) == Success(ParsedSubject(subject.kind, Collect(subject.kind, fs)))
    {
      NotQuoted(subject.kind, fs);
      FieldsRead(given, Prefix(subject.kind), fs);
    }
  }

  type Text = Result<string, ParserError>

  class SubjectParser {
    const input: string
    const maxPos: nat
    var pos: nat

    /** maxPos is the byte length of the text before trimming: the characters and the zeros behind them. */
    constructor (raw: string)
      ensures input == View(raw) && pos == 0 && Valid()
    {
      input := TrimQuotes(raw) + seq(ByteLength(raw) - |TrimQuotes(raw)|, i => NUL);
      pos := 0;
      maxPos := ByteLength(raw);
    }

    ghost predicate Valid()
      reads this
    {
      pos <= maxPos == |input|
    }

    /** Everything from the old position to the new one was read, and the position moved forward. */
    twostate predicate Advanced(value: string)
      reads this
    {
      Valid() && old(pos) <= pos && value == input[old(pos)..pos]
    }

    /** None at the end of the input. */
    method LookupOne() returns (c: Option<char>)
      requires Valid()
      ensures if pos < maxPos then c == Some(input[pos]) else c == None
    {
      c := if pos + 1 > maxPos then None else Some(input[pos]);
    }

    /** Up to n characters; at the end of the input it reads what is left and reports the end. */
    method Consume(n: nat) returns (runes: string, eof: bool)
      requires Valid()
      modifies this
      ensures Advanced(runes)
      ensures eof <==> old(pos) + n > maxPos || n == 0
      ensures !eof ==> |runes| == n
    {
      var m := n;
      eof := false;
      if pos + n > maxPos {
        eof := true;
        m := maxPos - pos;
      }
      if m == 0 {
        return [], true;
      }
      runes := input[pos..pos + m];
      pos := pos + m;
    }

    method ConsumeOne() returns (c: Option<char>)
      requires Valid()
      modifies this
      ensures Valid()
      ensures if old(pos) < maxPos then c == Some(input[old(pos)]) && pos == old(pos) + 1 else c == None && pos == old(pos)
    {
      var runes, eof := Consume(1);
      c := if eof then None else Some(runes[0]);
    }

    method Skip(n: nat)
      requires Valid() && pos + n <= maxPos
      modifies this
      ensures Valid() && pos == old(pos) + n
    {
      pos := pos + n;
    }

    method ReadEscapeSequence() returns (r: Text)
      requires Valid()
      modifies this
      ensures Valid() && pos >= old(pos)
      ensures r.Success? <==> old(pos) + 1 < maxPos && input[old(pos)] == ESCAPE
      ensures r.Success? ==> Advanced(r.value) && pos == old(pos) + 2
      ensures r.Failure? && old(pos) < maxPos && input[old(pos)] == ESCAPE ==> r.error == Eof
    {
      var value := [];
      var next := ConsumeOne();
      if next == None {
        return Failure(Eof);
      }
      if next.value != ESCAPE {
        return Failure(UnexpectedInput([ESCAPE], [next.value], pos - 1));
      }
      value := value + [next.value];
      next := LookupOne();
      if next == None {
        return Failure(Eof);
      }
      Skip(1);
      value := value + [next.value];
      r := Success(value);
    }

    /** Reads on to the bracket that closes the one before the cursor; recursion stands for the depth of the brackets. */
    method ReadAnyEnclosed(start: char, end: char) returns (r: Text)
      requires Valid()
      modifies this
      ensures Valid() && pos >= old(pos)
      ensures match CloseOf(input, old(pos), 1, start, end)
              case None => r == Failure(Eof)
              case Some(k) => r.Success? && Advanced(r.value) && pos == k
      decreases maxPos - pos
    {
      ghost var p := pos;
      var consumed := [];
      while true
        invariant Valid() && p <= pos && consumed == input[p..pos]
        invariant CloseOf(input, p, 1, start, end) == CloseOf(input, pos, 1, start, end)
        decreases maxPos - pos
      {
        CloseUnfold(input, pos, start, end);
        hide CloseOf;
        var next := LookupOne();
        if next == None {
          return Failure(Eof);
        }
        GlueOne(input, p, pos);
        if next.value == end {
          Skip(1);
          consumed := consumed + [next.value];
          break;
        }
        if next.value == start {
          Skip(1);
          consumed := consumed + [next.value];
          ghost var mid := pos;
          var chunk := ReadAnyEnclosed(start, end);
          if chunk.Failure? {
            return Failure(chunk.error);
          }
          Glue(input, p, mid, pos);
          consumed := consumed + chunk.value;
          continue;
        }
        if next.value == ESCAPE {
          ghost var mid := pos;
          var chunk := ReadEscapeSequence();
          if chunk.Failure? {
            return Failure(chunk.error);
          }
          Glue(input, p, mid, pos);
          consumed := consumed + chunk.value;
          continue;
        }
        Skip(1);
        consumed := consumed + [next.value];
      }
      r := Success(consumed);
    }

    /** Reads a value up to the comma or bracket that ends it, which stays. */
    method ReadValue() returns (r: Text)
      requires Valid()
      modifies this
      ensures Valid() && pos >= old(pos)
      ensures match ValueEnd(input, old(pos))
              case None => r == Failure(Eof)
              case Some(k) => r.Success? && Advanced(r.value) && pos == k
    {
      ghost var p := pos;
      var value := [];
      while true
        invariant Valid() && p <= pos && value == input[p..pos]
        invariant ValueEnd(input, p) == ValueEnd(input, pos)
        decreases maxPos - pos
      {
        ValueUnfold(input, pos);
        hide ValueEnd, CloseOf;
        var next := LookupOne();
        if next == None {
          return Failure(Eof);
        }
        GlueOne(input, p, pos);
        if next.value == '[' || next.value == '{' {
          Skip(1);
          value := value + [next.value];
          ghost var mid := pos;
          var enclosed := ReadAnyEnclosed(next.value, if next.value == '[' then ']' else '}');
          if enclosed.Failure? {
            return Failure(enclosed.error);
          }
          Glue(input, p, mid, pos);
          value := value + enclosed.value;
          continue;
        }
        if next.value == ',' || next.value == ']' {
          break;
        }
        if next.value == ESCAPE {
          ghost var mid := pos;
          var chunk := ReadEscapeSequence();
          if chunk.Failure? {
            return Failure(chunk.error);
          }
          Glue(input, p, mid, pos);
          value := value + chunk.value;
          continue;
        }
        Skip(1);
        value := value + [next.value];
      }
      r := Success(value);
    }

    /** Reads a bracketed list of values. */
    method ReadValues() returns (r: Result<seq<string>, ParserError>)
      requires Valid()
      modifies this
      ensures Valid() && pos >= old(pos)
      ensures match ReadList(input, old(pos))
              case None => r.Failure? && (old(pos) < maxPos && input[old(pos)] == '[' ==> r == Failure(Eof))
              case Some(v) => r == Success(v.values) && pos == v.next
    {
      hide ValueEnd, ReadMore;
      var next := ConsumeOne();
      if next == None {
        return Failure(Eof);
      }
      if next.value != '[' {
        return Failure(UnexpectedInput("[", [next.value], pos));
      }
      ReadMoreUnfold(input, pos);
      var value := ReadValue();
      if value.Failure? {
        return Failure(value.error);
      }
      r := ReadFurtherValues([value.value], old(pos) + 1);
    }

    /** The loop of ReadValues: the cursor is behind a value. */
    method ReadFurtherValues(first: seq<string>, ghost start: nat) returns (r: Result<seq<string>, ParserError>)
      requires Valid() && pos < maxPos && (input[pos] == ',' || input[pos] == ']')
      requires ReadMore(input, start) == After(first, input, pos)
      modifies this
      ensures Valid() && pos >= old(pos)
      ensures match ReadMore(input, start)
              case None => r == Failure(Eof)
              case Some(v) => r == Success(v.values) && pos == v.next
    {
      hide ReadMore, ValueEnd, After;
      var values := first;
      while true
        invariant Valid() && old(pos) <= pos < maxPos && (input[pos] == ',' || input[pos] == ']')
        invariant ReadMore(input, start) == After(values, input, pos)
        decreases maxPos - pos
      {
        var next := LookupOne();
        if next == Some(',') {
          AfterComma(values, input, pos);
          Skip(1);
          var value := ReadValue();
          if value.Failure? {
            return Failure(value.error);
          }
          values := values + [value.value];
          continue;
        }
        break;
      }
      // A value ends at a comma or a closing bracket, so the source's checks for anything else here never fire.
      AfterBracket(values, input, pos);
      var next := ConsumeOne();
      assert next == Some(']');
      r := Success(values);
    }

    /** Reads upper-case letters up to the boundary, which goes with them. */
    method ReadAlphaStringUntil(boundary: char, g: Given) returns (r: Text)
      requires Valid() && !Upper(g, boundary)
      modifies this
      ensures Valid() && pos >= old(pos)
      ensures var k := UpperEnd(g, input, old(pos));
              if k == maxPos then r == Failure(Eof)
              else if input[k] != boundary then r == Failure(InvalidField(input[old(pos)..k + 1]))
              else if k == old(pos) then r == Failure(Eof)
              else r == Success(input[old(pos)..k]) && pos == k + 1
    {
      ghost var p := pos;
      var consumed := [];
      while true
        invariant Valid() && p <= pos && consumed == input[p..pos]
        invariant UpperEnd(g, input, p) == UpperEnd(g, input, pos)
        decreases maxPos - pos
      {
        var next := LookupOne();
        if next == None {
          return Failure(Eof);
        }
        if Upper(g, next.value) {
          consumed := consumed + [next.value];
          Skip(1);
          continue;
        }
        if next.value == boundary {
          Skip(1);
          break;
        }
        consumed := consumed + [next.value];
        assert consumed == input[p..pos + 1];
        return Failure(InvalidField(consumed));
      }
      r := if consumed == [] then Failure(Eof) else Success(consumed);
    }

    /** Reads one field: the body of the loop of Parse. */
    method ParseField(g: Given) returns (r: Result<SubjectField, ParserError>)
      requires Valid() && pos < maxPos
      modifies this
      ensures Valid()
      ensures match ReadField(g, input, old(pos))
              case Failure(e) => r == Failure(e)
              case Success(f) => r == Success(f.field) && pos == f.next
    {
      hide ReadList;
      var next := LookupOne();
      if next.value != '/' {
        return Failure(UnexpectedInput("/", [next.value], pos));
      }
      Skip(1);
      var fieldPos := pos;
      var name := ReadAlphaStringUntil('=', g);
      if name == Failure(Eof) {
        return Failure(UnexpectedInput("field", "none", fieldPos));
      }
      if name.Failure? {
        return Failure(name.error);
      }
      if name.value !in VALID_FIELDS {
        return Failure(UnsupportedField(name.value));
      }
      next := LookupOne();
      if next == None {
        return Failure(UnexpectedInput("[", "none", pos));
      }
      if next.value != '[' {
        return Failure(UnexpectedInput("[", [next.value], pos));
      }
      var valuePos := pos;
      var values := ReadValues();
      if values.Failure? {
        return Failure(ValueInsufficientInput(valuePos));
      }
      r := Success(SubjectField(name.value, values.value));
    }

    /** Parses the whole input. */
    method Parse(g: Given) returns (r: Result<ParsedSubject, ParserError>)
      requires Valid() && pos == 0
      modifies this
      ensures Valid() && r == ParseSubject(input, g)
    {
      hide ReadFields;
      var prefix, eof := Consume(2);
      if eof {
        return Failure(MissingPrefix);
      }
      if (prefix[0] != 's' && prefix[0] != 'r') || prefix[1] != ':' {
        return Failure(InvalidPrefix(prefix));
      }
      var kind := if prefix[0] == 's' then Strings else Patterns;
      var kvs := ParseFields(kind, g);
      match kvs {
        case Failure(e) => r := Failure(e);
        case Success(m) => r := Success(ParsedSubject(kind, m));
      }
    }

    /** The loop of Parse. */
    method ParseFields(kind: Kind, g: Given) returns (r: Result<map<string, seq<string>>, ParserError>)
      requires Valid() && pos == 2
      modifies this
      ensures Valid()
      ensures match ReadFields(GivenFor(kind, g), input, 2)
              case Failure(e) => r == Failure(e)
              case Success(fs) => r == Success(Collect(kind, fs))
    {
      var given := GivenFor(kind, g);
      ghost var done: seq<SubjectField> := [];
      var kvs: map<string, seq<string>> := map[];
      FurtherNothing(ReadFields(given, input, 2));
      while true
        invariant Valid() && kvs == Collect(kind, done)
        invariant ReadFields(given, input, 2) == Further(done, ReadFields(given, input, pos))
        decreases maxPos - pos
      {
        FieldsUnfold(given, input, pos);
        hide ReadFields, ReadField;
        var next := LookupOne();
        if next == None {
          break;
        }
        var f := ParseField(given);
        if f.Failure? {
          return Failure(f.error);
        }
        var bad := FirstFailing(given.ok, f.value.values);
        if bad != None {
          return Failure(InvalidPattern(f.value.name, bad.value));
        }
        kvs := kvs[f.value.name := if kind == Strings then Sorted(f.value.values) else f.value.values];
        FurtherStep(done, f.value, ReadFields(given, input, pos));
        assert (done + [f.value])[..|done|] == done;
        done := done + [f.value];
      }
      assert done + [] == done;
      r := Success(kvs);
    }
  }

  // ----- One step of the specifications -----

  lemma Glue(s: string, p: nat, mid: nat, q: nat)
    requires p <= mid <= q <= |s|
    ensures s[p..mid] + s[mid..q] == s[p..q]
  {
  }

  lemma GlueOne(s: string, p: nat, q: nat)
    requires p <= q < |s|
    ensures s[p..q] + [s[q]] == s[p..q + 1]
  {
  }

  lemma CloseUnfold(s: string, i: nat, start: char, end: char)
    requires i <= |s|
    ensures CloseOf(s, i, 1, start, end) ==
            if i == |s| then None
            else if s[i] == end then Some(i + 1)
            else if s[i] == start then
              var k := CloseOf(s, i + 1, 1, start, end); if k.None? then None else CloseOf(s, k.value, 1, start, end)
            else if s[i] == ESCAPE then if i + 1 < |s| then CloseOf(s, i + 2, 1, start, end) else None
            else CloseOf(s, i + 1, 1, start, end)
  {
    CloseSplit(s, i + 1, 1, 1, start, end);
    assert i < |s| && s[i] == end ==> CloseOf(s, i + 1, 0, start, end) == Some(i + 1);
  }

  lemma ValueUnfold(s: string, i: nat)
    requires i <= |s|
    ensures ValueEnd(s, i) ==
            if i == |s| then None
            else if s[i] == '[' || s[i] == '{' then
              var k := CloseOf(s, i + 1, 1, s[i], if s[i] == '[' then ']' else '}');
              if k.None? then None else ValueEnd(s, k.value)
            else if s[i] == ',' || s[i] == ']' then Some(i)
            else if s[i] == ESCAPE then if i + 1 < |s| then ValueEnd(s, i + 2) else None
            else ValueEnd(s, i + 1)
  {
    hide CloseOf;
  }

  /** What reading gives when the values so far are known and the cursor is behind the last of them. */
  function After(values: seq<string>, s: string, k: nat): Option<Values>
    requires k < |s|
  {
    if s[k] == ']' then Some(Values(values, k + 1))
    else
      var more := ReadMore(s, k + 1);
      if more.None? then None else Some(Values(values + more.value.values, more.value.next))
  }

  lemma ReadMoreUnfold(s: string, i: nat)
    ensures var k := ValueEnd(s, i); ReadMore(s, i) == if k.None? then None else After([s[i..k.value]], s, k.value)
  {
    hide ValueEnd;
  }

  lemma AfterBracket(values: seq<string>, s: string, k: nat)
    requires k < |s| && s[k] == ']'
    ensures After(values, s, k) == Some(Values(values, k + 1))
  {
  }

  /** Behind a comma the next value is read, and counts among those so far. */
  lemma AfterComma(values: seq<string>, s: string, k: nat)
    requires k < |s| && s[k] == ','
    ensures var end := ValueEnd(s, k + 1);
            After(values, s, k) == if end.None? then None else After(values + [s[k + 1..end.value]], s, end.value)
  {
    hide ValueEnd, ReadMore;
    ReadMoreUnfold(s, k + 1);
    var end := ValueEnd(s, k + 1);
    if end.Some? {
      var v := s[k + 1..end.value];
      assert values + [v] == values + ([v]);
      var more := ReadMore(s, end.value + 1);
      if s[end.value] != ']' && more.Some? {
        assert values + [v] + more.value.values == values + ([v] + more.value.values);
      }
    }
  }

  function Further(done: seq<SubjectField>, more: Result<seq<SubjectField>, ParserError>)
    : Result<seq<SubjectField>, ParserError>
  {
    if more.Failure? then more else Success(done + more.value)
  }

  lemma FurtherNothing(more: Result<seq<SubjectField>, ParserError>)
    ensures Further([], more) == more
  {
    if more.Success? {
      assert [] + more.value == more.value;
    }
  }

  lemma FurtherStep(done: seq<SubjectField>, f: SubjectField, more: Result<seq<SubjectField>, ParserError>)
    ensures Further(done, Further([f], more)) == Further(done + [f], more)
  {
    if more.Success? {
      assert done + ([f] + more.value) == done + [f] + more.value;
    }
  }

  lemma FieldsUnfold(g: Given, s: string, i: nat)
    requires i <= |s|
    ensures ReadFields(g, s, i) ==
            if i == |s| then Success([])
            else
              var f := ReadField(g, s, i);
              if f.Failure? then Failure(f.error)
              else if FirstFailing(g.ok, f.value.field.values).Some? then
                Failure(InvalidPattern(f.value.field.name, FirstFailing(g.ok, f.value.field.values).value))
              else Further([f.value.field], ReadFields(g, s, f.value.next))
  {
    hide ReadField, FirstFailing;
  }
}
