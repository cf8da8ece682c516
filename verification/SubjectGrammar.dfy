/**
 Client certificate subjects, s:/CN=[a,b]/OU=[c]: what texts are values, lists of values and subjects, told by a scanner
 with a depth counter (proxy/clientcertvalidate/parser.go).
 */
module SubjectGrammar {
  import opened Wire

  const ESCAPE := '\\'

  // ----- Values -----

  /** The position after the bracket that closes the innermost `depth` levels, outside escapes. */
  function CloseOf(s: string, i: nat, depth: nat, start: char, end: char): (r: Option<nat>)
    ensures r.Some? && i <= |s| ==> i + depth <= r.value <= |s|
    decreases |s| - i
  {
    if depth == 0 then Some(i)
    else if i >= |s| then None
    else if s[i] == end then CloseOf(s, i + 1, depth - 1, start, end)
    else if s[i] == start then CloseOf(s, i + 1, depth + 1, start, end)
    else if s[i] == ESCAPE then if i + 1 < |s| then CloseOf(s, i + 2, depth, start, end) else None
    else CloseOf(s, i + 1, depth, start, end)
  }

  /** Closing depth + 1 levels is closing one and then the others. */
  lemma {:induction false} CloseSplit(s: string, i: nat, depth: nat, d: nat, start: char, end: char)
    ensures var first := CloseOf(s, i, depth, start, end);
            CloseOf(s, i, depth + d, start, end) == if first.None? then None else CloseOf(s, first.value, d, start, end)
    decreases |s| - i
  {
    if depth > 0 && i < |s| {
      if s[i] == end {
        CloseSplit(s, i + 1, depth - 1, d, start, end);
      } else if s[i] == start {
        CloseSplit(s, i + 1, depth + 1, d, start, end);
      } else if s[i] == ESCAPE {
        if i + 1 < |s| {
          CloseSplit(s, i + 2, depth, d, start, end);
        }
      } else {
        CloseSplit(s, i + 1, depth, d, start, end);
      }
    }
  }

  /** Where the value that starts at i ends: at the first comma or closing bracket outside brackets, braces and escapes. */
  function ValueEnd(s: string, i: nat): (r: Option<nat>)
    ensures r.Some? ==> i <= r.value < |s| && (s[r.value] == ',' || s[r.value] == ']')
    decreases |s| - i
  {
    if i >= |s| then None
    else if s[i] == '[' || s[i] == '{' then
      var k := CloseOf(s, i + 1, 1, s[i], if s[i] == '[' then ']' else '}');
      if k.None? then None else ValueEnd(s, k.value)
    else if s[i] == ',' || s[i] == ']' then Some(i)
    else if s[i] == ESCAPE then if i + 1 < |s| then ValueEnd(s, i + 2) else None
    else ValueEnd(s, i + 1)
  }

  // ----- Lists of values -----

  datatype Values = Values(values: seq<string>, next: nat)

  /** The values from i on, the first of them starting there; next is after the closing bracket. */
  function ReadMore(s: string, i: nat): (r: Option<Values>)
    ensures r.Some? ==> r.value.values != [] && i < r.value.next <= |s|
    decreases |s| - i
  {
    var k := ValueEnd(s, i);
    if k.None? then None
    else if s[k.value] == ']' then Some(Values([s[i..k.value]], k.value + 1))
    else
      var more := ReadMore(s, k.value + 1);
      if more.None? then None else Some(Values([s[i..k.value]] + more.value.values, more.value.next))
  }

  function ReadList(s: string, i: nat): (r: Option<Values>)
    ensures r.Some? ==> r.value.values != [] && i + 1 < r.value.next <= |s|
  {
    if i < |s| && s[i] == '[' then ReadMore(s, i + 1) else None
  }

  function Join(vs: seq<string>): string
    requires vs != []
  {
    if |vs| == 1 then vs[0] else vs[0] + "," + Join(vs[1..])
  }

  function Render(vs: seq<string>): string
    requires vs != []
  {
    "[" + Join(vs) + "]"
  }

  /** A value that ends where it should when a closing bracket follows. */
  predicate WellFormed(v: string) {
    ValueEnd(v + "]", 0) == Some(|v|)
  }

  // ----- Where a value ends depends on nothing before it and nothing behind its end -----

  /** s at i and t at j agree on the next n characters. */
  predicate Agree(s: string, i: nat, t: string, j: nat, n: nat) {
    i + n <= |s| && j + n <= |t| && s[i..i + n] == t[j..j + n]
  }

  lemma AgreeStep(s: string, i: nat, t: string, j: nat, n: nat, k: nat)
    requires Agree(s, i, t, j, n) && k <= n
    ensures Agree(s, i + k, t, j + k, n - k)
    ensures i + n <= |s| && j + n <= |t| && (n > 0 ==> s[i] == t[j])
  {
    if n > 0 {
      assert s[i] == s[i..i + n][0] == t[j..j + n][0] == t[j];
    }
    assert s[i + k..i + n] == s[i..i + n][k..] == t[j..j + n][k..] == t[j + k..j + n];
  }

  lemma {:induction false} CloseMoves(s: string, i: nat, t: string, j: nat, n: nat, depth: nat, start: char, end: char)
    requires Agree(s, i, t, j, n)
    requires var r := CloseOf(s, i, depth, start, end); r.Some? && r.value <= i + n
    ensures CloseOf(t, j, depth, start, end) == Some(j + (CloseOf(s, i, depth, start, end).value - i))
    decreases n
  {
    hide Agree;
    if depth > 0 {
      assert n > 0;
      AgreeStep(s, i, t, j, n, 1);
      if s[i] == end {
        CloseMoves(s, i + 1, t, j + 1, n - 1, depth - 1, start, end);
      } else if s[i] == start {
        CloseMoves(s, i + 1, t, j + 1, n - 1, depth + 1, start, end);
      } else if s[i] == ESCAPE {
        AgreeStep(s, i, t, j, n, 2);
        CloseMoves(s, i + 2, t, j + 2, n - 2, depth, start, end);
      } else {
        CloseMoves(s, i + 1, t, j + 1, n - 1, depth, start, end);
      }
    }
  }

  lemma ValueAfterClose(s: string, i: nat, k: nat, end: char)
    requires i < |s| && (s[i] == '[' || s[i] == '{') && end == if s[i] == '[' then ']' else '}'
    requires CloseOf(s, i + 1, 1, s[i], end) == Some(k)
    ensures ValueEnd(s, i) == ValueEnd(s, k)
  {
    hide CloseOf;
  }

  /** t may have a comma where s has a closing bracket at the end of the value. */
  lemma {:induction false} ValueMoves(s: string, i: nat, t: string, j: nat, n: nat)
    requires ValueEnd(s, i) == Some(i + n) && Agree(s, i, t, j, n)
    requires j + n < |t| && (t[j + n] == ',' || t[j + n] == ']')
    ensures ValueEnd(t, j) == Some(j + n)
    decreases n
  {
    hide Agree, CloseOf;
    if n == 0 {
      AgreeStep(s, i, t, j, n, 0);
    } else {
      AgreeStep(s, i, t, j, n, 1);
      if s[i] == '[' || s[i] == '{' {
        var end := if s[i] == '[' then ']' else '}';
        var k := CloseOf(s, i + 1, 1, s[i], end).value;
        CloseMoves(s, i + 1, t, j + 1, n - 1, 1, s[i], end);
        AgreeStep(s, i, t, j, n, k - i);
        ValueMoves(s, k, t, j + (k - i), n - (k - i));
        ValueAfterClose(t, j, j + (k - i), end);
      } else if s[i] == ESCAPE {
        AgreeStep(s, i, t, j, n, 2);
        ValueMoves(s, i + 2, t, j + 2, n - 2);
      } else {
        ValueMoves(s, i + 1, t, j + 1, n - 1);
      }
    }
  }

  /** Every value that is read is well formed. */
  lemma ReadIsWellFormed(s: string, i: nat)
    requires ValueEnd(s, i).Some?
    ensures WellFormed(s[i..ValueEnd(s, i).value])
  {
    var n := ValueEnd(s, i).value - i;
    var t := s[i..i + n] + "]";
    assert t[0..0 + n] == s[i..i + n];
    ValueMoves(s, i, t, 0, n);
  }

  lemma {:induction false} ReadMoreRendered(s: string, i: nat)
    requires ReadMore(s, i).Some?
    ensures var r := ReadMore(s, i).value;
            && s[i..r.next] == Join(r.values) + "]"
            && forall v <- r.values :: WellFormed(v)
    decreases |s| - i
  {
    var r, k := ReadMore(s, i).value, ValueEnd(s, i).value;
    ReadIsWellFormed(s, i);
    if s[k] == ']' {
      assert s[i..k + 1] == s[i..k] + [s[k]];
    } else {
      ReadMoreRendered(s, k + 1);
      var more := ReadMore(s, k + 1).value;
      assert r.values[1..] == more.values && r.values[0] == s[i..k];
      assert s[i..r.next] == s[i..k] + [s[k]] + s[k + 1..r.next];
    }
  }

  /** Reading loses nothing: what was consumed is "[", the values joined by commas, and "]". */
  lemma ListRendered(s: string, i: nat)
    requires ReadList(s, i).Some?
    ensures var r := ReadList(s, i).value; s[i..r.next] == Render(r.values) && forall v <- r.values :: WellFormed(v)
  {
    ReadMoreRendered(s, i + 1);
    var r := ReadList(s, i).value;
    assert s[i..r.next] == [s[i]] + s[i + 1..r.next];
  }

  lemma ValueStands(s: string, i: nat, v: string)
    requires WellFormed(v) && i + |v| < |s| && s[i..i + |v|] == v && (s[i + |v|] == ',' || s[i + |v|] == ']')
    ensures ValueEnd(s, i) == Some(i + |v|)
  {
    assert (v + "]")[0..0 + |v|] == v;
    ValueMoves(v + "]", 0, s, i, |v|);
  }

  lemma LastRead(before: string, v: string, rest: string)
    requires WellFormed(v)
    ensures ReadMore(before + v + "]" + rest, |before|) == Some(Values([v], |before| + |v| + 1))
  {
    hide WellFormed, ValueEnd;
    var s := before + v + "]" + rest;
    assert s[|before|..|before| + |v|] == v;
    ValueStands(s, |before|, v);
  }

  lemma ReadMoreAfterComma(s: string, i: nat)
    requires ValueEnd(s, i).Some? && s[ValueEnd(s, i).value] == ','
    ensures var k := ValueEnd(s, i).value; var more := ReadMore(s, k + 1);
            ReadMore(s, i) == if more.None? then None else Some(Values([s[i..k]] + more.value.values, more.value.next))
  {
    hide ValueEnd;
  }

  lemma NextRead(before: string, v: string, more: string)
    requires WellFormed(v)
    ensures var s, k := before + v + "," + more, |before| + |v| + 1;
            ReadMore(s, |before|) ==
            if ReadMore(s, k).None? then None else Some(Values([v] + ReadMore(s, k).value.values, ReadMore(s, k).value.next))
  {
    hide WellFormed, ValueEnd, ReadMore;
    var s := before + v + "," + more;
    assert s[|before|..|before| + |v|] == v;
    ValueStands(s, |before|, v);
    ReadMoreAfterComma(s, |before|);
  }

  lemma {:induction false} JoinedRead(before: string, vs: seq<string>, rest: string)
    requires vs != [] && forall v <- vs :: WellFormed(v)
    ensures var s := before + Join(vs) + "]" + rest;
            ReadMore(s, |before|) == Some(Values(vs, |before| + |Join(vs)| + 1))
    decreases |vs|
  {
    hide WellFormed, ReadMore;
    if |vs| == 1 {
      LastRead(before, vs[0], rest);
      assert vs == [vs[0]];
    } else {
      var more := Join(vs[1..]) + "]" + rest;
      NextRead(before, vs[0], more);
      JoinedRead(before + vs[0] + ",", vs[1..], rest);
      assert before + vs[0] + "," + more == (before + vs[0] + ",") + Join(vs[1..]) + "]" + rest;
      assert before + Join(vs) + "]" + rest == before + vs[0] + "," + more;
      assert [vs[0]] + vs[1..] == vs;
    }
  }

  /** Every list of well-formed values is read back from its text, wherever it stands and whatever follows. */
  lemma RenderedRead(before: string, vs: seq<string>, rest: string)
    requires vs != [] && forall v <- vs :: WellFormed(v)
    ensures ReadList(before + Render(vs) + rest, |before|) == Some(Values(vs, |before| + |Render(vs)|))
  {
    var s := before + Render(vs) + rest;
    assert s == (before + "[") + Join(vs) + "]" + rest;
    JoinedRead(before + "[", vs, rest);
  }

  // ----- Subjects -----

  datatype ParserError =
    | Eof
    | UnexpectedInput(expected: string, found: string, position: nat)
    | MissingPrefix
    | InvalidPrefix(prefix: string)
    | InvalidField(consumed: string)
    | UnsupportedField(field: string)
    | ValueInsufficientInput(valuePos: nat)
    | InvalidPattern(field: string, value: string)

  datatype SubjectField = SubjectField(name: string, values: seq<string>)
  datatype ReadResult = ReadResult(field: SubjectField, next: nat)

  const VALID_FIELDS: set<string> := {"CN", "C", "L", "O", "OU", "S"}

  predicate Upper(g: Given, c: char) {
    if c as int < 0x80 then 'A' <= c <= 'Z' else g.upper(c)
  }

  function UpperEnd(g: Given, s: string, i: nat): (k: nat)
    requires i <= |s|
    ensures i <= k <= |s| && (forall m :: i <= m < k ==> Upper(g, s[m])) && (k < |s| ==> !Upper(g, s[k]))
    decreases |s| - i
  {
    if i < |s| && Upper(g, s[i]) then UpperEnd(g, s, i + 1) else i
  }

  /** One "/NAME=[values]" of the subject, or what is wrong with it. */
  function ReadField(g: Given, s: string, i: nat): (r: Result<ReadResult, ParserError>)
    requires i < |s|
    ensures r.Success? ==> i < r.value.next <= |s|
  {
    var k := UpperEnd(g, s, i + 1);
    if s[i] != '/' then Failure(UnexpectedInput("/", [s[i]], i))
    else if k == |s| then Failure(UnexpectedInput("field", "none", i + 1))
    else if s[k] != '=' then Failure(InvalidField(s[i + 1..k + 1]))
    else if k == i + 1 then Failure(UnexpectedInput("field", "none", i + 1))
    else if s[i + 1..k] !in VALID_FIELDS then Failure(UnsupportedField(s[i + 1..k]))
    else if k + 1 == |s| then Failure(UnexpectedInput("[", "none", k + 1))
    else if s[k + 1] != '[' then Failure(UnexpectedInput("[", [s[k + 1]], k + 1))
    else
      match ReadList(s, k + 1)
      case None => Failure(ValueInsufficientInput(k + 1))
      case Some(v) => Success(ReadResult(SubjectField(s[i + 1..k], v.values), v.next))
  }

  type Test = string -> bool

  /** What is given from outside: a test for every value, whether it compiles for patterns; and Unicode's upper case. */
  datatype Given = Given(ok: Test, upper: char -> bool)

  function FirstFailing(ok: Test, vs: seq<string>): (r: Option<string>)
    ensures r.None? <==> forall v <- vs :: ok(v)
  {
    if vs == [] then None else if !ok(vs[0]) then Some(vs[0]) else FirstFailing(ok, vs[1..])
  }

  function ReadFields(g: Given, s: string, i: nat): Result<seq<SubjectField>, ParserError>
    requires i <= |s|
    decreases |s| - i
  {
    if i == |s| then Success([])
    else
      var f := ReadField(g, s, i);
      if f.Failure? then Failure(f.error)
      else if FirstFailing(g.ok, f.value.field.values).Some? then
        Failure(InvalidPattern(f.value.field.name, FirstFailing(g.ok, f.value.field.values).value))
      else
        var more := ReadFields(g, s, f.value.next);
        if more.Failure? then more else Success([f.value.field] + more.value)
  }

  predicate ValidField(f: SubjectField) {
    f.name in VALID_FIELDS && f.values != [] && forall v <- f.values :: WellFormed(v)
  }

  predicate AllPass(ok: Test, fs: seq<SubjectField>) {
    forall f <- fs, v <- f.values :: ok(v)
  }

  function FieldText(f: SubjectField): string
    requires f.values != []
  {
    "/" + f.name + "=" + Render(f.values)
  }

  function SubjectText(fs: seq<SubjectField>): string
    requires forall f <- fs :: f.values != []
  {
    if fs == [] then "" else FieldText(fs[0]) + SubjectText(fs[1..])
  }

  lemma FieldRendered(g: Given, s: string, i: nat)
    requires i < |s| && ReadField(g, s, i).Success?
    ensures var r := ReadField(g, s, i).value; ValidField(r.field) && s[i..r.next] == FieldText(r.field)
  {
    hide ReadList, Render, WellFormed;
    var r, k := ReadField(g, s, i).value, UpperEnd(g, s, i + 1);
    ListRendered(s, k + 1);
    assert s[i..r.next] == [s[i]] + s[i + 1..k] + [s[k]] + s[k + 1..r.next];
  }

  lemma {:induction false} FieldsRendered(g: Given, s: string, i: nat)
    requires i <= |s| && ReadFields(g, s, i).Success?
    ensures var fs := ReadFields(g, s, i).value;
            (forall f <- fs :: ValidField(f)) && SubjectText(fs) == s[i..] && AllPass(g.ok, fs)
    decreases |s| - i
  {
    hide ReadField, FieldText, ValidField;
    if i < |s| {
      FieldRendered(g, s, i);
      var f := ReadField(g, s, i).value;
      FieldsRendered(g, s, f.next);
      var fs := ReadFields(g, s, i).value;
      assert fs == [f.field] + fs[1..] && fs[1..] == ReadFields(g, s, f.next).value;
      assert s[i..] == s[i..f.next] + s[f.next..];
      ValidHasValues(fs);
    }
  }

  lemma ValidHasValues(fs: seq<SubjectField>)
    requires forall f <- fs :: ValidField(f)
    ensures forall f <- fs :: f.values != []
  {
  }

  lemma FieldRead(g: Given, before: string, f: SubjectField, rest: string)
    requires ValidField(f)
    ensures ReadField(g, before + FieldText(f) + rest, |before|) == Success(ReadResult(f, |before| + |FieldText(f)|))
  {
    hide ReadList, WellFormed, UpperEnd, Render;
    var s, i := before + FieldText(f) + rest, |before|;
    var head := before + "/" + f.name + "=";
    assert forall c <- f.name :: Upper(g, c);
    NameRead(g, before + "/", f.name, Render(f.values) + rest);
    FieldParts(before, f.name, Render(f.values), rest);
    RenderedRead(head, f.values, rest);
    RenderStarts(f.values);
  }

  lemma FieldParts(before: string, name: string, values: string, rest: string)
    ensures var s, head := before + ("/" + name + "=" + values) + rest, before + "/" + name + "=";
            && s == before + "/" + name + "=" + (values + rest) == head + values + rest
            && s[|before|] == '/' && (values != "" ==> s[|head|] == values[0])
  {
  }

  lemma RenderStarts(vs: seq<string>)
    requires vs != []
    ensures Render(vs) != "" && Render(vs)[0] == '['
  {
  }

  lemma NameRead(g: Given, before: string, name: string, rest: string)
    requires forall c <- name :: Upper(g, c)
    ensures var s, k := before + name + "=" + rest, |before| + |name|;
            UpperEnd(g, s, |before|) == k && s[|before|..k] == name && s[k] == '='
  {
    hide UpperEnd;
    var s, k := before + name + "=" + rest, UpperEnd(g, before + name + "=" + rest, |before|);
    assert s[|before|..|before| + |name|] == name;
    assert s[|before| + |name|] == '=';
    assert forall m :: |before| <= m < |before| + |name| ==> s[m] == name[m - |before|];
  }

  lemma {:induction false} FieldsRead(g: Given, before: string, fs: seq<SubjectField>)
    requires (forall f <- fs :: ValidField(f)) && AllPass(g.ok, fs)
    ensures (forall f <- fs :: f.values != []) && ReadFields(g, before + SubjectText(fs), |before|) == Success(fs)
    decreases |fs|
  {
    hide ReadField, FieldText, ValidField;
    ValidHasValues(fs);
    if fs == [] {
      assert before + SubjectText(fs) == before;
    } else {
      var text, rest := FieldText(fs[0]), SubjectText(fs[1..]);
      FieldRead(g, before, fs[0], rest);
      FieldsRead(g, before + text, fs[1..]);
      assert before + SubjectText(fs) == before + text + rest;
      assert [fs[0]] + fs[1..] == fs;
      assert text != [] by { FieldNotEmpty(fs[0]); }
    }
  }

  lemma FieldNotEmpty(f: SubjectField)
    requires f.values != []
    ensures FieldText(f) != []
  {
  }

  /**
   The subjects that parse are exactly the texts of lists of supported fields with well-formed values, and they parse to
   those lists.
   */
  lemma SubjectsAreTexts(g: Given, s: string, fs: seq<SubjectField>)
    ensures ReadFields(g, s, 0) == Success(fs)
            <==> (forall f <- fs :: ValidField(f)) && AllPass(g.ok, fs) && SubjectText(fs) == s
  {
    hide ReadFields, SubjectText, ValidField, AllPass;
    if ReadFields(g, s, 0) == Success(fs) {
      FieldsRendered(g, s, 0);
      assert s[0..] == s;
    } else if (forall f <- fs :: ValidField(f)) && AllPass(g.ok, fs) {
      FieldsRead(g, "", fs);
      assert "" + SubjectText(fs) == SubjectText(fs);
    }
  }
}
