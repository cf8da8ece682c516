/**
 Matching client certificates against string subjects (proxy/clientcertvalidate/subject.go and the loops of
 proxy/tls_client_cert_validate.go). Matching sorts the certificate's own fields, and the next attempt sees them so.
 */
module SubjectMatch {
  import opened Wire
  import opened StringOrder
  import opened SubjectGrammar
  import opened SubjectParser

  /** The subject of an X.509 certificate. */
  class Certificate {
    const commonName: string
    var country: seq<string>
    var locality: seq<string>
    var organization: seq<string>
    var organizationalUnit: seq<string>
    var province: seq<string>

    constructor (commonName: string, country: seq<string>, locality: seq<string>, organization: seq<string>,
                 organizationalUnit: seq<string>, province: seq<string>)
      ensures this.commonName == commonName && this.country == country && this.locality == locality
      ensures this.organization == organization && this.organizationalUnit == organizationalUnit && this.province == province
    {
      this.commonName := commonName;
      this.country := country;
      this.locality := locality;
      this.organization := organization;
      this.organizationalUnit := organizationalUnit;
      this.province := province;
    }

    function Field(name: string): seq<string>
      reads this
    {
      match name
      case "CN" => [commonName]
      case "C" => country
      case "L" => locality
      case "O" => organization
      case "OU" => organizationalUnit
      case "S" => province
      case _ => []
    }

    /** What does not change when fields are sorted. */
    ghost function Contents(): map<string, multiset<string>>
      reads this
    {
      map name | name in VALID_FIELDS :: multiset(Field(name))
    }

    /** testCertValuesSlicesStringSubject: sorts the field where it is, then compares. */
    method TestField(name: string, expected: seq<string>) returns (ok: bool)
      requires name in VALID_FIELDS
      modifies this
      ensures ok <==> expected == Sorted(old(Field(name)))
      ensures Contents() == old(Contents())
    {
      SortedOrders(Field(name));
      SortField(name);
      assert Contents() == old(Contents());
      ok := CompareStringSlices(expected, Field(name));
    }

    /** sort.Strings on the field in its place; a common name is alone in a list of its own. */
    method SortField(name: string)
      requires name in VALID_FIELDS
      modifies this
      ensures Field(name) == Sorted(old(Field(name)))
      ensures forall n <- VALID_FIELDS :: n != name ==> Field(n) == old(Field(n))
      // and which attribute that is:
      ensures country == if name == "C" then Sorted(old(country)) else old(country)
      ensures locality == if name == "L" then Sorted(old(locality)) else old(locality)
      ensures organization == if name == "O" then Sorted(old(organization)) else old(organization)
      ensures organizationalUnit == if name == "OU" then Sorted(old(organizationalUnit)) else old(organizationalUnit)
      ensures province == if name == "S" then Sorted(old(province)) else old(province)
    {
      if name == "C" {
        country := Sorted(country);
      } else if name == "S" {
        province := Sorted(province);
      } else if name == "L" {
        locality := Sorted(locality);
      } else if name == "O" {
        organization := Sorted(organization);
      } else if name == "OU" {
        organizationalUnit := Sorted(organizationalUnit);
      }
    }
  }

  /** Subject and certificate have the same values, however arranged, in every field the subject lists. */
  ghost predicate Matches(subject: ParsedSubject, contents: map<string, multiset<string>>) {
    forall name <- subject.kvs :: name in contents && multiset(subject.kvs[name]) == contents[name]
  }

  /** The same, attribute by attribute. */
  ghost predicate Agrees(subject: ParsedSubject, cert: Certificate)
    reads cert
  {
    var kvs := subject.kvs;
    && (forall name <- kvs :: name == "CN" || name == "C" || name == "L" || name == "O" || name == "OU" || name == "S")
    && ("CN" in kvs ==> multiset(kvs["CN"]) == multiset{cert.commonName})
    && ("C" in kvs ==> multiset(kvs["C"]) == multiset(cert.country))
    && ("L" in kvs ==> multiset(kvs["L"]) == multiset(cert.locality))
    && ("O" in kvs ==> multiset(kvs["O"]) == multiset(cert.organization))
    && ("OU" in kvs ==> multiset(kvs["OU"]) == multiset(cert.organizationalUnit))
    && ("S" in kvs ==> multiset(kvs["S"]) == multiset(cert.province))
  }

  lemma AgreesExactly(subject: ParsedSubject, cert: Certificate)
    ensures Agrees(subject, cert) <==> Matches(subject, cert.Contents())
  {
    ContentsNamed(cert);
    hide Certificate.Contents;
  }

  lemma ContentsNamed(cert: Certificate)
    ensures var c := cert.Contents();
            && (forall n <- c :: n == "CN" || n == "C" || n == "L" || n == "O" || n == "OU" || n == "S")
            && "CN" in c && c["CN"] == multiset{cert.commonName} && "C" in c && c["C"] == multiset(cert.country)
            && "L" in c && c["L"] == multiset(cert.locality) && "O" in c && c["O"] == multiset(cert.organization)
            && "OU" in c && c["OU"] == multiset(cert.organizationalUnit) && "S" in c && c["S"] == multiset(cert.province)
  {
    FieldsNamed(cert);
    hide Certificate.Field;
    assert multiset([cert.commonName]) == multiset{cert.commonName};
  }

  lemma FieldsNamed(cert: Certificate)
    ensures cert.Field("CN") == [cert.commonName] && cert.Field("C") == cert.country && cert.Field("L") == cert.locality
    ensures cert.Field("O") == cert.organization && cert.Field("OU") == cert.organizationalUnit
    ensures cert.Field("S") == cert.province
  {
  }

  /** What the parser makes of a string subject. */
  predicate StringSubject(subject: ParsedSubject) {
    subject.kind == Strings && forall name <- subject.kvs :: name in VALID_FIELDS && Ordered(subject.kvs[name])
  }

  lemma {:induction false} CollectedIsOrdered(fs: seq<SubjectField>)
    requires forall f <- fs :: ValidField(f)
    ensures StringSubject(ParsedSubject(Strings, Collect(Strings, fs)))
    decreases |fs|
  {
    hide WellFormed;
    if fs != [] {
      var last := fs[|fs| - 1];
      CollectedIsOrdered(fs[..|fs| - 1]);
      SortedOrders(last.values);
      assert ValidField(last);
    }
  }

  lemma ParsedIsOrdered(text: string, g: Given)
    requires ParseSubject(text, g).Success? && ParseSubject(text, g).value.kind == Strings
    ensures StringSubject(ParseSubject(text, g).value)
  {
    hide ReadFields, StringSubject, Collect, ValidField, SubjectText;
    FieldsRendered(GivenFor(Strings, g), text, 2);
    CollectedIsOrdered(ReadFields(GivenFor(Strings, g), text, 2).value);
  }

  /** getParsedSubjects: all configured subjects parse, or none counts. */
  method GetParsedSubjects(subjects: seq<string>, g: Given) returns (r: Result<seq<ParsedSubject>, ParserError>)
    ensures r.Success? <==> forall s <- subjects :: ParseSubject(View(s), g).Success?
    ensures r.Success? ==>
              && |r.value| == |subjects|
              && forall i :: 0 <= i < |subjects| ==> ParseSubject(View(subjects[i]), g) == Success(r.value[i])
  {
    hide ParseSubject, View;
    var parsed := [];
    for i := 0 to |subjects|
      invariant |parsed| == i
      invariant forall j :: 0 <= j < i ==> ParseSubject(View(subjects[j]), g) == Success(parsed[j])
    {
      var parser := new SubjectParser(subjects[i]);
      var subject := parser.Parse(g);
      if subject.Failure? {
        assert subjects[i] in subjects;
        return Failure(subject.error);
      }
      parsed := parsed + [subject.value];
    }
    r := Success(parsed);
  }

  /** Against sorted values, sorting and comparing is comparing as multisets. */
  lemma SortedMatch(expected: seq<string>, values: seq<string>)
    requires Ordered(expected)
    ensures expected == Sorted(values) <==> multiset(expected) == multiset(values)
  {
    SortedOrders(values);
    if multiset(expected) == multiset(values) {
      OrderedUnique(expected, Sorted(values));
    }
  }

  /** X509Validate of a string subject; the map of fields is walked in any order. */
  method X509Validate(subject: ParsedSubject, cert: Certificate) returns (ok: bool)
    requires StringSubject(subject)
    modifies cert
    ensures ok <==> old(Agrees(subject, cert))
    ensures ok <==> Matches(subject, old(cert.Contents()))
    ensures cert.Contents() == old(cert.Contents())
  {
    AgreesExactly(subject, cert);
    ghost var contents := cert.Contents();
    var todo := subject.kvs.Keys;
    while todo != {}
      invariant todo <= subject.kvs.Keys && cert.Contents() == contents
      invariant forall name <- subject.kvs :: name in todo || multiset(subject.kvs[name]) == contents[name]
      decreases |todo|
    {
      var name :| name in todo;
      ghost var values := cert.Field(name);
      assert contents[name] == multiset(values);
      SortedMatch(subject.kvs[name], values);
      var same := cert.TestField(name, subject.kvs[name]);
      if !same {
        return false;
      }
      todo := todo - {name};
    }
    ok := true;
  }

  /** Some certificate of some chain matches some subject. */
  ghost predicate SomeMatch(subjects: seq<ParsedSubject>, chains: seq<seq<Certificate>>)
    reads set chain, cert | chain in chains && cert in chain :: cert
  {
    exists chain <- chains, cert <- chain, subject <- subjects :: Agrees(subject, cert)
  }

  ghost predicate OneMatches(subjects: seq<ParsedSubject>, contents: map<string, multiset<string>>) {
    exists subject <- subjects :: Matches(subject, contents)
  }

  lemma SomeMatchExactly(subjects: seq<ParsedSubject>, chains: seq<seq<Certificate>>)
    ensures SomeMatch(subjects, chains) <==>
              exists chain <- chains, cert <- chain :: OneMatches(subjects, cert.Contents())
  {
    hide Agrees, Matches;
    forall chain <- chains, cert <- chain, subject <- subjects
      ensures Agrees(subject, cert) <==> Matches(subject, cert.Contents())
    {
      AgreesExactly(subject, cert);
    }
  }

  function AllOf(chains: seq<seq<Certificate>>): set<Certificate> {
    set chain, cert | chain in chains && cert in chain :: cert
  }

  /**
   The verification callback: a client is accepted exactly when there is nothing to check, or some certificate it
   presented matches some subject. Neither the order of subjects, certificates and chains nor the sorting that failed
   attempts left behind matters, even when chains share certificates.
   */
  method VerifyPeer(subjects: seq<ParsedSubject>, chains: seq<seq<Certificate>>) returns (accepted: bool)
    requires forall s <- subjects :: StringSubject(s)
    modifies AllOf(chains)
    ensures accepted <==> subjects == [] || old(SomeMatch(subjects, chains))
  {
    if |subjects| == 0 {
      return true;
    }
    SomeMatchExactly(subjects, chains);
    hide SomeMatch, OneMatches, StringSubject, Certificate.Contents;
    accepted := VerifyChains(subjects, chains);
  }

  /** The loop over the chains. */
  method VerifyChains(subjects: seq<ParsedSubject>, chains: seq<seq<Certificate>>) returns (accepted: bool)
    requires forall s <- subjects :: StringSubject(s)
    modifies AllOf(chains)
    ensures accepted <==> exists chain <- chains, cert <- chain :: OneMatches(subjects, old(cert.Contents()))
  {
    hide OneMatches, StringSubject, Certificate.Contents;
    for i := 0 to |chains|
      invariant forall c <- AllOf(chains) :: c.Contents() == old(c.Contents())
      invariant forall chain <- chains[..i], cert <- chain :: !OneMatches(subjects, old(cert.Contents()))
    {
      assert chains[..i + 1] == chains[..i] + [chains[i]];
      assert forall c <- chains[i] :: c in AllOf(chains);
      accepted := VerifyChain(subjects, chains[i]);
      if accepted {
        return;
      }
    }
    assert chains[..|chains|] == chains;
    accepted := false;
  }

  /** The loop over one chain's certificates. */
  method VerifyChain(subjects: seq<ParsedSubject>, chain: seq<Certificate>) returns (accepted: bool)
    requires forall s <- subjects :: StringSubject(s)
    modifies chain
    ensures accepted <==> exists cert <- chain :: OneMatches(subjects, old(cert.Contents()))
    ensures forall c <- chain :: c.Contents() == old(c.Contents())
  {
    hide OneMatches, StringSubject;
    for i := 0 to |chain|
      invariant forall c <- chain :: c.Contents() == old(c.Contents())
      invariant forall cert <- chain[..i] :: !OneMatches(subjects, old(cert.Contents()))
    {
      assert chain[..i + 1] == chain[..i] + [chain[i]];
      accepted := VerifyCertificate(subjects, chain[i]);
      if accepted {
        assert chain[i] in chain;
        return;
      }
    }
    assert chain[..|chain|] == chain;
    accepted := false;
  }

  /** The loop over the subjects. */
  method VerifyCertificate(subjects: seq<ParsedSubject>, cert: Certificate) returns (accepted: bool)
    requires forall s <- subjects :: StringSubject(s)
    modifies cert
    ensures accepted <==> OneMatches(subjects, old(cert.Contents()))
    ensures cert.Contents() == old(cert.Contents())
  {
    hide Matches, StringSubject;
    for j := 0 to |subjects|
      invariant cert.Contents() == old(cert.Contents())
      invariant forall subject <- subjects[..j] :: !Matches(subject, old(cert.Contents()))
    {
      assert subjects[..j + 1] == subjects[..j] + [subjects[j]];
      accepted := X509Validate(subjects[j], cert);
      if accepted {
        return;
      }
    }
    assert subjects[..|subjects|] == subjects;
    accepted := false;
  }
}
