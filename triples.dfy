/** Triples as the benchmark writes them: one input fact `(subject, predicate, object)`
    per test case, any number of parenthesised expected triples, and the containment
    check that decides whether a test case passes. */
module Triples {
  import opened Text

  datatype Triple = Triple(source: string, edgeType: string, target: string)

  /** Why a test case fails. */
  datatype Error =
    | MissingField(field: string)   // the CSV row has no value in this column
    | FactArity(fields: nat)        // the input fact does not have exactly three fields
    | ExpectedArity(group: string)  // an expected-output group does not have exactly three fields
    | ProcedureRaised(message: string)  // the store's rule procedure raised
    | ForeignKey(source: nat, target: nat)  // the procedure inserted an edge between nodes that are not both stored

  datatype Result<+T> = Ok(value: T) | Err(error: Error)

  /** The fields of an input fact as the executor cuts them: surrounding whitespace
      stripped, then every leading and trailing parenthesis, then split at commas. */
  function FactFields(text: string): seq<string>
  {
    Split(Strip(Trim(text), Parens), ',')
  }

  /** Splitting the fact at its commas loses nothing: the fields joined by commas
      give back the text between the stripped parentheses. */
  lemma FactFieldsJoin(text: string)
    ensures Join(FactFields(text), ',') == Strip(Trim(text), Parens)
  {
    JoinSplit(Strip(Trim(text), Parens), ',');
  }

  /** A field as the parsers leave it: already stripped, and without a comma. */
  predicate BareField(f: string)
  {
    Stripped(f) && ',' !in f
  }

  predicate BareTriple(t: Triple)
  {
    BareField(t.source) && BareField(t.edgeType) && BareField(t.target)
  }

  /** The stripped three fields of a comma-split text. */
  function TripleOfParts(parts: seq<string>): (t: Triple)
    requires |parts| == 3 && forall k :: 0 <= k < 3 ==> ',' !in parts[k]
    ensures BareTriple(t)
  {
    TrimKeepsOut(parts[0], ',');
    TrimKeepsOut(parts[1], ',');
    TrimKeepsOut(parts[2], ',');
    Triple(Trim(parts[0]), Trim(parts[1]), Trim(parts[2]))
  }

  /** The input fact of a test case: it parses exactly when the text between the
      stripped parentheses holds two commas, into three stripped comma-free fields;
      unpacking fails with the number of fields on any other count. */
  function ParseFact(text: string): (r: Result<Triple>)
    ensures r.Ok? <==> Count(Strip(Trim(text), Parens), ',') == 2
    ensures r.Err? ==> r.error == FactArity(Count(Strip(Trim(text), Parens), ',') + 1)
    ensures r.Ok? ==> BareTriple(r.value)
  {
    var fields := FactFields(text);
    if |fields| != 3 then Err(FactArity(|fields|))
    else Ok(TripleOfParts(fields))
  }

  /** A fact with only two fields fails to unpack: `(a, b)` has two fields. */
  lemma ParseFactTwoFields()
    ensures ParseFact("(a, b)") == Err(FactArity(2))
  {
    StripNoop("(a, b)", Whitespace);
    assert Strip("(a, b)", Parens) == "a, b" by {
      assert StripLeft("(a, b)", Parens) == StripLeft("a, b)", Parens) == "a, b)";
      assert StripRight("a, b)", Parens) == StripRight("a, b", Parens) == "a, b";
    }
    SplitConcat("a", ',', " b");
    SplitNoSeparator("a", ',');
    SplitNoSeparator(" b", ',');
  }

  /** A field that survives being written out and read back: not empty, no comma,
      no parenthesis, and no whitespace at either end. */
  predicate CleanField(f: string)
  {
    f != [] && !IsSpace(f[0]) && !IsSpace(f[|f| - 1]) &&
    forall k :: 0 <= k < |f| ==> f[k] != ',' && f[k] != '(' && f[k] != ')'
  }

  predicate CleanTriple(t: Triple)
  {
    CleanField(t.source) && CleanField(t.edgeType) && CleanField(t.target)
  }

  /** `subject, predicate, object`: the text between the parentheses of a triple. */
  function Inner(t: Triple): string
  {
    t.source + ", " + t.edgeType + ", " + t.target
  }

  /** `(subject, predicate, object)`, the form of the benchmark's facts and expected triples. */
  function Render(t: Triple): string
  {
    "(" + Inner(t) + ")"
  }

  /** `strip()` of a clean field with one blank in front gives the field. */
  lemma TrimPadded(f: string)
    requires CleanField(f)
    ensures Trim(" " + f) == f
  {
    StripLeftPadding(" ", f, Whitespace);
    StripNoop(f, Whitespace);
  }

  /** The text between the parentheses of a clean triple has no surrounding
      whitespace and splits at its commas into the three fields. */
  lemma InnerFields(t: Triple)
    requires CleanTriple(t)
    ensures Trim(Inner(t)) == Inner(t)
    ensures var fields := Split(Inner(t), ',');
      |fields| == 3 && Trim(fields[0]) == t.source &&
      Trim(fields[1]) == t.edgeType && Trim(fields[2]) == t.target
  {
    var s, p, o := t.source, " " + t.edgeType, " " + t.target;
    assert Inner(t) == Join([s, p, o], ',') by {
      assert Join([s, p, o], ',') == s + [','] + Join([p, o], ',');
      assert Join([p, o], ',') == p + [','] + Join([o], ',');
    }
    assert ',' !in p && ',' !in o;
    SplitJoin([s, p, o], ',');
    StripNoop(Inner(t), Whitespace);
    StripNoop(s, Whitespace);
    TrimPadded(t.edgeType);
    TrimPadded(t.target);
  }

  /** Parsing a rendered clean fact gives the fact back. */
  lemma ParseFactRoundTrip(t: Triple)
    requires CleanTriple(t)
    ensures ParseFact(Render(t)) == Ok(t)
  {
    var text := Render(t);
    var inner := Inner(t);
    StripNoop(text, Whitespace);
    assert Strip(text, Parens) == inner by {
      assert text[0] == '(' && text[1..] == inner + ")";
      assert StripLeft(text, Parens) == StripLeft(inner + ")", Parens);
      assert (inner + ")")[0] == t.source[0];
      assert StripLeft(inner + ")", Parens) == inner + ")";
      assert (inner + ")")[..|inner|] == inner;
      assert StripRight(inner + ")", Parens) == StripRight(inner, Parens);
      assert inner[|inner| - 1] == t.target[|t.target| - 1];
    }
    InnerFields(t);
  }

  /** The groups `re.findall(r'\(\s*([^)]*?)\s*\)', text)` returns: from each `(`,
      the text up to the next `)` with surrounding whitespace removed, the scan then
      going on after that `)`; a `(` with no later `)` matches nothing. */
  function Groups(text: string): (r: seq<string>)
    ensures forall k :: 0 <= k < |r| ==> ')' !in r[k] && Stripped(r[k])
    decreases |text|
  {
    if text == [] then []
    else if text[0] == '(' then
      match IndexOf(text[1..], ')')
      case Some(q) =>
        TrimKeepsOut(text[1..][..q], ')');
        [Trim(text[1..][..q])] + Groups(text[1..][q + 1..])
      case None => Groups(text[1..])
    else Groups(text[1..])
  }

  /** Without a closing parenthesis the scan finds no group at all. */
  lemma {:induction false} GroupsNeedClose(text: string)
    requires ')' !in text
    ensures Groups(text) == []
  {
    if text != [] {
      assert ')' !in text[1..];
      GroupsNeedClose(text[1..]);
    }
  }

  /** Text before the first `(` contributes no group: the scan skips it. */
  lemma {:induction false} GroupsSkip(prefix: string, text: string)
    requires '(' !in prefix
    ensures Groups(prefix + text) == Groups(text)
  {
    if prefix != [] {
      assert (prefix + text)[0] == prefix[0];
      assert (prefix + text)[1..] == prefix[1..] + text;
      assert '(' !in prefix[1..];
      GroupsSkip(prefix[1..], text);
    } else {
      assert prefix + text == text;
    }
  }

  /** A parenthesised group at the front of the text is the first group found. */
  lemma GroupsFront(inner: string, rest: string)
    requires ')' !in inner
    ensures Groups("(" + inner + ")" + rest) == [Trim(inner)] + Groups(rest)
  {
    var text := "(" + inner + ")" + rest;
    assert text[1..] == inner + ")" + rest;
    assert (inner + ")" + rest)[|inner|] == ')';
    assert (inner + ")" + rest)[..|inner|] == inner;
    assert IndexOf(text[1..], ')') == Some(|inner|);
    assert text[1..][|inner| + 1..] == rest;
  }

  /** One expected group: `[x.strip() for x in group.split(',')]`, which must have
      three entries. */
  function GroupTriple(group: string): (r: Result<Triple>)
    ensures r.Ok? <==> Count(group, ',') == 2
    ensures r.Err? ==> r.error == ExpectedArity(group)
    ensures r.Ok? ==> BareTriple(r.value)
  {
    var parts := Split(group, ',');
    if |parts| != 3 then Err(ExpectedArity(group))
    else Ok(TripleOfParts(parts))
  }

  /** The triples of a list of groups, failing at the first group of the wrong arity. */
  function TriplesOf(groups: seq<string>): Result<set<Triple>>
  {
    if groups == [] then Ok({})
    else match GroupTriple(groups[0])
      case Err(e) => Err(e)
      case Ok(t) =>
        match TriplesOf(groups[1..])
        case Err(e) => Err(e)
        case Ok(ts) => Ok({t} + ts)
  }

  /** The expected triples of a test case. */
  function ExpectedTriples(text: string): Result<set<Triple>>
  {
    TriplesOf(Groups(text))
  }

  /** Parsing succeeds exactly when every group has three fields. */
  lemma {:induction false} TriplesOfOk(groups: seq<string>)
    ensures TriplesOf(groups).Ok? <==> forall k :: 0 <= k < |groups| ==> GroupTriple(groups[k]).Ok?
  {
    if groups != [] {
      TriplesOfOk(groups[1..]);
      assert forall k :: 1 <= k < |groups| ==> groups[k] == groups[1..][k - 1];
    }
  }

  /** When parsing succeeds it yields the triple of each group and nothing else. */
  lemma {:induction false} TriplesOfMember(groups: seq<string>, t: Triple)
    requires TriplesOf(groups).Ok?
    ensures t in TriplesOf(groups).value <==> exists k :: 0 <= k < |groups| && GroupTriple(groups[k]) == Ok(t)
  {
    if groups != [] {
      var rest := groups[1..];
      TriplesOfMember(rest, t);
      if t in TriplesOf(groups).value && GroupTriple(groups[0]) != Ok(t) {
        var k :| 0 <= k < |rest| && GroupTriple(rest[k]) == Ok(t);
        assert GroupTriple(groups[k + 1]) == Ok(t);
      }
      if exists k :: 0 <= k < |groups| && GroupTriple(groups[k]) == Ok(t) {
        var k :| 0 <= k < |groups| && GroupTriple(groups[k]) == Ok(t);
        if k > 0 {
          assert GroupTriple(rest[k - 1]) == Ok(t);
        }
      }
    }
  }

  /** When parsing fails, the error names the first group that does not have three
      fields. */
  lemma {:induction false} TriplesOfError(groups: seq<string>)
    requires TriplesOf(groups).Err?
    ensures exists k ::
              0 <= k < |groups| && GroupTriple(groups[k]).Err? &&
              TriplesOf(groups).error == ExpectedArity(groups[k]) &&
              forall j :: 0 <= j < k ==> GroupTriple(groups[j]).Ok?
  {
    var rest := groups[1..];
    if GroupTriple(groups[0]).Err? {
      assert GroupTriple(groups[0]).error == ExpectedArity(groups[0]);
    } else {
      TriplesOfError(rest);
      var k :|
        0 <= k < |rest| && GroupTriple(rest[k]).Err? &&
        TriplesOf(rest).error == ExpectedArity(rest[k]) &&
        (forall j :: 0 <= j < k ==> GroupTriple(rest[j]).Ok?);
      assert GroupTriple(groups[k + 1]).Err?;
      assert forall j :: 1 <= j < k + 1 ==> groups[j] == rest[j - 1];
    }
  }

  /** A character that can stand alone as a field: no whitespace, comma or parenthesis. */
  predicate Plain(x: char)
  {
    !IsSpace(x) && x != ',' && x != '(' && x != ')'
  }

  /** A group of three one-character fields, such as `a,b,c`. */
  lemma GroupOfLetters(a: char, b: char, c: char)
    requires Plain(a) && Plain(b) && Plain(c)
    ensures GroupTriple([a, ',', b, ',', c]) == Ok(Triple([a], [b], [c]))
  {
    assert [a, ',', b, ',', c] == Join([[a], [b], [c]], ',') by {
      assert Join([[a], [b], [c]], ',') == [a] + [','] + Join([[b], [c]], ',');
      assert Join([[b], [c]], ',') == [b] + [','] + Join([[c]], ',');
    }
    SplitJoin([[a], [b], [c]], ',');
    StripNoop([a], Whitespace);
    StripNoop([b], Whitespace);
    StripNoop([c], Whitespace);
  }

  /** `(g1)(g2)...`: groups written one after the other. */
  function Parenthesised(gs: seq<string>): string
  {
    if gs == [] then "" else "(" + gs[0] + ")" + Parenthesised(gs[1..])
  }

  /** Groups written one after the other are found one by one, in order. */
  lemma {:induction false} GroupsOfParenthesised(gs: seq<string>)
    requires forall k :: 0 <= k < |gs| ==> ')' !in gs[k]
    ensures |Groups(Parenthesised(gs))| == |gs|
    ensures forall k :: 0 <= k < |gs| ==> Groups(Parenthesised(gs))[k] == Trim(gs[k])
  {
    if gs == [] {
      assert Groups("") == [];
    } else {
      GroupsOfParenthesised(gs[1..]);
      GroupsFront(gs[0], Parenthesised(gs[1..]));
    }
  }

  /** Two groups written one after the other, `(a,b,c)(d,e,f)` for any six plain
      characters, give a set of two triples. */
  lemma ExpectedTwoGroups(a: char, b: char, c: char, d: char, e: char, f: char)
    requires Plain(a) && Plain(b) && Plain(c) && Plain(d) && Plain(e) && Plain(f)
    ensures ExpectedTriples(Parenthesised([[a, ',', b, ',', c], [d, ',', e, ',', f]]))
      == Ok({Triple([a], [b], [c]), Triple([d], [e], [f])})
  {
    var g1, g2 := [a, ',', b, ',', c], [d, ',', e, ',', f];
    var t1, t2 := Triple([a], [b], [c]), Triple([d], [e], [f]);
    var gs := [g1, g2];
    assert Groups(Parenthesised(gs)) == gs by {
      GroupsOfParenthesised(gs);
      StripNoop(g1, Whitespace);
      StripNoop(g2, Whitespace);
    }
    GroupOfLetters(a, b, c);
    GroupOfLetters(d, e, f);
    TriplesOfTwo(g1, g2, t1, t2);
  }

  /** Two groups that parse give the set of their two triples. */
  lemma TriplesOfTwo(g1: string, g2: string, t1: Triple, t2: Triple)
    requires GroupTriple(g1) == Ok(t1) && GroupTriple(g2) == Ok(t2)
    ensures TriplesOf([g1, g2]) == Ok({t1, t2})
  {
    assert [g1, g2][1..] == [g2] && [g2][1..] == [];
    assert TriplesOf([g2]) == Ok({t2} + {}) by {
      assert TriplesOf([]) == Ok({});
    }
    assert {t1} + ({t2} + {}) == {t1, t2};
  }

  /** `(s1, p1, o1)(s2, p2, o2)...` */
  function RenderAll(ts: seq<Triple>): string
  {
    if ts == [] then "" else Render(ts[0]) + RenderAll(ts[1..])
  }

  /** The first rendered triple is the first group found, and it parses back. */
  lemma RenderAllFront(ts: seq<Triple>)
    requires ts != [] && CleanTriple(ts[0])
    ensures Groups(RenderAll(ts)) == [Inner(ts[0])] + Groups(RenderAll(ts[1..]))
    ensures GroupTriple(Inner(ts[0])) == Ok(ts[0])
  {
    var t := ts[0];
    InnerFields(t);
    InnerNoClose(t);
    GroupsFront(Inner(t), RenderAll(ts[1..]));
    assert RenderAll(ts) == "(" + Inner(t) + ")" + RenderAll(ts[1..]);
  }

  /** The text between the parentheses of a clean triple holds no closing parenthesis. */
  lemma InnerNoClose(t: Triple)
    requires CleanTriple(t)
    ensures ')' !in Inner(t)
  {
    assert ')' !in t.source && ')' !in t.edgeType && ')' !in t.target;
    assert ')' !in ", ";
  }

  /** Writing clean triples out and parsing them as expected output gives back
      exactly the set of those triples. */
  lemma {:induction false} ExpectedRoundTrip(ts: seq<Triple>)
    requires forall k :: 0 <= k < |ts| ==> CleanTriple(ts[k])
    ensures ExpectedTriples(RenderAll(ts)) == Ok(set t | t in ts)
  {
    if ts == [] {
      assert Groups("") == [];
      assert (set t | t in ts) == {};
    } else {
      var t, rest := ts[0], ts[1..];
      var gs := Groups(RenderAll(rest));
      assert TriplesOf(gs) == Ok(set u | u in rest) by {
        ExpectedRoundTrip(rest);
      }
      assert Groups(RenderAll(ts)) == [Inner(t)] + gs && GroupTriple(Inner(t)) == Ok(t) by {
        RenderAllFront(ts);
      }
      assert TriplesOf([Inner(t)] + gs) == Ok({t} + set u | u in rest) by {
        assert ([Inner(t)] + gs)[1..] == gs;
      }
      assert (set u | u in ts) == {t} + (set u | u in rest) by {
        assert forall u :: u in ts <==> u == t || u in rest;
      }
    }
  }

  /** A single rendered triple parses back to just that triple. */
  lemma ExpectedSingle(t: Triple)
    requires CleanTriple(t)
    ensures ExpectedTriples(Render(t)) == Ok({t})
  {
    ExpectedRoundTrip([t]);
    assert [t][1..] == [];
    assert RenderAll([t]) == Render(t) + "" == Render(t);
    assert (set u | u in [t]) == {t};
  }


  /** Adds already-collected triples in front of the outcome of parsing the rest. */
  function Prepend(acc: set<Triple>, r: Result<set<Triple>>): Result<set<Triple>>
  {
    match r
    case Ok(ts) => Ok(acc + ts)
    case Err(e) => Err(e)
  }

  /** `parse_expected`: collects the triple of each group, raising on the first group
      that does not have three fields. */
  method ParseExpected(text: string) returns (r: Result<set<Triple>>)
    ensures r == ExpectedTriples(text)
  {
    var groups := Groups(text);
    var triples: set<Triple> := {};
    assert groups[0..] == groups;
    assert TriplesOf(groups).Ok? ==> {} + TriplesOf(groups).value == TriplesOf(groups).value;
    for i := 0 to |groups|
      invariant TriplesOf(groups) == Prepend(triples, TriplesOf(groups[i..]))
    {
      assert groups[i..][0] == groups[i] && groups[i..][1..] == groups[i + 1..];
      var parts := Split(groups[i], ',');
      if |parts| != 3 {
        return Err(ExpectedArity(groups[i]));
      }
      var t := Triple(Trim(parts[0]), Trim(parts[1]), Trim(parts[2]));
      assert GroupTriple(groups[i]) == Ok(t);
      var rest := TriplesOf(groups[i + 1..]);
      assert TriplesOf(groups[i..]) == if rest.Ok? then Ok({t} + rest.value) else rest;
      assert rest.Ok? ==> triples + ({t} + rest.value) == (triples + {t}) + rest.value;
      triples := triples + {t};
    }
    assert groups[|groups|..] == [];
    r := Ok(triples);
  }

  /** The expected triples absent from the actual output (`expected - actual`). */
  function Missing(expected: set<Triple>, actual: seq<Triple>): (m: set<Triple>)
    ensures forall t :: t in m <==> t in expected && t !in actual
  {
    expected - set t | t in actual
  }

  /** A test case passes when nothing expected is missing: containment, not equality. */
  function Passes(expected: set<Triple>, actual: seq<Triple>): (pass: bool)
    ensures pass <==> forall t :: t in expected ==> t in actual
  {
    Missing(expected, actual) == {}
  }

  /** Extra actual triples never turn a pass into a failure. */
  lemma PassesMonotone(expected: set<Triple>, actual: seq<Triple>, more: seq<Triple>)
    requires forall t :: t in actual ==> t in more
    ensures Passes(expected, actual) ==> Passes(expected, more)
  {
  }

  /** Containment, not equality: an extra actual triple is ignored, while a missing
      expected one fails with exactly that triple missing. */
  lemma ContainmentNotEquality(x: Triple, z: Triple)
    requires x != z
    ensures Passes({x}, [x, z])
    ensures !Passes({x, z}, [x]) && Missing({x, z}, [x]) == {z}
  {
  }
}
