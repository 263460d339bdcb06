/** What each step of the benchmark pipeline does to the graph store, as functions
    from the store before to the store after, and what those steps guarantee. The
    executor's methods are proved to follow these functions. */
module Pipeline {
  import opened Text
  import opened Triples
  import opened RuleText
  import opened Graph

  /** The three tables and the three id counters. */
  datatype Store = Store(nodes: seq<Node>, edges: seq<Edge>, rules: seq<Rule>, nextNode: nat, nextEdge: nat, nextRule: nat)

  predicate Valid(s: Store)
  {
    StoreValid(s.nodes, s.edges, s.rules, s.nextNode, s.nextEdge, s.nextRule)
  }

  /** The facts the store holds, one per edge. */
  function Facts(s: Store): seq<Triple>
  {
    Stored(s.nodes, s.edges)
  }

  /** One row of the benchmark CSV. A column that a short row leaves without a value
      is `None`. */
  datatype TestCase = TestCase(testId: string, facts: Option<string>, rule: Option<string>, expected: Option<string>)

  /** The result record of one test case: either it ran to the end, or it raised. */
  datatype BenchResult =
    | Ran(testId: string, passed: bool, actual: seq<Triple>, expected: string)
    | Failed(testId: string, error: Error)

  /** What the store's `core_rule_fire()` procedure does when called: it raises, or it
      inserts some derived edges and reports the ids of the edges whose triples
      `fire_rules` is to return (normally those of the edges it inserted, which it can
      tell from the store's edge counter). */
  datatype Firing = Raised(message: string) | Fired(inserted: seq<Derived>, reported: seq<int>)

  /** The procedure, seen from outside: what it does, given the store it runs on. */
  type Procedure = Store -> Firing

  const FactsColumn: string := "Input Facts"
  const RuleColumn: string := "R\U{B2}L Rule Example"
  const ExpectedColumn: string := "Expected Output"

  // ---------------------------------------------------------------------------
  // The steps

  /** `TRUNCATE nodes, edges, rules CASCADE`: empties the tables; the counters are
      sequences, which truncation does not restart. */
  function Truncate(s: Store): (r: Store)
    ensures Valid(r) && Facts(r) == [] && Entities(r.nodes) == [] && ClassLabels(r.nodes) == {} && Bodies(r.rules) == []
    ensures r.nextNode == s.nextNode && r.nextEdge == s.nextEdge && r.nextRule == s.nextRule
  {
    s.(nodes := [], edges := [], rules := [])
  }

  /** `ensure_class_node`: the store and the id of the `Class` node labelled `name`,
      inserting one only when there is none. */
  function EnsureClass(s: Store, name: string): (Store, nat)
  {
    match FindClass(s.nodes, name)
    case Some(id) => (s, id)
    case None => (s.(nodes := s.nodes + [Node(s.nextNode, Class, name)], nextNode := s.nextNode + 1), s.nextNode)
  }

  /** The input fact a test case ingests, or why ingestion raises. */
  function FactOf(facts: Option<string>): Result<Triple>
  {
    if facts.None? then Err(MissingField(FactsColumn)) else ParseFact(facts.value)
  }

  /** The inserts `ingest_facts` makes for a parsed fact: a fresh `Entity` node for the
      subject, the `Class` node for the object, and an edge between them typed with
      the predicate. */
  function AddFact(s: Store, t: Triple): Store
  {
    var s2, objectId := EnsureClass(WithSubject(s, t), t.target).0, EnsureClass(WithSubject(s, t), t.target).1;
    s2.(edges := s2.edges + [Edge(s2.nextEdge, s.nextNode, objectId, t.edgeType)], nextEdge := s2.nextEdge + 1)
  }

  /** The store with a fresh `Entity` node for the subject of `t`. */
  function WithSubject(s: Store, t: Triple): Store
  {
    s.(nodes := s.nodes + [Node(s.nextNode, Entity, t.source)], nextNode := s.nextNode + 1)
  }

  /** `ingest_facts`: the inserts for the fact if it parses, or why it does not. */
  function Ingest(s: Store, facts: Option<string>): (Store, Option<Error>)
  {
    match FactOf(facts)
    case Err(e) => (s, Some(e))
    case Ok(t) => (AddFact(s, t), None)
  }

  /** The classes named by some `→`-segments, made sure of one segment after another. */
  function EnsureSegments(s: Store, segments: seq<string>): Store
  {
    if segments == [] then s
    else
      var s1 := EnsureSegments(s, segments[..|segments| - 1]);
      var g := segments[|segments| - 1];
      if HasMarker(g) then EnsureClass(s1, MarkerLabel(g)).0 else s1
  }

  /** One `;`-separated part of a rule field: nothing if it is blank, otherwise the
      classes its segments name and then the rule itself. */
  function RegisterPart(s: Store, part: string): Store
  {
    var body := Trim(part);
    if body == [] then s
    else
      var s1 := EnsureSegments(s, Split(body, Arrow));
      s1.(rules := s1.rules + [Rule(s1.nextRule, SubclassRule, body, true)], nextRule := s1.nextRule + 1)
  }

  /** The parts of a rule field, one after another. */
  function RegisterParts(s: Store, parts: seq<string>): Store
  {
    if parts == [] then s
    else RegisterPart(RegisterParts(s, parts[..|parts| - 1]), parts[|parts| - 1])
  }

  /** `register_rule`. */
  function Register(s: Store, text: Option<string>): (Store, Option<Error>)
  {
    if text.None? then (s, Some(MissingField(RuleColumn)))
    else (RegisterParts(s, Split(text.value, RuleSeparator)), None)
  }

  /** The edges the procedure inserts, numbered on from the edge counter `next`. */
  function NewEdges(next: nat, inserted: seq<Derived>): seq<Edge>
  {
    seq(|inserted|, k requires 0 <= k < |inserted| => Edge(next + k, inserted[k].source, inserted[k].target, inserted[k].edgeType))
  }

  /** The derived edges appended, each with the next edge id. */
  function InsertDerived(s: Store, inserted: seq<Derived>): Store
  {
    s.(edges := s.edges + NewEdges(s.nextEdge, inserted), nextEdge := s.nextEdge + |inserted|)
  }

  /** `fire_rules`: the procedure's inserts, then the triples of the edges it reports,
      looked up in the store those inserts produced, in its order, skipping ids that
      are not found. The procedure runs as one statement: when it raises, or when one
      of its edges names a node that is not stored, nothing is inserted. */
  function Fire(s: Store, procedure: Procedure): (Store, Result<seq<Triple>>)
  {
    match procedure(s)
    case Raised(message) => (s, Err(ProcedureRaised(message)))
    case Fired(inserted, reported) =>
      match Dangling(s.nodes, inserted)
      case Some(d) => (s, Err(ForeignKey(d.source, d.target)))
      case None =>
        var s' := InsertDerived(s, inserted);
        (s', Ok(ResolveAll(s'.nodes, s'.edges, reported)))
  }

  /** `verify_output`: fails as parsing the expected output fails; otherwise passes
      exactly when every expected triple is among the actual ones. */
  function Verify(expected: Option<string>, actual: seq<Triple>): (r: Result<bool>)
    ensures expected.None? ==> r == Err(MissingField(ExpectedColumn))
    ensures expected.Some? ==> (r.Ok? <==> ExpectedTriples(expected.value).Ok?)
    ensures expected.Some? && r.Err? ==> r.error == ExpectedTriples(expected.value).error
    ensures r.Ok? ==>
      (expected.Some? && (r.value <==> forall t :: t in ExpectedTriples(expected.value).value ==> t in actual))
  {
    if expected.None? then Err(MissingField(ExpectedColumn))
    else
      match ExpectedTriples(expected.value)
      case Err(e) => Err(e)
      case Ok(triples) => Ok(Passes(triples, actual))
  }

  /** One test case of `run_benchmark`: the pipeline, with an error turned into a
      failed record. Ingestion and registration commit as they go, so what they did
      stays in the store; the procedure's inserts are committed only when the case
      runs to the end, and otherwise rolled back, leaving the edge counter advanced. */
  function RunCase(s: Store, tc: TestCase, procedure: Procedure): (Store, BenchResult)
  {
    var s1, e1 := Ingest(s, tc.facts).0, Ingest(s, tc.facts).1;
    if e1.Some? then (s1, Failed(tc.testId, e1.value))
    else
      var s2, e2 := Register(s1, tc.rule).0, Register(s1, tc.rule).1;
      if e2.Some? then (s2, Failed(tc.testId, e2.value))
      else
        var s3, fired := Fire(s2, procedure).0, Fire(s2, procedure).1;
        if fired.Err? then (s3, Failed(tc.testId, fired.error))
        else
          match Verify(tc.expected, fired.value)
          case Err(e) => (s3.(edges := s2.edges), Failed(tc.testId, e))
          case Ok(passed) => (s3, Ran(tc.testId, passed, fired.value, tc.expected.value))
  }

  /** The test cases one after another, collecting one record each. */
  function RunAll(s: Store, cases: seq<TestCase>, procedure: Procedure): (Store, seq<BenchResult>)
  {
    if cases == [] then (s, [])
    else
      var s1, results := RunAll(s, cases[..|cases| - 1], procedure).0, RunAll(s, cases[..|cases| - 1], procedure).1;
      var s2, r := RunCase(s1, cases[|cases| - 1], procedure).0, RunCase(s1, cases[|cases| - 1], procedure).1;
      (s2, results + [r])
  }

  /** `run_benchmark`: empty the store, then run every test case. */
  function Benchmark(s: Store, cases: seq<TestCase>, procedure: Procedure): (Store, seq<BenchResult>)
  {
    RunAll(Truncate(s), cases, procedure)
  }

  // ---------------------------------------------------------------------------
  // What a test case contributes, as functions of the case alone

  /** The fact as a list: one triple if it was ingested, none otherwise. */
  function FactList(facts: Option<string>): seq<Triple>
  {
    if FactOf(facts).Ok? then [FactOf(facts).value] else []
  }

  /** The class label an ingested fact makes sure of. */
  function FactClasses(facts: Option<string>): set<string>
  {
    if FactOf(facts).Ok? then {FactOf(facts).value.target} else {}
  }

  /** The rule text a test case registers: only reached once its fact is ingested. */
  function RuleOf(tc: TestCase): Option<string>
  {
    if FactOf(tc.facts).Ok? then tc.rule else None
  }

  function CaseBodies(tc: TestCase): seq<string>
  {
    if RuleOf(tc).Some? then RuleBodies(RuleOf(tc).value) else []
  }

  function CaseClasses(tc: TestCase): set<string>
  {
    FactClasses(tc.facts) + (if RuleOf(tc).Some? then RuleClasses(RuleOf(tc).value) else {})
  }

  /** The store a test case fires on: after its fact and its rules. */
  function Prepared(s: Store, tc: TestCase): Store
  {
    Register(Ingest(s, tc.facts).0, tc.rule).0
  }

  /** What firing gives for a test case that reaches it, on the store `s` the case
      starts from. */
  function CaseFiring(s: Store, tc: TestCase, procedure: Procedure): Result<seq<Triple>>
  {
    Fire(Prepared(s, tc), procedure).1
  }

  /** Why a test case raises, if it does, given what firing gave: the fact, the rule
      field, the procedure, then the expected output, in the order the steps run.
      Only the procedure's part depends on the store. */
  function CaseError(tc: TestCase, fired: Result<seq<Triple>>): Option<Error>
  {
    if FactOf(tc.facts).Err? then Some(FactOf(tc.facts).error)
    else if tc.rule.None? then Some(MissingField(RuleColumn))
    else if fired.Err? then Some(fired.error)
    else if tc.expected.None? then Some(MissingField(ExpectedColumn))
    else match ExpectedTriples(tc.expected.value)
      case Err(e) => Some(e)
      case Ok(_) => None
  }

  /** The subjects of some facts, in order. */
  function Subjects(facts: seq<Triple>): seq<string>
  {
    if facts == [] then [] else Subjects(facts[..|facts| - 1]) + [facts[|facts| - 1].source]
  }

  function IngestedFacts(cases: seq<TestCase>): seq<Triple>
  {
    if cases == [] then [] else IngestedFacts(cases[..|cases| - 1]) + FactList(cases[|cases| - 1].facts)
  }

  function RegisteredBodies(cases: seq<TestCase>): seq<string>
  {
    if cases == [] then [] else RegisteredBodies(cases[..|cases| - 1]) + CaseBodies(cases[|cases| - 1])
  }

  function RegisteredClasses(cases: seq<TestCase>): set<string>
  {
    if cases == [] then {} else RegisteredClasses(cases[..|cases| - 1]) + CaseClasses(cases[|cases| - 1])
  }

  /** A result record counts as a pass only when the case ran and nothing expected
      was missing. */
  predicate Passed(r: BenchResult)
  {
    r.Ran? && r.passed
  }

  /** The record `r` is the one `run_benchmark` promises for `tc`, when firing gives
      `fired`: a failure exactly when some step raises, with that error, and otherwise
      the fired triples with the containment verdict. */
  predicate Reports(tc: TestCase, fired: Result<seq<Triple>>, r: BenchResult)
  {
    r.testId == tc.testId &&
    (r.Failed? <==> CaseError(tc, fired).Some?) &&
    (r.Failed? ==> !Passed(r) && r.error == CaseError(tc, fired).value) &&
    (r.Ran? ==>
      (fired.Ok? && r.actual == fired.value &&
       tc.expected.Some? && r.expected == tc.expected.value && ExpectedTriples(tc.expected.value).Ok? &&
       (Passed(r) <==> forall t :: t in ExpectedTriples(tc.expected.value).value ==> t in r.actual)))
  }

  /** The facts of some derived edges, in order: one per edge whose end nodes are
      stored. */
  function DerivedFacts(nodes: seq<Node>, inserted: seq<Derived>): seq<Triple>
  {
    if inserted == [] then []
    else
      var d := inserted[|inserted| - 1];
      DerivedFacts(nodes, inserted[..|inserted| - 1]) +
        (if Linked(nodes, d) then [DerivedTriple(nodes, d).value] else [])
  }

  /** The derived facts a test case commits: those of the edges the procedure
      inserted, when the case runs to the end. A case that raises after firing has
      them rolled back. */
  function Inferred(s: Store, tc: TestCase, procedure: Procedure): seq<Triple>
  {
    var s2 := Prepared(s, tc);
    if CaseError(tc, Fire(s2, procedure).1).None? && procedure(s2).Fired? then DerivedFacts(s2.nodes, procedure(s2).inserted)
    else []
  }

  /** The facts some test cases commit, in order: each case's input fact, if it
      parsed, then the derived facts it committed. */
  function RunFacts(s: Store, cases: seq<TestCase>, procedure: Procedure): seq<Triple>
  {
    if cases == [] then []
    else
      var init, last := cases[..|cases| - 1], cases[|cases| - 1];
      RunFacts(s, init, procedure) + FactList(last.facts) + Inferred(RunAll(s, init, procedure).0, last, procedure)
  }

  /** Only `Class` nodes were added: the entities, the edges, the rules and their
      counters are as they were. */
  predicate ClassesOnly(s: Store, s': Store)
  {
    Entities(s'.nodes) == Entities(s.nodes) && s'.edges == s.edges && s'.nextEdge == s.nextEdge &&
    s'.rules == s.rules && s'.nextRule == s.nextRule
  }

  // ---------------------------------------------------------------------------
  // Class nodes

  /** Making sure of a class yields the id the lookup finds afterwards; a `Class` node
      with the next id is appended only when there was none, and the label is then
      among the classes. */
  lemma EnsureClassShape(s: Store, name: string)
    ensures var s', id := EnsureClass(s, name).0, EnsureClass(s, name).1;
      FindClass(s'.nodes, name) == Some(id) &&
      s'.nodes == s.nodes + (if FindClass(s.nodes, name).Some? then [] else [Node(s.nextNode, Class, name)]) &&
      ClassLabels(s'.nodes) == ClassLabels(s.nodes) + {name} &&
      ClassesOnly(s, s')
  {
    if FindClass(s.nodes, name).Some? {
      FindClassLabels(s.nodes, name);
    } else {
      var n := Node(s.nextNode, Class, name);
      FindClassAppend(s.nodes, [n], name);
      ClassLabelsAppend(s.nodes, n);
      EntitiesAppend(s.nodes, [n]);
    }
  }

  /** Appending a node with the next id keeps the store valid and the facts it holds,
      provided a `Class` node is only appended for a label that has none. */
  lemma InsertNode(s: Store, n: Node)
    requires Valid(s) && n.id == s.nextNode
    requires n.nodeType == Class ==> FindClass(s.nodes, n.name).None?
    ensures var s' := s.(nodes := s.nodes + [n], nextNode := s.nextNode + 1);
      Valid(s') && Facts(s') == Facts(s)
  {
    AddNode(s.nodes, s.edges, s.rules, s.nextNode, s.nextEdge, s.nextRule, n);
  }

  /** Making sure of a class keeps the store valid and the facts it holds. */
  lemma EnsureClassValid(s: Store, name: string)
    requires Valid(s)
    ensures var s' := EnsureClass(s, name).0; Valid(s') && Facts(s') == Facts(s)
  {
    if FindClass(s.nodes, name).None? {
      InsertNode(s, Node(s.nextNode, Class, name));
    }
  }

  /** Afterwards there is exactly one `Class` node with that label. */
  lemma EnsureClassCount(s: Store, name: string)
    requires Valid(s)
    ensures ClassCount(EnsureClass(s, name).0.nodes, name) == 1
  {
    var s' := EnsureClass(s, name).0;
    assert Valid(s') && FindClass(s'.nodes, name).Some? by {
      EnsureClassValid(s, name);
      EnsureClassShape(s, name);
    }
    ClassCountUnique(s'.nodes, name);
  }

  /** Making sure of the same class twice is making sure of it once: the second call
      returns the same id and adds nothing. */
  lemma EnsureClassIdempotent(s: Store, name: string)
    ensures EnsureClass(EnsureClass(s, name).0, name) == EnsureClass(s, name)
  {
    if FindClass(s.nodes, name).None? {
      FindClassAppend(s.nodes, [Node(s.nextNode, Class, name)], name);
    }
  }

  // ---------------------------------------------------------------------------
  // Facts

  /** The inserts for a fact append one `Entity` node for the subject, whether or not
      one with that label exists, then a `Class` node for the object if there is none,
      and one edge from the one to the other typed with the predicate; nothing already
      stored changes and no rule is added. */
  lemma AddFactShape(s: Store, t: Triple)
    ensures var s' := AddFact(s, t);
      s'.nodes == s.nodes + [Node(s.nextNode, Entity, t.source)] +
        (if FindClass(s.nodes, t.target).None? then [Node(s.nextNode + 1, Class, t.target)] else []) &&
      s'.edges == s.edges + [Edge(s.nextEdge, s.nextNode, FindClass(s'.nodes, t.target).value, t.edgeType)] &&
      s'.rules == s.rules && s'.nextRule == s.nextRule
  {
    FindClassAppend(s.nodes, [Node(s.nextNode, Entity, t.source)], t.target);
    EnsureClassShape(WithSubject(s, t), t.target);
  }

  /** The inserts for a fact add its subject to the entities and its object to the
      classes. */
  lemma AddFactLabels(s: Store, t: Triple)
    ensures var s' := AddFact(s, t);
      Entities(s'.nodes) == Entities(s.nodes) + [t.source] &&
      ClassLabels(s'.nodes) == ClassLabels(s.nodes) + {t.target}
  {
    var entity := Node(s.nextNode, Entity, t.source);
    var s1 := WithSubject(s, t);
    assert AddFact(s, t).nodes == EnsureClass(s1, t.target).0.nodes;
    assert Entities(s1.nodes) == Entities(s.nodes) + [t.source] && ClassLabels(s1.nodes) == ClassLabels(s.nodes) by {
      EntitiesAppend(s.nodes, [entity]);
      ClassLabelsAppend(s.nodes, entity);
    }
    EnsureClassShape(s1, t.target);
  }

  /** The inserts for a fact keep the store valid and add exactly that fact to the
      facts it holds. */
  lemma AddFactValid(s: Store, t: Triple)
    requires Valid(s)
    ensures var s' := AddFact(s, t); Valid(s') && Facts(s') == Facts(s) + [t]
  {
    var s2, objectId := EnsureClass(WithSubject(s, t), t.target).0, EnsureClass(WithSubject(s, t), t.target).1;
    var s' := s2.(edges := s2.edges + [Edge(s2.nextEdge, s.nextNode, objectId, t.edgeType)], nextEdge := s2.nextEdge + 1);
    assert AddFact(s, t) == s';
    AddFactNodes(s, t);
    FactEdge(s2, s.nextNode, objectId, t);
  }

  /** The edge of a fact, added between its stored subject and object nodes, keeps the
      store valid and adds exactly that fact. */
  lemma FactEdge(s: Store, subjectId: nat, objectId: nat, t: Triple)
    requires Valid(s)
    requires FindNode(s.nodes, subjectId) == Some(Node(subjectId, Entity, t.source))
    requires FindNode(s.nodes, objectId) == Some(Node(objectId, Class, t.target))
    ensures var s' := s.(edges := s.edges + [Edge(s.nextEdge, subjectId, objectId, t.edgeType)], nextEdge := s.nextEdge + 1);
      Valid(s') && Facts(s') == Facts(s) + [t]
  {
    AddEdge(s.nodes, s.edges, s.rules, s.nextNode, s.nextEdge, s.nextRule, Edge(s.nextEdge, subjectId, objectId, t.edgeType));
  }

  /** Before its edge is added, the subject and object nodes of a fact are stored and
      found by id, and the store is still valid with the same facts. */
  lemma AddFactNodes(s: Store, t: Triple)
    requires Valid(s)
    ensures var s2, objectId := EnsureClass(WithSubject(s, t), t.target).0, EnsureClass(WithSubject(s, t), t.target).1;
      Valid(s2) && Facts(s2) == Facts(s) &&
      FindNode(s2.nodes, s.nextNode) == Some(Node(s.nextNode, Entity, t.source)) &&
      FindNode(s2.nodes, objectId) == Some(Node(objectId, Class, t.target))
  {
    var entity := Node(s.nextNode, Entity, t.source);
    var s1 := WithSubject(s, t);
    var s2, objectId := EnsureClass(s1, t.target).0, EnsureClass(s1, t.target).1;
    assert Valid(s1) && Facts(s1) == Facts(s) by {
      InsertNode(s, entity);
    }
    assert Valid(s2) && Facts(s2) == Facts(s1) by {
      EnsureClassValid(s1, t.target);
    }
    assert entity in s2.nodes && Node(objectId, Class, t.target) in s2.nodes by {
      EnsureClassShape(s1, t.target);
      assert s2.nodes[|s1.nodes| - 1] == entity;
    }
    FindNodeStored(s2.nodes, s2.nextNode, entity);
    FindNodeStored(s2.nodes, s2.nextNode, Node(objectId, Class, t.target));
  }

  /** Ingestion fails exactly when the fact is missing or the text between its
      stripped parentheses does not hold two commas, and then changes nothing;
      otherwise it makes the inserts for the fact it parsed. */
  lemma IngestResult(s: Store, facts: Option<string>)
    ensures var s', err := Ingest(s, facts).0, Ingest(s, facts).1;
      (err.Some? <==> facts.None? || Count(Strip(Trim(facts.value), Parens), ',') != 2) &&
      (err.Some? ==> s' == s) &&
      (err.None? ==> s' == AddFact(s, ParseFact(facts.value).value))
  {
  }

  /** Ingestion adds the subject of the ingested fact to the entities and its object
      to the classes, and adds no rule. */
  lemma IngestLabels(s: Store, facts: Option<string>)
    ensures var s' := Ingest(s, facts).0;
      Entities(s'.nodes) == Entities(s.nodes) + Subjects(FactList(facts)) &&
      ClassLabels(s'.nodes) == ClassLabels(s.nodes) + FactClasses(facts) &&
      s'.rules == s.rules && s'.nextRule == s.nextRule
  {
    if FactOf(facts).Ok? {
      var t := FactOf(facts).value;
      AddFactShape(s, t);
      AddFactLabels(s, t);
      assert Subjects([t]) == [t.source];
    }
  }

  /** Ingestion keeps the store valid and adds exactly the ingested fact to the facts
      it holds. */
  lemma IngestValid(s: Store, facts: Option<string>)
    requires Valid(s)
    ensures var s' := Ingest(s, facts).0; Valid(s') && Facts(s') == Facts(s) + FactList(facts)
  {
    if FactOf(facts).Ok? {
      AddFactValid(s, FactOf(facts).value);
    }
  }

  // ---------------------------------------------------------------------------
  // Rules

  /** Making sure of the classes of some segments adds exactly the classes they name,
      and only `Class` nodes. */
  lemma {:induction false} EnsureSegmentsShape(s: Store, segments: seq<string>)
    ensures var s' := EnsureSegments(s, segments);
      ClassLabels(s'.nodes) == ClassLabels(s.nodes) + SegmentClasses(segments) && ClassesOnly(s, s')
  {
    if segments != [] {
      var init := segments[..|segments| - 1];
      EnsureSegmentsShape(s, init);
      var g := segments[|segments| - 1];
      if HasMarker(g) {
        EnsureClassShape(EnsureSegments(s, init), MarkerLabel(g));
      }
    }
  }

  /** Making sure of the classes of some segments keeps the store valid and the facts
      it holds. */
  lemma {:induction false} EnsureSegmentsValid(s: Store, segments: seq<string>)
    requires Valid(s)
    ensures var s' := EnsureSegments(s, segments); Valid(s') && Facts(s') == Facts(s)
  {
    if segments != [] {
      var init := segments[..|segments| - 1];
      EnsureSegmentsValid(s, init);
      var g := segments[|segments| - 1];
      if HasMarker(g) {
        EnsureClassValid(EnsureSegments(s, init), MarkerLabel(g));
      }
    }
  }

  /** Registering the parts of a rule field appends one rule per part that is not
      blank, in order, adds exactly the classes those rules name, and adds no entity
      and no edge. */
  lemma {:induction false} RegisterPartsShape(s: Store, parts: seq<string>)
    ensures var s' := RegisterParts(s, parts);
      Bodies(s'.rules) == Bodies(s.rules) + KeptParts(parts) &&
      ClassLabels(s'.nodes) == ClassLabels(s.nodes) + BodyClasses(KeptParts(parts)) &&
      Entities(s'.nodes) == Entities(s.nodes) && s'.edges == s.edges && s'.nextEdge == s.nextEdge
  {
    if parts != [] {
      var init, last := parts[..|parts| - 1], parts[|parts| - 1];
      RegisterPartsShape(s, init);
      var s1 := RegisterParts(s, init);
      var body := Trim(last);
      if body != [] {
        EnsureSegmentsShape(s1, Split(body, Arrow));
        var s2 := EnsureSegments(s1, Split(body, Arrow));
        BodiesAppend(s2.rules, Rule(s2.nextRule, SubclassRule, body, true));
        BodyClassesAppend(KeptParts(init), body);
      } else {
        assert KeptParts(parts) == KeptParts(init);
      }
    }
  }

  /** Appending an active subclass rule with the next id keeps the store valid and the
      facts it holds. */
  lemma InsertRule(s: Store, body: string)
    requires Valid(s)
    ensures var s' := s.(rules := s.rules + [Rule(s.nextRule, SubclassRule, body, true)], nextRule := s.nextRule + 1);
      Valid(s') && Facts(s') == Facts(s)
  {
    AddRule(s.nodes, s.edges, s.rules, s.nextNode, s.nextEdge, s.nextRule, body);
  }

  /** Registering the parts of a rule field keeps the store valid and the facts it
      holds. */
  lemma {:induction false} RegisterPartsValid(s: Store, parts: seq<string>)
    requires Valid(s)
    ensures var s' := RegisterParts(s, parts); Valid(s') && Facts(s') == Facts(s)
  {
    if parts != [] {
      var init := parts[..|parts| - 1];
      var s1 := RegisterParts(s, init);
      assert Valid(s1) && Facts(s1) == Facts(s) by {
        RegisterPartsValid(s, init);
      }
      var body := Trim(parts[|parts| - 1]);
      if body != [] {
        var s2 := EnsureSegments(s1, Split(body, Arrow));
        assert Valid(s2) && Facts(s2) == Facts(s1) by {
          EnsureSegmentsValid(s1, Split(body, Arrow));
        }
        InsertRule(s2, body);
      }
    }
  }

  /** `register_rule` fails only on a missing rule field, and then changes nothing.
      Otherwise it registers one rule per non-blank `;`-separated part, in order, and
      afterwards every class that a `→`-segment of those rules names after `rdf:type`
      has a `Class` node; it adds no entity and no edge. */
  lemma RegisterShape(s: Store, text: Option<string>)
    ensures var s', err := Register(s, text).0, Register(s, text).1;
      err == (if text.None? then Some(MissingField(RuleColumn)) else None) &&
      (text.None? ==> s' == s) &&
      (text.Some? ==>
        Bodies(s'.rules) == Bodies(s.rules) + RuleBodies(text.value) &&
        ClassLabels(s'.nodes) == ClassLabels(s.nodes) + RuleClasses(text.value)) &&
      Entities(s'.nodes) == Entities(s.nodes) && s'.edges == s.edges
  {
    if text.Some? {
      RegisterPartsShape(s, Split(text.value, RuleSeparator));
    }
  }

  // ---------------------------------------------------------------------------
  // Firing

  /** Appending some derived edges is appending all but the last, then the last one
      with the next edge id. */
  lemma InsertDerivedSnoc(s: Store, inserted: seq<Derived>)
    requires inserted != []
    ensures var s1, d := InsertDerived(s, inserted[..|inserted| - 1]), inserted[|inserted| - 1];
      InsertDerived(s, inserted) == s1.(edges := s1.edges + [Edge(s1.nextEdge, d.source, d.target, d.edgeType)], nextEdge := s1.nextEdge + 1)
  {
    var init, d := inserted[..|inserted| - 1], inserted[|inserted| - 1];
    var e := Edge(s.nextEdge + |init|, d.source, d.target, d.edgeType);
    assert NewEdges(s.nextEdge, inserted) == NewEdges(s.nextEdge, init) + [e];
    assert s.edges + NewEdges(s.nextEdge, inserted) == (s.edges + NewEdges(s.nextEdge, init)) + [e];
  }

  /** Appending a derived edge between stored nodes, with the next edge id, keeps the
      store valid and adds exactly its fact. */
  lemma InsertEdge(s: Store, d: Derived)
    requires Valid(s) && Linked(s.nodes, d)
    ensures var s' := s.(edges := s.edges + [Edge(s.nextEdge, d.source, d.target, d.edgeType)], nextEdge := s.nextEdge + 1);
      Valid(s') && Facts(s') == Facts(s) + [DerivedTriple(s.nodes, d).value]
  {
    AddEdge(s.nodes, s.edges, s.rules, s.nextNode, s.nextEdge, s.nextRule, Edge(s.nextEdge, d.source, d.target, d.edgeType));
  }

  /** Appending derived edges whose end nodes are stored keeps the store valid and
      adds exactly their facts, in order. */
  lemma {:induction false} InsertDerivedValid(s: Store, inserted: seq<Derived>)
    requires Valid(s) && forall k :: 0 <= k < |inserted| ==> Linked(s.nodes, inserted[k])
    ensures var s' := InsertDerived(s, inserted);
      Valid(s') && Facts(s') == Facts(s) + DerivedFacts(s.nodes, inserted)
  {
    if inserted == [] {
      assert s.edges + NewEdges(s.nextEdge, inserted) == s.edges;
    } else {
      var init, d := inserted[..|inserted| - 1], inserted[|inserted| - 1];
      var s1 := InsertDerived(s, init);
      assert Valid(s1) && Facts(s1) == Facts(s) + DerivedFacts(s.nodes, init) by {
        assert forall k :: 0 <= k < |init| ==> init[k] == inserted[k];
        InsertDerivedValid(s, init);
      }
      var t := DerivedTriple(s.nodes, d).value;
      var s2 := s1.(edges := s1.edges + [Edge(s1.nextEdge, d.source, d.target, d.edgeType)], nextEdge := s1.nextEdge + 1);
      assert Valid(s2) && Facts(s2) == Facts(s1) + [t] by {
        assert Linked(s1.nodes, d);
        InsertEdge(s1, d);
      }
      assert InsertDerived(s, inserted) == s2 by {
        InsertDerivedSnoc(s, inserted);
      }
      assert DerivedFacts(s.nodes, inserted) == DerivedFacts(s.nodes, init) + [t] by {
        assert Linked(s.nodes, d);
      }
      Associative(Facts(s), DerivedFacts(s.nodes, init), [t]);
    }
  }

  /** Firing adds no node and no rule, only advances the edge counter, and changes
      nothing when it fails. */
  lemma FireShape(s: Store, procedure: Procedure)
    ensures var s', fired := Fire(s, procedure).0, Fire(s, procedure).1;
      s'.nodes == s.nodes && s'.rules == s.rules && s'.nextNode == s.nextNode && s'.nextRule == s.nextRule &&
      s.nextEdge <= s'.nextEdge && (fired.Err? ==> s' == s)
  {
  }

  /** Firing fails exactly when the procedure raises, with its message, or when one of
      the edges it inserts names a node that is not stored, with that edge's ends. */
  lemma FireResult(s: Store, procedure: Procedure)
    ensures var fired := Fire(s, procedure).1;
      (procedure(s).Raised? ==> fired == Err(ProcedureRaised(procedure(s).message))) &&
      (procedure(s).Fired? ==>
        (fired.Ok? <==> forall k :: 0 <= k < |procedure(s).inserted| ==> Linked(s.nodes, procedure(s).inserted[k])) &&
        (fired.Err? ==> exists d :: d in procedure(s).inserted && !Linked(s.nodes, d) && fired.error == ForeignKey(d.source, d.target)))
  {
  }

  /** Firing keeps the store valid; when it succeeds the store gains exactly the facts
      of the edges the procedure inserted, and otherwise nothing. */
  lemma FireValid(s: Store, procedure: Procedure)
    requires Valid(s)
    ensures var s', fired := Fire(s, procedure).0, Fire(s, procedure).1;
      Valid(s') &&
      Facts(s') == Facts(s) + (if fired.Ok? && procedure(s).Fired? then DerivedFacts(s.nodes, procedure(s).inserted) else [])
  {
    if procedure(s).Fired? && Dangling(s.nodes, procedure(s).inserted).None? {
      InsertDerivedValid(s, procedure(s).inserted);
    }
  }

  /** Whatever edge ids the procedure reports, a successful firing yields only facts
      the store holds once the procedure's edges are in. */
  lemma FireStored(s: Store, procedure: Procedure)
    ensures var s', fired := Fire(s, procedure).0, Fire(s, procedure).1;
      fired.Ok? ==> forall t :: t in fired.value ==> t in Facts(s')
  {
    var s', fired := Fire(s, procedure).0, Fire(s, procedure).1;
    if fired.Ok? {
      var ids := procedure(s).reported;
      assert fired.value == ResolveAll(s'.nodes, s'.edges, ids);
      forall t | t in fired.value ensures t in Facts(s') {
        ResolveAllMember(s'.nodes, s'.edges, ids, t);
        var id :| id in ids && Resolve(s'.nodes, s'.edges, id) == Some(t);
        var e := FindEdge(s'.edges, id).value;
        var k :| 0 <= k < |s'.edges| && s'.edges[k] == e;
        EdgeIdListMember(s'.edges);
        assert EdgeIdList(s'.edges)[k] == id;
        ResolveAllMember(s'.nodes, s'.edges, EdgeIdList(s'.edges), t);
      }
    }
  }

  /** An edge the procedure inserts between stored nodes, and whose id it reports,
      comes back from a successful firing as its fact. */
  lemma FireReportsInserted(s: Store, procedure: Procedure, k: nat)
    requires Valid(s) && procedure(s).Fired? && Fire(s, procedure).1.Ok?
    requires k < |procedure(s).inserted| && s.nextEdge + k in procedure(s).reported
    ensures var d := procedure(s).inserted[k];
      DerivedTriple(s.nodes, d).Some? && DerivedTriple(s.nodes, d).value in Fire(s, procedure).1.value
  {
    var inserted, reported := procedure(s).inserted, procedure(s).reported;
    var d := inserted[k];
    var s' := InsertDerived(s, inserted);
    assert Linked(s.nodes, d) && Fire(s, procedure).1.value == ResolveAll(s'.nodes, s'.edges, reported) by {
      assert Dangling(s.nodes, inserted).None?;
    }
    var e := Edge(s.nextEdge + k, d.source, d.target, d.edgeType);
    assert s'.edges[|s.edges| + k] == e;
    assert EdgeIds(s'.edges, s'.nextEdge) by {
      InsertDerivedValid(s, inserted);
    }
    var j :| 0 <= j < |reported| && reported[j] == s.nextEdge + k;
    ResolveStored(s.nodes, s'.edges, s'.nextEdge, reported, |s.edges| + k, j);
  }

  // ---------------------------------------------------------------------------
  // Test cases

  /** The record of one test case: its id, a failure exactly when the case raises
      (with that error), and otherwise the containment verdict on what firing gave
      on the store the case prepared. */
  lemma RunCaseResult(s: Store, tc: TestCase, procedure: Procedure)
    ensures Reports(tc, CaseFiring(s, tc, procedure), RunCase(s, tc, procedure).1)
  {
  }

  /** The procedure, run on `s`, inserts as its `k`-th edge one between stored nodes
      whose fact is `t`, and reports that edge's id. */
  predicate InsertsReported(s: Store, procedure: Procedure, k: nat, t: Triple)
  {
    procedure(s).Fired? && k < |procedure(s).inserted| && s.nextEdge + k in procedure(s).reported &&
    DerivedTriple(s.nodes, procedure(s).inserted[k]) == Some(t)
  }

  /** A case whose expected output is one triple passes when the procedure inserts
      the edge of that triple between stored nodes and reports its id. */
  lemma InferencePasses(s: Store, tc: TestCase, procedure: Procedure, k: nat, t: Triple)
    requires Valid(s) && FactOf(tc.facts).Ok? && tc.rule.Some?
    requires CleanTriple(t) && tc.expected == Some(Render(t))
    requires CaseFiring(s, tc, procedure).Ok? && InsertsReported(Prepared(s, tc), procedure, k, t)
    ensures Passed(RunCase(s, tc, procedure).1)
  {
    PreparedValid(s, tc);
    FiredPasses(Prepared(s, tc), tc.expected, procedure, k, t);
    RanRecord(s, tc, procedure);
  }

  /** A test case that fires successfully and whose expected output parses runs to
      the end, and its record holds the verdict on what firing gave. */
  lemma RanRecord(s: Store, tc: TestCase, procedure: Procedure)
    requires FactOf(tc.facts).Ok? && tc.rule.Some? && CaseFiring(s, tc, procedure).Ok?
    requires Verify(tc.expected, CaseFiring(s, tc, procedure).value).Ok?
    ensures RunCase(s, tc, procedure).1 ==
      Ran(tc.testId, Verify(tc.expected, CaseFiring(s, tc, procedure).value).value, CaseFiring(s, tc, procedure).value, tc.expected.value)
  {
  }

  /** When the expected output is one triple that the procedure inserts between
      stored nodes and reports, the check on what firing gave passes. */
  lemma FiredPasses(s: Store, expected: Option<string>, procedure: Procedure, k: nat, t: Triple)
    requires Valid(s) && Fire(s, procedure).1.Ok? && InsertsReported(s, procedure, k, t)
    requires CleanTriple(t) && expected == Some(Render(t))
    ensures Verify(expected, Fire(s, procedure).1.value) == Ok(true)
  {
    FireReportsInserted(s, procedure, k);
    ExpectedSingle(t);
  }

  /** A test case that reaches firing fires on a valid store that holds the facts
      from before and its own fact. */
  lemma PreparedValid(s: Store, tc: TestCase)
    requires Valid(s) && FactOf(tc.facts).Ok? && tc.rule.Some?
    ensures Valid(Prepared(s, tc)) && Facts(Prepared(s, tc)) == Facts(s) + FactList(tc.facts)
  {
    var s1 := Ingest(s, tc.facts).0;
    IngestValid(s, tc.facts);
    assert Prepared(s, tc) == RegisterParts(s1, Split(tc.rule.value, RuleSeparator));
    RegisterPartsValid(s1, Split(tc.rule.value, RuleSeparator));
  }

  /** What one test case adds: the subject of its fact if the fact parsed, and its
      rules and classes if the fact parsed and the rule field is present, whether or
      not the case fails afterwards. */
  lemma RunCaseShape(s: Store, tc: TestCase, procedure: Procedure)
    ensures var s' := RunCase(s, tc, procedure).0;
      Entities(s'.nodes) == Entities(s.nodes) + Subjects(FactList(tc.facts)) &&
      Bodies(s'.rules) == Bodies(s.rules) + CaseBodies(tc) &&
      ClassLabels(s'.nodes) == ClassLabels(s.nodes) + CaseClasses(tc)
  {
    IngestLabels(s, tc.facts);
    if FactOf(tc.facts).Ok? {
      RegisterShape(Ingest(s, tc.facts).0, tc.rule);
      if tc.rule.Some? {
        FireShape(Prepared(s, tc), procedure);
      }
    }
  }

  /** Rolling the procedure's edges back, while its edge counter stays advanced, keeps
      the store valid and its facts those from before firing. */
  lemma RollbackValid(s: Store, s': Store)
    requires Valid(s) && s'.nodes == s.nodes && s'.rules == s.rules
    requires s'.nextNode == s.nextNode && s'.nextRule == s.nextRule && s.nextEdge <= s'.nextEdge
    ensures Valid(s'.(edges := s.edges)) && Facts(s'.(edges := s.edges)) == Facts(s)
  {
  }

  /** Once a test case has fired, the store stays valid and gains the facts the case
      commits: those of the procedure's edges when it runs to the end, none when the
      procedure failed or its edges were rolled back. */
  lemma FiredValid(s: Store, tc: TestCase, procedure: Procedure)
    requires FactOf(tc.facts).Ok? && tc.rule.Some? && Valid(Prepared(s, tc))
    ensures var s' := RunCase(s, tc, procedure).0;
      Valid(s') && Facts(s') == Facts(Prepared(s, tc)) + Inferred(s, tc, procedure)
  {
    var s2 := Prepared(s, tc);
    var s3, fired := Fire(s2, procedure).0, Fire(s2, procedure).1;
    FireValid(s2, procedure);
    if fired.Ok? && Verify(tc.expected, fired.value).Err? {
      FireShape(s2, procedure);
      RollbackValid(s2, s3);
      assert RunCase(s, tc, procedure).0 == s3.(edges := s2.edges);
    }
  }

  /** A test case whose fact does not parse, or whose rule field is missing, stops
      before firing: it leaves the store as ingestion left it and commits no derived
      fact. */
  lemma Unfired(s: Store, tc: TestCase, procedure: Procedure)
    requires FactOf(tc.facts).Err? || tc.rule.None?
    ensures RunCase(s, tc, procedure).0 == Ingest(s, tc.facts).0 && Inferred(s, tc, procedure) == []
  {
  }

  /** One test case keeps the store valid and adds its fact, if it parsed, and then
      the facts of the edges the procedure inserted, if the case ran to the end. */
  lemma RunCaseValid(s: Store, tc: TestCase, procedure: Procedure)
    requires Valid(s)
    ensures var s' := RunCase(s, tc, procedure).0;
      Valid(s') && Facts(s') == Facts(s) + FactList(tc.facts) + Inferred(s, tc, procedure)
  {
    var s1 := Ingest(s, tc.facts).0;
    assert Valid(s1) && Facts(s1) == Facts(s) + FactList(tc.facts) by {
      IngestValid(s, tc.facts);
    }
    if FactOf(tc.facts).Ok? && tc.rule.Some? {
      PreparedValid(s, tc);
      FiredValid(s, tc, procedure);
    } else {
      Unfired(s, tc, procedure);
      assert Facts(s1) + [] == Facts(s1);
    }
  }

  /** Running test cases yields one record per case, in order, each the one promised
      for its case given what firing gave on the store the cases before it left. */
  lemma {:induction false} RunAllResults(s: Store, cases: seq<TestCase>, procedure: Procedure)
    ensures var results := RunAll(s, cases, procedure).1;
      |results| == |cases| &&
      forall i :: 0 <= i < |cases| ==>
        Reports(cases[i], CaseFiring(RunAll(s, cases[..i], procedure).0, cases[i], procedure), results[i])
  {
    if cases != [] {
      var init, last := cases[..|cases| - 1], cases[|cases| - 1];
      RunAllResults(s, init, procedure);
      var s1, results1 := RunAll(s, init, procedure).0, RunAll(s, init, procedure).1;
      RunCaseResult(s1, last, procedure);
      var results := RunAll(s, cases, procedure).1;
      assert results == results1 + [RunCase(s1, last, procedure).1];
      forall i | 0 <= i < |cases|
        ensures Reports(cases[i], CaseFiring(RunAll(s, cases[..i], procedure).0, cases[i], procedure), results[i])
      {
        if i < |init| {
          assert cases[i] == init[i] && results[i] == results1[i] && cases[..i] == init[..i];
        } else {
          assert cases[..i] == init;
        }
      }
    }
  }

  /** The subjects of two lists of facts are those of the first, then the second. */
  lemma {:induction false} SubjectsAppend(a: seq<Triple>, b: seq<Triple>)
    ensures Subjects(a + b) == Subjects(a) + Subjects(b)
  {
    if b == [] {
      assert a + b == a;
    } else {
      SubjectsAppend(a, b[..|b| - 1]);
      assert (a + b)[..|a + b| - 1] == a + b[..|b| - 1];
    }
  }

  /** Running test cases adds the subject of every fact that parsed, in order. */
  lemma {:induction false} RunAllEntities(s: Store, cases: seq<TestCase>, procedure: Procedure)
    ensures Entities(RunAll(s, cases, procedure).0.nodes) == Entities(s.nodes) + Subjects(IngestedFacts(cases))
  {
    if cases != [] {
      var init, last := cases[..|cases| - 1], cases[|cases| - 1];
      RunAllEntities(s, init, procedure);
      var s1 := RunAll(s, init, procedure).0;
      assert RunAll(s, cases, procedure).0 == RunCase(s1, last, procedure).0;
      RunCaseShape(s1, last, procedure);
      SubjectsAppend(IngestedFacts(init), FactList(last.facts));
    }
  }

  /** Running test cases registers the rules of every case, in order. */
  lemma {:induction false} RunAllBodies(s: Store, cases: seq<TestCase>, procedure: Procedure)
    ensures Bodies(RunAll(s, cases, procedure).0.rules) == Bodies(s.rules) + RegisteredBodies(cases)
  {
    if cases != [] {
      var init, last := cases[..|cases| - 1], cases[|cases| - 1];
      var s1 := RunAll(s, init, procedure).0;
      assert Bodies(s1.rules) == Bodies(s.rules) + RegisteredBodies(init) by {
        RunAllBodies(s, init, procedure);
      }
      assert RunAll(s, cases, procedure).0 == RunCase(s1, last, procedure).0;
      assert Bodies(RunCase(s1, last, procedure).0.rules) == Bodies(s1.rules) + CaseBodies(last) by {
        RunCaseShape(s1, last, procedure);
      }
      var a, b, c := Bodies(s.rules), RegisteredBodies(init), CaseBodies(last);
      assert RegisteredBodies(cases) == b + c;
      Associative(a, b, c);
    }
  }

  /** Running test cases makes sure of the classes of every case. */
  lemma {:induction false} RunAllClasses(s: Store, cases: seq<TestCase>, procedure: Procedure)
    ensures ClassLabels(RunAll(s, cases, procedure).0.nodes) == ClassLabels(s.nodes) + RegisteredClasses(cases)
  {
    if cases != [] {
      var init, last := cases[..|cases| - 1], cases[|cases| - 1];
      RunAllClasses(s, init, procedure);
      var s1 := RunAll(s, init, procedure).0;
      assert RunAll(s, cases, procedure).0 == RunCase(s1, last, procedure).0;
      RunCaseShape(s1, last, procedure);
    }
  }

  /** Running test cases keeps the store valid and adds, case after case, the fact
      that parsed and the derived facts that were committed. */
  lemma {:induction false} RunAllValid(s: Store, cases: seq<TestCase>, procedure: Procedure)
    requires Valid(s)
    ensures var s' := RunAll(s, cases, procedure).0;
      Valid(s') && Facts(s') == Facts(s) + RunFacts(s, cases, procedure)
  {
    if cases != [] {
      var init, last := cases[..|cases| - 1], cases[|cases| - 1];
      var s1 := RunAll(s, init, procedure).0;
      assert Valid(s1) && Facts(s1) == Facts(s) + RunFacts(s, init, procedure) by {
        RunAllValid(s, init, procedure);
      }
      assert RunAll(s, cases, procedure).0 == RunCase(s1, last, procedure).0;
      RunCaseValid(s1, last, procedure);
      var a, b, c, d := Facts(s), RunFacts(s, init, procedure), FactList(last.facts), Inferred(s1, last, procedure);
      assert RunFacts(s, cases, procedure) == b + c + d;
      Associative(a, b, c);
      Associative(a, b + c, d);
    }
  }

  /** `run_benchmark` starts from an empty store, so there is one record per test
      case, each the one promised for its case, and what the store holds at the end
      is what the cases committed, in order. */
  lemma BenchmarkSpec(s: Store, cases: seq<TestCase>, procedure: Procedure)
    ensures var s', results := Benchmark(s, cases, procedure).0, Benchmark(s, cases, procedure).1;
      var s0 := Truncate(s);
      Valid(s') && |results| == |cases| &&
      (forall i :: 0 <= i < |cases| ==>
        Reports(cases[i], CaseFiring(RunAll(s0, cases[..i], procedure).0, cases[i], procedure), results[i])) &&
      Facts(s') == RunFacts(s0, cases, procedure) && Entities(s'.nodes) == Subjects(IngestedFacts(cases)) &&
      Bodies(s'.rules) == RegisteredBodies(cases) && ClassLabels(s'.nodes) == RegisteredClasses(cases)
  {
    var s0 := Truncate(s);
    RunAllResults(s0, cases, procedure);
    RunAllEntities(s0, cases, procedure);
    RunAllBodies(s0, cases, procedure);
    RunAllClasses(s0, cases, procedure);
    RunAllValid(s0, cases, procedure);
  }
}
