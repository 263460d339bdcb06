/** `RuleExecutor`: runs a rule benchmark against the graph store. Each test case
    ingests one input fact, registers the rule text, fires the rules through the
    store's `core_rule_fire()` procedure, and checks that every expected triple was
    reported. The executor keeps the store's three tables and its id counters as
    fields, and each method is proved to do what the matching function of `Pipeline`
    says. */
module Executor {
  import opened Text
  import opened Triples
  import opened RuleText
  import opened Graph
  import opened Pipeline

  class RuleExecutor {
    var nodes: seq<Node>
    var edges: seq<Edge>
    var rules: seq<Rule>
    var nextNodeId: nat
    var nextEdgeId: nat
    var nextRuleId: nat

    /** The tables and counters as one value. */
    function State(): Store
      reads this
    {
      Store(nodes, edges, rules, nextNodeId, nextEdgeId, nextRuleId)
    }

    /** An executor over an empty store whose id counters start at 1. */
    constructor ()
      ensures State() == Store([], [], [], 1, 1, 1) && Valid(State())
    {
      nodes, edges, rules := [], [], [];
      nextNodeId, nextEdgeId, nextRuleId := 1, 1, 1;
    }

    /** `TRUNCATE nodes, edges, rules CASCADE`: the tables are emptied, the counters
        keep their values. */
    method Reset()
      modifies this
      ensures State() == Truncate(old(State()))
      ensures Valid(State()) && Facts(State()) == [] && nextEdgeId == old(nextEdgeId)
    {
      nodes, edges, rules := [], [], [];
    }

    /** `ensure_class_node`: the id of the `Class` node labelled `name`, inserting one
        only when there is none. */
    method EnsureClassNode(name: string) returns (id: nat)
      modifies this
      ensures State() == EnsureClass(old(State()), name).0 && id == EnsureClass(old(State()), name).1
    {
      var found := FindClass(nodes, name);
      if found.Some? {
        id := found.value;
      } else {
        id := nextNodeId;
        nodes := nodes + [Node(id, Class, name)];
        nextNodeId := nextNodeId + 1;
      }
    }

    /** `ingest_facts`: parses the input fact; on success inserts a fresh `Entity` node
        for the subject, makes sure of the `Class` node for the object, and links them
        by an edge typed with the predicate. */
    method IngestFacts(facts: Option<string>) returns (err: Option<Error>)
      modifies this
      ensures State() == Ingest(old(State()), facts).0 && err == Ingest(old(State()), facts).1
    {
      if facts.None? {
        return Some(MissingField(FactsColumn));
      }
      var parsed := ParseFact(facts.value);
      if parsed.Err? {
        return Some(parsed.error);
      }
      var t := parsed.value;
      ghost var before := State();
      var subjectId := nextNodeId;
      nodes := nodes + [Node(subjectId, Entity, t.source)];
      nextNodeId := nextNodeId + 1;
      assert State() == WithSubject(before, t);
      var objectId := EnsureClassNode(t.target);
      edges := edges + [Edge(nextEdgeId, subjectId, objectId, t.edgeType)];
      nextEdgeId := nextEdgeId + 1;
      assert State() == AddFact(before, t);
      err := None;
    }

    /** `register_rule`: for every `;`-separated part that is not blank once trimmed,
        makes sure of a `Class` node for each class its `→`-segments name after
        `rdf:type`, then registers the trimmed part as an active subclass rule. */
    method RegisterRule(text: Option<string>) returns (err: Option<Error>)
      modifies this
      ensures State() == Register(old(State()), text).0 && err == Register(old(State()), text).1
    {
      if text.None? {
        return Some(MissingField(RuleColumn));
      }
      var parts := Split(text.value, RuleSeparator);
      for i := 0 to |parts|
        invariant State() == RegisterParts(old(State()), parts[..i])
      {
        ghost var before := State();
        assert RegisterParts(old(State()), parts[..i + 1]) == RegisterPart(before, parts[i]) by {
          assert parts[..i + 1][..i] == parts[..i];
        }
        var body := Trim(parts[i]);
        if body != [] {
          EnsureSegmentClasses(Split(body, Arrow));
          rules := rules + [Rule(nextRuleId, SubclassRule, body, true)];
          nextRuleId := nextRuleId + 1;
        }
      }
      assert parts[..|parts|] == parts;
      err := None;
    }

    /** The inner loop of `register_rule`: makes sure of the class each `→`-segment
        names after `rdf:type`, one segment after another. */
    method EnsureSegmentClasses(segments: seq<string>)
      modifies this
      ensures State() == EnsureSegments(old(State()), segments)
    {
      for j := 0 to |segments|
        invariant State() == EnsureSegments(old(State()), segments[..j])
      {
        assert segments[..j + 1][..j] == segments[..j];
        if HasMarker(segments[j]) {
          var _ := EnsureClassNode(MarkerLabel(segments[j]));
        }
      }
      assert segments[..|segments|] == segments;
    }

    /** `fire_rules`: calls the procedure, which inserts its derived edges into the
        store and reports edge ids, then looks up each reported id and collects the
        (source label, edge type, target label) triple of those found, skipping the
        others, in the order they were reported. The call fails, inserting nothing,
        when the procedure raises or one of its edges names a node that is not
        stored. */
    method FireRules(procedure: Procedure) returns (fired: Result<seq<Triple>>)
      modifies this
      ensures State() == Fire(old(State()), procedure).0 && fired == Fire(old(State()), procedure).1
      ensures fired.Ok? ==> forall t :: t in fired.value ==> t in Facts(State())
    {
      match procedure(State())
      case Raised(message) =>
        fired := Err(ProcedureRaised(message));
      case Fired(inserted, reported) =>
        var dangling := Dangling(nodes, inserted);
        if dangling.Some? {
          return Err(ForeignKey(dangling.value.source, dangling.value.target));
        }
        edges := edges + NewEdges(nextEdgeId, inserted);
        nextEdgeId := nextEdgeId + |inserted|;
        var results := [];
        for k := 0 to |reported|
          invariant results == ResolveAll(nodes, edges, reported[..k])
        {
          assert reported[..k + 1][..k] == reported[..k];
          match Resolve(nodes, edges, reported[k])
          case Some(t) =>
            results := results + [t];
          case None =>
        }
        assert reported[..|reported|] == reported;
        fired := Ok(results);
        FireStored(old(State()), procedure);
    }

    /** `verify_output`: parses the expected output and passes exactly when every
        expected triple is among the actual ones; extra actual triples do not matter. */
    method VerifyOutput(expected: Option<string>, actual: seq<Triple>) returns (r: Result<bool>)
      ensures r == Verify(expected, actual)
    {
      if expected.None? {
        return Err(MissingField(ExpectedColumn));
      }
      var parsed := ParseExpected(expected.value);
      if parsed.Err? {
        return Err(parsed.error);
      }
      var missing := Missing(parsed.value, actual);
      r := Ok(missing == {});
    }

    /** The body of `run_benchmark`'s loop for one test case: the pipeline, with any
        error turned into a failed record. Ingestion and registration commit as they
        go; the procedure's edges are committed when the case runs to the end and
        rolled back when checking the expected output raises. */
    method RunTestCase(tc: TestCase, procedure: Procedure) returns (res: BenchResult)
      modifies this
      ensures State() == RunCase(old(State()), tc, procedure).0 && res == RunCase(old(State()), tc, procedure).1
    {
      var err := IngestFacts(tc.facts);
      if err.Some? {
        return Failed(tc.testId, err.value);
      }
      err := RegisterRule(tc.rule);
      if err.Some? {
        return Failed(tc.testId, err.value);
      }
      var committed := edges;
      var fired := FireRules(procedure);
      if fired.Err? {
        return Failed(tc.testId, fired.error);
      }
      var verdict := VerifyOutput(tc.expected, fired.value);
      if verdict.Err? {
        edges := committed;
        return Failed(tc.testId, verdict.error);
      }
      res := Ran(tc.testId, verdict.value, fired.value, tc.expected.value);
    }

    /** `run_benchmark`: empties the store, then runs every test case in order. A case
        that raises gets a failed record and the run goes on, so there is one record
        per case; the store ends up holding what every case committed. */
    method RunBenchmark(cases: seq<TestCase>, procedure: Procedure) returns (results: seq<BenchResult>)
      modifies this
      ensures State() == Benchmark(old(State()), cases, procedure).0 && results == Benchmark(old(State()), cases, procedure).1
      ensures Valid(State()) && |results| == |cases|
      ensures forall i :: 0 <= i < |cases| ==>
        Reports(cases[i], CaseFiring(RunAll(Truncate(old(State())), cases[..i], procedure).0, cases[i], procedure), results[i])
      ensures Facts(State()) == RunFacts(Truncate(old(State())), cases, procedure)
      ensures Entities(nodes) == Subjects(IngestedFacts(cases))
      ensures Bodies(rules) == RegisteredBodies(cases) && ClassLabels(nodes) == RegisteredClasses(cases)
    {
      Reset();
      ghost var start := State();
      results := [];
      for i := 0 to |cases|
        invariant State() == RunAll(start, cases[..i], procedure).0 && results == RunAll(start, cases[..i], procedure).1
      {
        assert cases[..i + 1][..i] == cases[..i];
        var res := RunTestCase(cases[i], procedure);
        results := results + [res];
      }
      assert cases[..|cases|] == cases;
      BenchmarkSpec(old(State()), cases, procedure);
    }
  }
}
