# RuleExecutor: a verified model of the rule-benchmark executor

The executor runs an OWL-subclassing rule benchmark against a graph store of three
tables: nodes, edges and rules. For each test case it does four things:

1. It ingests one input fact `(subject, predicate, object)`. This appends a fresh
   `Entity` node for the subject, makes sure a `Class` node exists for the object, and
   links the two by an edge typed with the predicate.
2. It registers the rule text. Every non-blank `;`-separated part becomes an active
   `OWL_SUBCLASS` rule, after a `Class` node is made sure of for each class a
   `→`-segment names after `rdf:type`.
3. It fires the rules through the store's `core_rule_fire()` procedure. The procedure
   inserts the edges it derives and reports edge ids. The executor resolves those ids,
   in the store that now holds the new edges, to (source label, edge type, target
   label) triples.
4. It passes when every expected triple is among them. Extra triples do not matter.

A test case that raises gets a failed record, and the run goes on with the next case.
The derived edges are committed when a case runs to the end. When checking the expected
output raises, they are rolled back.

The model replaces the database with an in-memory store.

- `Pipeline` states every operation as a function on a `Store` value: the three tables
  plus their id counters.
- `Executor.RuleExecutor` is a class that holds the tables and counters as fields. Each
  of its methods does the work step by step, with loops where the source loops, and is
  proved to leave exactly the state the matching `Pipeline` function describes.
- The properties are proved as lemmas about those functions:
  - a store invariant: node and rule ids contiguous, edge ids increasing and below the
    counter, every edge's end nodes stored, at most one `Class` node per label, and
    every rule an active subclass rule;
  - the facts the store holds;
  - the entities, class labels and rule bodies each step adds;
  - the record each test case gets.

Modules, in dependency order:

| file | module | what it holds |
|---|---|---|
| text.dfy | `Text` | Python's `strip`, `strip('()')`, `split` and `in` on `seq<char>` |
| triples.dfy | `Triples` | parsing the input fact and the expected output; the containment verdict |
| rules.dfy | `RuleText` | the rule bodies and the class names a rule field yields |
| graph.dfy | `Graph` | rows, lookups, the store invariant, and edge-id resolution |
| pipeline.dfy | `Pipeline` | each executor operation as a function on the store, and what it preserves |
| executor.dfy | `Executor` | `class RuleExecutor` and its methods |

## Model

| member | source | states |
|---|---|---|
| Executor.RuleExecutor.constructor | system1/executor.py:11-13 | The executor starts over an empty store that satisfies the store invariant. |
| Executor.RuleExecutor.EnsureClassNode | system1/executor.py:15-41 | The new state and the returned id are exactly what `Pipeline.EnsureClass` gives. |
| Pipeline.EnsureClassShape | system1/executor.py:17-38 | The returned id is the id the label lookup then finds. A `Class` node with the next id is appended only when there was none, and the label then joins the class labels. Entities, edges and rules are untouched. |
| Pipeline.EnsureClassIdempotent | system1/executor.py:15-41 | A second call with the same label returns the same id and changes nothing. |
| Pipeline.EnsureClassCount | system1/executor.py:17-26 | Afterwards there is exactly one `Class` node with that label. |
| Pipeline.EnsureClassValid | system1/executor.py:15-41 | The store invariant, including at most one `Class` node per label, is preserved. The facts the store holds are unchanged. |
| Executor.RuleExecutor.IngestFacts | system1/executor.py:53-81 | The new state and the error outcome are exactly what `Pipeline.Ingest` gives. |
| Triples.ParseFact | system1/executor.py:56-60 | The fact parses if and only if the text between the stripped parentheses holds exactly two commas. Otherwise the error carries the field count. A parsed field is already stripped and holds no comma. |
| Triples.FactFieldsJoin | system1/executor.py:59 | Splitting at the commas loses nothing: the fields joined by commas give back the text between the stripped parentheses. |
| Triples.ParseFactTwoFields | system1/executor.py:59-60 | `(a, b)` fails with an arity error of two fields. |
| Triples.ParseFactRoundTrip | system1/executor.py:56-60 | A clean triple written as `(s, p, o)` parses back to itself. |
| Text.TrimStripped | system1/executor.py:56 | `strip()` leaves no whitespace at either end, and leaves such a string alone. |
| Text.TrimKeepsOut | system1/executor.py:60 | Stripping keeps out a character the field did not hold, and its result has no whitespace at either end. |
| Text.TrimIdempotent | system1/executor.py:87 | Stripping twice is stripping once. |
| Text.StripSlice | system1/executor.py:56-59 | `strip` keeps a contiguous slice of its input, starting after the dropped prefix. |
| Text.JoinSplit | system1/executor.py:59 | Joining the pieces of a split with the separator gives the string back. |
| Pipeline.IngestResult | system1/executor.py:53-81 | Ingestion fails exactly when the fact is missing or the text between its stripped parentheses does not hold two commas. Then the store is unchanged; otherwise it makes the inserts for the parsed fact. |
| Pipeline.AddFactShape | system1/executor.py:64-78 | The inserts for a fact append a fresh `Entity` node for the subject even if that label exists. They add a `Class` node for the object only when none exists, and append one edge from the subject node to the object's `Class` node typed with the predicate. Existing rows and rules stay as they were. |
| Pipeline.AddFactLabels | system1/executor.py:64-78 | The entities gain the subject. The class labels gain the object. |
| Pipeline.AddFactValid | system1/executor.py:64-78 | The store invariant is preserved, and the facts the store holds grow by exactly the ingested triple. |
| Pipeline.FactEdge | system1/executor.py:74-78 | The fact's edge, added between its stored subject and object nodes with the next edge id, keeps the store invariant and adds exactly that fact. |
| Pipeline.IngestLabels | system1/executor.py:53-81 | Ingestion adds the subject of the parsed fact to the entities and its object to the class labels. It adds no rules. |
| Pipeline.IngestValid | system1/executor.py:53-81 | Ingestion preserves the store invariant and adds exactly the parsed fact, if any, to the stored facts. |
| Executor.RuleExecutor.RegisterRule | system1/executor.py:83-103 | The new state and the error outcome are exactly what `Pipeline.Register` gives. The loop over `;`-parts is proved against `Pipeline.RegisterParts`. |
| Executor.RuleExecutor.EnsureSegmentClasses | system1/executor.py:90-94 | The inner loop over `→`-segments leaves exactly the state `Pipeline.EnsureSegments` describes. |
| Pipeline.EnsureSegmentsShape | system1/executor.py:90-94 | The class labels gain exactly the classes the segments name after `rdf:type`. Nothing but `Class` nodes is added. |
| Pipeline.EnsureSegmentsValid | system1/executor.py:90-94 | Making sure of the segments' classes preserves the store invariant and the stored facts. |
| Pipeline.RegisterPartsShape | system1/executor.py:86-100 | One rule body per part that is not blank once stripped, in order, is appended. The class labels gain the classes those bodies name. No entity or edge is added. |
| Pipeline.RegisterPartsValid | system1/executor.py:86-100 | Registering preserves the store invariant and the stored facts. |
| Pipeline.RegisterShape | system1/executor.py:83-103 | The only error is a missing rule field, which changes nothing. Otherwise the bodies registered are `RuleBodies` of the text and the classes made sure of are `RuleClasses`. |
| RuleText.RuleBodiesConcat | system1/executor.py:86-88 | Rules are registered in source order: two rule texts joined by `;` register the first one's bodies, then the second's. |
| RuleText.RuleBodiesBlank | system1/executor.py:86-88 | A rule field of only whitespace and `;` registers no rule. |
| RuleText.KeptPartsClean | system1/executor.py:86-88 | Every registered body is non-empty and has no surrounding whitespace. |
| RuleText.KeptPartsBound | system1/executor.py:86-88 | There is at most one rule per `;`-separated part. |
| RuleText.MarkerLabel | system1/executor.py:92-93 | The class label is already stripped and does not itself contain `rdf:type`. |
| RuleText.MarkerLabelOf | system1/executor.py:92-93 | In a segment with a single `rdf:type`, the label is exactly the text after it, stripped. |
| RuleText.MarkerLabelCut | system1/executor.py:93 | When `rdf:type` occurs again, the label is exactly the text between the first two occurrences, stripped: `split` cuts at the second one. |
| RuleText.RuleClassesMember | system1/executor.py:89-94 | A label is made sure of if and only if some registered body has a `→`-segment mentioning `rdf:type` that names it. |
| Executor.RuleExecutor.FireRules | system1/executor.py:105-152 | The new state and the result are exactly what `Pipeline.Fire` gives: the procedure's edges appended with fresh ids, then the reported ids resolved in that store. Every triple returned is a fact the store then holds. |
| Pipeline.FireResult | system1/executor.py:119-120 | Firing fails if and only if the procedure raises, with its message, or one of the edges it inserts names a node that is not stored, with that edge's ends. |
| Pipeline.FireShape | system1/executor.py:119-120 | Firing adds no node and no rule and only advances the edge counter. A failed firing changes nothing. |
| Pipeline.FireValid | system1/executor.py:119-120 | Firing keeps the store invariant. A successful firing adds exactly the facts of the inserted edges, in order; a failed one adds none. |
| Pipeline.FireReportsInserted | system1/executor.py:119-147 | An edge the procedure inserts and whose id it reports comes back from a successful firing as its (source label, edge type, target label) triple. |
| Pipeline.InsertEdge | system1/executor.py:119 | Appending one derived edge between stored nodes with the next edge id keeps the store invariant and adds exactly its fact. |
| Pipeline.InsertDerivedValid | system1/executor.py:119 | Appending derived edges between stored nodes keeps the store invariant and adds exactly their facts, in order. |
| Graph.Dangling | system1/executor.py:119 | It finds an inserted edge whose end nodes are not both stored if and only if there is one, and the edge it finds is such an edge. |
| Graph.DerivedTriple | system1/executor.py:129-146 | A derived edge has a fact if and only if both its end nodes are stored. |
| Graph.ResolveFound | system1/executor.py:129-150 | A resolved id names a stored edge whose two end nodes are stored and give the triple's labels. An id no edge carries resolves to nothing. |
| Graph.EdgeIdsOrder | system1/executor.py:119 | Edge ids are strictly increasing in insertion order and all below the counter. |
| Graph.FindEdgeStored | system1/executor.py:129-138 | With such ids, looking up a stored edge's id finds that very edge. |
| Graph.ResolveStored | system1/executor.py:125-147 | With such ids, a stored edge between stored nodes whose id is reported resolves to its triple among the results. |
| Graph.ResolveAllBound | system1/executor.py:125-152 | Resolution gives at most one triple per reported id, and exactly one per id when all of them resolve. |
| Graph.ResolveAllMember | system1/executor.py:125-152 | A triple is returned if and only if some reported id resolves to it. Ids that do not resolve are skipped. |
| Graph.ResolveAllAppend | system1/executor.py:125-152 | Resolution keeps the order of the ids. |
| Pipeline.FireStored | system1/executor.py:125-152 | Whatever ids the procedure reports, every returned triple is one of the facts the store holds once the procedure's edges are in. |
| Triples.ParseExpected | system1/executor.py:154-162 | The loop over the regex groups returns exactly `ExpectedTriples` of the text, including its first arity error. |
| Triples.Groups | system1/executor.py:157 | Every group the scan finds is already stripped and holds no `)`. |
| Triples.GroupTriple | system1/executor.py:158-160 | A group parses if and only if it holds exactly two commas. Otherwise the error names the group. A parsed field is already stripped and holds no comma. |
| Triples.TriplesOfOk | system1/executor.py:157-161 | Parsing succeeds if and only if every group has three comma-separated fields. |
| Triples.TriplesOfMember | system1/executor.py:157-161 | On success, a triple is in the set if and only if some group parses to it. |
| Triples.TriplesOfError | system1/executor.py:157-160 | On failure, the error names the first group whose arity is not three. |
| Triples.GroupsSkip | system1/executor.py:157 | Text before the first `(` contributes no group: `findall` skips text outside the parentheses. |
| Triples.GroupsOfParenthesised | system1/executor.py:157 | Groups written one after another are found one by one, in order, stripped. |
| Triples.TriplesOfTwo | system1/executor.py:157-161 | Two groups that parse give the set of their two triples. |
| Triples.ExpectedTwoGroups | system1/executor.py:154-162 | `(a,b,c)(d,e,f)` gives the two-element set of those triples. |
| Triples.ExpectedRoundTrip | system1/executor.py:154-162 | Clean triples written one after another as `(s, p, o)` parse back to exactly the set of those triples. |
| Triples.ExpectedSingle | system1/executor.py:154-162 | One clean triple written as `(s, p, o)` parses back to the set holding just that triple. |
| Executor.RuleExecutor.VerifyOutput | system1/executor.py:164-176 | The verdict is exactly `Pipeline.Verify`. |
| Pipeline.Verify | system1/executor.py:164-176 | It fails if and only if the expected field is missing or unparsable, with that error. Otherwise it passes if and only if every expected triple is among the actual ones. |
| Triples.Passes | system1/executor.py:172-176 | It passes if and only if the missing set `expected - actual` is empty, that is, every expected triple is actual. |
| Triples.PassesMonotone | system1/executor.py:172-176 | Adding actual triples keeps a pass a pass. |
| Triples.ContainmentNotEquality | system1/executor.py:172-176 | An extra actual triple is ignored. A missing expected one fails with exactly that triple missing. |
| Executor.RuleExecutor.RunTestCase | system1/executor.py:199-223 | The new state and the record of one case are exactly what `Pipeline.RunCase` gives: the procedure's edges are kept when the case runs to the end (the commit) and dropped when checking the expected output raises (the rollback). |
| Pipeline.RunCaseResult | system1/executor.py:199-223 | The record carries the case's id. It is a failure, with that error, if and only if the case raises: a bad fact, a missing rule field, a procedure that raises or inserts a dangling edge, a missing or unparsable expected output. Otherwise it holds the containment verdict on the fired triples and the expected text. |
| Pipeline.InferencePasses | system1/executor.py:199-213 | A case whose expected output is one triple passes when the procedure inserts that triple's edge between stored nodes and reports its id. |
| Pipeline.RunCaseShape | system1/executor.py:199-203 | A case adds the subject of its parsed fact, and the bodies and classes of its rules when the fact parsed. This holds whether or not a later step fails. |
| Pipeline.RunCaseValid | system1/executor.py:199-223 | A case preserves the store invariant. The stored facts gain its parsed fact, then the facts of the procedure's edges if the case ran to the end. |
| Pipeline.PreparedValid | system1/executor.py:200-201 | A case that reaches firing fires on a valid store holding the facts from before and its own fact. |
| Pipeline.FiredPasses | system1/executor.py:202-203 | When the expected output is one triple that the procedure inserts between stored nodes and reports, the containment check passes. |
| Pipeline.RanRecord | system1/executor.py:202-213 | A case that fires successfully and whose expected output parses runs to the end, and its record holds that verdict, the fired triples and the expected text. |
| Pipeline.FiredValid | system1/executor.py:202-217 | Once a case has fired, the store stays valid and gains exactly the derived facts the case commits: none if firing failed or the edges were rolled back. |
| Pipeline.Unfired | system1/executor.py:200-201 | A case whose fact does not parse or whose rule field is missing stops before firing, leaves the store as ingestion left it and commits no derived fact. |
| Pipeline.RollbackValid | system1/executor.py:215-217 | Dropping the procedure's edges while the edge counter stays advanced keeps the store invariant and restores the facts from before firing. |
| Pipeline.RunAllResults | system1/executor.py:192-225 | One record per case, in order, each the one promised for its case given what firing gave on the store the cases before it left. |
| Pipeline.RunAllEntities | system1/executor.py:192-225 | The cases add the subjects of every parsed fact, in order. |
| Pipeline.RunAllBodies | system1/executor.py:192-225 | The cases register the rules of every case that reached registration, in order. |
| Pipeline.RunAllClasses | system1/executor.py:192-225 | The class labels gain the classes of every case that reached them. |
| Pipeline.RunAllValid | system1/executor.py:192-225 | The cases keep the store invariant and add, case after case, the parsed fact and the derived facts committed. |
| Pipeline.Truncate | system1/executor.py:184-186 | Truncation leaves a valid store with no facts, entities, classes or rules, and keeps the three counters. |
| Executor.RuleExecutor.Reset | system1/executor.py:184-186 | The new state is exactly `Pipeline.Truncate` of the old one: valid, no facts, the edge counter kept. |
| Pipeline.BenchmarkSpec | system1/executor.py:178-225 | After the truncation and the loop, the following hold. The store invariant holds. There is one record per case, each as promised. The stored facts are exactly what the cases committed, in order: each parsed fact, then the derived facts of each case that ran to the end. The entities are the subjects of the parsed facts. The rule bodies are the registered ones. The class labels are the registered classes. |
| Executor.RuleExecutor.RunBenchmark | system1/executor.py:178-225 | The method leaves exactly the state and records `Pipeline.Benchmark` describes, and so has every property of `Pipeline.BenchmarkSpec`. |

## Left out

- The database connection, the SQL text, the JSON encoding of node properties, and `close()`. The store is an in-memory value, and its node label is a plain field.
- The internals of the `core_rule_fire()` procedure. It is a parameter `procedure` from the store to what the call does: it raises with a message, or it inserts derived edges and reports edge ids. Nodes or rules it might insert, and any change it makes to existing rows, are not modelled.
- The edge-counter values consumed by a procedure call that raises. A failed statement inserts nothing, but the sequence may still have advanced. The model leaves the counter unchanged then; ids stay increasing either way.
- The active-rule count and listing in `fire_rules`, and all logging. They only produce diagnostics.
- Commit and rollback beyond the procedure's inserts. Ingestion and registration each commit before anything later can raise, so the rollback undoes only the procedure's edges. No per-test atomicity is claimed.
- A failure of `TRUNCATE`: the store is always cleared.
- The SERIAL counters are not restarted by `TRUNCATE`, which matches `TRUNCATE … CASCADE` without `RESTART IDENTITY`. The constructor starts them at 1 over an empty store, standing in for a freshly created schema.
- `load_benchmark_data` and the `__main__` block, which are file I/O. Test cases are a parameter. A cell absent from a short CSV row is `None` for `csv.DictReader`, and the model treats it as `None` too: the step that first uses the cell fails. A CSV whose header lacks a column is not modelled. Such a file makes the logging lines raise `KeyError` before any step runs, and makes the error handler itself raise on a missing `Test ID`.
- The exception messages. An error is a value naming its kind: a missing field, a fact arity, an unparsable expected group, a procedure that raised (with its message), or a derived edge whose end nodes are not stored.
- runners/run_benchmarks.py is not part of this model. It only handles paths, report writing and JSON output around `run_benchmark`.
- The duplicate-class race of `ensure_class_node`, where two sessions insert concurrently. The store has a single writer.
