/** The graph store the executor writes to, as three tables of rows: nodes, edges and
    rules. Row ids come from per-table counters that only grow; the lookups here are
    the queries the executor runs against the tables. */
module Graph {
  import opened Text
  import opened Triples

  datatype NodeType = Entity | Class

  /** A node row: its id, its type and the `label` of its properties. */
  datatype Node = Node(id: nat, nodeType: NodeType, name: string)

  /** An edge row: from node `source` to node `target`. */
  datatype Edge = Edge(id: nat, source: nat, target: nat, edgeType: string)

  /** A rule row. */
  datatype Rule = Rule(id: nat, ruleType: string, body: string, isActive: bool)

  /** The rule type every registered rule gets. */
  const SubclassRule: string := "OWL_SUBCLASS"

  /** The node with id `id`, if any (the first one, of which there is at most one in
      a valid store). */
  function FindNode(nodes: seq<Node>, id: int): (r: Option<Node>)
    ensures r.Some? ==> r.value in nodes && r.value.id == id
    ensures r.None? ==> forall n :: n in nodes ==> n.id != id
  {
    if nodes == [] then None
    else if nodes[0].id == id then Some(nodes[0])
    else FindNode(nodes[1..], id)
  }

  /** The edge with id `id`, if any. */
  function FindEdge(edges: seq<Edge>, id: int): (r: Option<Edge>)
    ensures r.Some? ==> r.value in edges && r.value.id == id
    ensures r.None? ==> forall e :: e in edges ==> e.id != id
  {
    if edges == [] then None
    else if edges[0].id == id then Some(edges[0])
    else FindEdge(edges[1..], id)
  }

  /** The id of the `Class` node labelled `name`, if there is one. */
  function FindClass(nodes: seq<Node>, name: string): (r: Option<nat>)
    ensures r.Some? ==> Node(r.value, Class, name) in nodes
    ensures r.None? ==> forall n :: n in nodes ==> n.nodeType != Class || n.name != name
  {
    if nodes == [] then None
    else if nodes[0].nodeType == Class && nodes[0].name == name then Some(nodes[0].id)
    else FindClass(nodes[1..], name)
  }

  /** Rows appended after the ones a lookup already finds do not change its answer;
      if it finds nothing, the answer is that of the appended rows. */
  lemma {:induction false} FindNodeAppend(a: seq<Node>, b: seq<Node>, id: int)
    ensures FindNode(a + b, id) == if FindNode(a, id).Some? then FindNode(a, id) else FindNode(b, id)
  {
    if a == [] {
      assert a + b == b;
    } else {
      assert (a + b)[1..] == a[1..] + b;
      FindNodeAppend(a[1..], b, id);
    }
  }

  lemma {:induction false} FindEdgeAppend(a: seq<Edge>, b: seq<Edge>, id: int)
    ensures FindEdge(a + b, id) == if FindEdge(a, id).Some? then FindEdge(a, id) else FindEdge(b, id)
  {
    if a == [] {
      assert a + b == b;
    } else {
      assert (a + b)[1..] == a[1..] + b;
      FindEdgeAppend(a[1..], b, id);
    }
  }

  lemma {:induction false} FindClassAppend(a: seq<Node>, b: seq<Node>, name: string)
    ensures FindClass(a + b, name) == if FindClass(a, name).Some? then FindClass(a, name) else FindClass(b, name)
  {
    if a == [] {
      assert a + b == b;
    } else {
      assert (a + b)[1..] == a[1..] + b;
      FindClassAppend(a[1..], b, name);
    }
  }

  /** Row ids as a SERIAL column hands them out when only inserts and truncation
      happen: the rows hold the block of ids just below the counter's next value, in
      insertion order (truncation empties the table without restarting the counter). */
  predicate NodeIds(nodes: seq<Node>, next: nat)
  {
    |nodes| <= next && forall i :: 0 <= i < |nodes| ==> nodes[i].id == next - |nodes| + i
  }

  /** Edge ids: increasing in insertion order and all below the counter's next value.
      Edges the rule procedure inserts can be rolled back while the counter, being a
      sequence, keeps its advance, so the ids need not form a block. */
  predicate EdgeIds(edges: seq<Edge>, next: nat)
  {
    edges == [] || (edges[|edges| - 1].id < next && EdgeIds(edges[..|edges| - 1], edges[|edges| - 1].id))
  }

  /** Such ids lie below the counter and increase from each edge to every later one. */
  lemma {:induction false} EdgeIdsOrder(edges: seq<Edge>, next: nat)
    requires EdgeIds(edges, next)
    ensures forall i :: 0 <= i < |edges| ==> edges[i].id < next
    ensures forall i, j :: 0 <= i < j < |edges| ==> edges[i].id < edges[j].id
  {
    if edges != [] {
      var init := edges[..|edges| - 1];
      EdgeIdsOrder(init, edges[|edges| - 1].id);
      assert forall i :: 0 <= i < |init| ==> edges[i] == init[i];
    }
  }

  predicate RuleIds(rules: seq<Rule>, next: nat)
  {
    |rules| <= next && forall i :: 0 <= i < |rules| ==> rules[i].id == next - |rules| + i
  }

  /** With such ids, looking a stored node up by its id finds that node. */
  lemma {:induction false} FindNodeStored(nodes: seq<Node>, next: nat, n: Node)
    requires NodeIds(nodes, next) && n in nodes
    ensures FindNode(nodes, n.id) == Some(n)
  {
    if nodes[0] != n {
      var k :| 0 <= k < |nodes| && nodes[k] == n;
      assert k != 0 && nodes[0].id < nodes[k].id;
      assert nodes[1..][k - 1] == n;
      FindNodeStored(nodes[1..], next, n);
    }
  }

  /** With such ids, looking a stored edge up by its id finds that edge. */
  lemma FindEdgeStored(edges: seq<Edge>, next: nat, k: nat)
    requires EdgeIds(edges, next) && k < |edges|
    ensures FindEdge(edges, edges[k].id) == Some(edges[k])
  {
    EdgeIdsOrder(edges, next);
    FindEdgeIncreasing(edges, k);
  }

  /** With such ids, a stored edge between stored nodes whose id is among `ids`
      resolves, among them, to the labels of its end nodes and its type. */
  lemma ResolveStored(nodes: seq<Node>, edges: seq<Edge>, next: nat, ids: seq<int>, k: nat, j: nat)
    requires EdgeIds(edges, next) && k < |edges| && j < |ids| && ids[j] == edges[k].id
    requires FindNode(nodes, edges[k].source).Some? && FindNode(nodes, edges[k].target).Some?
    ensures Triple(FindNode(nodes, edges[k].source).value.name, edges[k].edgeType, FindNode(nodes, edges[k].target).value.name)
      in ResolveAll(nodes, edges, ids)
  {
    var e := edges[k];
    var t := Triple(FindNode(nodes, e.source).value.name, e.edgeType, FindNode(nodes, e.target).value.name);
    FindEdgeStored(edges, next, k);
    assert ids[j] in ids && Resolve(nodes, edges, ids[j]) == Some(t);
    ResolveAllMember(nodes, edges, ids, t);
  }

  /** The same, for ids that increase along the sequence. */
  lemma {:induction false} FindEdgeIncreasing(edges: seq<Edge>, k: nat)
    requires forall i, j :: 0 <= i < j < |edges| ==> edges[i].id < edges[j].id
    requires k < |edges|
    ensures FindEdge(edges, edges[k].id) == Some(edges[k])
  {
    if k != 0 {
      assert edges[0].id < edges[k].id;
      forall i, j | 0 <= i < j < |edges[1..]| ensures edges[1..][i].id < edges[1..][j].id {
        assert edges[1..][i] == edges[i + 1] && edges[1..][j] == edges[j + 1];
      }
      assert edges[1..][k - 1] == edges[k];
      FindEdgeIncreasing(edges[1..], k - 1);
    }
  }

  /** At most one `Class` node per label. */
  predicate ClassUnique(nodes: seq<Node>)
  {
    forall i, j :: 0 <= i < j < |nodes| && nodes[i].nodeType == Class && nodes[j].nodeType == Class ==>
      nodes[i].name != nodes[j].name
  }

  /** The number of `Class` nodes labelled `name`. */
  function ClassCount(nodes: seq<Node>, name: string): nat
  {
    if nodes == [] then 0
    else (if nodes[0].nodeType == Class && nodes[0].name == name then 1 else 0) + ClassCount(nodes[1..], name)
  }

  /** In a store with unique class labels there is exactly one `Class` node for a label
      that the lookup finds, and none for any other. */
  lemma {:induction false} ClassCountUnique(nodes: seq<Node>, name: string)
    requires ClassUnique(nodes)
    ensures ClassCount(nodes, name) == if FindClass(nodes, name).Some? then 1 else 0
  {
    if nodes != [] {
      var rest := nodes[1..];
      assert ClassUnique(rest) by {
        forall i, j | 0 <= i < j < |rest| && rest[i].nodeType == Class && rest[j].nodeType == Class
          ensures rest[i].name != rest[j].name
        {
          assert rest[i] == nodes[i + 1] && rest[j] == nodes[j + 1];
        }
      }
      ClassCountUnique(rest, name);
      assert nodes[0].nodeType == Class && nodes[0].name == name ==> FindClass(rest, name).None?;
    }
  }

  /** The labels of the `Class` nodes. */
  function ClassLabels(nodes: seq<Node>): set<string>
  {
    if nodes == [] then {}
    else
      var last := nodes[|nodes| - 1];
      ClassLabels(nodes[..|nodes| - 1]) + (if last.nodeType == Class then {last.name} else {})
  }

  /** The class lookup succeeds exactly for the labels of `Class` nodes. */
  lemma {:induction false} FindClassLabels(nodes: seq<Node>, name: string)
    ensures FindClass(nodes, name).Some? <==> name in ClassLabels(nodes)
  {
    if nodes != [] {
      var init, last := nodes[..|nodes| - 1], nodes[|nodes| - 1];
      FindClassLabels(init, name);
      FindClassAppend(init, [last], name);
      assert init + [last] == nodes;
    }
  }

  /** Appending a node adds its label to the class labels when it is a class node. */
  lemma ClassLabelsAppend(nodes: seq<Node>, n: Node)
    ensures ClassLabels(nodes + [n]) == ClassLabels(nodes) + (if n.nodeType == Class then {n.name} else {})
  {
    assert (nodes + [n])[..|nodes|] == nodes;
  }

  /** The labels of the `Entity` nodes, in insertion order (repeats included). */
  function Entities(nodes: seq<Node>): seq<string>
  {
    if nodes == [] then []
    else
      var last := nodes[|nodes| - 1];
      Entities(nodes[..|nodes| - 1]) + (if last.nodeType == Entity then [last.name] else [])
  }

  lemma {:induction false} EntitiesAppend(a: seq<Node>, b: seq<Node>)
    ensures Entities(a + b) == Entities(a) + Entities(b)
  {
    if b == [] {
      assert a + b == a;
    } else {
      EntitiesAppend(a, b[..|b| - 1]);
      assert (a + b)[..|a + b| - 1] == a + b[..|b| - 1];
    }
  }

  /** The bodies of the rules, in registration order. */
  function Bodies(rules: seq<Rule>): seq<string>
  {
    if rules == [] then [] else Bodies(rules[..|rules| - 1]) + [rules[|rules| - 1].body]
  }

  lemma BodiesAppend(rules: seq<Rule>, r: Rule)
    ensures Bodies(rules + [r]) == Bodies(rules) + [r.body]
  {
    assert (rules + [r])[..|rules|] == rules;
  }

  /** The `fire_rules` join for one edge id: the labels of the edge's two end nodes and
      its type, or nothing when the edge or one of its nodes is not in the store. */
  function Resolve(nodes: seq<Node>, edges: seq<Edge>, id: int): Option<Triple>
  {
    match FindEdge(edges, id)
    case None => None
    case Some(e) =>
      match (FindNode(nodes, e.source), FindNode(nodes, e.target))
      case (Some(s), Some(t)) => Some(Triple(s.name, e.edgeType, t.name))
      case _ => None
  }

  /** A resolved id names a stored edge whose two end nodes are stored and give the
      triple's labels; an id no edge carries resolves to nothing. */
  lemma ResolveFound(nodes: seq<Node>, edges: seq<Edge>, id: int)
    ensures Resolve(nodes, edges, id).Some? ==>
      exists e :: e in edges && e.id == id && FindNode(nodes, e.source).Some? && FindNode(nodes, e.target).Some? &&
        Resolve(nodes, edges, id).value == Triple(FindNode(nodes, e.source).value.name, e.edgeType, FindNode(nodes, e.target).value.name)
    ensures (forall e :: e in edges ==> e.id != id) ==> Resolve(nodes, edges, id).None?
  {
  }

  /** The triples of the edge ids that resolve, in the order of the ids. */
  function ResolveAll(nodes: seq<Node>, edges: seq<Edge>, ids: seq<int>): seq<Triple>
  {
    if ids == [] then []
    else
      var last := ids[|ids| - 1];
      ResolveAll(nodes, edges, ids[..|ids| - 1]) +
        (match Resolve(nodes, edges, last) case Some(t) => [t] case None => [])
  }

  /** Resolution keeps the order of the ids: resolving two lists of ids one after the
      other is resolving the first, then the second. */
  lemma {:induction false} ResolveAllAppend(nodes: seq<Node>, edges: seq<Edge>, a: seq<int>, b: seq<int>)
    ensures ResolveAll(nodes, edges, a + b) == ResolveAll(nodes, edges, a) + ResolveAll(nodes, edges, b)
  {
    if b == [] {
      assert a + b == a;
    } else {
      ResolveAllAppend(nodes, edges, a, b[..|b| - 1]);
      assert (a + b)[..|a + b| - 1] == a + b[..|b| - 1];
    }
  }

  /** At most one triple per id, and exactly one per id when every id resolves. */
  lemma {:induction false} ResolveAllBound(nodes: seq<Node>, edges: seq<Edge>, ids: seq<int>)
    ensures |ResolveAll(nodes, edges, ids)| <= |ids|
    ensures (forall k :: 0 <= k < |ids| ==> Resolve(nodes, edges, ids[k]).Some?) ==>
      |ResolveAll(nodes, edges, ids)| == |ids|
  {
    if ids != [] {
      ResolveAllBound(nodes, edges, ids[..|ids| - 1]);
    }
  }

  /** A triple is returned exactly when some given id resolves to it; ids that do not
      resolve contribute nothing. */
  lemma {:induction false} ResolveAllMember(nodes: seq<Node>, edges: seq<Edge>, ids: seq<int>, t: Triple)
    ensures t in ResolveAll(nodes, edges, ids) <==> exists id :: id in ids && Resolve(nodes, edges, id) == Some(t)
  {
    if ids != [] {
      var init, last := ids[..|ids| - 1], ids[|ids| - 1];
      ResolveAllMember(nodes, edges, init, t);
      assert ids == init + [last];
      assert forall id :: id in ids <==> id in init || id == last;
    }
  }

  /** Ids that resolve to the same thing in two stores give the same triples. */
  lemma {:induction false} ResolveAllSame(nodes: seq<Node>, edges: seq<Edge>, nodes': seq<Node>, edges': seq<Edge>, ids: seq<int>)
    requires forall k :: 0 <= k < |ids| ==> Resolve(nodes', edges', ids[k]) == Resolve(nodes, edges, ids[k])
    ensures ResolveAll(nodes', edges', ids) == ResolveAll(nodes, edges, ids)
  {
    if ids != [] {
      ResolveAllSame(nodes, edges, nodes', edges', ids[..|ids| - 1]);
    }
  }

  /** The ids of the edges, in insertion order. */
  function EdgeIdList(edges: seq<Edge>): seq<int>
  {
    if edges == [] then [] else EdgeIdList(edges[..|edges| - 1]) + [edges[|edges| - 1].id]
  }

  /** Every stored edge as the triple `fire_rules` would report for it: the facts the
      store holds. */
  function Stored(nodes: seq<Node>, edges: seq<Edge>): seq<Triple>
  {
    ResolveAll(nodes, edges, EdgeIdList(edges))
  }

  /** Every edge's end nodes are in the store (the foreign keys of the edge table):
      with node ids as `NodeIds` describes, their ids lie in the block the nodes hold. */
  predicate EdgesLinked(nodes: seq<Node>, edges: seq<Edge>, nextNode: nat)
  {
    forall e :: e in edges ==>
      nextNode - |nodes| <= e.source < nextNode && nextNode - |nodes| <= e.target < nextNode
  }

  /** A node id is found exactly when it lies in the block of stored ids, and then the
      node found is the one at the matching position. */
  lemma FindNodeId(nodes: seq<Node>, next: nat, id: int)
    requires NodeIds(nodes, next)
    ensures FindNode(nodes, id).Some? <==> next - |nodes| <= id < next
    ensures FindNode(nodes, id).Some? ==> FindNode(nodes, id) == Some(nodes[id - (next - |nodes|)])
  {
    if next - |nodes| <= id < next {
      FindNodeStored(nodes, next, nodes[id - (next - |nodes|)]);
    }
  }

  /** An edge the rule procedure inserts: its end nodes and its type. Its id comes
      from the edge counter. */
  datatype Derived = Derived(source: nat, target: nat, edgeType: string)

  /** Both end nodes of `d` are stored: the foreign keys of the edge table hold. */
  predicate Linked(nodes: seq<Node>, d: Derived)
  {
    FindNode(nodes, d.source).Some? && FindNode(nodes, d.target).Some?
  }

  /** The fact a derived edge stands for, when both its end nodes are stored: their
      labels and its type. */
  function DerivedTriple(nodes: seq<Node>, d: Derived): (r: Option<Triple>)
    ensures r.Some? <==> Linked(nodes, d)
  {
    if Linked(nodes, d) then Some(Triple(FindNode(nodes, d.source).value.name, d.edgeType, FindNode(nodes, d.target).value.name))
    else None
  }

  /** The first of some derived edges whose foreign keys do not hold, if any. */
  function Dangling(nodes: seq<Node>, inserted: seq<Derived>): (r: Option<Derived>)
    ensures r.None? <==> forall k :: 0 <= k < |inserted| ==> Linked(nodes, inserted[k])
    ensures r.Some? ==> r.value in inserted && !Linked(nodes, r.value)
  {
    if inserted == [] then None
    else if !Linked(nodes, inserted[0]) then Some(inserted[0])
    else
      var r := Dangling(nodes, inserted[1..]);
      assert forall k :: 1 <= k < |inserted| ==> inserted[k] == inserted[1..][k - 1];
      r
  }

  /** What every executor operation keeps true of the store. */
  predicate StoreValid(nodes: seq<Node>, edges: seq<Edge>, rules: seq<Rule>, nextNode: nat, nextEdge: nat, nextRule: nat)
  {
    NodeIds(nodes, nextNode) && EdgeIds(edges, nextEdge) && RuleIds(rules, nextRule) &&
    EdgesLinked(nodes, edges, nextNode) && ClassUnique(nodes) &&
    forall r :: r in rules ==> r.ruleType == SubclassRule && r.isActive
  }

  /** Adding nodes with the next ids never changes what a stored edge resolves to. */
  lemma StoredGrowNodes(nodes: seq<Node>, edges: seq<Edge>, next: nat, extra: seq<Node>)
    requires NodeIds(nodes, next) && EdgesLinked(nodes, edges, next)
    ensures EdgesLinked(nodes + extra, edges, next + |extra|)
    ensures Stored(nodes + extra, edges) == Stored(nodes, edges)
  {
    forall e | e in edges
      ensures FindNode(nodes + extra, e.source) == FindNode(nodes, e.source)
      ensures FindNode(nodes + extra, e.target) == FindNode(nodes, e.target)
    {
      FindNodeId(nodes, next, e.source);
      FindNodeId(nodes, next, e.target);
      FindNodeAppend(nodes, extra, e.source);
      FindNodeAppend(nodes, extra, e.target);
    }
    var ids := EdgeIdList(edges);
    EdgeIdListMember(edges);
    forall k | 0 <= k < |ids| ensures Resolve(nodes + extra, edges, ids[k]) == Resolve(nodes, edges, ids[k]) {
      assert FindEdge(edges, ids[k]).Some?;
    }
    ResolveAllSame(nodes, edges, nodes + extra, edges, ids);
  }

  /** Every listed id is the id of a stored edge. */
  lemma {:induction false} EdgeIdListMember(edges: seq<Edge>)
    ensures |EdgeIdList(edges)| == |edges|
    ensures forall k :: 0 <= k < |edges| ==> EdgeIdList(edges)[k] == edges[k].id
  {
    if edges != [] {
      EdgeIdListMember(edges[..|edges| - 1]);
    }
  }

  /** Adding an edge with a fresh id whose end nodes are stored adds exactly its triple
      to the stored facts. */
  lemma StoredAddEdge(nodes: seq<Node>, edges: seq<Edge>, e: Edge, next: nat)
    requires EdgeIds(edges, next) && e.id == next
    requires FindNode(nodes, e.source).Some? && FindNode(nodes, e.target).Some?
    ensures Stored(nodes, edges + [e]) ==
      Stored(nodes, edges) + [Triple(FindNode(nodes, e.source).value.name, e.edgeType, FindNode(nodes, e.target).value.name)]
  {
    var ids := EdgeIdList(edges);
    EdgeIdsOrder(edges, next);
    assert (edges + [e])[..|edges|] == edges;
    assert EdgeIdList(edges + [e]) == ids + [e.id];
    EdgeIdListMember(edges);
    forall k | 0 <= k < |ids| ensures Resolve(nodes, edges + [e], ids[k]) == Resolve(nodes, edges, ids[k]) {
      assert FindEdge(edges, ids[k]).Some?;
      FindEdgeAppend(edges, [e], ids[k]);
    }
    ResolveAllSame(nodes, edges, nodes, edges + [e], ids);
    FindEdgeAppend(edges, [e], e.id);
    assert ResolveAll(nodes, edges + [e], [e.id]) == [Triple(FindNode(nodes, e.source).value.name, e.edgeType, FindNode(nodes, e.target).value.name)];
    ResolveAllAppend(nodes, edges + [e], ids, [e.id]);
  }

  /** Appending a node with the next id keeps the store valid, provided a class node
      is only added for a label that has none; the stored facts are unchanged and the
      node's label joins the entity list or the class labels. */
  lemma AddNode(nodes: seq<Node>, edges: seq<Edge>, rules: seq<Rule>, nN: nat, nE: nat, nR: nat, n: Node)
    requires StoreValid(nodes, edges, rules, nN, nE, nR) && n.id == nN
    requires n.nodeType == Class ==> FindClass(nodes, n.name).None?
    ensures StoreValid(nodes + [n], edges, rules, nN + 1, nE, nR)
    ensures Stored(nodes + [n], edges) == Stored(nodes, edges)
    ensures Entities(nodes + [n]) == Entities(nodes) + (if n.nodeType == Entity then [n.name] else [])
    ensures ClassLabels(nodes + [n]) == ClassLabels(nodes) + (if n.nodeType == Class then {n.name} else {})
  {
    StoredGrowNodes(nodes, edges, nN, [n]);
    EntitiesAppend(nodes, [n]);
    assert [n][..0] == [];
    ClassLabelsAppend(nodes, n);
    var nodes' := nodes + [n];
    assert ClassUnique(nodes') by {
      forall i, j | 0 <= i < j < |nodes'| && nodes'[i].nodeType == Class && nodes'[j].nodeType == Class
        ensures nodes'[i].name != nodes'[j].name
      {
        if j == |nodes| {
          assert nodes'[i] in nodes;
        }
      }
    }
  }

  /** Appending an edge with the next id between stored nodes keeps the store valid and
      adds exactly its triple to the stored facts. */
  lemma AddEdge(nodes: seq<Node>, edges: seq<Edge>, rules: seq<Rule>, nN: nat, nE: nat, nR: nat, e: Edge)
    requires StoreValid(nodes, edges, rules, nN, nE, nR) && e.id == nE
    requires FindNode(nodes, e.source).Some? && FindNode(nodes, e.target).Some?
    ensures StoreValid(nodes, edges + [e], rules, nN, nE + 1, nR)
    ensures Stored(nodes, edges + [e]) ==
      Stored(nodes, edges) + [Triple(FindNode(nodes, e.source).value.name, e.edgeType, FindNode(nodes, e.target).value.name)]
  {
    StoredAddEdge(nodes, edges, e, nE);
    FindNodeId(nodes, nN, e.source);
    FindNodeId(nodes, nN, e.target);
    assert (edges + [e])[..|edges|] == edges;
  }

  /** Appending a subclass rule with the next id keeps the store valid and adds its
      body to the rule bodies. */
  lemma AddRule(nodes: seq<Node>, edges: seq<Edge>, rules: seq<Rule>, nN: nat, nE: nat, nR: nat, body: string)
    requires StoreValid(nodes, edges, rules, nN, nE, nR)
    ensures StoreValid(nodes, edges, rules + [Rule(nR, SubclassRule, body, true)], nN, nE, nR + 1)
    ensures Bodies(rules + [Rule(nR, SubclassRule, body, true)]) == Bodies(rules) + [body]
  {
    var rules' := rules + [Rule(nR, SubclassRule, body, true)];
    BodiesAppend(rules, Rule(nR, SubclassRule, body, true));
  }
}
