/** Memory and disk in agreement, and runs with any number of reopens. */
module Restarts {
  import opened GraphTypes
  import opened OrderKeys
  import opened StoreSpec

  // ---------- Restarts ----------

  /** Memory and disk agree, and the order names every node exactly once. */
  ghost predicate Synced(s: State, bound: nat) {
    && s.graph == Graph(s.disk.nodes, s.disk.edges, Listing(s.disk.order))
    && Sound(s.graph)
    && NoDup(s.graph.order)
    && (forall id | id in s.graph.nodes :: id in s.graph.order)
    && s.disk.legacy == []
    && KeysBelow(s.disk.order, bound)
  }

  lemma SyncedLoads(s: State, bound: nat)
    requires Synced(s, bound)
    ensures Load(s.disk) == s.graph
    ensures Step(s, Reopen).disk == s.disk
    ensures LoadOrder(s.disk) == s.graph.order
  {
    var g := s.graph;
    assert Listing(s.disk.order) == g.order;
    FilterFacts(g.order, g.nodes.Keys);
    AllEdgesKept(s.disk);
  }

  lemma AllEdgesKept(d: Disk)
    requires forall id | id in d.edges :: d.edges[id].source in d.nodes && d.edges[id].target in d.nodes
    ensures Load(d).edges == d.edges
  {
  }

  lemma EmptyIsSynced()
    ensures Synced(Open(EMPTY_DISK), 0) && Open(EMPTY_DISK).graph == EMPTY_GRAPH
  {
    assert Load(EMPTY_DISK).edges == map[];
  }

  lemma ApplyTwo(d: Disk, a: Write, b: Write)
    ensures ApplyAll(d, []) == d
    ensures ApplyAll(d, [a]) == Apply(d, a)
    ensures ApplyAll(d, [a] + [b]) == Apply(Apply(d, a), b)
  {
    assert ([a] + [b])[..1] == [a] && [a][..0] == [];
    assert ApplyAll(d, [a]) == Apply(ApplyAll(d, []), a);
  }

  /** The disk after a successful append to the order log. */
  lemma OrderWritten(d: Disk, id: string, bound: nat)
    requires KeysBelow(d.order, bound) && bound < INDEX_LIMIT
    ensures ApplyAll(d, OrderWrite(d, id)) == d.(order := Appended(d.order, id))
    ensures forall node :: ApplyAll(d, [PutNode(node)] + OrderWrite(d, id))
              == d.(nodes := d.nodes[node.id := node], order := Appended(d.order, id))
  {
    AppendedFacts(d.order, id, bound);
    var w := PutOrder(OrderKey(NextIndex(d.order)), id);
    ApplyTwo(d, w, w);
    forall node {
      ApplyTwo(d, PutNode(node), w);
    }
  }

  lemma AddNodeSynced(s: State, op: Op, bound: nat)
    requires Synced(s, bound) && bound < INDEX_LIMIT
    requires op.AddNode? && Written(op) && op.node.id !in s.graph.nodes
    ensures Synced(Step(s, op), bound + 1)
  {
    var id := op.node.id;
    OrderWritten(s.disk, id, bound);
    AppendedFacts(s.disk.order, id, bound);
    var t := Step(s, op);
    assert t.disk == s.disk.(nodes := s.disk.nodes[id := op.node], order := Appended(s.disk.order, id));
    assert t.graph == Graph(s.graph.nodes[id := op.node], s.graph.edges, s.graph.order + [id]);
    GrownIsSynced(s, t, op.node, bound);
  }

  lemma GrownIsSynced(s: State, t: State, node: Node, bound: nat)
    requires Synced(s, bound) && node.id !in s.graph.nodes
    requires t.graph == Graph(s.graph.nodes[node.id := node], s.graph.edges, s.graph.order + [node.id])
    requires t.disk.nodes == s.disk.nodes[node.id := node] && t.disk.edges == s.disk.edges && t.disk.legacy == []
    requires Listing(t.disk.order) == Listing(s.disk.order) + [node.id] && KeysBelow(t.disk.order, bound + 1)
    ensures Synced(t, bound + 1)
  {
    GrownIsSound(s.graph, node);
    NoDupSnoc(s.graph.order, node.id);
  }

  lemma GrownIsSound(g: Graph, node: Node)
    requires Sound(g) && node.id !in g.nodes && forall id | id in g.nodes :: id in g.order
    ensures var h := Graph(g.nodes[node.id := node], g.edges, g.order + [node.id]);
      Sound(h) && (forall id | id in h.nodes :: id in h.order) && node.id !in g.order
  {
  }

  /** With successful writes, every operation keeps memory and disk in agreement. */
  lemma StepSynced(s: State, op: Op, bound: nat)
    requires Synced(s, bound) && bound < INDEX_LIMIT && Written(op)
    ensures Synced(Step(s, op), bound + 1)
    ensures Step(s, op).graph == StepGraph(s.graph, op)
  {
    match op
    case AddNode(node, _, _) =>
      if node.id in s.graph.nodes {
        SameDiskSynced(s, Step(s, op), bound);
      } else {
        AddNodeSynced(s, op, bound);
      }
    case AddEdge(edge, _) => ConnectSynced(s, op, edge, bound);
    case Invalidate(id, _) => InvalidateSynced(s, op, bound);
    case Resolve(question, resolver, edgeId, reasoning, _) =>
      ConnectSynced(s, op, Edge(edgeId, Resolves, resolver, question, reasoning), bound);
    case Register(_) => SameDiskSynced(s, Step(s, op), bound);
    case Reopen =>
      SyncedLoads(s, bound);
      SameDiskSynced(s, Step(s, op), bound);
  }

  lemma SameDiskSynced(s: State, t: State, bound: nat)
    requires Synced(s, bound) && t.disk == s.disk && t.graph == s.graph
    ensures Synced(t, bound + 1)
  {
  }

  lemma ConnectSynced(s: State, op: Op, edge: Edge, bound: nat)
    requires Synced(s, bound) && Written(op)
    requires (op.AddEdge? && edge == op.edge)
          || (op.Resolve? && edge == Edge(op.edgeId, Resolves, op.resolver, op.question, op.reasoning))
    ensures Synced(Step(s, op), bound + 1)
  {
    if CanConnect(s.graph, edge) {
      ApplyTwo(s.disk, PutEdge(edge), PutEdge(edge));
      LinkedIsSynced(s, Step(s, op), edge, bound);
    } else {
      SameDiskSynced(s, Step(s, op), bound);
    }
  }

  lemma LinkedIsSynced(s: State, t: State, edge: Edge, bound: nat)
    requires Synced(s, bound) && CanConnect(s.graph, edge)
    requires t.graph == s.graph.(edges := s.graph.edges[edge.id := edge])
    requires t.disk == s.disk.(edges := s.disk.edges[edge.id := edge])
    ensures Synced(t, bound + 1)
  {
  }

  lemma InvalidateSynced(s: State, op: Op, bound: nat)
    requires Synced(s, bound) && op.Invalidate? && Written(op)
    ensures Synced(Step(s, op), bound + 1)
  {
    if op.nodeId in s.graph.nodes {
      var node := s.graph.nodes[op.nodeId].(status := Invalidated);
      ApplyTwo(s.disk, PutNode(node), PutNode(node));
      StepInvalidate(s, op.nodeId, true);
      MarkedIsSynced(s, Step(s, op), node, bound);
    } else {
      SameDiskSynced(s, Step(s, op), bound);
    }
  }

  lemma MarkedIsSynced(s: State, t: State, node: Node, bound: nat)
    requires Synced(s, bound) && node.id in s.graph.nodes
    requires t.graph == s.graph.(nodes := s.graph.nodes[node.id := node])
    requires t.disk == s.disk.(nodes := s.disk.nodes[node.id := node])
    ensures Synced(t, bound + 1)
  {
    MarkedIsSound(s.graph, node);
  }

  lemma MarkedIsSound(g: Graph, node: Node)
    requires Sound(g) && node.id in g.nodes && forall id | id in g.nodes :: id in g.order
    ensures var h := g.(nodes := g.nodes[node.id := node]); Sound(h) && forall id | id in h.nodes :: id in h.order
  {
  }

  /** Restarts are invisible: after any run with successful writes and any number of reopens, nodes with their
      status, edges and insertion order are those of the run on the graph alone, and still agree with disk. */
  lemma {:induction false} RestartsAreInvisible(s: State, ops: seq<Op>, bound: nat)
    requires Synced(s, bound) && bound + |ops| <= INDEX_LIMIT
    requires forall op | op in ops :: Written(op)
    ensures Run(s, ops).graph == RunGraph(s.graph, ops)
    ensures Synced(Run(s, ops), bound + |ops|)
  {
    if ops == [] {
    } else {
      var rest, last := ops[..|ops| - 1], ops[|ops| - 1];
      assert last in ops;
      RestartsAreInvisible(s, rest, bound);
      StepSynced(Run(s, rest), last, bound + |rest|);
    }
  }
}
