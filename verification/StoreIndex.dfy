/** The in-memory representation of the graph: positions, id maps and insertion order, as values. */
module StoreIndex {
  import opened GraphTypes
  import opened Bm25
  import opened StoreSpec

  /** Node and edge weights by position, and the two maps from ids to positions. */
  datatype Memory = Memory(nodes: seq<Node>, arcs: seq<Arc>, idToNode: map<string, nat>, idToEdge: map<string, nat>)

  const EMPTY_MEMORY := Memory([], [], map[], map[])

  ghost predicate Consistent(m: Memory) {
    && (forall id | id in m.idToNode :: m.idToNode[id] < |m.nodes| && m.nodes[m.idToNode[id]].id == id)
    && (forall i | 0 <= i < |m.nodes| :: m.nodes[i].id in m.idToNode && m.idToNode[m.nodes[i].id] == i)
    && (forall id | id in m.idToEdge :: m.idToEdge[id] < |m.arcs| && m.arcs[m.idToEdge[id]].edge.id == id)
    && (forall i | 0 <= i < |m.arcs| :: m.arcs[i].edge.id in m.idToEdge && m.idToEdge[m.arcs[i].edge.id] == i)
    && (forall i | 0 <= i < |m.arcs| :: Placed(m, m.arcs[i]))
  }

  /** The arc runs between the positions of the nodes its edge names. */
  ghost predicate Placed(m: Memory, a: Arc) {
    && a.src < |m.nodes| && a.tgt < |m.nodes|
    && m.nodes[a.src].id == a.edge.source && m.nodes[a.tgt].id == a.edge.target
  }

  ghost function NodeMap(m: Memory): map<string, Node>
    requires Consistent(m)
  {
    map id | id in m.idToNode :: m.nodes[m.idToNode[id]]
  }

  ghost function EdgeMap(m: Memory): map<string, Edge>
    requires Consistent(m)
  {
    map id | id in m.idToEdge :: m.arcs[m.idToEdge[id]].edge
  }

  /** The text a node is indexed under. */
  function Text(node: Node): string { node.title + " " + node.description }

  ghost function Documents(nodes: map<string, Node>, tokenize: string -> seq<string>): map<string, Tokens> {
    map id | id in nodes :: tokenize(nodes[id].title + " " + nodes[id].description)
  }

  function WithNode(m: Memory, node: Node): Memory {
    m.(nodes := m.nodes + [node], idToNode := m.idToNode[node.id := |m.nodes|])
  }

  function WithEdge(m: Memory, edge: Edge): Memory
    requires edge.source in m.idToNode && edge.target in m.idToNode
  {
    m.(arcs := m.arcs + [Arc(m.idToNode[edge.source], m.idToNode[edge.target], edge)],
       idToEdge := m.idToEdge[edge.id := |m.arcs|])
  }

  lemma WithNodeConsistent(m: Memory, node: Node)
    requires Consistent(m) && node.id !in m.idToNode
    ensures Consistent(WithNode(m, node))
  {
    var next := WithNode(m, node);
    forall i | 0 <= i < |next.arcs| ensures Placed(next, next.arcs[i]) { assert Placed(m, m.arcs[i]); }
  }

  lemma WithNodeFacts(m: Memory, node: Node)
    requires Consistent(m) && node.id !in m.idToNode
    ensures Consistent(WithNode(m, node))
    ensures NodeMap(WithNode(m, node)) == NodeMap(m)[node.id := node]
    ensures EdgeMap(WithNode(m, node)) == EdgeMap(m)
  {
    WithNodeConsistent(m, node);
  }

  lemma WithEdgeConsistent(m: Memory, edge: Edge)
    requires Consistent(m) && edge.id !in m.idToEdge
    requires edge.source in m.idToNode && edge.target in m.idToNode
    ensures Consistent(WithEdge(m, edge))
  {
    var next := WithEdge(m, edge);
    assert Placed(next, next.arcs[|m.arcs|]);
    forall i | 0 <= i < |m.arcs| ensures Placed(next, next.arcs[i]) { assert Placed(m, m.arcs[i]); }
  }

  lemma WithEdgeFacts(m: Memory, edge: Edge)
    requires Consistent(m) && edge.id !in m.idToEdge
    requires edge.source in m.idToNode && edge.target in m.idToNode
    ensures Consistent(WithEdge(m, edge))
    ensures NodeMap(WithEdge(m, edge)) == NodeMap(m)
    ensures EdgeMap(WithEdge(m, edge)) == EdgeMap(m)[edge.id := edge]
  {
    WithEdgeConsistent(m, edge);
    WithEdgeMaps(m, edge);
    WithEdgeNodes(m, edge);
  }

  lemma WithEdgeMaps(m: Memory, edge: Edge)
    requires Consistent(m) && edge.id !in m.idToEdge
    requires edge.source in m.idToNode && edge.target in m.idToNode
    requires Consistent(WithEdge(m, edge))
    ensures EdgeMap(WithEdge(m, edge)) == EdgeMap(m)[edge.id := edge]
  {
    var next, was := EdgeMap(WithEdge(m, edge)), EdgeMap(m)[edge.id := edge];
    assert next.Keys == was.Keys;
    forall id | id in was ensures next[id] == was[id] {
      EdgeAt(m, edge, id);
    }
  }

  lemma EdgeAt(m: Memory, edge: Edge, id: string)
    requires Consistent(m) && edge.id !in m.idToEdge
    requires edge.source in m.idToNode && edge.target in m.idToNode
    requires Consistent(WithEdge(m, edge)) && (id == edge.id || id in m.idToEdge)
    ensures EdgeMap(WithEdge(m, edge))[id] == if id == edge.id then edge else EdgeMap(m)[id]
  {
  }

  lemma WithEdgeNodes(m: Memory, edge: Edge)
    requires Consistent(m) && edge.source in m.idToNode && edge.target in m.idToNode
    requires Consistent(WithEdge(m, edge))
    ensures NodeMap(WithEdge(m, edge)) == NodeMap(m)
  {
  }

  /** The node at position i, marked invalidated. */
  function WithInvalidated(m: Memory, i: nat): Memory
    requires i < |m.nodes|
  {
    m.(nodes := m.nodes[i := m.nodes[i].(status := Invalidated)])
  }

  lemma WithInvalidatedConsistent(m: Memory, i: nat)
    requires Consistent(m) && i < |m.nodes|
    ensures Consistent(WithInvalidated(m, i))
  {
    var next := WithInvalidated(m, i);
    forall k | 0 <= k < |next.arcs| ensures Placed(next, next.arcs[k]) { assert Placed(m, m.arcs[k]); }
  }

  lemma WithInvalidatedFacts(m: Memory, i: nat)
    requires Consistent(m) && i < |m.nodes|
    ensures Consistent(WithInvalidated(m, i))
    ensures var node := m.nodes[i];
      && node.id in NodeMap(m) && NodeMap(m)[node.id] == node
      && NodeMap(WithInvalidated(m, i)) == NodeMap(m)[node.id := node.(status := Invalidated)]
    ensures EdgeMap(WithInvalidated(m, i)) == EdgeMap(m)
  {
    WithInvalidatedConsistent(m, i);
  }

  lemma DocumentsAdd(nodes: map<string, Node>, tokenize: string -> seq<string>, node: Node)
    ensures Documents(nodes[node.id := node], tokenize)
         == Documents(nodes, tokenize)[node.id := tokenize(Text(node))]
  {
  }

  lemma DocumentsSame(nodes: map<string, Node>, tokenize: string -> seq<string>, node: Node)
    requires node.id in nodes && Text(node) == Text(nodes[node.id])
    ensures Documents(nodes[node.id := node], tokenize) == Documents(nodes, tokenize)
  {
  }

  // ---------- The whole in-memory state ----------

  /** The indexes are exact: positions match ids, the order names nodes, and the keyword index is what a full
      rescan of the nodes would give. */
  ghost predicate Exact(m: Memory, order: seq<string>, ix: Index, tokenize: string -> seq<string>) {
    && Consistent(m)
    && (forall id | id in order :: id in m.idToNode)
    && Rescan(ix, Documents(NodeMap(m), tokenize))
  }

  ghost function ViewOf(m: Memory, order: seq<string>): Graph
    requires Consistent(m)
  {
    Graph(NodeMap(m), EdgeMap(m), order)
  }

  lemma EmptyExact(tokenize: string -> seq<string>)
    ensures Exact(EMPTY_MEMORY, [], EMPTY_INDEX, tokenize)
    ensures ViewOf(EMPTY_MEMORY, []) == EMPTY_GRAPH
  {
    EmptyRescan();
    assert NodeMap(EMPTY_MEMORY) == map[] && EdgeMap(EMPTY_MEMORY) == map[];
    assert Documents(map[], tokenize) == map[];
  }

  lemma ConnectedExact(m: Memory, order: seq<string>, ix: Index, tokenize: string -> seq<string>, edge: Edge)
    requires Exact(m, order, ix, tokenize) && edge.id !in m.idToEdge
    requires edge.source in m.idToNode && edge.target in m.idToNode
    ensures Exact(WithEdge(m, edge), order, ix, tokenize)
    ensures ViewOf(WithEdge(m, edge), order) == Connect(ViewOf(m, order), edge)
  {
    WithEdgeFacts(m, edge);
  }

  lemma InvalidatedExact(m: Memory, order: seq<string>, ix: Index, tokenize: string -> seq<string>, i: nat)
    requires Exact(m, order, ix, tokenize) && i < |m.nodes|
    ensures Exact(WithInvalidated(m, i), order, ix, tokenize)
    ensures var g, node := ViewOf(m, order), m.nodes[i];
      && node.id in g.nodes && g.nodes[node.id] == node
      && ViewOf(WithInvalidated(m, i), order) == g.(nodes := g.nodes[node.id := node.(status := Invalidated)])
  {
    WithInvalidatedFacts(m, i);
    DocumentsSame(NodeMap(m), tokenize, m.nodes[i].(status := Invalidated));
  }
}
