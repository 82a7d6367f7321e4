/** Rebuilding the in-memory graph and its indexes from what the backend stores. */
module StoreLoading {
  import opened GraphTypes
  import opened Bm25
  import opened StoreSpec
  import opened StoreIndex
  import opened Backend

  ghost function NodesById(all: seq<Node>): map<string, Node> {
    if all == [] then map[] else NodesById(all[..|all| - 1])[all[|all| - 1].id := all[|all| - 1]]
  }

  /** The edges with both endpoints among the nodes, by id. */
  ghost function EdgesKept(all: seq<Edge>, nodes: set<string>): map<string, Edge> {
    if all == [] then map[] else
      var rest, e := EdgesKept(all[..|all| - 1], nodes), all[|all| - 1];
      if e.source in nodes && e.target in nodes then rest[e.id := e] else rest
  }

  lemma {:induction false} NodesByIdFacts(all: seq<Node>)
    requires forall a, b | 0 <= a < b < |all| :: all[a].id != all[b].id
    ensures forall a | 0 <= a < |all| :: all[a].id in NodesById(all) && NodesById(all)[all[a].id] == all[a]
    ensures forall id | id in NodesById(all) :: exists a | 0 <= a < |all| :: all[a].id == id
  {
    if all == [] {
    } else {
      var k := |all| - 1;
      NodesByIdFacts(all[..k]);
      forall id | id in NodesById(all) ensures exists a | 0 <= a < |all| :: all[a].id == id {
        if id == all[k].id { } else {
          var a :| 0 <= a < k && all[..k][a].id == id;
          assert all[a].id == id;
        }
      }
      forall a | 0 <= a < |all| ensures all[a].id in NodesById(all) && NodesById(all)[all[a].id] == all[a] {
        if a < k { assert all[..k][a] == all[a] && all[a].id != all[k].id; }
      }
    }
  }

  lemma {:induction false} EdgesKeptFacts(all: seq<Edge>, nodes: set<string>)
    requires forall a, b | 0 <= a < b < |all| :: all[a].id != all[b].id
    ensures forall a | 0 <= a < |all| && all[a].source in nodes && all[a].target in nodes ::
              all[a].id in EdgesKept(all, nodes) && EdgesKept(all, nodes)[all[a].id] == all[a]
    ensures forall id | id in EdgesKept(all, nodes) :: exists a | 0 <= a < |all| ::
              all[a].id == id && all[a].source in nodes && all[a].target in nodes
  {
    if all == [] {
    } else {
      var k, kept := |all| - 1, EdgesKept(all, nodes);
      EdgesKeptFacts(all[..k], nodes);
      forall id | id in kept
        ensures exists a | 0 <= a < |all| :: all[a].id == id && all[a].source in nodes && all[a].target in nodes
      {
        if id in EdgesKept(all[..k], nodes) {
          var a :| 0 <= a < k && all[..k][a].id == id && all[..k][a].source in nodes && all[..k][a].target in nodes;
          assert all[a].id == id;
        } else {
          assert all[k].id == id;
        }
      }
      forall a | 0 <= a < |all| && all[a].source in nodes && all[a].target in nodes
        ensures all[a].id in kept && kept[all[a].id] == all[a]
      {
        if a < k { assert all[..k][a] == all[a] && all[a].id != all[k].id; }
      }
    }
  }

  method BuildNodes(all: seq<Node>) returns (mem: Memory)
    requires forall a, b | 0 <= a < b < |all| :: all[a].id != all[b].id
    ensures ShowsNodes(mem, all)
  {
    mem := EMPTY_MEMORY;
    assert NodeMap(mem) == map[] && EdgeMap(mem) == map[];
    var i := 0;
    while i < |all|
      invariant 0 <= i <= |all|
      invariant ShowsNodes(mem, all[..i])
    {
      BuildStep(mem, all, i);
      mem := WithNode(mem, all[i]);
      i := i + 1;
    }
    assert all[..i] == all;
  }

  /** Memory shows these nodes and no edges. */
  ghost predicate ShowsNodes(mem: Memory, all: seq<Node>) {
    Consistent(mem) && NodeMap(mem) == NodesById(all) && EdgeMap(mem) == map[]
  }

  lemma BuildStep(mem: Memory, all: seq<Node>, i: nat)
    requires i < |all| && ShowsNodes(mem, all[..i])
    requires forall a, b | 0 <= a < b < |all| :: all[a].id != all[b].id
    ensures ShowsNodes(WithNode(mem, all[i]), all[..i + 1])
  {
    NewId(all, i);
    assert all[i].id !in mem.idToNode by { assert mem.idToNode.Keys == NodeMap(mem).Keys; }
    WithNodeFacts(mem, all[i]);
    assert all[..i + 1][..i] == all[..i];
  }

  lemma NewId(all: seq<Node>, i: nat)
    requires i < |all|
    requires forall a, b | 0 <= a < b < |all| :: all[a].id != all[b].id
    ensures all[i].id !in NodesById(all[..i])
  {
    NodesByIdFacts(all[..i]);
  }

  method IndexNodes(all: seq<Node>, tokenize: string -> seq<string>) returns (ix: Index)
    requires forall a, b | 0 <= a < b < |all| :: all[a].id != all[b].id
    ensures Rescan(ix, Documents(NodesById(all), tokenize))
  {
    ix := EMPTY_INDEX;
    EmptyRescan();
    assert Documents(map[], tokenize) == map[];
    var i := 0;
    while i < |all|
      invariant 0 <= i <= |all|
      invariant Rescan(ix, Documents(NodesById(all[..i]), tokenize))
    {
      NewId(all, i);
      DocumentsAdd(NodesById(all[..i]), tokenize, all[i]);
      ix := IndexDocument(ix, all[i].id, tokenize(Text(all[i])), Documents(NodesById(all[..i]), tokenize));
      assert all[..i + 1][..i] == all[..i];
      i := i + 1;
    }
    assert all[..i] == all;
  }

  method BuildEdges(nodes: Memory, all: seq<Edge>) returns (mem: Memory)
    requires Consistent(nodes) && EdgeMap(nodes) == map[]
    requires forall a, b | 0 <= a < b < |all| :: all[a].id != all[b].id
    ensures Consistent(mem) && NodeMap(mem) == NodeMap(nodes)
    ensures EdgeMap(mem) == EdgesKept(all, NodeMap(nodes).Keys)
  {
    mem := nodes;
    ghost var keys := NodeMap(nodes).Keys;
    var i := 0;
    while i < |all|
      invariant 0 <= i <= |all|
      invariant Consistent(mem) && NodeMap(mem) == NodeMap(nodes)
      invariant EdgeMap(mem) == EdgesKept(all[..i], keys)
    {
      var edge := all[i];
      EdgesKeptFacts(all[..i], keys);
      assert edge.id !in EdgeMap(mem);
      assert all[..i + 1][..i] == all[..i];
      assert mem.idToNode.Keys == keys;
      if edge.source in mem.idToNode && edge.target in mem.idToNode {
        WithEdgeFacts(mem, edge);
        mem := WithEdge(mem, edge);
      }
      i := i + 1;
    }
    assert all[..i] == all;
  }

  method KeepKnown(ids: seq<string>, known: map<string, nat>) returns (kept: seq<string>)
    ensures kept == Filter(ids, known.Keys)
  {
    kept := [];
    var i := 0;
    while i < |ids|
      invariant 0 <= i <= |ids|
      invariant kept == Filter(ids[..i], known.Keys)
    {
      assert ids[..i + 1][..i] == ids[..i];
      if ids[i] in known { kept := kept + [ids[i]]; }
      i := i + 1;
    }
    assert ids[..i] == ids;
  }

  /** The distinct sessions of the nodes, in insertion order. */
  method CollectSessions(mem: Memory, order: seq<string>) returns (sessions: seq<string>)
    requires Consistent(mem) && forall id | id in order :: id in mem.idToNode
    ensures sessions == FirstOccurrences(NodeSessions(ViewOf(mem, order)))
  {
    ghost var all := NodeSessions(ViewOf(mem, order));
    sessions := [];
    var i := 0;
    while i < |order|
      invariant 0 <= i <= |order|
      invariant sessions == FirstOccurrences(all[..i])
    {
      assert order[i] in order;
      var sid := mem.nodes[mem.idToNode[order[i]]].sessionId;
      assert sid == all[i] && all[..i + 1][..i] == all[..i];
      if sid !in sessions { sessions := sessions + [sid]; }
      i := i + 1;
    }
    assert all[..i] == all;
  }

  /** The list holds each node of the tree once. */
  ghost predicate ListsNodes(all: seq<Node>, stored: map<string, Node>) {
    && (forall a, b | 0 <= a < b < |all| :: all[a].id != all[b].id)
    && (forall a | 0 <= a < |all| :: all[a].id in stored && stored[all[a].id] == all[a])
    && (forall id | id in stored :: exists a | 0 <= a < |all| :: all[a].id == id)
  }

  lemma LoadedNodes(all: seq<Node>, stored: map<string, Node>)
    requires ListsNodes(all, stored)
    ensures NodesById(all) == stored
  {
    NodesByIdFacts(all);
    forall id | id in NodesById(all) || id in stored
      ensures id in NodesById(all) && id in stored && NodesById(all)[id] == stored[id]
    {
      var a :| 0 <= a < |all| && all[a].id == id;
    }
  }

  /** The list holds each edge of the tree once. */
  ghost predicate ListsEdges(all: seq<Edge>, stored: map<string, Edge>) {
    && (forall a, b | 0 <= a < b < |all| :: all[a].id != all[b].id)
    && (forall a | 0 <= a < |all| :: all[a].id in stored && stored[all[a].id] == all[a])
    && (forall id | id in stored :: exists a | 0 <= a < |all| :: all[a].id == id)
  }

  lemma KeptIsLoaded(all: seq<Edge>, d: Disk, id: string)
    requires ListsEdges(all, d.edges)
    requires id in EdgesKept(all, d.nodes.Keys)
    ensures id in Load(d).edges && EdgesKept(all, d.nodes.Keys)[id] == Load(d).edges[id]
  {
    EdgesKeptFacts(all, d.nodes.Keys);
    var a :| 0 <= a < |all| && all[a].id == id && all[a].source in d.nodes.Keys && all[a].target in d.nodes.Keys;
    assert d.edges[id] == all[a];
  }

  lemma LoadedIsKept(all: seq<Edge>, d: Disk, id: string)
    requires ListsEdges(all, d.edges)
    requires id in Load(d).edges
    ensures id in EdgesKept(all, d.nodes.Keys)
  {
    EdgesKeptFacts(all, d.nodes.Keys);
    var a :| 0 <= a < |all| && all[a].id == id;
    assert d.edges[id] == all[a];
  }

  lemma LoadedEdges(all: seq<Edge>, d: Disk)
    requires ListsEdges(all, d.edges)
    ensures EdgesKept(all, d.nodes.Keys) == Load(d).edges
  {
    var kept, loaded := EdgesKept(all, d.nodes.Keys), Load(d).edges;
    forall id | id in kept ensures id in loaded && kept[id] == loaded[id] { KeptIsLoaded(all, d, id); }
    forall id | id in loaded ensures id in kept { LoadedIsKept(all, d, id); }
  }

  /** Everything a reopened store holds in memory, whatever the order in which the trees are read. */
  method LoadStore(backend: DbBackend, tokenize: string -> seq<string>)
    returns (mem: Memory, order: seq<string>, sessions: seq<string>, ix: Index)
    requires WellKeyed(backend.Contents())
    modifies backend
    ensures Exact(mem, order, ix, tokenize)
    ensures State(ViewOf(mem, order), sessions, backend.Contents()) == Open(old(backend.Contents()))
  {
    ghost var d := backend.Contents();
    var nodes := backend.LoadAllNodes();
    var edges := backend.LoadAllEdges();
    var loadedOrder := backend.LoadNodeOrder();
    var placed := BuildNodes(nodes);
    LoadedNodes(nodes, d.nodes);
    LoadedEdges(edges, d);
    mem := BuildEdges(placed, edges);
    order := KeepKnown(loadedOrder, mem.idToNode);
    FilterFacts(loadedOrder, mem.idToNode.Keys);
    assert mem.idToNode.Keys == NodeMap(mem).Keys == d.nodes.Keys;
    sessions := CollectSessions(mem, order);
    ix := IndexNodes(nodes, tokenize);
  }
}
