/** The graph store: the in-memory graph with its indexes, backed by the key-value trees. */
module Store {
  import opened GraphTypes
  import opened Bm25
  import opened StoreSpec
  import opened Restarts
  import opened StoreIndex
  import opened Backend
  import opened StoreLoading

  class GraphStore {
    const tokenize: string -> seq<string>
    const backend: DbBackend?
    var mem: Memory
    var nodeOrder: seq<string>
    var sessionOrder: seq<string>
    var bm25: Index

    ghost predicate Valid()
      reads this`mem, this`nodeOrder, this`bm25
    {
      Exact(mem, nodeOrder, bm25, tokenize)
    }

    ghost function DiskContents(): Disk
      reads this, backend
    {
      if backend == null then EMPTY_DISK else backend.Contents()
    }

    ghost function Abstract(): State
      reads this, backend
      requires Valid()
    {
      State(ViewOf(mem, nodeOrder), sessionOrder, DiskContents())
    }

    /** An empty in-memory store. */
    constructor (tokenize: string -> seq<string>)
      ensures Valid() && backend == null && this.tokenize == tokenize
      ensures Abstract() == State(EMPTY_GRAPH, [], EMPTY_DISK)
    {
      this.tokenize, this.backend, this.mem := tokenize, null, EMPTY_MEMORY;
      this.nodeOrder, this.sessionOrder := [], [];
      this.bm25 := EMPTY_INDEX;
      new;
      EmptyExact(tokenize);
    }

    /** A store on an existing database. */
    constructor NewPersistent(backend: DbBackend, tokenize: string -> seq<string>)
      requires WellKeyed(backend.Contents())
      modifies backend
      ensures Valid() && this.backend == backend && this.tokenize == tokenize
      ensures Abstract() == Open(old(backend.Contents()))
    {
      var loaded, order, sessions, ix := LoadStore(backend, tokenize);
      this.tokenize, this.backend, this.mem := tokenize, backend, loaded;
      this.nodeOrder, this.sessionOrder, this.bm25 := order, sessions, ix;
    }

    /** Places a node whose id is new, and indexes its text. */
    method Place(node: Node) returns (idx: nat)
      requires Consistent(mem) && Rescan(bm25, Documents(NodeMap(mem), tokenize))
      requires node.id !in mem.idToNode
      modifies this`mem, this`bm25
      ensures idx < |mem.nodes| && mem.nodes[idx] == node && mem == WithNode(old(mem), node)
      ensures Consistent(mem) && Rescan(bm25, Documents(NodeMap(mem), tokenize))
      ensures NodeMap(mem) == NodeMap(old(mem))[node.id := node] && EdgeMap(mem) == EdgeMap(old(mem))
    {
      WithNodeFacts(mem, node);
      DocumentsAdd(NodeMap(mem), tokenize, node);
      bm25 := IndexDocument(bm25, node.id, tokenize(Text(node)), Documents(NodeMap(mem), tokenize));
      idx := |mem.nodes|;
      mem := WithNode(mem, node);
    }

    /** The in-memory part of adding a node with a new id. */
    method InsertNode(node: Node) returns (idx: nat)
      requires Valid() && node.id !in mem.idToNode
      modifies this`mem, this`bm25, this`nodeOrder, this`sessionOrder
      ensures Valid() && idx < |mem.nodes| && mem.nodes[idx].id == node.id
      ensures ViewOf(mem, nodeOrder) == StepGraph(old(ViewOf(mem, nodeOrder)), Op.AddNode(node, true, true))
      ensures sessionOrder == AddSession(old(sessionOrder), node.sessionId)
    {
      idx := Place(node);
      nodeOrder := nodeOrder + [node.id];
      if node.sessionId !in sessionOrder {
        sessionOrder := sessionOrder + [node.sessionId];
      }
    }

    method AddNode(node: Node, nodeOk: bool, orderOk: bool) returns (idx: nat)
      requires Valid()
      modifies this, backend
      ensures Valid()
      ensures Abstract()
           == Step(old(Abstract()), Op.AddNode(node, nodeOk && backend != null, orderOk && backend != null))
      ensures idx < |mem.nodes| && mem.nodes[idx].id == node.id
    {
      if node.id in mem.idToNode {
        idx := mem.idToNode[node.id];
        return;
      }
      StepAdds(Abstract(), node, nodeOk && backend != null, orderOk && backend != null);
      idx := InsertNode(node);
      PersistNode(node, nodeOk, orderOk);
    }

    /** The writes of a new node, when there is a backend: the node, then its place in the order. */
    method PersistNode(node: Node, nodeOk: bool, orderOk: bool)
      modifies backend
      ensures DiskContents() == ApplyAll(old(DiskContents()),
                NodeWrites(old(DiskContents()), node, nodeOk && backend != null, orderOk && backend != null))
    {
      if backend != null {
        TwoWrites(backend.Contents(), node, nodeOk, orderOk);
        backend.StoreNode(node, nodeOk);
        backend.AppendNodeOrder(node.id, orderOk);
      }
    }

    method AddEdge(edge: Edge, ok: bool) returns (idx: Option<nat>)
      requires Valid()
      modifies this, backend
      ensures Valid()
      ensures Abstract() == Step(old(Abstract()), Op.AddEdge(edge, ok && backend != null))
      ensures idx.None? <==> edge.source !in old(mem).idToNode || edge.target !in old(mem).idToNode
      ensures idx.Some? ==> idx.value < |mem.arcs| && mem.arcs[idx.value].edge.id == edge.id
    {
      NotConnected(Abstract(), edge, ok && backend != null);
      if edge.source !in mem.idToNode { return None; }
      if edge.target !in mem.idToNode { return None; }
      if edge.id in mem.idToEdge { return Some(mem.idToEdge[edge.id]); }
      StepConnects(Abstract(), edge, ok && backend != null);
      ConnectedExact(mem, nodeOrder, bm25, tokenize, edge);
      idx := Some(|mem.arcs|);
      mem := WithEdge(mem, edge);
      PersistEdge(edge, ok);
    }

    method PersistEdge(edge: Edge, ok: bool)
      modifies backend
      ensures DiskContents() == ApplyAll(old(DiskContents()), if ok && backend != null then [PutEdge(edge)] else [])
    {
      ApplyTwo(DiskContents(), PutEdge(edge), PutEdge(edge));
      if backend != null {
        backend.StoreEdge(edge, ok);
      }
    }

    method InvalidateNode(nodeId: string, ok: bool) returns (found: bool)
      requires Valid()
      modifies this, backend
      ensures Valid()
      ensures Abstract() == Step(old(Abstract()), Op.Invalidate(nodeId, ok && backend != null))
      ensures found <==> nodeId in old(mem).idToNode
    {
      StepInvalidate(Abstract(), nodeId, ok && backend != null);
      found := nodeId in mem.idToNode;
      if found {
        var idx := mem.idToNode[nodeId];
        InvalidatedExact(mem, nodeOrder, bm25, tokenize, idx);
        mem := WithInvalidated(mem, idx);
        PersistStatus(mem.nodes[idx], ok);
      }
    }

    method PersistStatus(node: Node, ok: bool)
      modifies backend
      ensures DiskContents() == ApplyAll(old(DiskContents()), if ok && backend != null then [PutNode(node)] else [])
    {
      ApplyTwo(DiskContents(), PutNode(node), PutNode(node));
      if backend != null {
        backend.StoreNode(node, ok);
      }
    }

    method ResolveQuestion(question: string, resolver: string, edgeId: string, reasoning: string, ok: bool)
      returns (edge: Option<Edge>)
      requires Valid()
      modifies this, backend
      ensures Valid()
      ensures Abstract()
           == Step(old(Abstract()), Op.Resolve(question, resolver, edgeId, reasoning, ok && backend != null))
      ensures edge.Some? <==> question in old(mem).idToNode && resolver in old(mem).idToNode
      ensures edge.Some? ==> edge.value == Edge(edgeId, Resolves, resolver, question, reasoning)
    {
      var e := Edge(edgeId, Resolves, resolver, question, reasoning);
      ResolvingAdds(Abstract(), e, ok && backend != null);
      NotConnected(Abstract(), e, ok && backend != null);
      if question !in mem.idToNode { return None; }
      if resolver !in mem.idToNode { return None; }
      var idx := AddEdge(e, ok);
      edge := Some(e);
    }

    /** The position of the session in the session list, appending it when new. */
    method RegisterSession(session: string) returns (idx: nat)
      requires Valid()
      modifies this`sessionOrder
      ensures Valid()
      ensures Abstract() == Step(old(Abstract()), Op.Register(session))
      ensures idx < |sessionOrder| && sessionOrder[idx] == session && session !in sessionOrder[..idx]
    {
      idx := FindSession(session);
      if idx == |sessionOrder| {
        sessionOrder := sessionOrder + [session];
      }
    }

    /** The first position of the session, or the length of the list. */
    method FindSession(session: string) returns (idx: nat)
      ensures idx <= |sessionOrder| && session !in sessionOrder[..idx]
      ensures idx < |sessionOrder| ==> sessionOrder[idx] == session
      ensures idx == |sessionOrder| <==> session !in sessionOrder
    {
      idx := 0;
      while idx < |sessionOrder| && sessionOrder[idx] != session
        invariant 0 <= idx <= |sessionOrder|
        invariant session !in sessionOrder[..idx]
      {
        idx := idx + 1;
      }
      assert sessionOrder[..|sessionOrder|] == sessionOrder;
    }
  }

  /** Resolving is adding a Resolves edge. */
  lemma ResolvingAdds(s: State, e: Edge, ok: bool)
    requires e.edgeType == Resolves
    ensures Step(s, Op.Resolve(e.target, e.source, e.id, e.reasoning, ok)) == Step(s, Op.AddEdge(e, ok))
  {
  }

  /** An edge that cannot be connected changes nothing. */
  lemma NotConnected(s: State, edge: Edge, ok: bool)
    ensures !CanConnect(s.graph, edge) ==> Step(s, Op.AddEdge(edge, ok)) == s
  {
    assert ApplyAll(s.disk, []) == s.disk;
  }

  /** Adding an edge that can be connected, part by part. */
  lemma StepConnects(s: State, edge: Edge, ok: bool)
    requires CanConnect(s.graph, edge)
    ensures Step(s, Op.AddEdge(edge, ok))
         == State(Connect(s.graph, edge), s.sessions, ApplyAll(s.disk, if ok then [PutEdge(edge)] else []))
  {
  }

  ghost function NodeWrites(d: Disk, node: Node, nodeOk: bool, orderOk: bool): seq<Write> {
    (if nodeOk then [PutNode(node)] else []) + (if orderOk then OrderWrite(d, node.id) else [])
  }

  /** Adding a node with a new id, part by part. */
  lemma StepAdds(s: State, node: Node, nodeOk: bool, orderOk: bool)
    requires node.id !in s.graph.nodes
    ensures Step(s, Op.AddNode(node, nodeOk, orderOk))
         == State(StepGraph(s.graph, Op.AddNode(node, true, true)), AddSession(s.sessions, node.sessionId),
                  ApplyAll(s.disk, NodeWrites(s.disk, node, nodeOk, orderOk)))
  {
  }

  lemma TwoWrites(d: Disk, node: Node, nodeOk: bool, orderOk: bool)
    ensures var first := if nodeOk then [PutNode(node)] else [];
            var second := if orderOk then OrderWrite(d, node.id) else [];
      && OrderWrite(ApplyAll(d, first), node.id) == OrderWrite(d, node.id)
      && ApplyAll(ApplyAll(d, first), second) == ApplyAll(d, first + second)
  {
    var w := PutNode(node);
    ApplyTwo(d, w, w);
    if OrderWrite(d, node.id) != [] {
      var o := OrderWrite(d, node.id)[0];
      ApplyTwo(d, w, o);
      ApplyTwo(d, o, o);
      ApplyTwo(Apply(d, w), o, o);
      assert OrderWrite(d, node.id) == [o];
      assert [] + [o] == [o] && [w] + [] == [w];
    } else {
      assert [w] + [] == [w];
      ApplyTwo(Apply(d, w), w, w);
    }
  }
}
