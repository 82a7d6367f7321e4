/**
 * The graph store as a state machine over values: what each operation does to the graph, to the session
 * list and to the key-value trees on disk, and what survives any number of reopens or a crash.
 */
module StoreSpec {
  import opened GraphTypes
  import opened OrderKeys

  /** The knowledge graph as plain maps, with the node ids in insertion order. */
  datatype Graph = Graph(nodes: map<string, Node>, edges: map<string, Edge>, order: seq<string>)

  const EMPTY_GRAPH := Graph(map[], map[], [])

  /** The trees of the backend; legacy is the single-blob order of old databases, empty when absent. */
  datatype Disk = Disk(nodes: map<string, Node>, edges: map<string, Edge>, order: map<Key, string>, legacy: seq<string>)

  const EMPTY_DISK := Disk(map[], map[], map[], [])

  datatype Write = PutNode(node: Node) | PutEdge(edge: Edge) | PutOrder(key: Key, id: string)

  datatype State = State(graph: Graph, sessions: seq<string>, disk: Disk)

  /** Each flag says whether the backend write succeeded; a failed one is only logged. */
  datatype Op =
    | AddNode(node: Node, nodeWritten: bool, orderWritten: bool)
    | AddEdge(edge: Edge, written: bool)
    | Invalidate(nodeId: string, written: bool)
    | Resolve(question: string, resolver: string, edgeId: string, reasoning: string, written: bool)
    | Register(session: string)
    | Reopen

  // ---------- Disk ----------

  ghost function Apply(d: Disk, w: Write): Disk {
    match w
    case PutNode(node) => d.(nodes := d.nodes[node.id := node])
    case PutEdge(edge) => d.(edges := d.edges[edge.id := edge])
    case PutOrder(key, id) => d.(order := d.order[key := id])
  }

  ghost function ApplyAll(d: Disk, ws: seq<Write>): Disk {
    if ws == [] then d else Apply(ApplyAll(d, ws[..|ws| - 1]), ws[|ws| - 1])
  }

  /** The write that appends a node id to the order log; a malformed last key makes the append fail. */
  ghost function OrderWrite(d: Disk, id: string): seq<Write> {
    if d.order != map[] && |Last(d.order)| != KeyLength() then []
    else [PutOrder(OrderKey(NextIndex(d.order)), id)]
  }

  ghost predicate WellKeyed(d: Disk) {
    && (forall id | id in d.nodes :: d.nodes[id].id == id)
    && (forall id | id in d.edges :: d.edges[id].id == id)
  }

  ghost function LoadOrder(d: Disk): seq<string> {
    if d.order != map[] then Listing(d.order) else d.legacy
  }

  /** Loading moves a legacy order blob into the order tree. */
  ghost function Migrate(d: Disk): Disk {
    if d.order == map[] && d.legacy != [] then d.(order := Enumerated(d.legacy), legacy := []) else d
  }

  ghost function Filter(ids: seq<string>, keep: set<string>): (kept: seq<string>)
    ensures forall id | id in kept :: id in keep
  {
    if ids == [] then [] else
      Filter(ids[..|ids| - 1], keep) + (if ids[|ids| - 1] in keep then [ids[|ids| - 1]] else [])
  }

  /** The graph that is rebuilt from disk: dangling edges and unknown ids in the order are skipped. */
  ghost function Load(d: Disk): Graph {
    Graph(d.nodes,
          map id | id in d.edges && d.edges[id].source in d.nodes && d.edges[id].target in d.nodes :: d.edges[id],
          Filter(LoadOrder(d), d.nodes.Keys))
  }

  /** The distinct elements in the order of their first occurrence. */
  ghost function FirstOccurrences(xs: seq<string>): seq<string> {
    if xs == [] then [] else
      var before := FirstOccurrences(xs[..|xs| - 1]);
      if xs[|xs| - 1] in before then before else before + [xs[|xs| - 1]]
  }

  ghost function NodeSessions(g: Graph): seq<string>
    requires forall id | id in g.order :: id in g.nodes
  {
    seq(|g.order|, i requires 0 <= i < |g.order| => g.nodes[g.order[i]].sessionId)
  }

  // ---------- Operations ----------

  /** The effect on the graph; disk and restarts play no part in it. */
  ghost function StepGraph(g: Graph, op: Op): Graph {
    match op
    case AddNode(node, _, _) =>
      if node.id in g.nodes then g else Graph(g.nodes[node.id := node], g.edges, g.order + [node.id])
    case AddEdge(edge, _) => Connect(g, edge)
    case Invalidate(id, _) =>
      if id in g.nodes then g.(nodes := g.nodes[id := g.nodes[id].(status := Invalidated)]) else g
    case Resolve(question, resolver, edgeId, reasoning, _) =>
      Connect(g, Edge(edgeId, Resolves, resolver, question, reasoning))
    case Register(_) => g
    case Reopen => g
  }

  ghost predicate CanConnect(g: Graph, e: Edge) {
    e.source in g.nodes && e.target in g.nodes && e.id !in g.edges
  }

  ghost function Connect(g: Graph, e: Edge): Graph {
    if CanConnect(g, e) then g.(edges := g.edges[e.id := e]) else g
  }

  ghost function AddSession(sessions: seq<string>, session: string): seq<string> {
    if session in sessions then sessions else sessions + [session]
  }

  /** The backend writes an operation performs, in order. */
  ghost function Writes(s: State, op: Op): seq<Write> {
    match op
    case AddNode(node, nodeWritten, orderWritten) =>
      if node.id in s.graph.nodes then [] else
        (if nodeWritten then [PutNode(node)] else []) + (if orderWritten then OrderWrite(s.disk, node.id) else [])
    case AddEdge(edge, written) => if written && CanConnect(s.graph, edge) then [PutEdge(edge)] else []
    case Invalidate(id, written) =>
      if written && id in s.graph.nodes then [PutNode(s.graph.nodes[id].(status := Invalidated))] else []
    case Resolve(question, resolver, edgeId, reasoning, written) =>
      var edge := Edge(edgeId, Resolves, resolver, question, reasoning);
      if written && CanConnect(s.graph, edge) then [PutEdge(edge)] else []
    case Register(_) => []
    case Reopen => []
  }

  ghost function Open(d: Disk): State {
    State(Load(d), FirstOccurrences(NodeSessions(Load(d))), Migrate(d))
  }

  ghost function Step(s: State, op: Op): State {
    match op
    case Reopen => Open(s.disk)
    case Register(session) => s.(sessions := AddSession(s.sessions, session))
    case _ =>
      var sessions := if op.AddNode? && op.node.id !in s.graph.nodes then AddSession(s.sessions, op.node.sessionId)
                      else s.sessions;
      State(StepGraph(s.graph, op), sessions, ApplyAll(s.disk, Writes(s, op)))
  }

  lemma StepInvalidate(s: State, id: string, written: bool)
    ensures id !in s.graph.nodes ==> Step(s, Op.Invalidate(id, written)) == s
    ensures id in s.graph.nodes ==>
      var node := s.graph.nodes[id].(status := Invalidated);
      Step(s, Op.Invalidate(id, written))
      == State(s.graph.(nodes := s.graph.nodes[id := node]), s.sessions,
               ApplyAll(s.disk, if written then [PutNode(node)] else []))
  {
  }

  ghost function Run(s: State, ops: seq<Op>): State {
    if ops == [] then s else Step(Run(s, ops[..|ops| - 1]), ops[|ops| - 1])
  }

  /** The run on the graph alone. */
  ghost function RunGraph(g: Graph, ops: seq<Op>): Graph {
    if ops == [] then g else StepGraph(RunGraph(g, ops[..|ops| - 1]), ops[|ops| - 1])
  }

  /** Every backend write of the operation succeeds. */
  ghost predicate Written(op: Op) {
    match op
    case AddNode(_, nodeWritten, orderWritten) => nodeWritten && orderWritten
    case AddEdge(_, written) => written
    case Invalidate(_, written) => written
    case Resolve(_, _, _, _, written) => written
    case _ => true
  }

  // ---------- Loading any disk ----------

  lemma {:induction false} FilterFacts(ids: seq<string>, keep: set<string>)
    ensures forall id | id in Filter(ids, keep) :: id in ids
    ensures forall id | id in ids && id in keep :: id in Filter(ids, keep)
    ensures (forall id | id in ids :: id in keep) ==> Filter(ids, keep) == ids
  {
    if ids == [] {
    } else {
      var rest, last := ids[..|ids| - 1], ids[|ids| - 1];
      FilterFacts(rest, keep);
      assert ids == rest + [last];
      assert forall id | id in rest :: id in ids;
      assert last in ids;
    }
  }

  /** No dangling edge, every id in the order names a node, and all entries sit under their own id. */
  ghost predicate Sound(g: Graph) {
    && (forall id | id in g.nodes :: g.nodes[id].id == id)
    && (forall id | id in g.edges ::
          g.edges[id].id == id && g.edges[id].source in g.nodes && g.edges[id].target in g.nodes)
    && (forall id | id in g.order :: id in g.nodes)
  }

  /** Whatever is left on disk, the graph rebuilt from it is sound, keeps every node, and keeps exactly the
      edges between surviving nodes. */
  lemma LoadIsSound(d: Disk)
    requires WellKeyed(d)
    ensures Sound(Load(d))
    ensures Load(d).nodes == d.nodes
    ensures forall id | id in d.edges ::
              id in Load(d).edges <==> d.edges[id].source in d.nodes && d.edges[id].target in d.nodes
    ensures forall id | id in Load(d).order :: id in LoadOrder(d)
    ensures forall id | id in LoadOrder(d) && id in d.nodes :: id in Load(d).order
  {
    FilterFacts(LoadOrder(d), d.nodes.Keys);
  }

  lemma {:induction false} FirstOccurrencesExact(xs: seq<string>)
    ensures NoDup(FirstOccurrences(xs))
    ensures forall x :: x in FirstOccurrences(xs) <==> x in xs
    ensures forall k | 0 <= k < |FirstOccurrences(xs)| :: FirstAt(xs, FirstOccurrences(xs), k)
  {
    if xs == [] {
    } else {
      var rest, last := xs[..|xs| - 1], xs[|xs| - 1];
      FirstOccurrencesExact(rest);
      var before, r := FirstOccurrences(rest), FirstOccurrences(xs);
      assert xs == rest + [last];
      forall k | 0 <= k < |r| ensures FirstAt(xs, r, k) {
        if k < |before| {
          assert FirstAt(rest, before, k);
          var p :| 0 <= p < |rest| && rest[p] == before[k] && before[k] !in rest[..p]
                   && forall x :: x in rest[..p] <==> x in before[..k];
          assert xs[..p] == rest[..p] && r[..k] == before[..k] && xs[p] == r[k];
        } else {
          assert xs[..|rest|] == rest && r[..k] == before && xs[|rest|] == r[k];
        }
      }
    }
  }

  /** Entry k of r first occurs in xs right after exactly the earlier entries of r have occurred. */
  ghost predicate FirstAt(xs: seq<string>, r: seq<string>, k: nat)
    requires k < |r|
  {
    exists p | 0 <= p < |xs| :: xs[p] == r[k] && r[k] !in xs[..p] && forall x :: x in xs[..p] <==> x in r[..k]
  }
}
