/** What stays closed: an open item that was resolved or invalidated, over runs in which any write may be lost. */
module ClosedItems {
  import opened GraphTypes
  import opened StoreSpec
  import opened Restarts
  import opened Debt
  import CrashSafety

  /** The node is known and not open: for an open item, it was invalidated or resolved. */
  ghost predicate Closed(g: Graph, id: string) { id in g.nodes && !IsOpen(g, id) }

  /** In memory and on disk, nodes and edges sit under their own ids. */
  ghost predicate Keyed(s: State) {
    WellKeyed(s.disk) && forall id | id in s.graph.nodes :: s.graph.nodes[id].id == id
  }

  // ---------- What a reopen makes of an item ----------

  /** A stored edge resolves the item, and its source is stored as well. */
  ghost predicate StoredResolver(d: Disk, id: string, e: string) {
    e in d.edges && d.edges[e].edgeType == Resolves && d.edges[e].target == id && d.edges[e].source in d.nodes
  }

  /** The item is stored as an active open item, and no stored edge with a stored source resolves it. */
  ghost predicate StoredOpen(d: Disk, id: string) {
    && id in d.nodes && d.nodes[id].nodeType == OpenItem && d.nodes[id].status == Active
    && forall e :: !StoredResolver(d, id, e)
  }

  /** In every state, whatever was lost before: what is open after a reopen is exactly what is stored as open. */
  lemma OpenAfterReopen(s: State, id: string)
    ensures IsOpen(Step(s, Reopen).graph, id) <==> StoredOpen(s.disk, id)
  {
    var g, d := Step(s, Reopen).graph, s.disk;
    if id in d.nodes {
      if Resolved(g, id) {
        var e :| e in g.edges && g.edges[e].edgeType == Resolves && g.edges[e].target == id;
        assert StoredResolver(d, id, e);
      }
      if e :| StoredResolver(d, id, e) {
        assert e in g.edges && g.edges[e] == d.edges[e];
      }
    }
  }

  // ---------- Closed for good ----------

  /** The edge, loaded or at least blocked from being rewritten, resolves the item on disk. */
  ghost predicate HeldResolver(s: State, id: string, e: string) {
    e in s.graph.edges && StoredResolver(s.disk, id, e)
  }

  /** The closing is on disk: the item is stored as no active open item, or resolved by an edge that is stored with
      its source and that memory holds under the same id. */
  ghost predicate ClosedOnDisk(s: State, id: string) {
    && id in s.disk.nodes
    && (s.disk.nodes[id].nodeType != OpenItem || s.disk.nodes[id].status == Invalidated
        || exists e :: HeldResolver(s, id, e))
  }

  /** A closed item whose closing is on disk. */
  ghost predicate Shut(s: State, id: string) {
    Keyed(s) && Closed(s.graph, id) && ClosedOnDisk(s, id)
  }

  lemma StepKeepsClosed(g: Graph, op: Op, id: string)
    requires Closed(g, id)
    ensures Closed(StepGraph(g, op), id)
  {
    var h := StepGraph(g, op);
    if Resolved(g, id) {
      var e :| e in g.edges && g.edges[e].edgeType == Resolves && g.edges[e].target == id;
      assert e in h.edges && h.edges[e] == g.edges[e];
    }
  }

  /** A write of an operation other than a reopen: a node under its own id, marked invalidated when its id is
      known, or an edge whose id memory does not hold. */
  ghost predicate Allowed(s: State, w: Write) {
    match w
    case PutNode(node) => node.id in s.graph.nodes ==> node.status == Invalidated
    case PutEdge(edge) => edge.id !in s.graph.edges
    case PutOrder(_, _) => true
  }

  lemma WritesAllowed(s: State, op: Op)
    requires Keyed(s) && !op.Reopen?
    ensures forall w | w in Writes(s, op) :: Allowed(s, w)
  {
  }

  /** The disk still says that the item is closed, with memory as it was before the writes. */
  lemma {:induction false} WritesKeepClosing(s: State, ws: seq<Write>, id: string)
    requires Keyed(s) && id in s.graph.nodes && ClosedOnDisk(s, id)
    requires forall w | w in ws :: Allowed(s, w)
    ensures ClosedOnDisk(s.(disk := ApplyAll(s.disk, ws)), id) && WellKeyed(ApplyAll(s.disk, ws))
  {
    if ws == [] {
    } else {
      var rest, last := ws[..|ws| - 1], ws[|ws| - 1];
      assert last in ws;
      WritesKeepClosing(s, rest, id);
      WriteKeepsClosing(s.(disk := ApplyAll(s.disk, rest)), last, id);
    }
  }

  lemma WriteKeepsClosing(s: State, w: Write, id: string)
    requires WellKeyed(s.disk) && id in s.graph.nodes && ClosedOnDisk(s, id) && Allowed(s, w)
    ensures ClosedOnDisk(s.(disk := Apply(s.disk, w)), id) && WellKeyed(Apply(s.disk, w))
  {
    if e :| HeldResolver(s, id, e) {
      assert HeldResolver(s.(disk := Apply(s.disk, w)), id, e);
    }
  }

  lemma MoreEdgesHold(s: State, t: State, id: string)
    requires ClosedOnDisk(s, id) && t.disk == s.disk && s.graph.edges.Keys <= t.graph.edges.Keys
    ensures ClosedOnDisk(t, id)
  {
    if e :| HeldResolver(s, id, e) {
      assert HeldResolver(t, id, e);
    }
  }

  /** Reopening keeps what is closed on disk. */
  lemma ReopenKeepsShut(s: State, id: string)
    requires Shut(s, id)
    ensures Shut(Step(s, Reopen), id)
  {
    var t := Step(s, Reopen);
    if e :| HeldResolver(s, id, e) {
      assert e in t.graph.edges && t.graph.edges[e] == s.disk.edges[e];
      assert HeldResolver(t, id, e);
    }
    OpenAfterReopen(s, id);
  }

  lemma StepKeepsShut(s: State, op: Op, id: string)
    requires Shut(s, id)
    ensures Shut(Step(s, op), id)
  {
    match op
    case Reopen => ReopenKeepsShut(s, id);
    case Register(_) => MoreEdgesHold(s, Step(s, op), id);
    case _ =>
      WritesAllowed(s, op);
      WritesKeepClosing(s, Writes(s, op), id);
      StepKeepsClosed(s.graph, op, id);
      MoreEdgesHold(s.(disk := ApplyAll(s.disk, Writes(s, op))), Step(s, op), id);
  }

  /** Once the closing is on disk, the item never comes back over any run, whichever writes are lost and however
      often the store is reopened: not by re-adding its id, not by rewriting its edges. */
  lemma {:induction false} ClosedForever(s: State, ops: seq<Op>, id: string)
    requires Shut(s, id)
    ensures Shut(Run(s, ops), id)
    ensures var g := Run(s, ops).graph; !IsOpen(g, id) && id !in NewestOpen(g, g.order)
  {
    if ops == [] {
      NewestOpenFacts(s.graph, s.graph.order);
    } else {
      var rest, last := ops[..|ops| - 1], ops[|ops| - 1];
      ClosedForever(s, rest, id);
      StepKeepsShut(Run(s, rest), last, id);
      NewestOpenFacts(Run(s, ops).graph, Run(s, ops).graph.order);
    }
  }

  // ---------- Exactly when ----------

  lemma {:induction false} RunConcat(s: State, a: seq<Op>, b: seq<Op>)
    ensures Run(s, a + b) == Run(Run(s, a), b)
  {
    if b == [] {
      assert a + b == a;
    } else {
      assert (a + b)[..|a + b| - 1] == a + b[..|b| - 1];
      RunConcat(s, a, b[..|b| - 1]);
    }
  }

  lemma RunOne(s: State, op: Op)
    ensures Run(s, [op]) == Step(s, op)
  {
    assert [op][..0] == [];
    assert Run(s, []) == s;
  }

  /** Stored resolving edges that memory does not hold, so that an edge with the same id may replace them. */
  ghost function Replaceable(s: State, id: string): set<string> {
    set e | e in s.disk.edges && StoredResolver(s.disk, id, e) && e !in s.graph.edges
  }

  /** The edge written in place of a replaceable one. */
  ghost function Replacement(id: string, e: string): Edge { Edge(e, RelatesTo, id, id, []) }

  lemma Replaced(s: State, id: string, e: string)
    requires Keyed(s) && Closed(s.graph, id) && !ClosedOnDisk(s, id) && e in Replaceable(s, id)
    ensures var t := Step(s, Op.AddEdge(Replacement(id, e), true));
      && Keyed(t) && Closed(t.graph, id) && !ClosedOnDisk(t, id) && t.disk.nodes == s.disk.nodes
      && Replaceable(t, id) == Replaceable(s, id) - {e}
  {
    var edge := Replacement(id, e);
    var op := Op.AddEdge(edge, true);
    var t := Step(s, op);
    ApplyTwo(s.disk, PutEdge(edge), PutEdge(edge));
    assert Writes(s, op) == [PutEdge(edge)];
    assert t.disk == s.disk.(edges := s.disk.edges[e := edge]);
    assert t.graph == s.graph.(edges := s.graph.edges[e := edge]);
    StepKeepsClosed(s.graph, op, id);
    forall f
      ensures StoredResolver(t.disk, id, f) <==> f != e && StoredResolver(s.disk, id, f)
    {
    }
    if ClosedOnDisk(t, id) {
      var f :| HeldResolver(t, id, f);
      assert HeldResolver(s, id, f);
    }
  }

  /** While the closing is not on disk, some run opens the item again. */
  lemma {:induction false} SomeRunReopens(s: State, id: string) returns (ops: seq<Op>)
    requires Keyed(s) && Closed(s.graph, id) && !ClosedOnDisk(s, id)
    ensures IsOpen(Run(s, ops).graph, id)
    decreases |Replaceable(s, id)|
  {
    if id !in s.disk.nodes {
      ops := ReAdded(s, id);
    } else if Replaceable(s, id) == {} {
      ops := [Reopen];
      RunOne(s, Reopen);
      OpenAfterReopen(s, id);
      forall e ensures !StoredResolver(s.disk, id, e) {
        assert e in Replaceable(s, id) || !StoredResolver(s.disk, id, e) || HeldResolver(s, id, e);
      }
    } else {
      var e :| e in Replaceable(s, id);
      var op := Op.AddEdge(Replacement(id, e), true);
      Replaced(s, id, e);
      var rest := SomeRunReopens(Step(s, op), id);
      ops := [op] + rest;
      RunOne(s, op);
      RunConcat(s, [op], rest);
    }
  }

  /** A node that is not stored at all is gone after a reopen and can be added anew. */
  lemma ReAdded(s: State, id: string) returns (ops: seq<Op>)
    requires id !in s.disk.nodes
    ensures IsOpen(Run(s, ops).graph, id)
  {
    var node := Node(id, OpenItem, [], [], [], [], [], [], Active);
    var add := Op.AddNode(node, false, false);
    ops := [Reopen] + [add];
    RunOne(s, Reopen);
    RunOne(Step(s, Reopen), add);
    RunConcat(s, [Reopen], [add]);
    var g := Step(s, Reopen).graph;
    assert forall e | e in g.edges :: g.edges[e].target in s.disk.nodes;
  }

  /** The item is never open again, over any run from here. */
  ghost predicate NeverOpens(s: State, id: string) {
    forall ops: seq<Op> :: ClosedAfter(s, ops, id)
  }

  ghost predicate ClosedAfter(s: State, ops: seq<Op>, id: string) { !IsOpen(Run(s, ops).graph, id) }

  /** A closed item stays closed over every run, with any writes lost, if and only if its closing is on disk. */
  lemma StaysClosedExactly(s: State, id: string)
    requires Keyed(s) && Closed(s.graph, id)
    ensures NeverOpens(s, id) <==> ClosedOnDisk(s, id)
  {
    if ClosedOnDisk(s, id) {
      forall ops: seq<Op> ensures ClosedAfter(s, ops, id) { ClosedForever(s, ops, id); }
    } else {
      var ops := SomeRunReopens(s, id);
      assert !ClosedAfter(s, ops, id);
    }
  }

  // ---------- Which closings are on disk ----------

  /** In memory and disk that agree, every closing is on disk. */
  lemma SyncedIsShut(s: State, bound: nat, id: string)
    requires Synced(s, bound) && Closed(s.graph, id)
    ensures Shut(s, id)
  {
    if Resolved(s.graph, id) {
      var e :| e in s.graph.edges && s.graph.edges[e].edgeType == Resolves && s.graph.edges[e].target == id;
      assert HeldResolver(s, id, e);
    }
  }

  /** The trees stay keyed over every run. */
  lemma {:induction false} RunKeyed(s: State, ops: seq<Op>)
    requires Keyed(s)
    ensures Keyed(Run(s, ops))
  {
    if ops == [] {
    } else {
      var t, last := Run(s, ops[..|ops| - 1]), ops[|ops| - 1];
      RunKeyed(s, ops[..|ops| - 1]);
      StepKeyed(t, last);
    }
  }

  lemma StepKeyed(s: State, op: Op)
    requires Keyed(s)
    ensures Keyed(Step(s, op))
  {
    if !op.Reopen? && !op.Register? { CrashSafety.WritesAreKeyed(s.disk, Writes(s, op)); }
  }

  /** An invalidation is undone by the next reopen if and only if its write failed and the node is still stored as
      open; one that was written is never undone. */
  lemma ReopenedInvalidation(s: State, id: string, written: bool)
    requires Keyed(s) && id in s.graph.nodes
    ensures var t := Step(s, Op.Invalidate(id, written));
      Closed(t.graph, id) && (IsOpen(Step(t, Reopen).graph, id) <==> !written && StoredOpen(s.disk, id))
    ensures written ==> Shut(Step(s, Op.Invalidate(id, written)), id)
  {
    var t := Step(s, Op.Invalidate(id, written));
    StepInvalidate(s, id, written);
    StepKeyed(s, Op.Invalidate(id, written));
    OpenAfterReopen(t, id);
    var w := PutNode(s.graph.nodes[id].(status := Invalidated));
    ApplyTwo(s.disk, w, w);
  }

  /** A resolution under a fresh edge id is undone by the next reopen if and only if the question is still stored
      as open and the write failed or the resolver is not stored. */
  lemma ReopenedResolution(s: State, q: string, r: string, e: string, reasoning: string, written: bool)
    requires q in s.graph.nodes && r in s.graph.nodes && e !in s.graph.edges && e !in s.disk.edges
    ensures var t := Step(s, Op.Resolve(q, r, e, reasoning, written));
      && Closed(t.graph, q)
      && (IsOpen(Step(t, Reopen).graph, q) <==> StoredOpen(s.disk, q) && !(written && r in s.disk.nodes))
  {
    var edge := Edge(e, Resolves, r, q, reasoning);
    var op := Op.Resolve(q, r, e, reasoning, written);
    var t := Step(s, op);
    assert t.graph == s.graph.(edges := s.graph.edges[e := edge]);
    assert t.graph.edges[e] == edge;
    OpenAfterReopen(t, q);
    ApplyTwo(s.disk, PutEdge(edge), PutEdge(edge));
    assert t.disk == if written then s.disk.(edges := s.disk.edges[e := edge]) else s.disk;
    ResolverStored(s.disk, t.disk, edge);
  }

  lemma ResolverStored(d: Disk, after: Disk, edge: Edge)
    requires edge.edgeType == Resolves && edge.id !in d.edges
    requires after == d || after == d.(edges := d.edges[edge.id := edge])
    ensures StoredOpen(after, edge.target)
       <==> StoredOpen(d, edge.target) && (after == d || edge.source !in d.nodes)
  {
    var id := edge.target;
    if after != d {
      assert StoredResolver(after, id, edge.id) <==> edge.source in d.nodes;
      forall e | e != edge.id ensures StoredResolver(after, id, e) <==> StoredResolver(d, id, e) { }
    }
  }

  // ---------- Runs that show it ----------

  ghost function Item(id: string, kind: NodeType): Node { Node(id, kind, [], [], [], [], [], [], Active) }

  /** A question that was resolved, with the edge stored, is open again when the resolver's node was not. */
  lemma LostResolver(q: string, r: string, e: string)
    requires q != r
    ensures var s := Run(Open(EMPTY_DISK), [Op.AddNode(Item(q, OpenItem), true, true),
                                            Op.AddNode(Item(r, Decision), false, true), Op.Resolve(q, r, e, [], true)]);
      Closed(s.graph, q) && e in s.disk.edges && IsOpen(Step(s, Reopen).graph, q)
  {
    var first, second := Op.AddNode(Item(q, OpenItem), true, true), Op.AddNode(Item(r, Decision), false, true);
    var last := Op.Resolve(q, r, e, [], true);
    var start := Open(EMPTY_DISK);
    EmptyIsSynced();
    var s1 := Step(start, first);
    var s2 := Step(s1, second);
    RunThree(start, first, second, last);
    AddedNode(start, Item(q, OpenItem), true, true);
    AddedNode(s1, Item(r, Decision), false, true);
    assert start.disk == EMPTY_DISK;
    ReopenedResolution(s2, q, r, e, [], true);
    var edge := Edge(e, Resolves, r, q, []);
    ApplyTwo(s2.disk, PutEdge(edge), PutEdge(edge));
    assert Writes(s2, last) == [PutEdge(edge)];
  }

  lemma RunThree(s: State, a: Op, b: Op, c: Op)
    ensures Run(s, [a, b]) == Step(Step(s, a), b)
    ensures Run(s, [a, b, c]) == Step(Step(Step(s, a), b), c)
  {
    RunOne(s, a);
    RunOne(Step(s, a), b);
    RunConcat(s, [a], [b]);
    assert [a] + [b] == [a, b];
    RunOne(Step(Step(s, a), b), c);
    RunConcat(s, [a, b], [c]);
    assert [a, b] + [c] == [a, b, c];
  }

  /** Adding a node with a new id, with any outcome of its writes. */
  lemma AddedNode(s: State, node: Node, nodeOk: bool, orderOk: bool)
    requires node.id !in s.graph.nodes
    ensures var t := Step(s, Op.AddNode(node, nodeOk, orderOk));
      && t.graph == Graph(s.graph.nodes[node.id := node], s.graph.edges, s.graph.order + [node.id])
      && t.disk.nodes == (if nodeOk then s.disk.nodes[node.id := node] else s.disk.nodes)
      && t.disk.edges == s.disk.edges && t.disk.legacy == s.disk.legacy
      && (!orderOk ==> t.disk.order == s.disk.order)
  {
    var put, append := if nodeOk then [PutNode(node)] else [], if orderOk then OrderWrite(s.disk, node.id) else [];
    assert Writes(s, Op.AddNode(node, nodeOk, orderOk)) == put + append;
    NodeThenOrder(s.disk, put, append);
  }

  /** Writing at most one node, then at most one order entry. */
  lemma NodeThenOrder(d: Disk, put: seq<Write>, append: seq<Write>)
    requires put == [] || (|put| == 1 && put[0].PutNode?)
    requires append == [] || (|append| == 1 && append[0].PutOrder?)
    ensures var t := ApplyAll(d, put + append);
      && t.nodes == (if put == [] then d.nodes else d.nodes[put[0].node.id := put[0].node])
      && t.edges == d.edges && t.legacy == d.legacy && (append == [] ==> t.order == d.order)
  {
    if put == [] {
      assert put + append == append;
      OneWrite(d, append);
    } else if append == [] {
      assert put + append == put;
      OneWrite(d, put);
    } else {
      ApplyTwo(d, put[0], append[0]);
      assert put + append == [put[0]] + [append[0]];
    }
  }

  lemma OneWrite(d: Disk, ws: seq<Write>)
    requires |ws| <= 1
    ensures ApplyAll(d, ws) == if ws == [] then d else Apply(d, ws[0])
  {
    if ws != [] {
      ApplyTwo(d, ws[0], ws[0]);
      assert ws == [ws[0]];
    }
  }

  /** A lost invalidation that is repeated in time is not undone. */
  lemma RepeatedInvalidation(s: State, id: string)
    requires Keyed(s) && id in s.graph.nodes
    ensures var t := Step(Step(s, Op.Invalidate(id, false)), Op.Invalidate(id, true));
      !IsOpen(Step(t, Reopen).graph, id)
  {
    var t := Step(s, Op.Invalidate(id, false));
    StepInvalidate(s, id, false);
    StepKeyed(s, Op.Invalidate(id, false));
    ReopenedInvalidation(t, id, true);
  }

  /** An open item whose order entry was lost is a debt but no open question after a reopen. */
  lemma LostOrderEntry(q: string)
    ensures var s := Step(Run(Open(EMPTY_DISK), [Op.AddNode(Item(q, OpenItem), true, false)]), Reopen);
      IsOpen(s.graph, q) && q !in NewestOpen(s.graph, s.graph.order)
  {
    var start, add := Open(EMPTY_DISK), Op.AddNode(Item(q, OpenItem), true, false);
    EmptyIsSynced();
    RunOne(start, add);
    AddedNode(start, Item(q, OpenItem), true, false);
    var s := Step(start, add);
    assert start.disk == EMPTY_DISK;
    OpenAfterReopen(s, q);
    NewestOpenFacts(Step(s, Reopen).graph, Step(s, Reopen).graph.order);
    assert LoadOrder(s.disk) == [];
  }
}
