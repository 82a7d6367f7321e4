/** What a reopen leaves of the session list and of the keyword index, after any run with successful writes. */
module Reopening {
  import opened GraphTypes
  import opened OrderKeys
  import opened Bm25
  import opened StoreSpec
  import opened Restarts
  import opened StoreIndex

  // ---------- The whole state after a reopen ----------

  /** A reopened store has the graph and the disk it had before, and the sessions of its nodes. */
  lemma ReopenedState(s: State, bound: nat)
    requires Synced(s, bound)
    ensures Step(s, Reopen) == State(s.graph, FirstOccurrences(NodeSessions(s.graph)), s.disk)
  {
    SyncedLoads(s, bound);
  }

  /** The nodes determine the keyword index, however it came about. */
  lemma SameIndex(a: Memory, aOrder: seq<string>, aIndex: Index, b: Memory, bOrder: seq<string>, bIndex: Index,
                  tokenize: string -> seq<string>)
    requires Exact(a, aOrder, aIndex, tokenize) && Exact(b, bOrder, bIndex, tokenize)
    requires NodeMap(a) == NodeMap(b)
    ensures aIndex == bIndex
  {
    RescanUnique(aIndex, bIndex, Documents(NodeMap(a), tokenize));
  }

  /** Any run with successful writes and any number of reopens, then one more reopen: nodes, edges and order are those
      of the run on the graph alone, the sessions are those of its nodes, the disk is unchanged, and a store that
      shows the state before has the same keyword index as one that shows the state after. */
  lemma ReopenedRun(s: State, ops: seq<Op>, bound: nat, before: Memory, index: Index, after: Memory, rebuilt: Index,
                    tokenize: string -> seq<string>)
    requires Synced(s, bound) && bound + |ops| <= INDEX_LIMIT
    requires forall op | op in ops :: Written(op)
    requires var t := Run(s, ops);
      && Exact(before, t.graph.order, index, tokenize) && ViewOf(before, t.graph.order) == t.graph
      && Exact(after, Step(t, Reopen).graph.order, rebuilt, tokenize)
      && ViewOf(after, Step(t, Reopen).graph.order) == Step(t, Reopen).graph
    ensures var g := RunGraph(s.graph, ops);
      && (forall id | id in g.order :: id in g.nodes)
      && Step(Run(s, ops), Reopen) == State(g, FirstOccurrences(NodeSessions(g)), Run(s, ops).disk)
    ensures rebuilt == index
  {
    RestartsAreInvisible(s, ops, bound);
    ReopenedState(Run(s, ops), bound + |ops|);
    SameIndex(before, Run(s, ops).graph.order, index, after, Run(s, ops).graph.order, rebuilt, tokenize);
  }

  // ---------- The session list ----------

  /** A reopen here would leave the session list as it is. */
  ghost predicate KeepsSessions(s: State) { Step(s, Reopen).sessions == s.sessions }

  /** Without a reopen no session changes its index. */
  lemma IndicesStay(s: State, op: Op)
    requires !op.Reopen?
    ensures s.sessions <= Step(s, op).sessions
  {
  }

  ghost predicate Named(g: Graph) { forall id | id in g.order :: id in g.nodes }

  /** Only a node with a new id adds to the sessions of the nodes. */
  lemma StepNodeSessions(g: Graph, op: Op)
    requires Named(g)
    ensures Named(StepGraph(g, op))
    ensures NodeSessions(StepGraph(g, op))
         == if op.AddNode? && op.node.id !in g.nodes then NodeSessions(g) + [op.node.sessionId] else NodeSessions(g)
  {
  }

  lemma FirstOccurrencesSnoc(xs: seq<string>, x: string)
    ensures FirstOccurrences(xs + [x]) == AddSession(FirstOccurrences(xs), x)
  {
    assert (xs + [x])[..|xs|] == xs;
  }

  /** What an operation other than a reopen does to the session list. */
  lemma StepSessions(s: State, op: Op)
    requires !op.Reopen?
    ensures Step(s, op).sessions
         == if op.Register? then AddSession(s.sessions, op.session)
            else if op.AddNode? && op.node.id !in s.graph.nodes then AddSession(s.sessions, op.node.sessionId)
            else s.sessions
  {
  }

  /** The list is that of the nodes' sessions. */
  ghost predicate Follows(g: Graph, sessions: seq<string>)
    requires Named(g)
  {
    sessions == FirstOccurrences(NodeSessions(g))
  }

  lemma KeepsIsFollows(s: State, bound: nat)
    requires Synced(s, bound)
    ensures Named(s.graph) && (KeepsSessions(s) <==> Follows(s.graph, s.sessions))
  {
    ReopenedState(s, bound);
  }

  lemma StepFollows(g: Graph, sessions: seq<string>, after: seq<string>, op: Op)
    requires Named(g) && Follows(g, sessions) && !op.Reopen?
    requires after == if op.Register? then AddSession(sessions, op.session)
                      else if op.AddNode? && op.node.id !in g.nodes then AddSession(sessions, op.node.sessionId)
                      else sessions
    ensures Named(StepGraph(g, op))
    ensures Follows(StepGraph(g, op), after) <==> (op.Register? ==> op.session in sessions)
  {
    StepNodeSessions(g, op);
    if op.AddNode? { FirstOccurrencesSnoc(NodeSessions(g), op.node.sessionId); }
  }

  /** A registration is of a session that is already listed. */
  ghost predicate RegistersListed(s: State, op: Op) { op.Register? ==> op.session in s.sessions }

  /** One operation with successful writes keeps the list in step with the nodes, unless it registers a session
      that is not listed. */
  lemma StepKeepsSessions(s: State, op: Op, bound: nat)
    requires Synced(s, bound) && bound < INDEX_LIMIT && Written(op) && KeepsSessions(s)
    ensures KeepsSessions(Step(s, op)) <==> RegistersListed(s, op)
  {
    StepSynced(s, op, bound);
    KeepsIsFollows(s, bound);
    KeepsIsFollows(Step(s, op), bound + 1);
    if op.Reopen? {
      ReopenedState(s, bound);
    } else {
      StepSessions(s, op);
      StepFollows(s.graph, s.sessions, Step(s, op).sessions, op);
    }
  }

  /** A reopen would keep the session list now and after every operation of the run. */
  ghost predicate AlwaysKeeps(s: State, ops: seq<Op>) {
    KeepsSessions(Run(s, ops)) && (ops != [] ==> AlwaysKeeps(s, ops[..|ops| - 1]))
  }

  /** Every registration of the run is of a session that is listed by then. */
  ghost predicate AlwaysListed(s: State, ops: seq<Op>) {
    ops == [] || (AlwaysListed(s, ops[..|ops| - 1]) && RegistersListed(Run(s, ops[..|ops| - 1]), ops[|ops| - 1]))
  }

  /** A reopen at any moment of a run leaves the session list as it is, if and only if every registration of the run
      is of a session that is listed by then. */
  lemma {:induction false} SessionsKeptExactly(s: State, ops: seq<Op>, bound: nat)
    requires Synced(s, bound) && bound + |ops| <= INDEX_LIMIT && KeepsSessions(s)
    requires forall op | op in ops :: Written(op)
    ensures AlwaysKeeps(s, ops) <==> AlwaysListed(s, ops)
  {
    if ops == [] {
    } else {
      var rest, last := ops[..|ops| - 1], ops[|ops| - 1];
      assert last in ops;
      SessionsKeptExactly(s, rest, bound);
      RestartsAreInvisible(s, rest, bound);
      if KeepsSessions(Run(s, rest)) { StepKeepsSessions(Run(s, rest), last, bound + |rest|); }
    }
  }

  // ---------- One session's index ----------

  ghost predicate HasIndex(sessions: seq<string>, x: string, i: nat) {
    i < |sessions| && sessions[i] == x && x !in sessions[..i]
  }

  /** The elements before the first occurrence of x. */
  ghost function Earlier(xs: seq<string>, x: string): set<string> {
    if xs == [] || xs[0] == x then {} else {xs[0]} + Earlier(xs[1..], x)
  }

  lemma {:induction false} EarlierThan(xs: seq<string>, p: nat)
    requires p < |xs| && xs[p] !in xs[..p]
    ensures Earlier(xs, xs[p]) == set y | y in xs[..p]
  {
    if p == 0 {
    } else {
      assert xs[..p][0] == xs[0] && xs[1..][p - 1] == xs[p];
      assert xs[..p] == [xs[0]] + xs[1..][..p - 1];
      EarlierThan(xs[1..], p - 1);
    }
  }

  lemma {:induction false} DistinctCount(r: seq<string>)
    requires NoDup(r)
    ensures |set y | y in r| == |r|
  {
    if r == [] {
    } else {
      var front, last := r[..|r| - 1], r[|r| - 1];
      DistinctCount(front);
      assert (set y | y in r) == (set y | y in front) + {last};
    }
  }

  /** Position k of the first occurrences holds x when k distinct elements come before x. */
  lemma EarlierAreListed(xs: seq<string>, k: nat)
    requires k < |FirstOccurrences(xs)|
    ensures |Earlier(xs, FirstOccurrences(xs)[k])| == k
  {
    var r := FirstOccurrences(xs);
    FirstOccurrencesExact(xs);
    assert FirstAt(xs, r, k);
    var p :| 0 <= p < |xs| && xs[p] == r[k] && r[k] !in xs[..p] && forall y :: y in xs[..p] <==> y in r[..k];
    EarlierThan(xs, p);
    assert Earlier(xs, r[k]) == set y | y in r[..k];
    DistinctCount(r[..k]);
  }

  /** In the list of first occurrences, x has as many elements before it as distinct elements come before x. */
  lemma IndexIsEarlierCount(xs: seq<string>, x: string, i: nat)
    ensures HasIndex(FirstOccurrences(xs), x, i) <==> x in xs && |Earlier(xs, x)| == i
  {
    FirstOccurrencesExact(xs);
    var r := FirstOccurrences(xs);
    if x in xs {
      var k: nat :| k < |r| && r[k] == x;
      EarlierAreListed(xs, k);
    }
  }

  /** The index of a session after a reopen is the number of other sessions whose first node comes before its own
      first node; a session without a node has none. */
  lemma IndexAfterReopen(s: State, bound: nat, x: string, i: nat)
    requires Synced(s, bound)
    ensures HasIndex(Step(s, Reopen).sessions, x, i)
       <==> x in NodeSessions(s.graph) && |Earlier(NodeSessions(s.graph), x)| == i
  {
    ReopenedState(s, bound);
    IndexIsEarlierCount(NodeSessions(s.graph), x, i);
  }

  // ---------- Runs that show it ----------

  /** A session that was registered and has no node is forgotten. */
  lemma ForgottenSession(x: string)
    ensures var s := Step(Open(EMPTY_DISK), Register(x));
      HasIndex(s.sessions, x, 0) && Step(s, Reopen).sessions == []
  {
    var start := Open(EMPTY_DISK);
    EmptyIsSynced();
    ReopenedState(start, 0);
    StepSynced(start, Register(x), 0);
    ReopenedState(Step(start, Register(x)), 1);
    assert NodeSessions(start.graph) == [];
  }

  /** Two registered sessions whose first nodes come in the other order change places. */
  lemma ReorderedSessions(a: string, b: string, m: Node, n: Node)
    requires a != b && m.id != n.id && m.sessionId == b && n.sessionId == a
    ensures var s := Step(Step(Step(Step(Open(EMPTY_DISK), Register(a)), Register(b)),
                               Op.AddNode(m, true, true)), Op.AddNode(n, true, true));
      s.sessions == [a, b] && Step(s, Reopen).sessions == [b, a]
  {
    var s0, addM, addN := Open(EMPTY_DISK), Op.AddNode(m, true, true), Op.AddNode(n, true, true);
    var s2 := Step(Step(s0, Register(a)), Register(b));
    EmptyIsSynced();
    ReopenedState(s0, 0);
    assert NodeSessions(s0.graph) == [];
    TwoRegistered(s0, a, b, 0);
    TwoAdded(s2, addM, addN, 2);
    TwoNodes(s2.graph, m, n);
    ReopenedState(Step(Step(s2, addM), addN), 4);
  }

  lemma TwoRegistered(s: State, a: string, b: string, bound: nat)
    requires Synced(s, bound) && bound + 2 <= INDEX_LIMIT && s.sessions == [] && a != b
    ensures var t := Step(Step(s, Register(a)), Register(b));
      Synced(t, bound + 2) && t.sessions == [a, b] && t.graph == s.graph
  {
    StepSynced(s, Register(a), bound);
    StepSynced(Step(s, Register(a)), Register(b), bound + 1);
  }

  lemma TwoAdded(s: State, addM: Op, addN: Op, bound: nat)
    requires Synced(s, bound) && bound + 2 <= INDEX_LIMIT
    requires addM.AddNode? && addN.AddNode? && Written(addM) && Written(addN)
    requires addM.node.sessionId in s.sessions && addN.node.sessionId in s.sessions
    ensures var t := Step(Step(s, addM), addN);
      Synced(t, bound + 2) && t.sessions == s.sessions && t.graph == StepGraph(StepGraph(s.graph, addM), addN)
  {
    StepSynced(s, addM, bound);
    StepSessions(s, addM);
    StepSynced(Step(s, addM), addN, bound + 1);
    StepSessions(Step(s, addM), addN);
  }

  lemma TwoNodes(g: Graph, m: Node, n: Node)
    requires g == EMPTY_GRAPH && m.id != n.id && m.sessionId != n.sessionId
    ensures var h := StepGraph(StepGraph(g, Op.AddNode(m, true, true)), Op.AddNode(n, true, true));
      Named(h) && FirstOccurrences(NodeSessions(h)) == [m.sessionId, n.sessionId]
  {
    StepNodeSessions(g, Op.AddNode(m, true, true));
    StepNodeSessions(StepGraph(g, Op.AddNode(m, true, true)), Op.AddNode(n, true, true));
    assert NodeSessions(g) == [];
    TwoDistinct(m.sessionId, n.sessionId);
    assert [] + [m.sessionId] + [n.sessionId] == [m.sessionId, n.sessionId];
  }

  lemma TwoDistinct(x: string, y: string)
    requires x != y
    ensures FirstOccurrences([x, y]) == [x, y]
  {
    FirstOccurrencesSnoc([], x);
    FirstOccurrencesSnoc([x], y);
    assert [] + [x] == [x] && [x] + [y] == [x, y] && FirstOccurrences([]) == [];
  }
}
