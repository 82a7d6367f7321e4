/** Reasoning chains: simple paths along real edges, starting where nothing in the trace leads in. */
module ReasoningChains {
  import opened GraphTypes
  import opened Traversal

  type Link = (Node, Option<Edge>)

  /** A path of distinct nodes; each link after the first carries the first edge of the subgraph from the node
      before. */
  ghost predicate Path(sub: Snapshot, nodes: map<string, Node>, chain: seq<Link>) {
    && (forall i | 0 <= i < |chain| :: chain[i].0.id in nodes && nodes[chain[i].0.id] == chain[i].0)
    && (forall i, j | 0 <= i < j < |chain| :: chain[i].0.id != chain[j].0.id)
    && (|chain| > 0 ==> chain[0].1 == None)
    && (forall i | 0 < i < |chain| :: Joined(sub, chain[i - 1].0.id, chain[i]))
  }

  ghost predicate Joined(sub: Snapshot, previous: string, link: Link) {
    && link.1.Some? && link.1.value in sub.edges
    && link.1.value.source == previous && link.1.value.target == link.0.id
    && FirstJoining(sub.edges, previous, link.0.id, link.1.value)
    && link.1 == FirstEdge(sub.edges, previous, link.0.id)
  }

  /** The edge is the first in edge order from x to y. */
  ghost predicate FirstJoining(edges: seq<Edge>, x: string, y: string, e: Edge) {
    exists k: nat :: k < |edges| && edges[k] == e && e.source == x && e.target == y
                     && forall l: nat | l < k :: !(edges[l].source == x && edges[l].target == y)
  }

  /** The first of the edges from x to y. */
  ghost function FirstEdge(edges: seq<Edge>, x: string, y: string): Option<Edge> {
    if edges == [] then None else
      var before, last := FirstEdge(edges[..|edges| - 1], x, y), edges[|edges| - 1];
      if before.Some? then before else if last.source == x && last.target == y then Some(last) else None
  }

  lemma {:induction false} FirstEdgeIsFirst(edges: seq<Edge>, x: string, y: string)
    ensures if FirstEdge(edges, x, y).Some? then FirstJoining(edges, x, y, FirstEdge(edges, x, y).value)
            else forall e | e in edges :: !(e.source == x && e.target == y)
  {
    if edges == [] {
    } else {
      var front, last := edges[..|edges| - 1], edges[|edges| - 1];
      FirstEdgeIsFirst(front, x, y);
      assert edges == front + [last];
      var before := FirstEdge(front, x, y);
      if before.Some? {
        var k: nat :| k < |front| && front[k] == before.value && before.value.source == x && before.value.target == y
                      && forall l: nat | l < k :: !(front[l].source == x && front[l].target == y);
        assert edges[k] == before.value;
      } else if last.source == x && last.target == y {
        assert edges[|edges| - 1] == last;
      }
    }
  }

  /** No edge of the subgraph leads from a node of the trace to the root. */
  ghost predicate IsRoot(sub: Snapshot, trace: seq<string>, root: string) {
    root in trace && forall e | e in sub.edges :: !(e.source in trace && e.target == root)
  }

  /** A path of two to six nodes that starts at a root. */
  ghost predicate IsChain(sub: Snapshot, trace: seq<string>, nodes: map<string, Node>, chain: seq<Link>) {
    2 <= |chain| <= 6 && Path(sub, nodes, chain) && IsRoot(sub, trace, chain[0].0.id)
  }

  ghost predicate Disjoint(a: seq<Link>, b: seq<Link>) {
    forall i, j | 0 <= i < |a| && 0 <= j < |b| :: a[i].0.id != b[j].0.id
  }

  // ---------- The greedy walk ----------

  /** The edges out of x, in edge order. */
  ghost function EdgesOf(edges: seq<Edge>, x: string): seq<Edge> {
    if edges == [] then [] else
      EdgesOf(edges[..|edges| - 1], x) + (if edges[|edges| - 1].source == x then [edges[|edges| - 1]] else [])
  }

  /** The first edge whose target is in the trace and not visited. */
  ghost function Next(edges: seq<Edge>, trace: seq<string>, visited: set<string>): Option<Edge> {
    if edges == [] then None
    else if edges[0].target in trace && edges[0].target !in visited then Some(edges[0])
    else Next(edges[1..], trace, visited)
  }

  /** The ids of the walk from a node of the trace: at each known node, on along the first usable edge. */
  ghost function Greedy(sub: Snapshot, trace: seq<string>, nodes: map<string, Node>, visited: set<string>,
                        current: string): seq<string>
    decreases (set id | id in trace) - visited
  {
    if current !in nodes || current in visited || current !in trace then [] else
      var next := Next(EdgesOf(sub.edges, current), trace, visited + {current});
      assert current in (set id | id in trace) - visited;
      [current] + (if next.None? then [] else Greedy(sub, trace, nodes, visited + {current}, next.value.target))
  }

  /** The walks of the first r trace entries that become chains, and all nodes visited by then. */
  ghost function Chained(sub: Snapshot, trace: seq<string>, nodes: map<string, Node>, r: nat)
    : (seq<seq<string>>, set<string>)
    requires r <= |trace|
  {
    if r == 0 then ([], {}) else
      var (chains, visited) := Chained(sub, trace, nodes, r - 1);
      if !IsRoot(sub, trace, trace[r - 1]) || trace[r - 1] in visited then (chains, visited) else
        var walk := Greedy(sub, trace, nodes, visited, trace[r - 1]);
        (if 2 <= |walk| <= 6 then chains + [walk] else chains, visited + Elements(walk))
  }

  // ---------- What the walks are ----------

  /** The edge leads from x to a node of the trace that has not been visited. */
  ghost predicate Usable(e: Edge, x: string, trace: seq<string>, visited: set<string>) {
    e.source == x && e.target in trace && e.target !in visited
  }

  /** Edge number k is the first such edge. */
  ghost predicate FirstUsable(edges: seq<Edge>, x: string, trace: seq<string>, visited: set<string>, k: nat) {
    && k < |edges| && Usable(edges[k], x, trace, visited)
    && forall l: nat | l < k :: !Usable(edges[l], x, trace, visited)
  }

  /** The first such edge exists and leads to y. */
  ghost predicate FirstLeadsTo(edges: seq<Edge>, x: string, trace: seq<string>, visited: set<string>, y: string) {
    exists k: nat :: FirstUsable(edges, x, trace, visited, k) && edges[k].target == y
  }

  /** A walk through unvisited known nodes of the trace. From each node it goes on along the first usable edge, and it
      stops where that edge does not exist or leads to an unknown node. */
  ghost predicate IdWalk(sub: Snapshot, trace: seq<string>, nodes: map<string, Node>, before: set<string>,
                         ids: seq<string>) {
    && (forall i | 0 <= i < |ids| :: ids[i] in nodes && ids[i] in trace && ids[i] !in before)
    && (forall i: nat | i + 1 < |ids| :: Continues(sub, trace, before, ids, i))
    && (ids != [] ==> forall y | y in nodes ::
          !FirstLeadsTo(sub.edges, ids[|ids| - 1], trace, before + Elements(ids), y))
  }

  /** Node i + 1 of the walk is where the first usable edge out of node i leads, given the nodes up to i. */
  ghost predicate Continues(sub: Snapshot, trace: seq<string>, before: set<string>, ids: seq<string>, i: nat) {
    i + 1 < |ids| && FirstLeadsTo(sub.edges, ids[i], trace, before + Elements(ids[..i + 1]), ids[i + 1])
  }

  /** The walk of a root: it starts there, unless the root is unknown. */
  ghost predicate RootWalk(sub: Snapshot, trace: seq<string>, nodes: map<string, Node>, before: set<string>,
                           root: string, ids: seq<string>) {
    && IdWalk(sub, trace, nodes, before, ids)
    && (if root in nodes then ids != [] && ids[0] == root else ids == [])
  }

  lemma {:induction false} NextSnoc(edges: seq<Edge>, e: Edge, trace: seq<string>, visited: set<string>)
    ensures Next(edges + [e], trace, visited)
         == if Next(edges, trace, visited).Some? then Next(edges, trace, visited)
            else if e.target in trace && e.target !in visited then Some(e) else None
  {
    if edges == [] {
      assert (edges + [e])[1..] == [];
    } else {
      NextSnoc(edges[1..], e, trace, visited);
      assert (edges + [e])[1..] == edges[1..] + [e];
    }
  }

  lemma {:induction false} NextIsFirst(edges: seq<Edge>, x: string, trace: seq<string>, visited: set<string>)
    ensures var next := Next(EdgesOf(edges, x), trace, visited);
      if next.None? then forall e | e in edges :: !Usable(e, x, trace, visited)
      else FirstLeadsTo(edges, x, trace, visited, next.value.target)
  {
    if edges == [] {
    } else {
      var front, last := edges[..|edges| - 1], edges[|edges| - 1];
      NextIsFirst(front, x, trace, visited);
      NextSnoc(EdgesOf(front, x), last, trace, visited);
      assert edges == front + [last] && EdgesOf(front, x) + [] == EdgesOf(front, x);
      var before, next := Next(EdgesOf(front, x), trace, visited), Next(EdgesOf(edges, x), trace, visited);
      if before.Some? {
        var k: nat :| FirstUsable(front, x, trace, visited, k) && front[k].target == before.value.target;
        assert FirstUsable(edges, x, trace, visited, k);
      } else if Usable(last, x, trace, visited) {
        assert FirstUsable(edges, x, trace, visited, |edges| - 1);
      }
    }
  }

  lemma OneFirst(edges: seq<Edge>, x: string, trace: seq<string>, visited: set<string>, y: string, z: string)
    requires FirstLeadsTo(edges, x, trace, visited, y) && FirstLeadsTo(edges, x, trace, visited, z)
    ensures y == z
  {
  }

  /** The greedy walk is that walk. */
  lemma {:induction false} GreedyIsWalk(sub: Snapshot, trace: seq<string>, nodes: map<string, Node>,
                                        visited: set<string>, current: string)
    requires current in trace && current !in visited
    ensures RootWalk(sub, trace, nodes, visited, current, Greedy(sub, trace, nodes, visited, current))
    decreases (set id | id in trace) - visited
  {
    if current in nodes {
      var seen := visited + {current};
      var next := Next(EdgesOf(sub.edges, current), trace, seen);
      NextIsFirst(sub.edges, current, trace, seen);
      assert current in (set id | id in trace) - visited;
      if next.None? {
        SingleWalk(sub, trace, nodes, visited, current);
      } else {
        var y := next.value.target;
        var k: nat :| FirstUsable(sub.edges, current, trace, seen, k) && sub.edges[k].target == y;
        GreedyIsWalk(sub, trace, nodes, seen, y);
        LongerWalk(sub, trace, nodes, visited, current, y, Greedy(sub, trace, nodes, seen, y));
      }
    }
  }

  lemma SingleWalk(sub: Snapshot, trace: seq<string>, nodes: map<string, Node>, visited: set<string>, x: string)
    requires x in nodes && x in trace && x !in visited
    requires forall y | y in nodes :: !FirstLeadsTo(sub.edges, x, trace, visited + {x}, y)
    ensures IdWalk(sub, trace, nodes, visited, [x])
  {
    assert Elements([x]) == {x};
  }

  lemma LongerWalk(sub: Snapshot, trace: seq<string>, nodes: map<string, Node>, visited: set<string>, x: string,
                   y: string, rest: seq<string>)
    requires x in nodes && x in trace && x !in visited
    requires FirstLeadsTo(sub.edges, x, trace, visited + {x}, y)
    requires RootWalk(sub, trace, nodes, visited + {x}, y, rest)
    ensures IdWalk(sub, trace, nodes, visited, [x] + rest)
  {
    var ids := [x] + rest;
    assert Elements([x]) == {x} && Elements(ids) == {x} + Elements(rest);
    if rest == [] {
      forall z | z in nodes ensures !FirstLeadsTo(sub.edges, x, trace, visited + {x}, z) {
        if FirstLeadsTo(sub.edges, x, trace, visited + {x}, z) { OneFirst(sub.edges, x, trace, visited + {x}, y, z); }
      }
      assert ids == [x];
    } else {
      assert visited + Elements(ids) == visited + {x} + Elements(rest);
      forall i: nat | i + 1 < |ids| ensures Continues(sub, trace, visited, ids, i) {
        if i == 0 {
          assert ids[..1] == [x];
        } else {
          assert Continues(sub, trace, visited + {x}, rest, i - 1);
          assert ids[..i + 1] == [x] + rest[..i];
          assert visited + Elements(ids[..i + 1]) == visited + {x} + Elements(rest[..i]);
        }
      }
    }
  }

  /** Nothing usable leads from the end of the walk to a known node. */
  ghost predicate Maximal(sub: Snapshot, trace: seq<string>, nodes: map<string, Node>, before: set<string>,
                          ids: seq<string>) {
    ids == [] || forall e | e in sub.edges && e.target in nodes ::
      !Usable(e, ids[|ids| - 1], trace, before + Elements(ids))
  }

  lemma SomeFirst(edges: seq<Edge>, x: string, trace: seq<string>, visited: set<string>, e: Edge)
    requires e in edges && Usable(e, x, trace, visited)
    ensures exists y :: FirstLeadsTo(edges, x, trace, visited, y) && y in trace
  {
    NextIsFirst(edges, x, trace, visited);
    var y := Next(EdgesOf(edges, x), trace, visited).value.target;
    var k: nat :| FirstUsable(edges, x, trace, visited, k) && edges[k].target == y;
  }

  /** When every id of the trace is known, each walk goes on as long as an edge is usable. */
  lemma KnownIsMaximal(sub: Snapshot, trace: seq<string>, nodes: map<string, Node>, before: set<string>,
                       ids: seq<string>)
    requires IdWalk(sub, trace, nodes, before, ids) && forall id | id in trace :: id in nodes
    ensures Maximal(sub, trace, nodes, before, ids)
  {
    forall e | ids != [] && e in sub.edges && e.target in nodes
      ensures !Usable(e, ids[|ids| - 1], trace, before + Elements(ids))
    {
      if Usable(e, ids[|ids| - 1], trace, before + Elements(ids)) {
        SomeFirst(sub.edges, ids[|ids| - 1], trace, before + Elements(ids), e);
      }
    }
  }

  /** At most one id of the trace is known. */
  ghost predicate OneKnown(trace: seq<string>, nodes: map<string, Node>) {
    forall a, b | a in trace && b in trace && a in nodes && b in nodes :: a == b
  }

  /** The walks are maximal in every subgraph exactly when all ids of the trace are known, or at most one is. */
  lemma MaximalExactly(trace: seq<string>, nodes: map<string, Node>)
    ensures (forall id | id in trace :: id in nodes) || OneKnown(trace, nodes)
       <==> forall sub, before, ids | IdWalk(sub, trace, nodes, before, ids) :: Maximal(sub, trace, nodes, before, ids)
  {
    if (forall id | id in trace :: id in nodes) || OneKnown(trace, nodes) {
      forall sub, before, ids | IdWalk(sub, trace, nodes, before, ids) ensures Maximal(sub, trace, nodes, before, ids) {
        if OneKnown(trace, nodes) {
          assert ids != [] ==> ids[|ids| - 1] in Elements(ids);
        } else {
          KnownIsMaximal(sub, trace, nodes, before, ids);
        }
      }
    } else {
      var u :| u in trace && u !in nodes;
      var a, b :| a in trace && b in trace && a in nodes && b in nodes && a != b;
      UnknownStops(trace, nodes, a, b, u);
    }
  }

  /** An unknown id in the trace ends the walk at a, although an edge leads on to b. */
  lemma UnknownStops(trace: seq<string>, nodes: map<string, Node>, a: string, b: string, u: string)
    requires a in trace && b in trace && u in trace && a in nodes && b in nodes && u !in nodes && a != b
    ensures var sub := Snapshot([], [Edge("1", RelatesTo, a, u, ""), Edge("2", RelatesTo, a, b, "")]);
      IdWalk(sub, trace, nodes, {}, [a]) && !Maximal(sub, trace, nodes, {}, [a])
  {
    var sub := Snapshot([], [Edge("1", RelatesTo, a, u, ""), Edge("2", RelatesTo, a, b, "")]);
    assert Elements([a]) == {a} && {} + {a} == {a};
    assert FirstUsable(sub.edges, a, trace, {a}, 0);
    forall y | y in nodes ensures !FirstLeadsTo(sub.edges, a, trace, {a}, y) {
      if FirstLeadsTo(sub.edges, a, trace, {a}, y) { OneFirst(sub.edges, a, trace, {a}, u, y); }
    }
    assert sub.edges[1] in sub.edges && Usable(sub.edges[1], a, trace, {a});
  }

  // ---------- The walks of a trace ----------

  ghost function AllOf(walks: seq<seq<string>>): set<string> { set walk, id | walk in walks && id in walk :: id }

  /** The trace entry begins a walk exactly when it is a root not visited before. */
  ghost predicate Begins(sub: Snapshot, trace: seq<string>, nodes: map<string, Node>, before: set<string>,
                         root: string, walk: seq<string>) {
    if IsRoot(sub, trace, root) && root !in before then RootWalk(sub, trace, nodes, before, root, walk) else walk == []
  }

  /** One walk for each of the first trace entries, given the nodes of the walks before it. */
  ghost predicate WalksOf(sub: Snapshot, trace: seq<string>, nodes: map<string, Node>, walks: seq<seq<string>>) {
    |walks| <= |trace| && forall r: nat | r < |walks| :: BeginsAt(sub, trace, nodes, walks, r)
  }

  ghost predicate BeginsAt(sub: Snapshot, trace: seq<string>, nodes: map<string, Node>, walks: seq<seq<string>>,
                           r: nat) {
    r < |walks| && r < |trace| && Begins(sub, trace, nodes, AllOf(walks[..r]), trace[r], walks[r])
  }

  /** The ids of the chains are the walks with two to six nodes, each once and in order. */
  ghost predicate Reports(chains: seq<seq<string>>, walks: seq<seq<string>>, at: seq<nat>) {
    && |at| == |chains|
    && (forall c, d | 0 <= c < d < |at| :: at[c] < at[d])
    && (forall c | 0 <= c < |at| :: at[c] < |walks| && chains[c] == walks[at[c]])
    && (forall r: nat | r < |walks| :: r in at <==> 2 <= |walks[r]| <= 6)
  }

  ghost predicate Tallied(sub: Snapshot, trace: seq<string>, nodes: map<string, Node>,
                          found: (seq<seq<string>>, set<string>), walks: seq<seq<string>>, at: seq<nat>) {
    WalksOf(sub, trace, nodes, walks) && Reports(found.0, walks, at) && found.1 == AllOf(walks)
  }

  lemma {:induction false} ChainedAreWalks(sub: Snapshot, trace: seq<string>, nodes: map<string, Node>, r: nat)
    returns (walks: seq<seq<string>>, at: seq<nat>)
    requires r <= |trace|
    ensures |walks| == r && Tallied(sub, trace, nodes, Chained(sub, trace, nodes, r), walks, at)
  {
    if r == 0 {
      walks, at := [], [];
      NoneTallied(sub, trace, nodes);
    } else {
      var before, places := ChainedAreWalks(sub, trace, nodes, r - 1);
      var walk := ChainedNext(sub, trace, nodes, r - 1);
      walks, at := TalliedStep(sub, trace, nodes, Chained(sub, trace, nodes, r - 1), before, places, walk);
    }
  }

  lemma TalliedStep(sub: Snapshot, trace: seq<string>, nodes: map<string, Node>,
                    found: (seq<seq<string>>, set<string>), before: seq<seq<string>>, places: seq<nat>,
                    walk: seq<string>)
    returns (walks: seq<seq<string>>, at: seq<nat>)
    requires Tallied(sub, trace, nodes, found, before, places) && |before| < |trace|
    requires Begins(sub, trace, nodes, found.1, trace[|before|], walk)
    ensures |walks| == |before| + 1 && Tallied(sub, trace, nodes, Joining(found, walk), walks, at)
  {
    WalksGrow(sub, trace, nodes, before, walk);
    ReportsGrow(found.0, before, places, walk);
    walks, at := before + [walk], if 2 <= |walk| <= 6 then places + [|before|] else places;
  }

  lemma NoneTallied(sub: Snapshot, trace: seq<string>, nodes: map<string, Node>)
    ensures Tallied(sub, trace, nodes, Chained(sub, trace, nodes, 0), [], [])
  {
    assert AllOf([]) == {};
  }

  /** One more walk, which is a chain if it has two to six nodes. */
  ghost function Joining(found: (seq<seq<string>>, set<string>), walk: seq<string>): (seq<seq<string>>, set<string>) {
    (if 2 <= |walk| <= 6 then found.0 + [walk] else found.0, found.1 + Elements(walk))
  }

  lemma ChainedNext(sub: Snapshot, trace: seq<string>, nodes: map<string, Node>, r: nat) returns (walk: seq<string>)
    requires r < |trace|
    ensures Begins(sub, trace, nodes, Chained(sub, trace, nodes, r).1, trace[r], walk)
    ensures Chained(sub, trace, nodes, r + 1) == Joining(Chained(sub, trace, nodes, r), walk)
  {
    var root, visited := trace[r], Chained(sub, trace, nodes, r).1;
    assert root in trace;
    if IsRoot(sub, trace, root) && root !in visited {
      walk := Greedy(sub, trace, nodes, visited, root);
      GreedyIsWalk(sub, trace, nodes, visited, root);
    } else {
      walk := [];
      assert visited + Elements<string>([]) == visited;
    }
  }

  lemma WalksGrow(sub: Snapshot, trace: seq<string>, nodes: map<string, Node>, walks: seq<seq<string>>,
                  walk: seq<string>)
    requires WalksOf(sub, trace, nodes, walks) && |walks| < |trace|
    requires Begins(sub, trace, nodes, AllOf(walks), trace[|walks|], walk)
    ensures WalksOf(sub, trace, nodes, walks + [walk]) && AllOf(walks + [walk]) == AllOf(walks) + Elements(walk)
  {
    var longer := walks + [walk];
    forall r: nat | r < |longer| ensures BeginsAt(sub, trace, nodes, longer, r) {
      assert r < |walks| ==> BeginsAt(sub, trace, nodes, walks, r);
      assert longer[..r] == walks[..r] && walks[..|walks|] == walks;
    }
  }

  lemma ReportsGrow(chains: seq<seq<string>>, walks: seq<seq<string>>, at: seq<nat>, walk: seq<string>)
    requires Reports(chains, walks, at)
    ensures if 2 <= |walk| <= 6 then Reports(chains + [walk], walks + [walk], at + [|walks|])
            else Reports(chains, walks + [walk], at)
  {
    forall c | 0 <= c < |at| ensures at[c] in at { }
  }

  /** A root not visited before begins a walk of two nodes or more exactly when a usable edge leads on from it. */
  lemma RootsBegin(sub: Snapshot, trace: seq<string>, nodes: map<string, Node>, walks: seq<seq<string>>, r: nat)
    requires WalksOf(sub, trace, nodes, walks) && r < |walks| && forall id | id in trace :: id in nodes
    requires IsRoot(sub, trace, trace[r]) && trace[r] !in AllOf(walks[..r])
    ensures |walks[r]| >= 2 <==>
      exists e | e in sub.edges :: Usable(e, trace[r], trace, AllOf(walks[..r]) + {trace[r]})
  {
    var root, before, walk := trace[r], AllOf(walks[..r]), walks[r];
    assert BeginsAt(sub, trace, nodes, walks, r);
    if |walk| >= 2 {
      assert Continues(sub, trace, before, walk, 0);
      assert walk[..1] == [root] && Elements([root]) == {root};
      var k: nat :| FirstUsable(sub.edges, root, trace, before + {root}, k) && sub.edges[k].target == walk[1];
      assert sub.edges[k] in sub.edges;
    } else {
      assert walk == [root] && Elements([root]) == {root};
      KnownIsMaximal(sub, trace, nodes, before, walk);
    }
  }

  ghost function LinkIds(chain: seq<Link>): seq<string> {
    seq(|chain|, i requires 0 <= i < |chain| => chain[i].0.id)
  }

  // ---------- The program ----------

  /** The outgoing edges of each source, in edge order. */
  ghost predicate Outgoing(sub: Snapshot, from: map<string, seq<Edge>>) {
    ListsOutgoing(from, sub.edges)
  }

  ghost predicate ListsOutgoing(from: map<string, seq<Edge>>, edges: seq<Edge>) {
    forall x: string :: From(from, x) == EdgesOf(edges, x)
  }

  function From(from: map<string, seq<Edge>>, x: string): seq<Edge> { if x in from then from[x] else [] }

  lemma OutgoingStep(from: map<string, seq<Edge>>, edges: seq<Edge>, i: nat)
    requires i < |edges| && ListsOutgoing(from, edges[..i])
    ensures ListsOutgoing(from[edges[i].source := From(from, edges[i].source) + [edges[i]]], edges[..i + 1])
  {
    var next := from[edges[i].source := From(from, edges[i].source) + [edges[i]]];
    assert edges[..i + 1][..i] == edges[..i];
    forall x: string ensures From(next, x) == EdgesOf(edges[..i + 1], x) {
      assert From(from, x) == EdgesOf(edges[..i], x);
    }
  }

  lemma {:induction false} EdgesOfFacts(edges: seq<Edge>, x: string)
    ensures forall e :: e in EdgesOf(edges, x) <==> e in edges && e.source == x
  {
    if edges == [] {
    } else {
      EdgesOfFacts(edges[..|edges| - 1], x);
      assert edges == edges[..|edges| - 1] + [edges[|edges| - 1]];
    }
  }

  method EdgesFrom(sub: Snapshot) returns (from: map<string, seq<Edge>>)
    ensures Outgoing(sub, from)
  {
    from := map[];
    var i := 0;
    while i < |sub.edges|
      invariant 0 <= i <= |sub.edges|
      invariant ListsOutgoing(from, sub.edges[..i])
    {
      var e := sub.edges[i];
      OutgoingStep(from, sub.edges, i);
      from := from[e.source := From(from, e.source) + [e]];
      i := i + 1;
    }
    assert sub.edges[..i] == sub.edges;
  }

  /** The targets tell the roots of the trace from its other nodes. */
  ghost predicate MarksRoots(sub: Snapshot, trace: seq<string>, targets: set<string>) {
    forall id | id in trace :: id !in targets <==> IsRoot(sub, trace, id)
  }

  /** The ids that some edge within the trace leads to. */
  method HasIncoming(sub: Snapshot, trace: seq<string>) returns (targets: set<string>)
    ensures MarksRoots(sub, trace, targets)
  {
    targets := {};
    var i := 0;
    while i < |sub.edges|
      invariant 0 <= i <= |sub.edges|
      invariant forall k | 0 <= k < i && sub.edges[k].source in trace && sub.edges[k].target in trace ::
        sub.edges[k].target in targets
      invariant forall id | id in targets :: exists e | e in sub.edges :: e.source in trace && e.target == id
    {
      if sub.edges[i].source in trace && sub.edges[i].target in trace {
        assert sub.edges[i] in sub.edges;
        targets := targets + {sub.edges[i].target};
      }
      i := i + 1;
    }
    forall id | id in trace && id !in targets ensures IsRoot(sub, trace, id) {
      forall e | e in sub.edges ensures !(e.source in trace && e.target == id) {
        var k :| 0 <= k < |sub.edges| && sub.edges[k] == e;
      }
    }
  }

  method NextEdge(edges: seq<Edge>, trace: seq<string>, visited: set<string>) returns (next: Option<Edge>)
    ensures next == Next(edges, trace, visited)
    ensures next.Some? ==> next.value in edges && next.value.target in trace && next.value.target !in visited
  {
    var i := 0;
    while i < |edges|
      invariant 0 <= i <= |edges|
      invariant Next(edges, trace, visited) == Next(edges[i..], trace, visited)
    {
      if edges[i].target in trace && edges[i].target !in visited { return Some(edges[i]); }
      i := i + 1;
    }
    next := None;
  }

  ghost function FirstTarget(edges: seq<Edge>, y: string): Option<Edge> {
    if edges == [] then None else
      var before, last := FirstTarget(edges[..|edges| - 1], y), edges[|edges| - 1];
      if before.Some? then before else if last.target == y then Some(last) else None
  }

  lemma {:induction false} FirstTargetAt(edges: seq<Edge>, y: string, n: nat)
    requires n <= |edges|
    ensures (forall k | 0 <= k < n :: edges[k].target != y) ==> FirstTarget(edges[..n], y) == None
    ensures n > 0 && edges[n - 1].target == y && (forall k | 0 <= k < n - 1 :: edges[k].target != y)
      ==> FirstTarget(edges[..n], y) == Some(edges[n - 1])
  {
    if n == 0 {
    } else {
      FirstTargetAt(edges, y, n - 1);
      assert edges[..n][..n - 1] == edges[..n - 1];
    }
  }

  lemma {:induction false} FirstTargetStays(edges: seq<Edge>, y: string, n: nat)
    requires n <= |edges| && FirstTarget(edges[..n], y).Some?
    ensures FirstTarget(edges, y) == FirstTarget(edges[..n], y)
  {
    if n < |edges| {
      var front := edges[..|edges| - 1];
      assert front[..n] == edges[..n];
      FirstTargetStays(front, y, n);
    } else {
      assert edges[..n] == edges;
    }
  }

  /** Among the edges out of x, the first to y is the first from x to y. */
  lemma {:induction false} FirstOfOutgoing(edges: seq<Edge>, x: string, y: string)
    ensures FirstTarget(EdgesOf(edges, x), y) == FirstEdge(edges, x, y)
  {
    if edges == [] {
    } else {
      var front, last := edges[..|edges| - 1], edges[|edges| - 1];
      FirstOfOutgoing(front, x, y);
      FirstTargetSnoc(EdgesOf(front, x), last, y);
      assert EdgesOf(front, x) + [] == EdgesOf(front, x);
    }
  }

  lemma FirstTargetSnoc(edges: seq<Edge>, last: Edge, y: string)
    ensures FirstTarget(edges + [last], y)
         == if FirstTarget(edges, y).Some? then FirstTarget(edges, y) else if last.target == y then Some(last) else None
  {
    assert (edges + [last])[..|edges|] == edges;
  }

  /** The first edge that leads to the target. */
  method FirstTo(edges: seq<Edge>, target: string) returns (found: Option<Edge>)
    requires exists e | e in edges :: e.target == target
    ensures found.Some? && found.value in edges && found.value.target == target
    ensures found == FirstTarget(edges, target)
  {
    var i := 0;
    while i < |edges| && edges[i].target != target
      invariant 0 <= i <= |edges|
      invariant forall k | 0 <= k < i :: edges[k].target != target
    {
      i := i + 1;
    }
    found := Some(edges[i]);
    FirstTargetAt(edges, target, i + 1);
    FirstTargetStays(edges, target, i + 1);
  }

  /** The chain so far, and the node it may be extended with. */
  ghost predicate Following(sub: Snapshot, nodes: map<string, Node>, trace: seq<string>, before: set<string>,
                            visited: set<string>, chain: seq<Link>, root: string, current: string) {
    && Path(sub, nodes, chain) && current in trace && current !in visited
    && visited == before + Elements(LinkIds(chain))
    && (if chain == [] then current == root else
          exists e | e in EdgesOf(sub.edges, chain[|chain| - 1].0.id) :: e.target == current)
    && LinkIds(chain) + Greedy(sub, trace, nodes, visited, current) == Greedy(sub, trace, nodes, before, root)
  }

  lemma LinkIdsSnoc(chain: seq<Link>, link: Link)
    ensures LinkIds(chain + [link]) == LinkIds(chain) + [link.0.id]
    ensures Elements(LinkIds(chain + [link])) == Elements(LinkIds(chain)) + {link.0.id}
  {
    assert LinkIds(chain + [link]) == LinkIds(chain) + [link.0.id];
  }

  lemma LinkIdsMembers(chain: seq<Link>)
    ensures forall i | 0 <= i < |chain| :: chain[i].0.id in Elements(LinkIds(chain))
  {
    forall i | 0 <= i < |chain| ensures chain[i].0.id in Elements(LinkIds(chain)) {
      assert LinkIds(chain)[i] in LinkIds(chain);
    }
  }

  /** One more link, after which the rest of the walk starts at the next node or is empty. */
  method Extend(chain: seq<Link>, current: string, sub: Snapshot, nodes: map<string, Node>,
                from: map<string, seq<Edge>>)
    returns (longer: seq<Link>)
    requires Outgoing(sub, from) && current in nodes && nodes[current].id == current
    requires Path(sub, nodes, chain) && current !in Elements(LinkIds(chain))
    requires chain != [] ==> exists e | e in EdgesOf(sub.edges, chain[|chain| - 1].0.id) :: e.target == current
    ensures Path(sub, nodes, longer) && |longer| > 0 && longer[|longer| - 1].0.id == current
    ensures LinkIds(longer) == LinkIds(chain) + [current]
    ensures Elements(LinkIds(longer)) == Elements(LinkIds(chain)) + {current}
  {
    var edge := None;
    if chain != [] {
      ghost var last := chain[|chain| - 1].0.id;
      EdgesOfFacts(sub.edges, last);
      assert EdgesOf(sub.edges, last) == if last in from then from[last] else [];
      edge := FirstTo(from[chain[|chain| - 1].0.id], current);
      FirstOfOutgoing(sub.edges, last, current);
      FirstEdgeIsFirst(sub.edges, last, current);
    }
    LinkIdsMembers(chain);
    ExtendedPath(sub, nodes, chain, (nodes[current], edge));
    LinkIdsSnoc(chain, (nodes[current], edge));
    longer := chain + [(nodes[current], edge)];
  }

  /** Follows unvisited edges within the trace from a root. */
  method Follow(root: string, sub: Snapshot, nodes: map<string, Node>, from: map<string, seq<Edge>>,
                trace: seq<string>, before: set<string>)
    returns (chain: seq<Link>, visited: set<string>)
    requires Outgoing(sub, from) && root in trace && root !in before
    requires forall id | id in nodes :: nodes[id].id == id
    ensures Path(sub, nodes, chain)
    ensures LinkIds(chain) == Greedy(sub, trace, nodes, before, root)
    ensures RootWalk(sub, trace, nodes, before, root, LinkIds(chain))
    ensures visited == before + Elements(LinkIds(chain))
  {
    chain, visited := FollowOn(root, sub, nodes, from, trace, before);
    GreedyIsWalk(sub, trace, nodes, before, root);
  }

  method FollowOn(root: string, sub: Snapshot, nodes: map<string, Node>, from: map<string, seq<Edge>>,
                  trace: seq<string>, before: set<string>)
    returns (chain: seq<Link>, visited: set<string>)
    requires Outgoing(sub, from) && root in trace && root !in before
    requires forall id | id in nodes :: nodes[id].id == id
    ensures Path(sub, nodes, chain)
    ensures LinkIds(chain) == Greedy(sub, trace, nodes, before, root)
    ensures visited == before + Elements(LinkIds(chain))
  {
    chain, visited := [], before;
    var current := root;
    var going := true;
    ghost var all := set id | id in trace;
    assert LinkIds([]) == [];
    while going
      invariant going ==> Following(sub, nodes, trace, before, visited, chain, root, current)
      invariant !going ==> Path(sub, nodes, chain) && LinkIds(chain) == Greedy(sub, trace, nodes, before, root)
      invariant visited == before + Elements(LinkIds(chain))
      decreases all - visited, going
    {
      going := false;
      if current in nodes {
        ghost var seen, shorter := visited, chain;
        assert current in all - visited;
        chain := Extend(chain, current, sub, nodes, from);
        visited := visited + {current};
        var edges := if current in from then from[current] else [];
        var next := NextEdge(edges, trace, visited);
        FollowStep(sub, nodes, trace, before, seen, shorter, chain, root, current, next);
        if next.Some? {
          current := next.value.target;
          going := true;
        }
      }
    }
  }

  lemma FollowStep(sub: Snapshot, nodes: map<string, Node>, trace: seq<string>, before: set<string>, seen: set<string>,
                   shorter: seq<Link>, chain: seq<Link>, root: string, current: string, next: Option<Edge>)
    requires Following(sub, nodes, trace, before, seen, shorter, root, current) && current in nodes
    requires Path(sub, nodes, chain) && |chain| > 0 && chain[|chain| - 1].0.id == current
    requires LinkIds(chain) == LinkIds(shorter) + [current]
    requires Elements(LinkIds(chain)) == Elements(LinkIds(shorter)) + {current}
    requires next == Next(EdgesOf(sub.edges, current), trace, seen + {current})
    requires next.Some? ==> next.value in EdgesOf(sub.edges, current) && next.value.target in trace
                            && next.value.target !in seen + {current}
    ensures seen + {current} == before + Elements(LinkIds(chain))
    ensures next.None? ==> LinkIds(chain) == Greedy(sub, trace, nodes, before, root)
    ensures next.Some? ==> Following(sub, nodes, trace, before, seen + {current}, chain, root, next.value.target)
  {
    Unrolled(sub, trace, nodes, seen, current, LinkIds(shorter));
  }

  lemma Unrolled(sub: Snapshot, trace: seq<string>, nodes: map<string, Node>, seen: set<string>, current: string,
                 prefix: seq<string>)
    requires current in nodes && current !in seen && current in trace
    ensures var next := Next(EdgesOf(sub.edges, current), trace, seen + {current});
      prefix + Greedy(sub, trace, nodes, seen, current)
      == (prefix + [current])
         + (if next.None? then [] else Greedy(sub, trace, nodes, seen + {current}, next.value.target))
  {
  }

  lemma ExtendedPath(sub: Snapshot, nodes: map<string, Node>, chain: seq<Link>, link: Link)
    requires Path(sub, nodes, chain) && link.0.id in nodes && nodes[link.0.id] == link.0
    requires forall i | 0 <= i < |chain| :: chain[i].0.id != link.0.id
    requires if chain == [] then link.1 == None else Joined(sub, chain[|chain| - 1].0.id, link)
    ensures Path(sub, nodes, chain + [link])
  {
    var longer := chain + [link];
    forall i | 0 < i < |longer| ensures Joined(sub, longer[i - 1].0.id, longer[i]) {
      if i < |chain| { assert Joined(sub, chain[i - 1].0.id, chain[i]); }
    }
  }

  /** Every id of a walk is a node of the trace that was not visited before, and the walk starts at its root. */
  lemma {:induction false} GreedyFacts(sub: Snapshot, trace: seq<string>, nodes: map<string, Node>,
                                       visited: set<string>, current: string)
    ensures var walk := Greedy(sub, trace, nodes, visited, current);
      && (forall id | id in walk :: id in trace && id !in visited && id in nodes)
      && (walk != [] ==> walk[0] == current)
    decreases (set id | id in trace) - visited
  {
    if current !in nodes || current in visited || current !in trace {
    } else {
      var next := Next(EdgesOf(sub.edges, current), trace, visited + {current});
      assert current in (set id | id in trace) - visited;
      if next.Some? { GreedyFacts(sub, trace, nodes, visited + {current}, next.value.target); }
    }
  }

  ghost function AllIds(chains: seq<seq<Link>>): seq<seq<string>> {
    seq(|chains|, c requires 0 <= c < |chains| => LinkIds(chains[c]))
  }

  /** The walks of two to six nodes from the roots in trace order: pairwise node-disjoint simple paths along edges of
      the subgraph, each starting at a node of the trace that no edge from the trace leads to. */
  method ExtractReasoningChains(trace: seq<string>, sub: Snapshot, nodes: map<string, Node>)
    returns (chains: seq<seq<Link>>, ghost walks: seq<seq<string>>, ghost at: seq<nat>)
    requires forall id | id in nodes :: nodes[id].id == id
    ensures |walks| == |trace| && WalksOf(sub, trace, nodes, walks) && Reports(AllIds(chains), walks, at)
    ensures AllIds(chains) == Chained(sub, trace, nodes, |trace|).0
    ensures forall c | 0 <= c < |chains| :: IsChain(sub, trace, nodes, chains[c])
    ensures forall c, d | 0 <= c < d < |chains| :: Disjoint(chains[c], chains[d])
  {
    var visited;
    chains, visited := CollectChains(trace, sub, nodes);
    walks, at := ChainedAreWalks(sub, trace, nodes, |trace|);
  }

  method CollectChains(trace: seq<string>, sub: Snapshot, nodes: map<string, Node>)
    returns (chains: seq<seq<Link>>, visited: set<string>)
    requires forall id | id in nodes :: nodes[id].id == id
    ensures Progress(sub, trace, nodes, chains, visited, |trace|)
  {
    var from := EdgesFrom(sub);
    var targets := HasIncoming(sub, trace);
    chains, visited := [], {};
    ProgressStart(sub, trace, nodes);
    var r := 0;
    while r < |trace|
      invariant 0 <= r <= |trace|
      invariant Progress(sub, trace, nodes, chains, visited, r)
    {
      chains, visited := CollectFrom(r, trace, sub, nodes, from, targets, chains, visited);
      r := r + 1;
    }
  }

  /** The walk of one trace entry, if it is an unvisited root. */
  method CollectFrom(r: nat, trace: seq<string>, sub: Snapshot, nodes: map<string, Node>, from: map<string, seq<Edge>>,
                     targets: set<string>, before: seq<seq<Link>>, seen: set<string>)
    returns (chains: seq<seq<Link>>, visited: set<string>)
    requires Outgoing(sub, from) && r < |trace| && forall id | id in nodes :: nodes[id].id == id
    requires MarksRoots(sub, trace, targets)
    requires Progress(sub, trace, nodes, before, seen, r)
    ensures Progress(sub, trace, nodes, chains, visited, r + 1)
  {
    var root := trace[r];
    assert root in trace;
    chains, visited := before, seen;
    if root in targets || root in visited {
      ProgressSkip(sub, trace, nodes, chains, visited, r);
    } else {
      var chain, after := Follow(root, sub, nodes, from, trace, visited);
      ProgressStep(sub, trace, nodes, chains, visited, r, chain);
      if 2 <= |chain| <= 6 { chains := chains + [chain]; }
      visited := after;
    }
  }

  lemma ProgressStart(sub: Snapshot, trace: seq<string>, nodes: map<string, Node>)
    ensures Progress(sub, trace, nodes, [], {}, 0)
  {
    assert AllIds([]) == [];
  }

  lemma ProgressSkip(sub: Snapshot, trace: seq<string>, nodes: map<string, Node>, chains: seq<seq<Link>>,
                     visited: set<string>, r: nat)
    requires Progress(sub, trace, nodes, chains, visited, r) && r < |trace|
    requires !IsRoot(sub, trace, trace[r]) || trace[r] in visited
    ensures Progress(sub, trace, nodes, chains, visited, r + 1)
  {
  }

  /** After r trace entries: the chains and visited nodes of the greedy walks, with their properties. */
  ghost predicate Progress(sub: Snapshot, trace: seq<string>, nodes: map<string, Node>, chains: seq<seq<Link>>,
                           visited: set<string>, r: nat) {
    && r <= |trace|
    && (AllIds(chains), visited) == Chained(sub, trace, nodes, r)
    && Collected(sub, trace, nodes, chains, visited)
  }

  lemma ProgressStep(sub: Snapshot, trace: seq<string>, nodes: map<string, Node>, chains: seq<seq<Link>>,
                     visited: set<string>, r: nat, chain: seq<Link>)
    requires Progress(sub, trace, nodes, chains, visited, r) && r < |trace|
    requires IsRoot(sub, trace, trace[r]) && trace[r] !in visited
    requires Path(sub, nodes, chain) && LinkIds(chain) == Greedy(sub, trace, nodes, visited, trace[r])
    ensures Progress(sub, trace, nodes, if 2 <= |chain| <= 6 then chains + [chain] else chains,
                     visited + Elements(LinkIds(chain)), r + 1)
  {
    CollectedStep(sub, trace, nodes, chains, visited, chain, trace[r]);
    assert AllIds(chains + [chain]) == AllIds(chains) + [LinkIds(chain)];
    assert |LinkIds(chain)| == |chain|;
  }

  /** The chains so far are chains, disjoint, and made of visited nodes. */
  ghost predicate Collected(sub: Snapshot, trace: seq<string>, nodes: map<string, Node>, chains: seq<seq<Link>>,
                            visited: set<string>) {
    && (forall c | 0 <= c < |chains| :: IsChain(sub, trace, nodes, chains[c]))
    && (forall c | 0 <= c < |chains| :: Elements(LinkIds(chains[c])) <= visited)
    && (forall c, d | 0 <= c < d < |chains| :: Disjoint(chains[c], chains[d]))
  }

  lemma CollectedStep(sub: Snapshot, trace: seq<string>, nodes: map<string, Node>, chains: seq<seq<Link>>,
                      visited: set<string>, chain: seq<Link>, root: string)
    requires Collected(sub, trace, nodes, chains, visited)
    requires Path(sub, nodes, chain) && IsRoot(sub, trace, root)
    requires LinkIds(chain) == Greedy(sub, trace, nodes, visited, root)
    ensures var after := visited + Elements(LinkIds(chain));
      && Collected(sub, trace, nodes, chains, after)
      && (2 <= |chain| <= 6 ==> Collected(sub, trace, nodes, chains + [chain], after))
  {
    GreedyFacts(sub, trace, nodes, visited, root);
    if 2 <= |chain| <= 6 {
      assert LinkIds(chain)[0] == chain[0].0.id;
      forall c | 0 <= c < |chains| ensures Disjoint(chains[c], chain) { Apart(chains[c], chain, visited); }
    }
  }

  lemma Apart(a: seq<Link>, b: seq<Link>, visited: set<string>)
    requires Elements(LinkIds(a)) <= visited
    requires forall id | id in LinkIds(b) :: id !in visited
    ensures Disjoint(a, b)
  {
    forall i, j | 0 <= i < |a| && 0 <= j < |b| ensures a[i].0.id != b[j].0.id {
      assert LinkIds(a)[i] in Elements(LinkIds(a));
      assert LinkIds(b)[j] in LinkIds(b);
    }
  }
}
