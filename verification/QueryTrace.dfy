/** Answering a query: keyword scores choose up to three seeds, incoming edges are traced back from them. */
module QueryTrace {
  import opened GraphTypes
  import opened StoreSpec
  import opened StoreIndex
  import opened Traversal
  import opened StableSort
  import opened QueryScores

  // ---------- Tracing back ----------

  ghost function NodeIds(sub: Snapshot): set<string> { set n | n in sub.nodes :: n.id }

  /** An edge of the subgraph from x to y, with both ends in it. */
  ghost predicate Supports(sub: Snapshot, x: string, y: string) {
    x in NodeIds(sub) && y in NodeIds(sub) && exists e | e in sub.edges :: e.source == x && e.target == y
  }

  ghost predicate Chain(sub: Snapshot, p: seq<string>) {
    |p| > 0 && forall t | 0 < t < |p| :: Supports(sub, p[t - 1], p[t])
  }

  /** A directed path in the subgraph leads from x to one of the seeds. */
  ghost predicate LeadsTo(sub: Snapshot, seeds: seq<string>, x: string) {
    exists p: seq<string> :: Chain(sub, p) && p[0] == x && p[|p| - 1] in seeds
  }

  lemma SeedLeads(sub: Snapshot, seeds: seq<string>, x: string)
    requires x in seeds
    ensures LeadsTo(sub, seeds, x)
  {
    assert Chain(sub, [x]);
  }

  lemma SupportLeads(sub: Snapshot, seeds: seq<string>, x: string, y: string)
    requires Supports(sub, x, y) && LeadsTo(sub, seeds, y)
    ensures LeadsTo(sub, seeds, x)
  {
    var p: seq<string> :| Chain(sub, p) && p[0] == y && p[|p| - 1] in seeds;
    var q := [x] + p;
    assert forall t | 0 < t < |q| :: q[t] == p[t - 1];
    assert Chain(sub, q) && q[|q| - 1] == p[|p| - 1];
  }

  /** Reverse adjacency: for each target its sources, in edge order. */
  ghost predicate Reverse(sub: Snapshot, adj: map<string, seq<Edge>>) {
    && (forall y | y in adj :: forall e | e in adj[y] :: Supports(sub, e.source, y))
    && (forall x, y | Supports(sub, x, y) :: y in adj && exists e | e in adj[y] :: e.source == x)
  }

  /** The edges into y with both ends present, in order. */
  ghost function Into(edges: seq<Edge>, ids: set<string>, y: string): seq<Edge> {
    if edges == [] then [] else
      var last := edges[|edges| - 1];
      Into(edges[..|edges| - 1], ids, y)
      + (if last.source in ids && last.target in ids && last.target == y then [last] else [])
  }

  /** The map holds exactly those edges for each target, parallel ones included. */
  ghost predicate Lists(adj: map<string, seq<Edge>>, edges: seq<Edge>, ids: set<string>) {
    forall y: string :: Entry(adj, y) == Into(edges, ids, y)
  }

  function Entry(adj: map<string, seq<Edge>>, y: string): seq<Edge> { if y in adj then adj[y] else [] }

  ghost predicate ListsIncoming(sub: Snapshot, adj: map<string, seq<Edge>>) { Lists(adj, sub.edges, NodeIds(sub)) }

  lemma ListsStep(adj: map<string, seq<Edge>>, edges: seq<Edge>, i: nat, ids: set<string>)
    requires i < |edges| && Lists(adj, edges[..i], ids)
    ensures var e := edges[i];
      if e.source in ids && e.target in ids
      then Lists(adj[e.target := Entry(adj, e.target) + [e]], edges[..i + 1], ids)
      else Lists(adj, edges[..i + 1], ids)
  {
    var e := edges[i];
    var next := if e.source in ids && e.target in ids then adj[e.target := Entry(adj, e.target) + [e]] else adj;
    assert edges[..i + 1][..i] == edges[..i];
    forall y: string ensures Entry(next, y) == Into(edges[..i + 1], ids, y) {
      assert Entry(adj, y) == Into(edges[..i], ids, y);
    }
  }

  method ReverseAdjacency(sub: Snapshot) returns (adj: map<string, seq<Edge>>)
    ensures Reverse(sub, adj) && ListsIncoming(sub, adj)
  {
    adj := map[];
    var ids := set n | n in sub.nodes :: n.id;
    var i := 0;
    while i < |sub.edges|
      invariant 0 <= i <= |sub.edges|
      invariant Lists(adj, sub.edges[..i], ids)
    {
      var e := sub.edges[i];
      ListsStep(adj, sub.edges, i, ids);
      if e.source in ids && e.target in ids {
        adj := adj[e.target := Entry(adj, e.target) + [e]];
      }
      i := i + 1;
    }
    assert sub.edges[..i] == sub.edges;
    ListedIsReverse(sub, adj);
  }

  lemma {:induction false} IntoFacts(edges: seq<Edge>, ids: set<string>, y: string)
    ensures forall e :: e in Into(edges, ids, y) <==> e in edges && e.target == y && e.source in ids && y in ids
  {
    if edges == [] {
    } else {
      var front, last := edges[..|edges| - 1], edges[|edges| - 1];
      IntoFacts(front, ids, y);
      assert edges == front + [last];
    }
  }

  lemma ListedIsReverse(sub: Snapshot, adj: map<string, seq<Edge>>)
    requires ListsIncoming(sub, adj)
    ensures Reverse(sub, adj)
  {
    forall y, e | y in adj && e in adj[y] ensures Supports(sub, e.source, y) {
      IntoFacts(sub.edges, NodeIds(sub), y);
      assert e in Entry(adj, y);
    }
    forall x, y | Supports(sub, x, y) ensures y in adj && exists e | e in adj[y] :: e.source == x {
      IntoFacts(sub.edges, NodeIds(sub), y);
      var e :| e in sub.edges && e.source == x && e.target == y;
      assert e in Entry(adj, y);
    }
  }

  /** What holds while tracing: the trace lists the visited ids once, all of them lead to a seed, and every
      supporter of a visited id is visited or waiting on the stack. */
  ghost predicate Tracing(sub: Snapshot, seeds: seq<string>, visited: set<string>, trace: seq<string>,
                          stack: seq<string>) {
    && NoDup(trace) && (forall id :: id in trace <==> id in visited)
    && visited <= NodeIds(sub)
    && (forall id | id in stack :: id in NodeIds(sub) && LeadsTo(sub, seeds, id))
    && (forall id | id in visited :: LeadsTo(sub, seeds, id))
    && (forall x, y | y in visited && Supports(sub, x, y) :: x in visited || x in stack)
  }

  // ---------- The order of the trace ----------

  function ByPreference(): Edge -> int { (e: Edge) => e.edgeType.PreferenceOrder() }

  function SourcesOf(edges: seq<Edge>): seq<string> {
    seq(|edges|, i requires 0 <= i < |edges| => edges[i].source)
  }

  /** The sources of the edges into x, the least preferred edges first and equally preferred ones in edge order. */
  ghost function Supporters(sub: Snapshot, x: string): seq<string> {
    SourcesOf(Sort(Into(sub.edges, NodeIds(sub), x), ByPreference()))
  }

  /** Edge number k comes before edge number l: RelatesTo edges first, then Resolves, Refutes and Supersedes, and
      edges of one type by number. */
  ghost predicate EdgeBefore(edges: seq<Edge>, k: nat, l: nat)
    requires k < |edges| && l < |edges|
  {
    var a, b := edges[k].edgeType, edges[l].edgeType;
    || (a == b && k < l)
    || (a == RelatesTo && b != RelatesTo)
    || (a == Resolves && (b == Refutes || b == Supersedes))
    || (a == Refutes && b == Supersedes)
  }

  /** The numbers are those of the edges into y with both ends in the subgraph. */
  ghost predicate AreInto(sub: Snapshot, y: string, at: seq<nat>) {
    forall k: nat :: k in at <==>
      k < |sub.edges| && sub.edges[k].target == y && y in NodeIds(sub) && sub.edges[k].source in NodeIds(sub)
  }

  ghost function EdgeAt(edges: seq<Edge>): nat -> Edge {
    (k: nat) => if k < |edges| then edges[k] else Edge([], RelatesTo, [], [], [])
  }

  lemma {:induction false} IntoPositions(edges: seq<Edge>, ids: set<string>, y: string, n: nat) returns (at: seq<nat>)
    requires n <= |edges|
    ensures Into(edges[..n], ids, y) == Map(at, EdgeAt(edges))
    ensures IntoAt(edges, ids, y, n, at)
  {
    if n == 0 {
      at := [];
    } else {
      at := IntoPositions(edges, ids, y, n - 1);
      IntoAtStep(edges, ids, y, n - 1, at);
      assert edges[..n][..n - 1] == edges[..n - 1];
      if LeadsInto(edges[n - 1], ids, y) {
        assert Map<nat, Edge>(at + [n - 1], EdgeAt(edges)) == Map<nat, Edge>(at, EdgeAt(edges)) + [edges[n - 1]];
        at := at + [n - 1];
      }
    }
  }

  ghost predicate LeadsInto(e: Edge, ids: set<string>, y: string) {
    e.target == y && y in ids && e.source in ids
  }

  ghost predicate IntoAt(edges: seq<Edge>, ids: set<string>, y: string, n: nat, at: seq<nat>) {
    && n <= |edges| && (forall i, j | 0 <= i < j < |at| :: at[i] < at[j])
    && (forall k: nat :: k in at <==> k < n && LeadsInto(edges[k], ids, y))
  }

  lemma IntoAtStep(edges: seq<Edge>, ids: set<string>, y: string, n: nat, at: seq<nat>)
    requires n < |edges| && IntoAt(edges, ids, y, n, at)
    ensures IntoAt(edges, ids, y, n + 1, if LeadsInto(edges[n], ids, y) then at + [n] else at)
  {
    forall i | 0 <= i < |at| ensures at[i] < n { assert at[i] in at; }
  }

  ghost function Preference(edges: seq<Edge>): nat -> int { (k: nat) => EdgeAt(edges)(k).edgeType.PreferenceOrder() }

  ghost predicate InEdgeOrder(edges: seq<Edge>, at: seq<nat>) {
    && (forall k | k in at :: k < |edges|)
    && forall i, j | 0 <= i < j < |at| :: at[i] < |edges| && at[j] < |edges| && EdgeBefore(edges, at[i], at[j])
  }

  ghost predicate SourcesAt(edges: seq<Edge>, at: seq<nat>, ids: seq<string>) {
    |ids| == |at| && forall i | 0 <= i < |at| :: at[i] < |edges| && ids[i] == edges[at[i]].source
  }

  /** The supporters of y are the sources of exactly the edges into it, in that order. */
  lemma SupportersAt(sub: Snapshot, y: string) returns (at: seq<nat>)
    ensures AreInto(sub, y, at) && InEdgeOrder(sub.edges, at) && SourcesAt(sub.edges, at, Supporters(sub, y))
  {
    var edges := sub.edges;
    var into := IntoPositions(edges, NodeIds(sub), y, |edges|);
    assert edges[..|edges|] == edges;
    at := Sort(into, Preference(edges));
    SortedSupporters(edges, into);
    SortMembers(into, Preference(edges));
    SortInOrder(into, Preference(edges));
    OrderOfSorted(edges, at);
    SourcesOfSorted(edges, at);
  }

  lemma OrderOfSorted(edges: seq<Edge>, at: seq<nat>)
    requires InOrder(at, Preference(edges)) && forall k | k in at :: k < |edges|
    ensures InEdgeOrder(edges, at)
  {
    forall i, j | 0 <= i < j < |at| ensures at[i] < |edges| && at[j] < |edges| && EdgeBefore(edges, at[i], at[j]) {
      assert at[i] in at && at[j] in at;
      PreferredBefore(edges, at[i], at[j]);
    }
  }

  lemma SourcesOfSorted(edges: seq<Edge>, at: seq<nat>)
    requires forall k | k in at :: k < |edges|
    ensures SourcesAt(edges, at, SourcesOf(Map<nat, Edge>(at, EdgeAt(edges))))
  {
    forall i | 0 <= i < |at| ensures at[i] < |edges| { assert at[i] in at; }
  }

  lemma SortedSupporters(edges: seq<Edge>, into: seq<nat>)
    ensures SourcesOf(Sort(Map<nat, Edge>(into, EdgeAt(edges)), ByPreference()))
         == SourcesOf(Map<nat, Edge>(Sort(into, Preference(edges)), EdgeAt(edges)))
  {
    forall k: nat | k in into ensures Agrees(k, EdgeAt(edges), Preference(edges), ByPreference()) { }
    SortMaps(into, EdgeAt(edges), Preference(edges), ByPreference());
  }

  ghost predicate OneOfFour(t: EdgeType) { t.RelatesTo? || t.Resolves? || t.Refutes? || t.Supersedes? }

  lemma PreferredBefore(edges: seq<Edge>, k: nat, l: nat)
    requires k < |edges| && l < |edges|
    requires var key := Preference(edges); key(k) < key(l) || (key(k) == key(l) && k < l)
    ensures EdgeBefore(edges, k, l)
  {
    assert OneOfFour(edges[k].edgeType) && OneOfFour(edges[l].edgeType);
    assert EdgeAt(edges)(k) == edges[k] && EdgeAt(edges)(l) == edges[l];
  }

  /** Depth first from the waiting nodes, the last one first: each node not visited yet, then all that is reached
      from it, then the nodes waiting before it. The nodes in the order they are visited, and all visited in the end. */
  ghost function Explore(sub: Snapshot, visited: set<string>, waiting: seq<string>): (r: (seq<string>, set<string>))
    ensures visited <= r.1
    decreases NodeIds(sub) - visited, |waiting|
  {
    if waiting == [] then ([], visited) else
      var x, rest := waiting[|waiting| - 1], waiting[..|waiting| - 1];
      if x in visited || x !in NodeIds(sub) then Explore(sub, visited, rest) else
        assert x in NodeIds(sub) - visited;
        var (inner, seen) := Explore(sub, visited + {x}, Supporters(sub, x));
        assert x in seen && x !in NodeIds(sub) - seen;
        var (later, all) := Explore(sub, seen, rest);
        ([x] + inner + later, all)
  }

  /** From each seed in turn. */
  ghost function Traced(sub: Snapshot, seeds: seq<string>): (seq<string>, set<string>) {
    if seeds == [] then ([], {}) else
      var (before, visited) := Traced(sub, seeds[..|seeds| - 1]);
      var (more, all) := Explore(sub, visited, [seeds[|seeds| - 1]]);
      (before + more, all)
  }

  ghost function Unvisited(ids: seq<string>, visited: set<string>): seq<string> {
    if ids == [] then [] else
      var last := ids[|ids| - 1];
      Unvisited(ids[..|ids| - 1], visited) + (if last in visited then [] else [last])
  }

  lemma ExploreOne(sub: Snapshot, visited: set<string>, rest: seq<string>, x: string)
    ensures Explore(sub, visited, rest + [x])
         == if x in visited || x !in NodeIds(sub) then Explore(sub, visited, rest)
            else
              var inner := Explore(sub, visited + {x}, Supporters(sub, x));
              var later := Explore(sub, inner.1, rest);
              ([x] + inner.0 + later.0, later.1)
  {
    assert (rest + [x])[..|rest|] == rest;
  }

  /** Waiting nodes in two parts: the last part is explored first. */
  lemma {:induction false} ExploreConcat(sub: Snapshot, visited: set<string>, a: seq<string>, b: seq<string>)
    ensures var first := Explore(sub, visited, b);
      var second := Explore(sub, first.1, a);
      Explore(sub, visited, a + b) == (first.0 + second.0, second.1)
    decreases NodeIds(sub) - visited, |b|
  {
    if b == [] {
      assert a + b == a && Explore(sub, visited, b) == ([], visited);
      assert [] + Explore(sub, visited, a).0 == Explore(sub, visited, a).0;
    } else {
      var x, rest := b[|b| - 1], b[..|b| - 1];
      assert a + b == (a + rest) + [x] && b == rest + [x];
      ExploreOne(sub, visited, a + rest, x);
      ExploreOne(sub, visited, rest, x);
      if x in visited || x !in NodeIds(sub) {
        ExploreConcat(sub, visited, a, rest);
      } else {
        var inner := Explore(sub, visited + {x}, Supporters(sub, x));
        assert x in NodeIds(sub) - visited && x !in NodeIds(sub) - inner.1;
        ExploreConcat(sub, inner.1, a, rest);
        var later := Explore(sub, inner.1, rest);
        Associates([x] + inner.0, later.0, Explore(sub, later.1, a).0);
      }
    }
  }

  /** Nodes that are visited already may be left out of the waiting ones. */
  lemma {:induction false} ExploreUnvisited(sub: Snapshot, visited: set<string>, ids: seq<string>, known: set<string>)
    requires known <= visited
    ensures Explore(sub, visited, Unvisited(ids, known)) == Explore(sub, visited, ids)
    decreases |ids|
  {
    if ids == [] {
    } else {
      var x, rest := ids[|ids| - 1], ids[..|ids| - 1];
      assert ids == rest + [x];
      ExploreOne(sub, visited, rest, x);
      if x in known {
        assert Unvisited(ids, known) == Unvisited(rest, known);
        ExploreUnvisited(sub, visited, rest, known);
      } else {
        ExploreOne(sub, visited, Unvisited(rest, known), x);
        if x in visited || x !in NodeIds(sub) {
          ExploreUnvisited(sub, visited, rest, known);
        } else {
          ExploreUnvisited(sub, Explore(sub, visited + {x}, Supporters(sub, x)).1, rest, known);
        }
      }
    }
  }

  /** Visiting one node: its unvisited supporters are put on the stack. */
  lemma ExploreStep(sub: Snapshot, visited: set<string>, rest: seq<string>, x: string)
    requires x !in visited && x in NodeIds(sub)
    ensures var next := Explore(sub, visited + {x}, rest + Unvisited(Supporters(sub, x), visited + {x}));
      Explore(sub, visited, rest + [x]) == ([x] + next.0, next.1)
  {
    var seen := visited + {x};
    ExploreOne(sub, visited, rest, x);
    ExploreConcat(sub, seen, rest, Unvisited(Supporters(sub, x), seen));
    ExploreUnvisited(sub, seen, Supporters(sub, x), seen);
    var inner := Explore(sub, seen, Supporters(sub, x));
    Associates([x], inner.0, Explore(sub, inner.1, rest).0);
  }

  // ---------- The rule of the order ----------

  /** The supporters of the nodes in turn. */
  ghost function AllSupporters(sub: Snapshot, ids: seq<string>): seq<string> {
    if ids == [] then [] else AllSupporters(sub, ids[..|ids| - 1]) + Supporters(sub, ids[|ids| - 1])
  }

  /** The last of them that does not come before. */
  ghost predicate LastNew(all: seq<string>, before: seq<string>, x: string) {
    exists p: nat :: p < |all| && all[p] == x && x !in before && forall q: nat | p < q < |all| :: all[q] in before
  }

  /** The first of them that does not come before. */
  ghost predicate FirstNew(all: seq<string>, before: seq<string>, x: string) {
    exists p: nat :: p < |all| && all[p] == x && x !in before && forall q: nat | q < p :: all[q] in before
  }

  /** Next in the trace is the last new supporter of the nodes before; when there is none, the first new seed. */
  ghost predicate ComesNext(sub: Snapshot, seeds: seq<string>, before: seq<string>, x: string) {
    var all := AllSupporters(sub, before);
    LastNew(all, before, x) || ((forall id | id in all :: id in before) && FirstNew(seeds, before, x))
  }

  ghost predicate DepthFirst(sub: Snapshot, seeds: seq<string>, trace: seq<string>) {
    forall i: nat | i < |trace| :: ComesNext(sub, seeds, trace[..i], trace[i])
  }

  lemma {:induction false} UnvisitedConcat(a: seq<string>, b: seq<string>, visited: set<string>)
    ensures Unvisited(a + b, visited) == Unvisited(a, visited) + Unvisited(b, visited)
    decreases |b|
  {
    if b == [] {
      assert a + b == a;
    } else {
      assert (a + b)[..|a + b| - 1] == a + b[..|b| - 1];
      UnvisitedConcat(a, b[..|b| - 1], visited);
    }
  }

  lemma {:induction false} UnvisitedAgain(ids: seq<string>, known: set<string>, visited: set<string>)
    requires known <= visited
    ensures Unvisited(Unvisited(ids, known), visited) == Unvisited(ids, visited)
  {
    if ids == [] {
    } else {
      var rest, last := ids[..|ids| - 1], ids[|ids| - 1];
      UnvisitedAgain(rest, known, visited);
      UnvisitedConcat(Unvisited(rest, known), if last in known then [] else [last], visited);
      assert Unvisited([last], visited) == if last in visited then [] else [last];
    }
  }

  lemma {:induction false} LastUnvisited(all: seq<string>, before: seq<string>)
    ensures var w := Unvisited(all, Elements(before));
      if w != [] then LastNew(all, before, w[|w| - 1]) else forall id | id in all :: id in before
  {
    if all == [] {
    } else {
      var rest, last := all[..|all| - 1], all[|all| - 1];
      LastUnvisited(rest, before);
      var w := Unvisited(all, Elements(before));
      assert all == rest + [last];
      if last !in before {
        assert w[|w| - 1] == last && all[|all| - 1] == last;
      } else if w != [] {
        var x := w[|w| - 1];
        assert LastNew(rest, before, x);
        var p: nat :| p < |rest| && rest[p] == x && x !in before && forall q: nat | p < q < |rest| :: rest[q] in before;
        assert all[p] == x;
      }
    }
  }

  /** What waits on the stack is, but for visited nodes, what the nodes traced so far are supported by. */
  ghost predicate Waits(sub: Snapshot, trace: seq<string>, visited: set<string>, stack: seq<string>) {
    && visited == Elements(trace)
    && Unvisited(stack, visited) == Unvisited(AllSupporters(sub, trace), visited)
  }

  lemma WaitsOn(sub: Snapshot, trace: seq<string>, visited: set<string>, rest: seq<string>, x: string)
    requires visited == Elements(trace) && x !in visited
    requires Unvisited(rest, visited + {x}) == Unvisited(AllSupporters(sub, trace), visited + {x})
    ensures Waits(sub, trace + [x], visited + {x}, rest + Unvisited(Supporters(sub, x), visited + {x}))
  {
    var seen := visited + {x};
    assert (trace + [x])[..|trace|] == trace && Elements(trace + [x]) == seen;
    UnvisitedConcat(rest, Unvisited(Supporters(sub, x), seen), seen);
    UnvisitedAgain(Supporters(sub, x), seen, seen);
    UnvisitedConcat(AllSupporters(sub, trace), Supporters(sub, x), seen);
  }

  lemma TopWaits(sub: Snapshot, trace: seq<string>, visited: set<string>, rest: seq<string>, x: string)
    requires Waits(sub, trace, visited, rest + [x])
    ensures x in visited ==> Waits(sub, trace, visited, rest)
    ensures x !in visited ==> LastNew(AllSupporters(sub, trace), trace, x)
    ensures x !in visited ==> Unvisited(rest, visited + {x}) == Unvisited(AllSupporters(sub, trace), visited + {x})
  {
    assert (rest + [x])[..|rest|] == rest;
    assert x in visited ==> Unvisited(rest + [x], visited) == Unvisited(rest, visited);
    LastUnvisited(AllSupporters(sub, trace), trace);
    if x !in visited {
      var seen, w := visited + {x}, Unvisited(rest + [x], visited);
      assert w[|w| - 1] == x;
      UnvisitedAgain(rest + [x], visited, seen);
      UnvisitedAgain(AllSupporters(sub, trace), visited, seen);
      assert Unvisited(rest + [x], seen) == Unvisited(rest, seen);
    }
  }

  lemma {:induction false} SupportersInside(sub: Snapshot, x: string, visited: set<string>)
    ensures forall id | id in Unvisited(Supporters(sub, x), visited) :: id in NodeIds(sub)
  {
    UnvisitedMembers(Supporters(sub, x), visited);
    SourcesInside(sub, x);
  }

  lemma SourcesInside(sub: Snapshot, x: string)
    ensures forall id | id in Supporters(sub, x) :: id in NodeIds(sub)
  {
    var edges := Into(sub.edges, NodeIds(sub), x);
    IntoFacts(sub.edges, NodeIds(sub), x);
    SortMembers(edges, ByPreference());
    forall id | id in Supporters(sub, x) ensures id in NodeIds(sub) {
      var sorted := Sort(edges, ByPreference());
      var i :| 0 <= i < |sorted| && sorted[i].source == id;
      assert sorted[i] in edges;
    }
  }

  /** The nodes of the trace from some place on come by the rule. */
  ghost predicate FollowsRule(sub: Snapshot, seeds: seq<string>, trace: seq<string>, from: nat) {
    forall i: nat | from <= i < |trace| :: ComesNext(sub, seeds, trace[..i], trace[i])
  }

  /** Exploring what waits goes by the rule until nothing waits. */
  lemma {:induction false} ExploreFollows(sub: Snapshot, seeds: seq<string>, trace: seq<string>, visited: set<string>,
                                          stack: seq<string>)
    requires Waits(sub, trace, visited, stack) && forall id | id in stack :: id in NodeIds(sub)
    ensures var r := Explore(sub, visited, stack);
      FollowsRule(sub, seeds, trace + r.0, |trace|) && Waits(sub, trace + r.0, r.1, [])
    decreases NodeIds(sub) - visited, |stack|
  {
    if stack == [] {
      assert trace + [] == trace;
    } else {
      var x, rest := stack[|stack| - 1], stack[..|stack| - 1];
      assert stack == rest + [x] && x in stack;
      TopWaits(sub, trace, visited, rest, x);
      if x in visited {
        ExploreOne(sub, visited, rest, x);
        ExploreFollows(sub, seeds, trace, visited, rest);
      } else {
        VisitFollows(sub, seeds, trace, visited, rest, x);
      }
    }
  }

  lemma {:induction false} VisitFollows(sub: Snapshot, seeds: seq<string>, trace: seq<string>, visited: set<string>,
                                        rest: seq<string>, x: string)
    requires visited == Elements(trace) && x !in visited && x in NodeIds(sub)
    requires Unvisited(rest, visited + {x}) == Unvisited(AllSupporters(sub, trace), visited + {x})
    requires forall id | id in rest :: id in NodeIds(sub)
    requires ComesNext(sub, seeds, trace, x)
    ensures var r := Explore(sub, visited, rest + [x]);
      FollowsRule(sub, seeds, trace + r.0, |trace|) && Waits(sub, trace + r.0, r.1, [])
    decreases NodeIds(sub) - visited, 0
  {
    var seen := visited + {x};
    var pushed := rest + Unvisited(Supporters(sub, x), seen);
    WaitsOn(sub, trace, visited, rest, x);
    SupportersInside(sub, x, seen);
    assert x in NodeIds(sub) - visited;
    ExploreFollows(sub, seeds, trace + [x], seen, pushed);
    ExploreStep(sub, visited, rest, x);
    RuleFromHere(sub, seeds, trace, x, Explore(sub, seen, pushed).0);
  }

  lemma RuleFromHere(sub: Snapshot, seeds: seq<string>, trace: seq<string>, x: string, more: seq<string>)
    requires ComesNext(sub, seeds, trace, x) && FollowsRule(sub, seeds, trace + [x] + more, |trace| + 1)
    ensures trace + ([x] + more) == trace + [x] + more
    ensures FollowsRule(sub, seeds, trace + ([x] + more), |trace|)
  {
    var all := trace + [x] + more;
    assert trace + ([x] + more) == all && all[..|trace|] == trace && all[|trace|] == x;
  }

  /** The order of the trace: each node is the last new supporter of the nodes before it, or the first new seed. */
  lemma {:induction false} TracedFollows(sub: Snapshot, seeds: seq<string>, k: nat)
    requires k <= |seeds| && forall s | s in seeds :: s in NodeIds(sub)
    ensures TracedByRule(sub, seeds, k, Traced(sub, seeds[..k]).0, Traced(sub, seeds[..k]).1)
  {
    if k == 0 {
      assert Traced(sub, seeds[..0]) == ([], {});
    } else {
      TracedFollows(sub, seeds, k - 1);
      var (before, visited) := Traced(sub, seeds[..k - 1]);
      assert seeds[k - 1] in seeds;
      SeedFollows(sub, seeds, k - 1, before, visited);
      TracedNext(sub, seeds, k - 1, visited, before);
    }
  }

  /** The trace of the first k seeds: nothing waits, and they have been visited. */
  ghost predicate TracedByRule(sub: Snapshot, seeds: seq<string>, k: nat, trace: seq<string>, visited: set<string>) {
    && DepthFirst(sub, seeds, trace) && Waits(sub, trace, visited, [])
    && forall l: nat | l < k && l < |seeds| :: seeds[l] in visited
  }

  lemma SeedFollows(sub: Snapshot, seeds: seq<string>, k: nat, trace: seq<string>, visited: set<string>)
    requires k < |seeds| && seeds[k] in NodeIds(sub)
    requires TracedByRule(sub, seeds, k, trace, visited)
    ensures var r := Explore(sub, visited, [seeds[k]]); TracedByRule(sub, seeds, k + 1, trace + r.0, r.1)
  {
    var x := seeds[k];
    ExploreOne(sub, visited, [], x);
    assert [] + [x] == [x] && trace + [] == trace;
    if x !in visited {
      LastUnvisited(AllSupporters(sub, trace), trace);
      assert FirstNew(seeds, trace, x);
      UnvisitedAgain(AllSupporters(sub, trace), visited, visited + {x});
      VisitFollows(sub, seeds, trace, visited, [], x);
      RuleJoins(sub, seeds, trace, Explore(sub, visited, [x]).0);
    }
  }

  lemma RuleJoins(sub: Snapshot, seeds: seq<string>, trace: seq<string>, more: seq<string>)
    requires DepthFirst(sub, seeds, trace) && FollowsRule(sub, seeds, trace + more, |trace|)
    ensures DepthFirst(sub, seeds, trace + more)
  {
    forall i: nat | i < |trace + more| ensures ComesNext(sub, seeds, (trace + more)[..i], (trace + more)[i]) {
      if i < |trace| { assert (trace + more)[..i] == trace[..i] && (trace + more)[i] == trace[i]; }
    }
  }

  lemma {:induction false} UnvisitedMembers(ids: seq<string>, visited: set<string>)
    ensures forall id :: id in Unvisited(ids, visited) <==> id in ids && id !in visited
  {
    if ids == [] {
    } else {
      var rest, last := ids[..|ids| - 1], ids[|ids| - 1];
      UnvisitedMembers(rest, visited);
      assert ids == rest + [last];
    }
  }

  // ---------- The loops ----------

  /** The unvisited sources of the edges, in order. */
  method PushUnvisited(stack: seq<string>, edges: seq<Edge>, visited: set<string>) returns (next: seq<string>)
    ensures next == stack + Unvisited(SourcesOf(edges), visited)
  {
    next := stack;
    var i := 0;
    ghost var ids := SourcesOf(edges);
    while i < |edges|
      invariant 0 <= i <= |edges|
      invariant next == stack + Unvisited(ids[..i], visited)
    {
      assert ids[..i + 1][..i] == ids[..i];
      if edges[i].source !in visited { next := next + [edges[i].source]; }
      i := i + 1;
    }
    assert ids[..i] == ids;
  }

  /** What is pushed for a node, as a set. */
  lemma PushedMembers(sub: Snapshot, adj: map<string, seq<Edge>>, current: string, visited: set<string>)
    requires ListsIncoming(sub, adj)
    ensures forall id :: id in Unvisited(Supporters(sub, current), visited) <==>
      id !in visited && current in adj && exists e | e in adj[current] :: e.source == id
  {
    var edges := Into(sub.edges, NodeIds(sub), current);
    assert Entry(adj, current) == edges;
    var sorted := Sort(edges, ByPreference());
    SortMembers(edges, ByPreference());
    UnvisitedMembers(SourcesOf(sorted), visited);
    forall id
      ensures id in SourcesOf(sorted) <==> exists e | e in edges :: e.source == id
    {
      if id in SourcesOf(sorted) {
        var i :| 0 <= i < |sorted| && SourcesOf(sorted)[i] == id;
        assert sorted[i] in edges;
      }
      if e :| e in edges && e.source == id {
        var i :| 0 <= i < |sorted| && sorted[i] == e;
        assert SourcesOf(sorted)[i] == id;
      }
    }
  }

  /** Where the trace ends up, from here. */
  ghost predicate Heads(sub: Snapshot, visited: set<string>, trace: seq<string>, stack: seq<string>,
                        goal: (seq<string>, set<string>)) {
    var r := Explore(sub, visited, stack);
    (trace + r.0, r.1) == goal
  }

  lemma HeadsOn(sub: Snapshot, visited: set<string>, trace: seq<string>, rest: seq<string>, x: string,
                goal: (seq<string>, set<string>))
    requires x in NodeIds(sub) && Heads(sub, visited, trace, rest + [x], goal)
    ensures if x in visited then Heads(sub, visited, trace, rest, goal)
            else Heads(sub, visited + {x}, trace + [x], rest + Unvisited(Supporters(sub, x), visited + {x}), goal)
  {
    if x in visited {
      ExploreOne(sub, visited, rest, x);
    } else {
      ExploreStep(sub, visited, rest, x);
      var next := Explore(sub, visited + {x}, rest + Unvisited(Supporters(sub, x), visited + {x}));
      Associates(trace, [x], next.0);
    }
  }

  /** There is somewhere to end up, and with nothing waiting it is here. */
  lemma HeadsSomewhere(sub: Snapshot, visited: set<string>, trace: seq<string>, stack: seq<string>)
    returns (goal: (seq<string>, set<string>))
    ensures Heads(sub, visited, trace, stack, goal)
    ensures stack == [] ==> goal == (trace, visited)
  {
    var r := Explore(sub, visited, stack);
    goal := (trace + r.0, r.1);
    assert trace + [] == trace;
  }

  lemma HeadsHere(sub: Snapshot, visited: set<string>, trace: seq<string>, goal: (seq<string>, set<string>))
    requires Heads(sub, visited, trace, [], goal)
    ensures goal == (trace, visited)
  {
    assert trace + [] == trace;
  }

  /** Tracing on towards the goal, with the seed visited or waiting. */
  ghost predicate Underway(sub: Snapshot, seeds: seq<string>, seed: string, visited: set<string>, trace: seq<string>,
                           stack: seq<string>, goal: (seq<string>, set<string>)) {
    && Tracing(sub, seeds, visited, trace, stack) && (seed in visited || seed in stack)
    && Heads(sub, visited, trace, stack, goal)
  }

  method TraceBack(seed: string, adj: map<string, seq<Edge>>, visited0: set<string>, trace0: seq<string>,
                   ghost sub: Snapshot, ghost seeds: seq<string>)
    returns (visited: set<string>, trace: seq<string>)
    requires Reverse(sub, adj) && ListsIncoming(sub, adj) && seed in seeds && seed in NodeIds(sub)
    requires Tracing(sub, seeds, visited0, trace0, [])
    ensures Tracing(sub, seeds, visited, trace, []) && visited0 <= visited && seed in visited
    ensures Heads(sub, visited0, trace0, [seed], (trace, visited))
  {
    visited, trace := visited0, trace0;
    var stack := [seed];
    ghost var goal := HeadsSomewhere(sub, visited0, trace0, [seed]);
    SeedLeads(sub, seeds, seed);
    while stack != []
      invariant Underway(sub, seeds, seed, visited, trace, stack, goal) && visited0 <= visited
      decreases NodeIds(sub) - visited, |stack|
    {
      ghost var seen, current := visited, stack[|stack| - 1];
      visited, trace, stack := Pop(adj, visited, trace, stack, sub, seeds, seed, goal);
      assert current !in seen ==> current in NodeIds(sub) - seen;
    }
    HeadsHere(sub, visited, trace, goal);
  }

  /** Takes the last waiting node off the stack and visits it unless that was done before. */
  method Pop(adj: map<string, seq<Edge>>, seen: set<string>, before: seq<string>, waiting: seq<string>,
             ghost sub: Snapshot, ghost seeds: seq<string>, ghost seed: string, ghost goal: (seq<string>, set<string>))
    returns (visited: set<string>, trace: seq<string>, stack: seq<string>)
    requires Reverse(sub, adj) && ListsIncoming(sub, adj) && waiting != []
    requires Underway(sub, seeds, seed, seen, before, waiting, goal)
    ensures Underway(sub, seeds, seed, visited, trace, stack, goal)
    ensures var current := waiting[|waiting| - 1];
      && current in NodeIds(sub)
      && if current in seen then visited == seen && |stack| < |waiting| else visited == seen + {current}
  {
    var current, rest := waiting[|waiting| - 1], waiting[..|waiting| - 1];
    assert current in waiting && waiting == rest + [current];
    HeadsOn(sub, seen, before, rest, current, goal);
    if current in seen {
      visited, trace, stack := seen, before, rest;
    } else {
      visited, trace, stack := Visit(current, adj, seen, before, rest, sub, seeds);
    }
  }

  /** Visits one node and puts its unvisited supporters on the stack. */
  method Visit(current: string, adj: map<string, seq<Edge>>, seen: set<string>, before: seq<string>,
               waiting: seq<string>, ghost sub: Snapshot, ghost seeds: seq<string>)
    returns (visited: set<string>, trace: seq<string>, stack: seq<string>)
    requires Reverse(sub, adj) && ListsIncoming(sub, adj) && current !in seen
    requires Tracing(sub, seeds, seen, before, waiting + [current])
    ensures visited == seen + {current} && trace == before + [current]
    ensures stack == waiting + Unvisited(Supporters(sub, current), visited)
    ensures Tracing(sub, seeds, visited, trace, stack)
  {
    visited, trace := seen + {current}, before + [current];
    assert Entry(adj, current) == Into(sub.edges, NodeIds(sub), current);
    var edges := if current in adj then Sort(adj[current], ByPreference()) else [];
    stack := PushUnvisited(waiting, edges, visited);
    PushedMembers(sub, adj, current, visited);
    assert visited - {current} == seen && trace[..|trace| - 1] == before;
    TracingStep(sub, seeds, visited, trace, waiting + [current], waiting, stack, current, adj);
  }

  lemma TracingStep(sub: Snapshot, seeds: seq<string>, visited: set<string>, trace: seq<string>, before: seq<string>,
                    waiting: seq<string>, stack: seq<string>, current: string, adj: map<string, seq<Edge>>)
    requires Reverse(sub, adj) && before == waiting + [current] && current in visited
    requires |trace| > 0 && trace[|trace| - 1] == current && current !in trace[..|trace| - 1]
    requires Tracing(sub, seeds, visited - {current}, trace[..|trace| - 1], before)
    requires forall id :: id in stack <==>
      id in waiting || (id !in visited && current in adj && exists e | e in adj[current] :: e.source == id)
    ensures Tracing(sub, seeds, visited, trace, stack)
  {
    assert trace == trace[..|trace| - 1] + [current];
    assert current in before;
    forall id | id in stack ensures id in NodeIds(sub) && LeadsTo(sub, seeds, id) {
      if id in waiting { assert id in before; } else {
        var e :| e in adj[current] && e.source == id;
        SupportLeads(sub, seeds, id, current);
      }
    }
    forall x, y | y in visited && Supports(sub, x, y) ensures x in visited || x in stack {
      if y == current {
        assert exists e | e in adj[current] :: e.source == x;
      } else {
        assert x in visited - {current} || x in before;
      }
    }
  }

  /** A set that contains the seeds and is closed under supporters contains all that leads to a seed. */
  lemma {:induction false} ClosedContains(sub: Snapshot, seeds: seq<string>, visited: set<string>, p: seq<string>)
    requires forall x, y | y in visited && Supports(sub, x, y) :: x in visited
    requires forall s | s in seeds :: s in visited
    requires Chain(sub, p) && p[|p| - 1] in seeds
    ensures p[0] in visited
    decreases |p|
  {
    if |p| == 1 {
    } else {
      var q := p[1..];
      assert forall t | 0 < t < |q| :: Supports(sub, q[t - 1], q[t]) by {
        forall t | 0 < t < |q| ensures Supports(sub, q[t - 1], q[t]) { assert Supports(sub, p[t], p[t + 1]); }
      }
      ClosedContains(sub, seeds, visited, q);
      assert Supports(sub, p[0], p[1]);
    }
  }

  /** Traces back from each seed in turn. */
  method TraceSeeds(seeds: seq<string>, adj: map<string, seq<Edge>>, ghost sub: Snapshot) returns (trace: seq<string>)
    requires Reverse(sub, adj) && ListsIncoming(sub, adj) && forall s | s in seeds :: s in NodeIds(sub)
    ensures NoDup(trace) && forall x :: x in trace <==> LeadsTo(sub, seeds, x)
    ensures trace == Traced(sub, seeds).0
  {
    var visited := {};
    trace := [];
    var i := 0;
    while i < |seeds|
      invariant i <= |seeds| && SeedsTraced(sub, seeds, i, visited, trace)
    {
      assert seeds[i] in seeds;
      visited, trace := TraceSeed(seeds, i, adj, visited, trace, sub);
      i := i + 1;
    }
    TracedAll(sub, seeds, visited, trace);
  }

  /** Traces back from seed number i, unless it has been visited. */
  method TraceSeed(seeds: seq<string>, i: nat, adj: map<string, seq<Edge>>, seen: set<string>, before: seq<string>,
                   ghost sub: Snapshot)
    returns (visited: set<string>, trace: seq<string>)
    requires Reverse(sub, adj) && ListsIncoming(sub, adj) && i < |seeds| && seeds[i] in NodeIds(sub)
    requires SeedsTraced(sub, seeds, i, seen, before)
    ensures SeedsTraced(sub, seeds, i + 1, visited, trace)
  {
    visited, trace := seen, before;
    SeedsNext(sub, seeds, i, visited, trace);
    if seeds[i] !in visited {
      visited, trace := TraceBack(seeds[i], adj, visited, trace, sub, seeds);
    }
  }

  /** The first i seeds have been traced back. */
  ghost predicate SeedsTraced(sub: Snapshot, seeds: seq<string>, i: nat, visited: set<string>, trace: seq<string>) {
    && i <= |seeds| && Tracing(sub, seeds, visited, trace, [])
    && (forall k | 0 <= k < i :: seeds[k] in visited)
    && (trace, visited) == Traced(sub, seeds[..i])
  }

  lemma SeedsNext(sub: Snapshot, seeds: seq<string>, i: nat, visited: set<string>, trace: seq<string>)
    requires i < |seeds| && SeedsTraced(sub, seeds, i, visited, trace)
    ensures seeds[i] in visited ==> SeedsTraced(sub, seeds, i + 1, visited, trace)
    ensures forall v, t | Heads(sub, visited, trace, [seeds[i]], (t, v)) :: (t, v) == Traced(sub, seeds[..i + 1])
  {
    TracedNext(sub, seeds, i, visited, trace);
  }

  /** When every seed has been traced back, the trace is exactly what leads to a seed. */
  lemma TracedAll(sub: Snapshot, seeds: seq<string>, visited: set<string>, trace: seq<string>)
    requires SeedsTraced(sub, seeds, |seeds|, visited, trace)
    ensures NoDup(trace) && forall x :: x in trace <==> LeadsTo(sub, seeds, x)
    ensures trace == Traced(sub, seeds).0
  {
    assert seeds[..|seeds|] == seeds;
    forall x ensures x in trace <==> LeadsTo(sub, seeds, x) {
      if LeadsTo(sub, seeds, x) {
        var p: seq<string> :| Chain(sub, p) && p[0] == x && p[|p| - 1] in seeds;
        ClosedContains(sub, seeds, visited, p);
      }
    }
  }

  lemma TracedNext(sub: Snapshot, seeds: seq<string>, i: nat, visited: set<string>, trace: seq<string>)
    requires i < |seeds| && (trace, visited) == Traced(sub, seeds[..i])
    ensures var r := Explore(sub, visited, [seeds[i]]); Traced(sub, seeds[..i + 1]) == (trace + r.0, r.1)
    ensures seeds[i] in visited ==> Traced(sub, seeds[..i + 1]) == (trace, visited)
  {
    assert seeds[..i + 1][..i] == seeds[..i];
    ExploreOne(sub, visited, [], seeds[i]);
    assert [] + [seeds[i]] == [seeds[i]] && trace + [] == trace;
  }

  /** The distinct ids, in order. */
  method Distinct(ids: seq<string>) returns (trace: seq<string>)
    ensures trace == FirstOccurrences(ids)
  {
    trace := [];
    var i := 0;
    while i < |ids|
      invariant 0 <= i <= |ids| && trace == FirstOccurrences(ids[..i])
    {
      assert ids[..i + 1][..i] == ids[..i];
      if ids[i] !in trace { trace := trace + [ids[i]]; }
      i := i + 1;
    }
    assert ids[..i] == ids;
  }

  // ---------- The whole query ----------

  /** The ids of the first n nodes. */
  function FirstIds(nodes: seq<Node>, n: nat): seq<string> {
    seq(if |nodes| < n then |nodes| else n, i requires 0 <= i < |nodes| => nodes[i].id)
  }

  /** The seeds are the ids at the chosen positions: the up to three nodes with the most matches of the question. With
      a match, the trace is exactly what leads to a seed, depth first; without any, the distinct ids of the first three
      nodes. */
  method QuerySubgraph(sub: Snapshot, question: string, tokenize: string -> seq<string>)
    returns (trace: seq<string>, ghost seeds: seq<string>, ghost chosen: seq<nat>)
    ensures NoDup(trace)
    ensures AreBest(|sub.nodes|, MatchesAt(sub.nodes, tokenize(question), tokenize), chosen)
    ensures SeedsAt(sub.nodes, chosen, seeds)
    ensures seeds == [] <==> forall node, t | node in sub.nodes && t in tokenize(question) ::
              t !in tokenize(node.title + " " + node.description)
    ensures seeds != [] ==> DepthFirst(sub, seeds, trace) && forall x :: x in trace <==> LeadsTo(sub, seeds, x)
    ensures seeds != [] ==> trace == Traced(sub, seeds).0
    ensures seeds == [] ==> trace == FirstOccurrences(FirstIds(sub.nodes, 3))
    ensures BestThree(Scores(sub.nodes, tokenize(question), tokenize), seeds)
  {
    var terms := tokenize(question);
    var scores := Scores(sub.nodes, terms, tokenize);
    var ranked := Sort(scores, Descending());
    var best := Take(Positive(ranked), 3);
    seeds := best;
    chosen := SeedsChosen(sub.nodes, terms, tokenize, seeds);
    if best == [] {
      NothingPositive(scores);
      FirstRanked(sub.nodes, terms, tokenize);
      trace := Distinct(Take(Ids(ranked), 3));
      FirstOccurrencesExact(Take(Ids(ranked), 3));
    } else {
      trace := TraceFrom(sub, terms, tokenize, best);
    }
  }

  lemma SeedsChosen(nodes: seq<Node>, terms: seq<string>, tokenize: string -> seq<string>, seeds: seq<string>)
    returns (chosen: seq<nat>)
    requires seeds == Take(Positive(Sort(Scores(nodes, terms, tokenize), Descending())), 3)
    ensures AreBest(|nodes|, MatchesAt(nodes, terms, tokenize), chosen) && SeedsAt(nodes, chosen, seeds)
    ensures seeds == [] <==> forall node, t | node in nodes && t in terms ::
              t !in tokenize(node.title + " " + node.description)
    ensures BestThree(Scores(nodes, terms, tokenize), seeds)
  {
    TakenAreBest(Scores(nodes, terms, tokenize));
    chosen := SeedsAreBest(nodes, terms, tokenize, seeds);
    NoSeedExactly(nodes, terms, tokenize, chosen);
  }

  /** Unranked, the first three are the first three nodes. */
  lemma FirstRanked(nodes: seq<Node>, terms: seq<string>, tokenize: string -> seq<string>)
    ensures Take(Ids(Scores(nodes, terms, tokenize)), 3) == FirstIds(nodes, 3)
  {
  }

  method TraceFrom(sub: Snapshot, terms: seq<string>, tokenize: string -> seq<string>, seeds: seq<string>)
    returns (trace: seq<string>)
    requires seeds == Take(Positive(Sort(Scores(sub.nodes, terms, tokenize), Descending())), 3)
    ensures NoDup(trace) && trace == Traced(sub, seeds).0 && forall x :: x in trace <==> LeadsTo(sub, seeds, x)
    ensures DepthFirst(sub, seeds, trace)
  {
    var adj := ReverseAdjacency(sub);
    forall s | s in seeds ensures s in NodeIds(sub) { SeedsAreNodes(sub.nodes, terms, tokenize, s); }
    trace := TraceSeeds(seeds, adj, sub);
    TracedFollows(sub, seeds, |seeds|);
    assert seeds[..|seeds|] == seeds;
  }
}
