/** Layered breadth-first search in both directions, and the subgraph it induces. */
module Traversal {
  import opened GraphTypes
  import opened StoreIndex

  datatype Snapshot = Snapshot(nodes: seq<Node>, edges: seq<Edge>)

  /** An edge joins the two positions, in either direction. */
  ghost predicate Adjacent(arcs: seq<Arc>, x: nat, y: nat) {
    exists a | a in arcs :: (a.src == x && a.tgt == y) || (a.src == y && a.tgt == x)
  }

  ghost predicate Walk(arcs: seq<Arc>, p: seq<nat>) {
    |p| > 0 && forall t | 0 < t < |p| :: Adjacent(arcs, p[t - 1], p[t])
  }

  /** A walk of at most d edges leads from a seed to x. */
  ghost predicate Within(arcs: seq<Arc>, seeds: set<nat>, d: nat, x: nat) {
    exists p: seq<nat> :: Walk(arcs, p) && |p| <= d + 1 && p[0] in seeds && p[|p| - 1] == x
  }

  /** The positions reached after d layers. */
  ghost function Ball(n: nat, arcs: seq<Arc>, seeds: set<nat>, d: nat): set<nat> {
    if d == 0 then seeds else Grow(n, arcs, Ball(n, arcs, seeds, d - 1))
  }

  ghost function Grow(n: nat, arcs: seq<Arc>, s: set<nat>): set<nat> {
    s + set x | 0 <= x < n && Touches(arcs, s, x)
  }

  ghost predicate Touches(arcs: seq<Arc>, s: set<nat>, x: nat) {
    exists y | y in s :: Adjacent(arcs, y, x)
  }

  lemma {:induction false} BallIsWithin(n: nat, arcs: seq<Arc>, seeds: set<nat>, d: nat, x: nat)
    requires forall s | s in seeds :: s < n
    requires forall a | a in arcs :: a.src < n && a.tgt < n
    ensures x in Ball(n, arcs, seeds, d) <==> Within(arcs, seeds, d, x)
  {
    if x in Ball(n, arcs, seeds, d) { BallToWalk(n, arcs, seeds, d, x); }
    if Within(arcs, seeds, d, x) {
      var p: seq<nat> :| Walk(arcs, p) && |p| <= d + 1 && p[0] in seeds && p[|p| - 1] == x;
      WalkToBall(n, arcs, seeds, d, p);
    }
  }

  lemma WithinStep(arcs: seq<Arc>, seeds: set<nat>, d: nat, y: nat, x: nat)
    requires Within(arcs, seeds, d, y) && Adjacent(arcs, y, x)
    ensures Within(arcs, seeds, d + 1, x)
  {
    var p: seq<nat> :| Walk(arcs, p) && |p| <= d + 1 && p[0] in seeds && p[|p| - 1] == y;
    var q := p + [x];
    assert Walk(arcs, q) && q[0] == p[0];
  }

  lemma WithinMore(arcs: seq<Arc>, seeds: set<nat>, d: nat, x: nat)
    requires Within(arcs, seeds, d, x)
    ensures Within(arcs, seeds, d + 1, x)
  {
  }

  lemma {:induction false} BallToWalk(n: nat, arcs: seq<Arc>, seeds: set<nat>, d: nat, x: nat)
    requires x in Ball(n, arcs, seeds, d)
    ensures Within(arcs, seeds, d, x)
  {
    if d == 0 {
      assert Walk(arcs, [x]);
    } else if x in Ball(n, arcs, seeds, d - 1) {
      BallToWalk(n, arcs, seeds, d - 1, x);
      WithinMore(arcs, seeds, d - 1, x);
    } else {
      var y: nat :| y in Ball(n, arcs, seeds, d - 1) && Adjacent(arcs, y, x);
      BallToWalk(n, arcs, seeds, d - 1, y);
      WithinStep(arcs, seeds, d - 1, y, x);
    }
  }

  lemma {:induction false} WalkToBall(n: nat, arcs: seq<Arc>, seeds: set<nat>, d: nat, p: seq<nat>)
    requires forall a | a in arcs :: a.src < n && a.tgt < n
    requires Walk(arcs, p) && |p| <= d + 1 && p[0] in seeds
    ensures p[|p| - 1] in Ball(n, arcs, seeds, d)
    decreases d
  {
    if d == 0 {
    } else {
      if |p| == 1 {
        WalkToBall(n, arcs, seeds, d - 1, p);
      } else {
        var front := p[..|p| - 1];
        WalkToBall(n, arcs, seeds, d - 1, front);
        assert Adjacent(arcs, p[|p| - 2], p[|p| - 1]);
      }
    }
  }

  /** The neighbours of a position: sources of incoming edges, then targets of outgoing ones. */
  method Neighbours(arcs: seq<Arc>, x: nat) returns (found: seq<nat>)
    ensures forall y: nat :: y in found <==> Adjacent(arcs, x, y)
  {
    found := [];
    var a := 0;
    while a < |arcs|
      invariant 0 <= a <= |arcs|
      invariant forall y: nat :: y in found <==> exists b | 0 <= b < a :: arcs[b].tgt == x && arcs[b].src == y
    {
      if arcs[a].tgt == x { found := found + [arcs[a].src]; }
      a := a + 1;
    }
    ghost var incoming := found;
    a := 0;
    while a < |arcs|
      invariant 0 <= a <= |arcs|
      invariant forall y: nat ::
        y in found <==> y in incoming || exists b | 0 <= b < a :: arcs[b].src == x && arcs[b].tgt == y
    {
      if arcs[a].src == x { found := found + [arcs[a].tgt]; }
      a := a + 1;
    }
    forall y: nat ensures y in found <==> Adjacent(arcs, x, y) {
      if Adjacent(arcs, x, y) {
        var e :| e in arcs && ((e.src == x && e.tgt == y) || (e.src == y && e.tgt == x));
        var b :| 0 <= b < |arcs| && arcs[b] == e;
      }
    }
  }

  /** Every new neighbour of x joins the visited positions and the next frontier. */
  method VisitNeighbours(arcs: seq<Arc>, x: nat, seen: set<nat>, next: seq<nat>)
    returns (visited: set<nat>, frontier: seq<nat>)
    ensures forall y: nat :: y in visited <==> y in seen || Adjacent(arcs, x, y)
    ensures forall y: nat :: y in frontier <==> y in next || (y in visited && y !in seen)
  {
    visited, frontier := seen, next;
    var found := Neighbours(arcs, x);
    var i := 0;
    while i < |found|
      invariant 0 <= i <= |found|
      invariant forall y: nat :: y in visited <==> y in seen || y in found[..i]
      invariant forall y: nat :: y in frontier <==> y in next || (y in visited && y !in seen)
    {
      assert found[..i + 1] == found[..i] + [found[i]];
      if found[i] !in visited {
        visited := visited + {found[i]};
        frontier := frontier + [found[i]];
      }
      i := i + 1;
    }
    assert found[..i] == found;
  }

  /** One layer: all positions adjacent to the frontier. */
  method Layer(arcs: seq<Arc>, seen: set<nat>, frontier: seq<nat>) returns (visited: set<nat>, next: seq<nat>)
    ensures forall y: nat :: y in visited <==> y in seen || exists x | x in frontier :: Adjacent(arcs, x, y)
    ensures forall y: nat :: y in next <==> y in visited && y !in seen
  {
    visited, next := seen, [];
    var i := 0;
    while i < |frontier|
      invariant 0 <= i <= |frontier|
      invariant forall y: nat :: y in visited <==> y in seen || exists x | x in frontier[..i] :: Adjacent(arcs, x, y)
      invariant forall y: nat :: y in next <==> y in visited && y !in seen
    {
      assert frontier[..i + 1] == frontier[..i] + [frontier[i]];
      visited, next := VisitNeighbours(arcs, frontier[i], visited, next);
      i := i + 1;
    }
    assert frontier[..i] == frontier;
  }

  /** Positions outside the frontier have all their neighbours visited already. */
  ghost predicate Explored(arcs: seq<Arc>, visited: set<nat>, frontier: seq<nat>) {
    && (forall x | x in frontier :: x in visited)
    && (forall x, y: nat | x in visited && x !in frontier && Adjacent(arcs, x, y) :: y in visited)
  }

  lemma LayerGrows(n: nat, arcs: seq<Arc>, seen: set<nat>, frontier: seq<nat>, visited: set<nat>, next: seq<nat>)
    requires forall a | a in arcs :: a.src < n && a.tgt < n
    requires Explored(arcs, seen, frontier)
    requires forall y: nat :: y in visited <==> y in seen || exists x | x in frontier :: Adjacent(arcs, x, y)
    requires forall y: nat :: y in next <==> y in visited && y !in seen
    ensures visited == Grow(n, arcs, seen)
    ensures Explored(arcs, visited, next)
  {
    forall y: nat ensures y in visited <==> y in Grow(n, arcs, seen) {
      if y in visited && y !in seen {
        var x :| x in frontier && Adjacent(arcs, x, y);
        assert x in seen;
      }
      if y in Grow(n, arcs, seen) && y !in seen {
        var x: nat :| x in seen && Adjacent(arcs, x, y);
      }
    }
    forall x, y: nat | x in visited && x !in next && Adjacent(arcs, x, y) ensures y in visited {
      assert x in seen;
    }
  }

  /** The positions within depth layers of the seeds. */
  method Search(ghost n: nat, arcs: seq<Arc>, seeds: seq<nat>, depth: nat) returns (visited: set<nat>)
    requires forall a | a in arcs :: a.src < n && a.tgt < n
    ensures visited == Ball(n, arcs, Elements(seeds), depth)
  {
    var frontier := seeds;
    visited := Elements(seeds);
    var d := 0;
    while d < depth
      invariant 0 <= d <= depth
      invariant visited == Ball(n, arcs, Elements(seeds), d)
      invariant Explored(arcs, visited, frontier)
    {
      ghost var seen, before := visited, frontier;
      visited, frontier := Layer(arcs, visited, frontier);
      LayerGrows(n, arcs, seen, before, visited, frontier);
      d := d + 1;
    }
  }

  // ---------- The induced subgraph ----------

  /** The positions of the ids that exist. */
  method Locate(ids: seq<string>, idToNode: map<string, nat>) returns (found: seq<nat>)
    ensures forall x: nat :: x in found <==> exists id | id in ids :: id in idToNode && idToNode[id] == x
  {
    found := [];
    var i := 0;
    while i < |ids|
      invariant 0 <= i <= |ids|
      invariant forall x: nat :: x in found <==> exists id | id in ids[..i] :: id in idToNode && idToNode[id] == x
    {
      assert ids[..i + 1] == ids[..i] + [ids[i]];
      if ids[i] in idToNode { found := found + [idToNode[ids[i]]]; }
      i := i + 1;
    }
    assert ids[..i] == ids;
  }

  /** The elements of a set in arbitrary order. */
  method Enumerate(s: set<nat>) returns (all: seq<nat>)
    ensures NoDup(all) && forall x: nat :: x in all <==> x in s
  {
    all := [];
    var rest := s;
    while rest != {}
      invariant rest <= s && NoDup(all)
      invariant forall x: nat :: x in all <==> x in s && x !in rest
      decreases rest
    {
      var x :| x in rest;
      rest := rest - {x};
      all := all + [x];
    }
  }

  /** The arcs out of x that stay in the set, appended. */
  method OutgoingWithin(arcs: seq<Arc>, x: nat, inside: set<nat>, before: seq<nat>) returns (picked: seq<nat>)
    requires NoDup(before) && forall a | a in before :: a < |arcs| && arcs[a].src != x
    ensures NoDup(picked)
    ensures forall a: nat :: a in picked <==> a in before || (a < |arcs| && arcs[a].src == x && arcs[a].tgt in inside)
  {
    picked := before;
    var a := 0;
    while a < |arcs|
      invariant 0 <= a <= |arcs| && NoDup(picked)
      invariant forall b: nat :: b in picked <==> b in before || (b < a && arcs[b].src == x && arcs[b].tgt in inside)
    {
      if arcs[a].src == x && arcs[a].tgt in inside { picked := picked + [a]; }
      a := a + 1;
    }
  }

  /** The positions of the arcs with both ends in the set, each once. */
  method InducedArcs(arcs: seq<Arc>, order: seq<nat>, inside: set<nat>) returns (picked: seq<nat>)
    requires NoDup(order) && forall x: nat :: x in order <==> x in inside
    ensures NoDup(picked)
    ensures forall a: nat :: a in picked <==> a < |arcs| && arcs[a].src in inside && arcs[a].tgt in inside
  {
    picked := [];
    var i := 0;
    while i < |order|
      invariant 0 <= i <= |order| && NoDup(picked)
      invariant forall a: nat :: a in picked <==> a < |arcs| && arcs[a].src in order[..i] && arcs[a].tgt in inside
    {
      assert order[..i + 1] == order[..i] + [order[i]];
      forall a | a in picked ensures arcs[a].src != order[i] { }
      picked := OutgoingWithin(arcs, order[i], inside, picked);
      i := i + 1;
    }
    assert order[..i] == order;
  }

  /** The positions of the existing seeds. */
  ghost function SeedPositions(mem: Memory, ids: seq<string>): set<nat> {
    set id | id in ids && id in mem.idToNode :: mem.idToNode[id]
  }

  /** The nodes listed by position, and the edges listed by position. */
  ghost predicate Shows(r: Snapshot, mem: Memory, order: seq<nat>, picked: seq<nat>) {
    && |r.nodes| == |order| && |r.edges| == |picked|
    && (forall k | 0 <= k < |order| :: order[k] < |mem.nodes| && r.nodes[k] == mem.nodes[order[k]])
    && (forall k | 0 <= k < |picked| :: picked[k] < |mem.arcs| && r.edges[k] == mem.arcs[picked[k]].edge)
  }

  /** Exactly the nodes within depth hops of an existing seed, and exactly the edges among them, each once. */
  method BfsSubgraph(mem: Memory, seedIds: seq<string>, depth: nat)
    returns (r: Snapshot, ghost order: seq<nat>, ghost picked: seq<nat>)
    requires Consistent(mem)
    ensures Shows(r, mem, order, picked) && NoDup(order) && NoDup(picked)
    ensures forall x: nat :: x in order <==> Within(mem.arcs, SeedPositions(mem, seedIds), depth, x)
    ensures forall a: nat :: a in picked <==>
              a < |mem.arcs| && mem.arcs[a].src in order && mem.arcs[a].tgt in order
  {
    var seeds := Locate(seedIds, mem.idToNode);
    ghost var n := |mem.nodes|;
    ArcsInRange(mem);
    SeedsInRange(mem, seedIds, seeds);
    var visited := Search(n, mem.arcs, seeds, depth);
    forall x: nat ensures x in visited <==> Within(mem.arcs, SeedPositions(mem, seedIds), depth, x) {
      BallIsWithin(n, mem.arcs, SeedPositions(mem, seedIds), depth, x);
    }
    BallInRange(n, mem.arcs, Elements(seeds), depth);
    var list := Enumerate(visited);
    var edges := InducedArcs(mem.arcs, list, visited);
    assert forall k | 0 <= k < |list| :: list[k] in list;
    assert forall k | 0 <= k < |edges| :: edges[k] in edges;
    r := Show(mem, list, edges);
    order, picked := list, edges;
  }

  function Show(mem: Memory, order: seq<nat>, picked: seq<nat>): (r: Snapshot)
    requires forall k | 0 <= k < |order| :: order[k] < |mem.nodes|
    requires forall k | 0 <= k < |picked| :: picked[k] < |mem.arcs|
    ensures Shows(r, mem, order, picked)
  {
    Snapshot(seq(|order|, k requires 0 <= k < |order| => mem.nodes[order[k]]),
             seq(|picked|, k requires 0 <= k < |picked| => mem.arcs[picked[k]].edge))
  }

  lemma ArcsInRange(mem: Memory)
    requires Consistent(mem)
    ensures forall a | a in mem.arcs :: a.src < |mem.nodes| && a.tgt < |mem.nodes|
  {
    forall a | a in mem.arcs ensures a.src < |mem.nodes| && a.tgt < |mem.nodes| {
      var i :| 0 <= i < |mem.arcs| && mem.arcs[i] == a;
      assert Placed(mem, mem.arcs[i]);
    }
  }

  lemma SeedsInRange(mem: Memory, ids: seq<string>, seeds: seq<nat>)
    requires Consistent(mem)
    requires forall x: nat :: x in seeds <==> exists id | id in ids :: id in mem.idToNode && mem.idToNode[id] == x
    ensures Elements(seeds) == SeedPositions(mem, ids)
    ensures forall x | x in Elements(seeds) :: x < |mem.nodes|
  {
  }

  lemma {:induction false} BallInRange(n: nat, arcs: seq<Arc>, seeds: set<nat>, d: nat)
    requires forall x | x in seeds :: x < n
    ensures forall x | x in Ball(n, arcs, seeds, d) :: x < n
  {
    if d == 0 {
    } else {
      BallInRange(n, arcs, seeds, d - 1);
    }
  }
}
