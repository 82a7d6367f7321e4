/** The open-item debt detector, its agreement with the open questions, and what stays closed over every run. */
module Debt {
  import opened GraphTypes
  import opened OrderKeys
  import opened StoreSpec
  import opened Restarts
  import opened StoreIndex

  datatype Severity = Medium | High

  datatype OpenItemDebt = OpenItemDebt(nodeId: string, severity: Severity)

  // ---------- What is open ----------

  ghost predicate Resolved(g: Graph, id: string) {
    exists e | e in g.edges :: g.edges[e].edgeType == Resolves && g.edges[e].target == id
  }

  /** An active open item that no edge resolves. */
  ghost predicate IsOpen(g: Graph, id: string) {
    id in g.nodes && g.nodes[id].nodeType == OpenItem && g.nodes[id].status == Active && !Resolved(g, id)
  }

  /** The open items named in the order, newest first. */
  ghost function NewestOpen(g: Graph, order: seq<string>): seq<string> {
    if order == [] then [] else
      var k := |order| - 1;
      (if IsOpen(g, order[k]) then [order[k]] else []) + NewestOpen(g, order[..k])
  }

  ghost function Ids(nodes: seq<Node>): seq<string> {
    seq(|nodes|, i requires 0 <= i < |nodes| => nodes[i].id)
  }

  lemma {:induction false} NewestOpenFacts(g: Graph, order: seq<string>)
    ensures forall id :: id in NewestOpen(g, order) <==> id in order && IsOpen(g, id)
    ensures NoDup(order) ==> NoDup(NewestOpen(g, order))
  {
    if order == [] {
    } else {
      var k := |order| - 1;
      NewestOpenFacts(g, order[..k]);
      assert order == order[..k] + [order[k]];
    }
  }

  /** They stand at exactly the positions of open items in the order, the last position first. */
  ghost predicate OpenAt(g: Graph, order: seq<string>, n: nat, ids: seq<string>, at: seq<nat>) {
    && n <= |order| && |ids| == |at|
    && (forall i, j | 0 <= i < j < |at| :: at[j] < at[i])
    && (forall i | 0 <= i < |at| :: at[i] < n && ids[i] == order[at[i]])
    && (forall k: nat :: k in at <==> k < n && IsOpen(g, order[k]))
  }

  lemma {:induction false} NewestOpenAt(g: Graph, order: seq<string>, n: nat) returns (at: seq<nat>)
    requires n <= |order|
    ensures OpenAt(g, order, n, NewestOpen(g, order[..n]), at)
  {
    if n == 0 {
      at := [];
    } else {
      var before := NewestOpenAt(g, order, n - 1);
      assert order[..n][..n - 1] == order[..n - 1];
      OpenAtStep(g, order, n - 1, NewestOpen(g, order[..n - 1]), before);
      at := if IsOpen(g, order[n - 1]) then [n - 1] + before else before;
    }
  }

  lemma OpenAtStep(g: Graph, order: seq<string>, n: nat, ids: seq<string>, at: seq<nat>)
    requires n < |order| && OpenAt(g, order, n, ids, at)
    ensures if IsOpen(g, order[n]) then OpenAt(g, order, n + 1, [order[n]] + ids, [n] + at)
            else OpenAt(g, order, n + 1, [] + ids, at)
  {
    assert [] + ids == ids;
    if IsOpen(g, order[n]) { OpenAtMore(g, order, n, ids, at); }
  }

  lemma OpenAtMore(g: Graph, order: seq<string>, n: nat, ids: seq<string>, at: seq<nat>)
    requires n < |order| && OpenAt(g, order, n, ids, at) && IsOpen(g, order[n])
    ensures OpenAt(g, order, n + 1, [order[n]] + ids, [n] + at)
  {
    var ids', at' := [order[n]] + ids, [n] + at;
    forall i | 0 <= i < |at'| ensures at'[i] < n + 1 && ids'[i] == order[at'[i]] {
      if i > 0 { assert at'[i] == at[i - 1] && ids'[i] == ids[i - 1]; }
    }
    forall i, j | 0 <= i < j < |at'| ensures at'[j] < at'[i] {
      assert at'[j] == at[j - 1] && (i > 0 ==> at'[i] == at[i - 1]);
    }
    forall k: nat ensures k in at' <==> k < n + 1 && IsOpen(g, order[k]) {
      assert k in at' <==> k == n || k in at;
    }
  }

  // ---------- The two readers ----------

  method HasIncomingResolves(mem: Memory, idx: nat) returns (found: bool)
    requires Consistent(mem) && idx < |mem.nodes|
    ensures found <==> exists a | 0 <= a < |mem.arcs| :: mem.arcs[a].tgt == idx && mem.arcs[a].edge.edgeType == Resolves
  {
    var a := 0;
    while a < |mem.arcs|
      invariant 0 <= a <= |mem.arcs|
      invariant forall b | 0 <= b < a :: !(mem.arcs[b].tgt == idx && mem.arcs[b].edge.edgeType == Resolves)
    {
      if mem.arcs[a].tgt == idx && mem.arcs[a].edge.edgeType == Resolves { return true; }
      a := a + 1;
    }
    found := false;
  }

  /** An incoming arc of the type Resolves is an edge that resolves the node's id. */
  lemma ArcsResolve(mem: Memory, order: seq<string>, idx: nat)
    requires Consistent(mem) && idx < |mem.nodes|
    ensures Resolved(ViewOf(mem, order), mem.nodes[idx].id)
       <==> exists a | 0 <= a < |mem.arcs| :: mem.arcs[a].tgt == idx && mem.arcs[a].edge.edgeType == Resolves
  {
    var g, id := ViewOf(mem, order), mem.nodes[idx].id;
    if Resolved(g, id) {
      var e :| e in g.edges && g.edges[e].edgeType == Resolves && g.edges[e].target == id;
      var a := mem.idToEdge[e];
      assert Placed(mem, mem.arcs[a]);
      assert mem.idToNode[mem.nodes[mem.arcs[a].tgt].id] == mem.arcs[a].tgt;
    }
    if a :| 0 <= a < |mem.arcs| && mem.arcs[a].tgt == idx && mem.arcs[a].edge.edgeType == Resolves {
      assert Placed(mem, mem.arcs[a]);
      assert g.edges[mem.arcs[a].edge.id] == mem.arcs[a].edge;
    }
  }

  /** The node of an id, if it is an active open item without an incoming Resolves edge. */
  method OpenQuestion(mem: Memory, order: seq<string>, id: string) returns (node: Option<Node>)
    requires Consistent(mem)
    ensures node.Some? <==> IsOpen(ViewOf(mem, order), id)
    ensures node.Some? ==> node.value.id == id && NodeMap(mem)[id] == node.value
  {
    node := None;
    if id in mem.idToNode {
      var idx := mem.idToNode[id];
      if mem.nodes[idx].nodeType == OpenItem && mem.nodes[idx].status == Active {
        var resolved := HasIncomingResolves(mem, idx);
        ArcsResolve(mem, order, idx);
        if !resolved { node := Some(mem.nodes[idx]); }
      }
    }
  }

  lemma IdsSnoc(nodes: seq<Node>, node: Node)
    ensures Ids(nodes + [node]) == Ids(nodes) + [node.id]
  {
  }

  lemma NewestOpenStep(g: Graph, order: seq<string>, i: nat, taken: seq<string>)
    requires i < |order|
    ensures taken + NewestOpen(g, order[..i + 1])
         == (if IsOpen(g, order[i]) then taken + [order[i]] else taken) + NewestOpen(g, order[..i])
  {
    assert order[..i + 1][..i] == order[..i];
  }

  /** The ids are those of the newest open items of the order, up to the limit. */
  ghost predicate AreQuestions(mem: Memory, order: seq<string>, limit: nat, ids: seq<string>)
    requires Consistent(mem)
  {
    var all := NewestOpen(ViewOf(mem, order), order);
    ids == if |all| <= limit then all else all[..limit]
  }

  /** Up to limit open items, newest first. */
  method OpenQuestions(mem: Memory, order: seq<string>, limit: nat) returns (out: seq<Node>)
    requires Consistent(mem)
    ensures AreQuestions(mem, order, limit, Ids(out))
    ensures forall k | 0 <= k < |out| :: out[k].id in NodeMap(mem) && out[k] == NodeMap(mem)[out[k].id]
  {
    ghost var g, known := ViewOf(mem, order), NodeMap(mem);
    ghost var all := NewestOpen(g, order);
    out := [];
    var i := |order|;
    assert order[..i] == order && Ids([]) == [];
    while i > 0 && |out| < limit
      invariant 0 <= i <= |order| && |out| <= limit
      invariant Ids(out) + NewestOpen(g, order[..i]) == all
      invariant forall k | 0 <= k < |out| :: out[k].id in known && out[k] == known[out[k].id]
    {
      i := i - 1;
      NewestOpenStep(g, order, i, Ids(out));
      var node := OpenQuestion(mem, order, order[i]);
      if node.Some? {
        IdsSnoc(out, node.value);
        out := out + [node.value];
      }
    }
    Taken(Ids(out), NewestOpen(g, order[..i]), all, limit);
  }

  lemma Taken(taken: seq<string>, rest: seq<string>, all: seq<string>, limit: nat)
    requires taken + rest == all && |taken| <= limit && (rest == [] || |taken| == limit)
    ensures taken == if |all| <= limit then all else all[..limit]
  {
  }

  method SessionIndex(sessions: seq<string>, session: string) returns (idx: Option<nat>)
    ensures idx.None? <==> session !in sessions
    ensures idx.Some? ==> idx.value < |sessions| && sessions[idx.value] == session && session !in sessions[..idx.value]
  {
    var i := 0;
    while i < |sessions|
      invariant 0 <= i <= |sessions| && session !in sessions[..i]
    {
      if sessions[i] == session { return Some(i); }
      i := i + 1;
    }
    assert sessions[..i] == sessions;
    idx := None;
  }

  /** High when the item was raised in an earlier session than the current one. */
  ghost predicate RaisedEarlier(sessions: seq<string>, session: string, current: nat) {
    exists i: nat | i < |sessions| && i < current :: sessions[i] == session && session !in sessions[..i]
  }

  /** The debt item of one node, if it is an open item that nothing resolves and that is not invalidated. */
  method DebtOf(mem: Memory, idx: nat, sessions: seq<string>, current: nat) returns (item: Option<OpenItemDebt>)
    requires Consistent(mem) && idx < |mem.nodes|
    ensures item.Some? <==> IsOpen(ViewOf(mem, []), mem.nodes[idx].id)
    ensures item.Some? ==> Rated(mem, sessions, current, item.value) && item.value.nodeId == mem.nodes[idx].id
  {
    var node := mem.nodes[idx];
    item := None;
    if node.nodeType == OpenItem && node.status != Invalidated {
      var resolved := HasIncomingResolves(mem, idx);
      ArcsResolve(mem, [], idx);
      if !resolved {
        var position := SessionIndex(sessions, node.sessionId);
        var age := if position.Some? && position.value < current then current - position.value else 0;
        item := Some(OpenItemDebt(node.id, if age >= 1 then High else Medium));
      }
    }
  }

  ghost predicate Rated(mem: Memory, sessions: seq<string>, current: nat, item: OpenItemDebt)
    requires Consistent(mem)
  {
    && item.nodeId in mem.idToNode
    && (item.severity == High <==> RaisedEarlier(sessions, mem.nodes[mem.idToNode[item.nodeId]].sessionId, current))
  }

  /** The items are the open items among the first idx nodes, in node order, each once. */
  ghost predicate DebtsUpTo(mem: Memory, items: seq<OpenItemDebt>, idx: nat)
    requires Consistent(mem) && idx <= |mem.nodes|
  {
    if idx == 0 then items == []
    else if IsOpen(ViewOf(mem, []), mem.nodes[idx - 1].id) then
      items != [] && items[|items| - 1].nodeId == mem.nodes[idx - 1].id && DebtsUpTo(mem, items[..|items| - 1], idx - 1)
    else DebtsUpTo(mem, items, idx - 1)
  }

  lemma {:induction false} DebtsAreOpen(mem: Memory, items: seq<OpenItemDebt>, idx: nat)
    requires Consistent(mem) && idx <= |mem.nodes| && DebtsUpTo(mem, items, idx)
    ensures forall a | 0 <= a < |items| :: items[a].nodeId in mem.idToNode && mem.idToNode[items[a].nodeId] < idx
                                         && IsOpen(ViewOf(mem, []), items[a].nodeId)
    ensures InNodeOrder(mem, items)
  {
    if idx == 0 {
    } else {
      if IsOpen(ViewOf(mem, []), mem.nodes[idx - 1].id) {
        DebtsAreOpen(mem, items[..|items| - 1], idx - 1);
      } else {
        DebtsAreOpen(mem, items, idx - 1);
      }
    }
  }

  lemma {:induction false} OpenIsDebt(mem: Memory, items: seq<OpenItemDebt>, idx: nat, x: nat)
    requires Consistent(mem) && x < idx <= |mem.nodes| && DebtsUpTo(mem, items, idx)
    requires IsOpen(ViewOf(mem, []), mem.nodes[x].id)
    ensures exists t | t in items :: t.nodeId == mem.nodes[x].id
  {
    if x == idx - 1 {
      assert items[|items| - 1] in items;
    } else {
      var rest := if IsOpen(ViewOf(mem, []), mem.nodes[idx - 1].id) then items[..|items| - 1] else items;
      OpenIsDebt(mem, rest, idx - 1, x);
      var t :| t in rest && t.nodeId == mem.nodes[x].id;
      assert t in items;
    }
  }

  ghost predicate IsReported(items: seq<OpenItemDebt>, id: string) { exists t | t in items :: t.nodeId == id }

  /** The items are about exactly the open items, each once. */
  ghost predicate AreDebts(mem: Memory, items: seq<OpenItemDebt>)
    requires Consistent(mem)
  {
    && (forall id :: IsReported(items, id) <==> IsOpen(ViewOf(mem, []), id))
    && (forall a, b | 0 <= a < b < |items| :: items[a].nodeId != items[b].nodeId)
  }

  /** The items come in the order of their nodes. */
  ghost predicate InNodeOrder(mem: Memory, items: seq<OpenItemDebt>) {
    && (forall t | t in items :: t.nodeId in mem.idToNode)
    && (forall a, b | 0 <= a < b < |items| ::
          items[a].nodeId in mem.idToNode && items[b].nodeId in mem.idToNode
          && mem.idToNode[items[a].nodeId] < mem.idToNode[items[b].nodeId])
  }

  /** One item for every unresolved, not invalidated open item, in node order. */
  method OpenItemDebts(mem: Memory, sessions: seq<string>, current: nat) returns (items: seq<OpenItemDebt>)
    requires Consistent(mem)
    ensures AreDebts(mem, items) && InNodeOrder(mem, items)
    ensures forall t | t in items :: Rated(mem, sessions, current, t)
  {
    items := [];
    var idx := 0;
    while idx < |mem.nodes|
      invariant 0 <= idx <= |mem.nodes|
      invariant DebtsUpTo(mem, items, idx)
      invariant forall t | t in items :: Rated(mem, sessions, current, t)
    {
      var item := DebtOf(mem, idx, sessions, current);
      if item.Some? {
        ghost var before := items;
        items := items + [item.value];
        assert items[..|items| - 1] == before;
      }
      idx := idx + 1;
    }
    DebtsAreOpen(mem, items, idx);
    forall id ensures IsReported(items, id) <==> IsOpen(ViewOf(mem, []), id) {
      if IsOpen(ViewOf(mem, []), id) { OpenIsDebt(mem, items, idx, mem.idToNode[id]); }
    }
  }

  // ---------- Agreement ----------

  lemma OrderIsIrrelevant(mem: Memory, order: seq<string>, id: string)
    requires Consistent(mem)
    ensures IsOpen(ViewOf(mem, order), id) <==> IsOpen(ViewOf(mem, []), id)
  {
  }

  /** The order names every open item. */
  ghost predicate NamesOpenItems(g: Graph) { forall id | IsOpen(g, id) :: id in g.order }

  /** The open questions under a sufficient limit and the debt items, as the two readers return them: every question
      is about an item of the debts, and they are about the same items if and only if the order names every open
      item. */
  lemma QuestionsMatchDebt(mem: Memory, order: seq<string>, limit: nat, questions: seq<string>,
                           items: seq<OpenItemDebt>)
    requires Consistent(mem) && limit >= |NewestOpen(ViewOf(mem, order), order)|
    requires AreQuestions(mem, order, limit, questions) && AreDebts(mem, items)
    ensures forall id | id in questions :: IsReported(items, id)
    ensures (forall id :: IsReported(items, id) <==> id in questions) <==> NamesOpenItems(ViewOf(mem, order))
  {
    var g := ViewOf(mem, order);
    NewestOpenFacts(g, order);
    forall id ensures IsReported(items, id) <==> IsOpen(g, id) { OrderIsIrrelevant(mem, order, id); }
  }

  /** In every state reached with successful writes and any number of reopens, the two readers are about the same
      items, each once. */
  lemma QuestionsMatchDebtInRuns(s: State, ops: seq<Op>, bound: nat, mem: Memory, order: seq<string>, limit: nat,
                                 questions: seq<string>, items: seq<OpenItemDebt>)
    requires Synced(s, bound) && bound + |ops| <= INDEX_LIMIT
    requires forall op | op in ops :: Written(op)
    requires Consistent(mem) && ViewOf(mem, order) == Run(s, ops).graph
    requires limit >= |order| && AreQuestions(mem, order, limit, questions) && AreDebts(mem, items)
    ensures NoDup(questions) && forall id :: IsReported(items, id) <==> id in questions
  {
    RestartsAreInvisible(s, ops, bound);
    FewerThanOrder(ViewOf(mem, order), order);
    QuestionsMatchDebt(mem, order, limit, questions, items);
    NewestOpenFacts(ViewOf(mem, order), order);
  }

  lemma {:induction false} FewerThanOrder(g: Graph, order: seq<string>)
    ensures |NewestOpen(g, order)| <= |order|
  {
    if order == [] {
    } else {
      FewerThanOrder(g, order[..|order| - 1]);
    }
  }
}
