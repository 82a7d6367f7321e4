/** What a crash can leave behind: any subsequence of the backend writes may survive. */
module CrashSafety {
  import opened GraphTypes
  import opened OrderKeys
  import opened StoreSpec
  import opened Restarts

  /** a keeps some of the elements of b, in order. */
  ghost predicate Sub<T>(a: seq<T>, b: seq<T>) {
    if a == [] then true
    else b != [] && (Sub(a, b[..|b| - 1]) || (a[|a| - 1] == b[|b| - 1] && Sub(a[..|a| - 1], b[..|b| - 1])))
  }

  /** The ids appended to the order log by the writes. */
  ghost function AppendedIds(ws: seq<Write>): seq<string> {
    if ws == [] then [] else
      var last := ws[|ws| - 1];
      AppendedIds(ws[..|ws| - 1]) + (if last.PutOrder? then [last.id] else [])
  }

  /** Every append uses a key after all keys that are on disk at that point. */
  ghost predicate AppendsInOrder(d: Disk, ws: seq<Write>) {
    ws == [] || (
      var rest, last := ws[..|ws| - 1], ws[|ws| - 1];
      AppendsInOrder(d, rest)
      && (last.PutOrder? ==> forall j | j in ApplyAll(d, rest).order :: Before(j, last.key)))
  }

  /** The writes of a run, in order; a reopen writes nothing once an old order list has been migrated. */
  ghost function RunWrites(s: State, ops: seq<Op>): seq<Write> {
    if ops == [] then [] else
      RunWrites(s, ops[..|ops| - 1]) + Writes(Run(s, ops[..|ops| - 1]), ops[|ops| - 1])
  }

  lemma {:induction false} ApplyConcat(d: Disk, a: seq<Write>, b: seq<Write>)
    ensures ApplyAll(d, a + b) == ApplyAll(ApplyAll(d, a), b)
  {
    if b == [] {
      assert a + b == a;
    } else {
      ApplyConcat(d, a, b[..|b| - 1]);
      assert (a + b)[..|a + b| - 1] == a + b[..|b| - 1];
    }
  }

  lemma {:induction false} InOrderConcat(d: Disk, a: seq<Write>, b: seq<Write>)
    requires AppendsInOrder(d, a) && AppendsInOrder(ApplyAll(d, a), b)
    ensures AppendsInOrder(d, a + b)
  {
    if b == [] {
      assert a + b == a;
    } else {
      InOrderConcat(d, a, b[..|b| - 1]);
      ApplyConcat(d, a, b[..|b| - 1]);
      assert (a + b)[..|a + b| - 1] == a + b[..|b| - 1];
    }
  }

  lemma {:induction false} SubKeys(d: Disk, a: seq<Write>, b: seq<Write>)
    requires Sub(a, b)
    ensures ApplyAll(d, a).order.Keys <= ApplyAll(d, b).order.Keys
  {
    if b == [] {
    } else {
      var front := b[..|b| - 1];
      if Sub(a, front) {
        SubKeys(d, a, front);
      } else if a != [] {
        SubKeys(d, a[..|a| - 1], front);
      }
    }
  }

  /** Whichever appends survive, they load after the old entries and in the order they were written. */
  lemma {:induction false} SurvivorsInOrder(d: Disk, kept: seq<Write>, ws: seq<Write>)
    requires AppendsInOrder(d, ws) && Sub(kept, ws)
    ensures Listing(ApplyAll(d, kept).order) == Listing(d.order) + AppendedIds(kept)
    ensures Sub(AppendedIds(kept), AppendedIds(ws))
    decreases |ws|
  {
    if kept == [] {
    } else {
      var front, last := ws[..|ws| - 1], ws[|ws| - 1];
      if Sub(kept, front) {
        SurvivorsInOrder(d, kept, front);
        if last.PutOrder? {
          SubExtend(AppendedIds(kept), AppendedIds(front), last.id);
        } else {
          assert AppendedIds(ws) == AppendedIds(front);
        }
      } else {
        SurvivorsInOrder(d, kept[..|kept| - 1], front);
        LastSurvives(d, kept[..|kept| - 1], front, last);
        assert kept == kept[..|kept| - 1] + [last] && ws == front + [last];
      }
    }
  }

  lemma LastSurvives(d: Disk, rest: seq<Write>, front: seq<Write>, last: Write)
    requires Sub(rest, front)
    requires last.PutOrder? ==> forall j | j in ApplyAll(d, front).order :: Before(j, last.key)
    requires Listing(ApplyAll(d, rest).order) == Listing(d.order) + AppendedIds(rest)
    requires Sub(AppendedIds(rest), AppendedIds(front))
    ensures Listing(ApplyAll(d, rest + [last]).order) == Listing(d.order) + AppendedIds(rest + [last])
    ensures Sub(AppendedIds(rest + [last]), AppendedIds(front + [last]))
  {
    AppendedIdsSnoc(rest, last);
    AppendedIdsSnoc(front, last);
    ApplySnoc(d, rest, last);
    if last.PutOrder? {
      SubKeys(d, rest, front);
      ListingAppend(ApplyAll(d, rest).order, last.key, last.id);
      Associates(Listing(d.order), AppendedIds(rest), [last.id]);
      SubBoth(AppendedIds(rest), AppendedIds(front), last.id);
    }
  }

  lemma ApplySnoc(d: Disk, ws: seq<Write>, w: Write)
    ensures ApplyAll(d, ws + [w]) == Apply(ApplyAll(d, ws), w)
  {
    assert (ws + [w])[..|ws|] == ws;
  }

  lemma AppendedIdsSnoc(ws: seq<Write>, last: Write)
    ensures AppendedIds(ws + [last]) == if last.PutOrder? then AppendedIds(ws) + [last.id] else AppendedIds(ws)
  {
    assert (ws + [last])[..|ws|] == ws;
  }

  lemma SubExtend<T>(a: seq<T>, b: seq<T>, x: T)
    requires Sub(a, b)
    ensures Sub(a, b + [x])
  {
    assert (b + [x])[..|b|] == b;
  }

  lemma SubBoth<T>(a: seq<T>, b: seq<T>, x: T)
    requires Sub(a, b)
    ensures Sub(a + [x], b + [x])
  {
    assert (b + [x])[..|b|] == b && (a + [x])[..|a|] == a;
  }

  lemma ShortLog(d: Disk, ws: seq<Write>)
    requires |ws| <= 2
    requires |ws| == 1 && ws[0].PutOrder? ==> forall j | j in d.order :: Before(j, ws[0].key)
    requires |ws| == 2 ==> ws[0].PutNode? && ws[1].PutOrder? && forall j | j in d.order :: Before(j, ws[1].key)
    ensures AppendsInOrder(d, ws)
  {
    if |ws| > 0 {
      assert ws[..1] == [ws[0]] && ws[..1][..0] == [];
      ApplyTwo(d, ws[0], ws[0]);
      assert AppendsInOrder(d, []) && AppendsInOrder(d, ws[..1]) by { assert ApplyAll(d, []) == d; }
      if |ws| == 2 { assert ws[..2] == ws; } else { assert ws[..1] == ws; }
    }
  }

  /** One operation appends at most one entry to the order log, after all entries on disk. */
  lemma StepInOrder(s: State, op: Op, bound: nat)
    requires KeysBelow(s.disk.order, bound) && bound < INDEX_LIMIT && !op.Reopen?
    ensures AppendsInOrder(s.disk, Writes(s, op))
    ensures KeysBelow(Step(s, op).disk.order, bound + 1)
    ensures Step(s, op).disk == ApplyAll(s.disk, Writes(s, op))
  {
    NextIndexIsAfter(s.disk.order, bound);
    WritesShape(s, op);
    ShortLog(s.disk, Writes(s, op));
    StepWrites(s, op);
    if op.AddNode? { AddNodeKeys(s, op, bound); } else { OtherKeys(s, op, bound); }
  }

  /** At most one node or edge, then at most one order entry under the next index. */
  lemma WritesShape(s: State, op: Op)
    ensures var ws := Writes(s, op);
      && |ws| <= 2
      && (|ws| == 1 && ws[0].PutOrder? ==> ws[0].key == OrderKey(NextIndex(s.disk.order)))
      && (|ws| == 2 ==> ws[0].PutNode? && ws[1].PutOrder? && ws[1].key == OrderKey(NextIndex(s.disk.order)))
  {
  }

  lemma StepWrites(s: State, op: Op)
    requires !op.Reopen?
    ensures Step(s, op).disk == ApplyAll(s.disk, Writes(s, op))
  {
    if op.Register? { assert ApplyAll(s.disk, []) == s.disk; }
  }

  lemma OtherKeys(s: State, op: Op, bound: nat)
    requires KeysBelow(s.disk.order, bound) && !op.AddNode?
    ensures KeysBelow(ApplyAll(s.disk, Writes(s, op)).order, bound + 1)
  {
    var ws := Writes(s, op);
    if ws == [] {
      assert ApplyAll(s.disk, []) == s.disk;
    } else {
      ApplyTwo(s.disk, ws[0], ws[0]);
      assert ws == [ws[0]];
    }
  }

  lemma AddNodeKeys(s: State, op: Op, bound: nat)
    requires KeysBelow(s.disk.order, bound) && bound < INDEX_LIMIT && op.AddNode?
    ensures KeysBelow(ApplyAll(s.disk, Writes(s, op)).order, bound + 1)
  {
    var put, append := [PutNode(op.node)], OrderWrite(s.disk, op.node.id);
    OrderWritten(s.disk, op.node.id, bound);
    AppendedFacts(s.disk.order, op.node.id, bound);
    ApplyTwo(s.disk, PutNode(op.node), PutNode(op.node));
    if op.node.id !in s.graph.nodes {
      if op.nodeWritten && op.orderWritten {
        assert Writes(s, op) == put + append;
      } else if op.nodeWritten {
        assert Writes(s, op) == put;
      } else if op.orderWritten {
        assert Writes(s, op) == append;
      }
    }
  }

  lemma {:induction false} WritesAreKeyed(d: Disk, ws: seq<Write>)
    requires WellKeyed(d)
    ensures WellKeyed(ApplyAll(d, ws)) && ApplyAll(d, ws).legacy == d.legacy
    ensures d.order.Keys <= ApplyAll(d, ws).order.Keys
  {
    if ws == [] {
    } else {
      WritesAreKeyed(d, ws[..|ws| - 1]);
    }
  }

  /** A disk whose entries sit under their own ids, with no order list left to migrate. */
  ghost predicate Settled(d: Disk) {
    WellKeyed(d) && (d.order == map[] ==> d.legacy == [])
  }

  lemma WritesSettle(d: Disk, ws: seq<Write>)
    requires Settled(d)
    ensures Settled(ApplyAll(d, ws))
  {
    WritesAreKeyed(d, ws);
    if d.order != map[] { assert Last(d.order) in ApplyAll(d, ws).order; }
  }

  /** Every operation, a reopen included, appends after all entries on disk. */
  lemma AnyStepInOrder(s: State, op: Op, bound: nat)
    requires Settled(s.disk) && KeysBelow(s.disk.order, bound) && bound < INDEX_LIMIT
    ensures AppendsInOrder(s.disk, Writes(s, op))
    ensures Settled(Step(s, op).disk) && KeysBelow(Step(s, op).disk.order, bound + 1)
    ensures Step(s, op).disk == ApplyAll(s.disk, Writes(s, op))
  {
    if op.Reopen? {
      assert ApplyAll(s.disk, []) == s.disk;
    } else {
      StepInOrder(s, op, bound);
      WritesSettle(s.disk, Writes(s, op));
    }
  }

  lemma {:induction false} RunInOrder(s: State, ops: seq<Op>, bound: nat)
    requires Settled(s.disk) && KeysBelow(s.disk.order, bound) && bound + |ops| <= INDEX_LIMIT
    ensures AppendsInOrder(s.disk, RunWrites(s, ops))
    ensures Settled(Run(s, ops).disk) && KeysBelow(Run(s, ops).disk.order, bound + |ops|)
    ensures Run(s, ops).disk == ApplyAll(s.disk, RunWrites(s, ops))
  {
    if ops == [] {
    } else {
      var rest, last := ops[..|ops| - 1], ops[|ops| - 1];
      RunInOrder(s, rest, bound);
      AnyStepInOrder(Run(s, rest), last, bound + |rest|);
      ApplyConcat(s.disk, RunWrites(s, rest), Writes(Run(s, rest), last));
      InOrderConcat(s.disk, RunWrites(s, rest), Writes(Run(s, rest), last));
    }
  }

  /** A crash during any run, with reopens and with writes failing or not, that keeps any subsequence of the run's
      backend writes, even later ones without earlier ones: the reopened graph is sound, keeps every surviving node
      and exactly the surviving edges between them, and its insertion order is the old order followed by the
      surviving appends in the order they were made, restricted to surviving nodes. What survives is again a disk
      from which runs and further crashes can start. */
  lemma CrashSafe(s: State, ops: seq<Op>, bound: nat, kept: seq<Write>)
    requires Settled(s.disk) && KeysBelow(s.disk.order, bound) && bound + |ops| <= INDEX_LIMIT
    requires Sub(kept, RunWrites(s, ops))
    ensures var d := ApplyAll(s.disk, kept);
      && Sound(Open(d).graph) && Open(d).graph.nodes == d.nodes && KeepsEdges(d, Open(d).graph.edges)
      && Open(d).graph.order == Filter(Listing(s.disk.order) + AppendedIds(kept), d.nodes.Keys)
      && Sub(AppendedIds(kept), AppendedIds(RunWrites(s, ops)))
    ensures var d := ApplyAll(s.disk, kept);
      Settled(d) && KeysBelow(d.order, bound + |ops|)
  {
    var d := ApplyAll(s.disk, kept);
    RunInOrder(s, ops, bound);
    SubKeys(s.disk, kept, RunWrites(s, ops));
    SurvivorsInOrder(s.disk, kept, RunWrites(s, ops));
    WritesSettle(s.disk, kept);
    LoadIsSound(d);
    assert LoadOrder(d) == Listing(d.order) by {
      WritesAreKeyed(s.disk, kept);
      if s.disk.order != map[] { assert Last(s.disk.order) in d.order; }
    }
  }

  /** Exactly the stored edges between stored nodes. */
  ghost predicate KeepsEdges(d: Disk, edges: map<string, Edge>) {
    && (forall id | id in edges :: id in d.edges && edges[id] == d.edges[id])
    && (forall id | id in d.edges :: id in edges <==> d.edges[id].source in d.nodes && d.edges[id].target in d.nodes)
  }

  /** Migrating an old database keeps the insertion order, and happens once. */
  lemma MigrationKeepsOrder(d: Disk)
    requires |d.legacy| <= INDEX_LIMIT
    ensures LoadOrder(Migrate(d)) == LoadOrder(d)
    ensures Load(Migrate(d)) == Load(d)
    ensures Migrate(Migrate(d)) == Migrate(d)
  {
    EnumeratedFacts(d.legacy);
    if d.legacy != [] { assert OrderKey(|d.legacy| - 1) in Enumerated(d.legacy); }
  }
}
