/** The persistent key-value backend: one tree per kind of record, kept sorted by key bytes. */
module Backend {
  import opened GraphTypes
  import opened OrderKeys
  import opened StoreSpec
  import opened Restarts

  class DbBackend {
    var nodes: map<string, Node>
    var edges: map<string, Edge>
    var order: map<Key, string>
    var legacy: seq<string>

    ghost function Contents(): Disk
      reads this
    {
      Disk(nodes, edges, order, legacy)
    }

    constructor Open(nodes: map<string, Node>, edges: map<string, Edge>, order: map<Key, string>, legacy: seq<string>)
      ensures Contents() == Disk(nodes, edges, order, legacy)
    {
      this.nodes, this.edges, this.order, this.legacy := nodes, edges, order, legacy;
    }

    method StoreNode(node: Node, ok: bool)
      modifies this
      ensures Contents() == ApplyAll(old(Contents()), if ok then [PutNode(node)] else [])
    {
      ApplyTwo(Contents(), PutNode(node), PutNode(node));
      if ok { nodes := nodes[node.id := node]; }
    }

    method StoreEdge(edge: Edge, ok: bool)
      modifies this
      ensures Contents() == ApplyAll(old(Contents()), if ok then [PutEdge(edge)] else [])
    {
      ApplyTwo(Contents(), PutEdge(edge), PutEdge(edge));
      if ok { edges := edges[edge.id := edge]; }
    }

    /** The greatest key of a tree. */
    static method LastKey(tree: map<Key, string>) returns (key: Option<Key>)
      ensures key == if tree == map[] then None else Some(Last(tree))
    {
      if tree == map[] { return None; }
      LastExists(tree);
      var k :| k in tree.Keys && forall j | j in tree.Keys :: j == k || Before(j, k);
      LastUnique(tree, k, Last(tree));
      key := Some(k);
    }

    /** Appends a node id under the index after the last one. */
    method AppendNodeOrder(id: string, ok: bool)
      modifies this
      ensures Contents() == ApplyAll(old(Contents()), if ok then OrderWrite(old(Contents()), id) else [])
    {
      ghost var d := Contents();
      var last := LastKey(order);
      var index: nat := 0;
      match last {
        case None =>
        case Some(key) =>
          if |key| != KeyLength() { return; }
          index := (FromBigEndian(key) + 1) % INDEX_LIMIT;
      }
      ApplyTwo(d, PutOrder(OrderKey(index), id), PutOrder(OrderKey(index), id));
      if ok { AppendNodeOrderAt(index, id); }
    }

    method AppendNodeOrderAt(index: nat, id: string)
      modifies this`order
      ensures order == PutAt(old(order), index, id)
    {
      order := order[OrderKey(index) := id];
    }

    /** All stored nodes, in some order. */
    method LoadAllNodes() returns (all: seq<Node>)
      requires WellKeyed(Contents())
      ensures forall a, b | 0 <= a < b < |all| :: all[a].id != all[b].id
      ensures forall a | 0 <= a < |all| :: all[a].id in nodes && nodes[all[a].id] == all[a]
      ensures forall id | id in nodes :: exists a | 0 <= a < |all| :: all[a].id == id
    {
      all := [];
      var rest := nodes.Keys;
      while rest != {}
        invariant rest <= nodes.Keys
        invariant forall a, b | 0 <= a < b < |all| :: all[a].id != all[b].id
        invariant forall a | 0 <= a < |all| :: all[a].id in nodes && all[a].id !in rest && nodes[all[a].id] == all[a]
        invariant forall id | id in nodes && id !in rest :: exists a | 0 <= a < |all| :: all[a].id == id
        decreases rest
      {
        var id :| id in rest;
        rest := rest - {id};
        ghost var before := all;
        all := all + [nodes[id]];
        forall x | x in nodes && x !in rest ensures exists a | 0 <= a < |all| :: all[a].id == x {
          if x == id { assert all[|before|].id == x; } else {
            var a :| 0 <= a < |before| && before[a].id == x;
            assert all[a].id == x;
          }
        }
      }
    }

    /** All stored edges, in some order. */
    method LoadAllEdges() returns (all: seq<Edge>)
      requires WellKeyed(Contents())
      ensures forall a, b | 0 <= a < b < |all| :: all[a].id != all[b].id
      ensures forall a | 0 <= a < |all| :: all[a].id in edges && edges[all[a].id] == all[a]
      ensures forall id | id in edges :: exists a | 0 <= a < |all| :: all[a].id == id
    {
      all := [];
      var rest := edges.Keys;
      while rest != {}
        invariant rest <= edges.Keys
        invariant forall a, b | 0 <= a < b < |all| :: all[a].id != all[b].id
        invariant forall a | 0 <= a < |all| :: all[a].id in edges && all[a].id !in rest && edges[all[a].id] == all[a]
        invariant forall id | id in edges && id !in rest :: exists a | 0 <= a < |all| :: all[a].id == id
        decreases rest
      {
        var id :| id in rest;
        rest := rest - {id};
        ghost var before := all;
        all := all + [edges[id]];
        forall x | x in edges && x !in rest ensures exists a | 0 <= a < |all| :: all[a].id == x {
          if x == id { assert all[|before|].id == x; } else {
            var a :| 0 <= a < |before| && before[a].id == x;
            assert all[a].id == x;
          }
        }
      }
    }

    /** The values of a tree in key order. */
    static method ListTree(tree: map<Key, string>) returns (ids: seq<string>)
      ensures ids == Listing(tree)
    {
      ids := [];
      var rest := tree;
      while rest != map[]
        invariant Listing(tree) == Listing(rest) + ids
        decreases |rest|
      {
        var key := LastKey(rest);
        assert Listing(rest) == Listing(rest - {key.value}) + [rest[key.value]];
        ids := [rest[key.value]] + ids;
        rest := rest - {key.value};
      }
      assert [] + ids == ids;
    }

    /** The node ids in insertion order; an old single-blob order is moved into the order tree. */
    method LoadNodeOrder() returns (ids: seq<string>)
      modifies this
      ensures ids == LoadOrder(old(Contents()))
      ensures Contents() == Migrate(old(Contents()))
    {
      if order != map[] {
        ids := ListTree(order);
        return;
      }
      ids := legacy;
      if legacy != [] {
        MigrateOrder(ids);
        legacy := [];
      }
    }

    method MigrateOrder(ids: seq<string>)
      requires order == map[]
      modifies this`order
      ensures order == Enumerated(ids)
    {
      var i := 0;
      while i < |ids|
        invariant 0 <= i <= |ids|
        invariant order == Enumerated(ids[..i])
      {
        AppendNodeOrderAt(i, ids[i]);
        assert ids[..i + 1][..i] == ids[..i];
        i := i + 1;
      }
      assert ids[..i] == ids;
    }
  }
}
