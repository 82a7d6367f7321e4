/** The adjacency rows, degrees and total weight that community detection starts from. */
module AdjacencyBuild {
  import opened GraphTypes
  import opened RealSums
  import opened Modularity
  import opened EdgeWeights

  /** An adjacency row before parallel edges are merged. */
  ghost predicate RawRow(s: seq<Entry>, n: nat, arcs: seq<Arc>, i: nat) {
    && (forall e | e in s :: e.0 < n && e.1 > 0.0)
    && (forall j: int :: SumKey(s, j) == PairWeight(arcs, i, j))
  }

  lemma SumKeyAppend(s: seq<Entry>, e: Entry, j: int)
    ensures SumKey(s + [e], j) == SumKey(s, j) + (if e.0 == j then e.1 else 0.0)
  {
    assert (s + [e])[..|s|] == s;
  }

  lemma {:induction false} SumKeyPositive(s: seq<Entry>, j: int)
    requires forall e | e in s :: e.1 > 0.0
    ensures if HasKey(s, j) then SumKey(s, j) > 0.0 else SumKey(s, j) == 0.0
  {
    if s == [] {
    } else {
      var rest, last := s[..|s| - 1], s[|s| - 1];
      SumKeyPositive(rest, j);
      assert s == rest + [last] && last in s;
      if HasKey(s, j) { var e :| e in s && e.0 == j; assert e in rest || e == last; }
    }
  }

  lemma PairWeightAppend(arcs: seq<Arc>, a: Arc, i: int, j: int)
    ensures PairWeight(arcs + [a], i, j)
         == PairWeight(arcs, i, j) + (if Joins(a, i, j) then a.edge.edgeType.CommunityWeight() else 0.0)
  {
    assert (arcs + [a])[..|arcs|] == arcs;
  }

  lemma RawRowsStep(before: seq<seq<Entry>>, after: seq<seq<Entry>>, n: nat, arcs: seq<Arc>, a: Arc)
    requires |before| == |after| == n && a.src < n && a.tgt < n
    requires forall i | 0 <= i < n :: RawRow(before[i], n, arcs, i)
    requires a.src == a.tgt ==> after == before
    requires a.src != a.tgt ==>
      after == before[a.src := before[a.src] + [(a.tgt, a.edge.edgeType.CommunityWeight())]]
                     [a.tgt := before[a.tgt] + [(a.src, a.edge.edgeType.CommunityWeight())]]
    ensures forall i | 0 <= i < n :: RawRow(after[i], n, arcs + [a], i)
  {
    forall i | 0 <= i < n ensures RawRow(after[i], n, arcs + [a], i) {
      forall j: int ensures SumKey(after[i], j) == PairWeight(arcs + [a], i, j) {
        PairWeightAppend(arcs, a, i, j);
        if a.src != a.tgt && i == a.src {
          SumKeyAppend(before[i], (a.tgt, a.edge.edgeType.CommunityWeight()), j);
        } else if a.src != a.tgt && i == a.tgt {
          SumKeyAppend(before[i], (a.src, a.edge.edgeType.CommunityWeight()), j);
        }
      }
    }
  }

  method BuildRaw(n: nat, arcs: seq<Arc>) returns (raw: array<seq<Entry>>)
    requires forall a | a in arcs :: a.src < n && a.tgt < n
    ensures fresh(raw) && raw.Length == n
    ensures forall i | 0 <= i < n :: RawRow(raw[i], n, arcs, i)
  {
    raw := new seq<Entry>[n](_ => []);
    var t := 0;
    while t < |arcs|
      invariant 0 <= t <= |arcs|
      invariant forall i | 0 <= i < n :: RawRow(raw[i], n, arcs[..t], i)
    {
      var a := arcs[t];
      ghost var before := raw[..];
      if a.src != a.tgt {
        var w := a.edge.edgeType.CommunityWeight();
        raw[a.src] := raw[a.src] + [(a.tgt, w)];
        raw[a.tgt] := raw[a.tgt] + [(a.src, w)];
      }
      RawRowsStep(before, raw[..], n, arcs[..t], a);
      assert arcs[..t + 1] == arcs[..t] + [a];
      t := t + 1;
      assert forall i | 0 <= i < n :: raw[i] == raw[..][i];
    }
    assert arcs[..t] == arcs;
  }

  /** The entries of a map in arbitrary order. */
  method Drain(m: map<nat, real>) returns (s: seq<Entry>)
    ensures forall a, b | 0 <= a < b < |s| :: s[a].0 != s[b].0
    ensures forall e | e in s :: e.0 in m && m[e.0] == e.1
    ensures forall j | j in m :: HasKey(s, j)
  {
    s := [];
    var rest := m.Keys;
    while rest != {}
      invariant rest <= m.Keys
      invariant forall a, b | 0 <= a < b < |s| :: s[a].0 != s[b].0
      invariant forall e | e in s :: e.0 in m && e.0 !in rest && m[e.0] == e.1
      invariant forall j | j in m && j !in rest :: HasKey(s, j)
      decreases rest
    {
      var j :| j in rest;
      rest := rest - {j};
      ghost var before := s;
      s := s + [(j, m[j])];
      assert (j, m[j]) in s;
      forall x | x in m && x !in rest ensures HasKey(s, x) {
        if x != j { var e :| e in before && e.0 == x; assert e in s; }
      }
    }
  }

  /** Parallel edges merged by summing their weights. */
  method Merge(raw: seq<Entry>, n: nat, ghost arcs: seq<Arc>, ghost i: nat) returns (row: seq<Entry>)
    requires RawRow(raw, n, arcs, i)
    ensures Row(row, n, Weights(arcs), i)
  {
    var m: map<nat, real> := map[];
    var t := 0;
    while t < |raw|
      invariant 0 <= t <= |raw|
      invariant forall j | j in m :: HasKey(raw[..t], j) && m[j] == SumKey(raw[..t], j)
      invariant forall j | HasKey(raw[..t], j) :: j in m
    {
      var e := raw[t];
      assert raw[..t + 1] == raw[..t] + [e];
      forall j: int
        ensures SumKey(raw[..t + 1], j) == SumKey(raw[..t], j) + (if e.0 == j then e.1 else 0.0)
        ensures HasKey(raw[..t + 1], j) <==> HasKey(raw[..t], j) || j == e.0
      {
        SumKeyAppend(raw[..t], e, j);
        assert e in raw[..t + 1];
        if HasKey(raw[..t], j) { var f :| f in raw[..t] && f.0 == j; assert f in raw[..t + 1]; }
      }
      SumKeyPositive(raw[..t], e.0);
      m := m[e.0 := (if e.0 in m then m[e.0] else 0.0) + e.1];
      t := t + 1;
    }
    assert raw[..t] == raw;
    row := Drain(m);
    forall j: int ensures if HasKey(raw, j) then SumKey(raw, j) > 0.0 else SumKey(raw, j) == 0.0 {
      SumKeyPositive(raw, j);
    }
    forall j: int | 0 <= j < n && !HasKey(row, j) ensures Weights(arcs)(i, j) == 0.0 {
      assert HasKey(raw, j) ==> j in m;
    }
  }

  method BuildAdjacency(n: nat, arcs: seq<Arc>) returns (adj: seq<seq<Entry>>)
    requires forall a | a in arcs :: a.src < n && a.tgt < n
    ensures Adjacency(adj, n, Weights(arcs))
  {
    var raw := BuildRaw(n, arcs);
    adj := [];
    var i := 0;
    while i < n
      invariant 0 <= i <= n && |adj| == i
      invariant forall x | 0 <= x < n :: RawRow(raw[x], n, arcs, x)
      invariant forall x | 0 <= x < i :: Row(adj[x], n, Weights(arcs), x)
    {
      var row := Merge(raw[i], n, arcs, i);
      adj := adj + [row];
      i := i + 1;
    }
  }

  /** The sum of one row's weights. */
  method RowTotal(row: seq<Entry>, n: nat, ghost w: (int, int) -> real, ghost i: nat) returns (total: real)
    requires Row(row, n, w, i)
    ensures total == Degree(n, w, i)
  {
    ghost var g := (j: int) => w(i, j);
    total := 0.0;
    var t := 0;
    while t < |row|
      invariant 0 <= t <= |row|
      invariant total == Fold(row[..t], g)
    {
      assert row[..t + 1][..t] == row[..t];
      total := total + row[t].1;
      t := t + 1;
    }
    assert row[..t] == row;
    FoldIsSum(row, n, g);
  }

  method Degrees(adj: seq<seq<Entry>>, n: nat, ghost w: (int, int) -> real) returns (degrees: seq<real>, m: real)
    requires Adjacency(adj, n, w)
    ensures |degrees| == n && forall i | 0 <= i < n :: degrees[i] == Degree(n, w, i)
    ensures m == Volume(n, w) / 2.0
  {
    ghost var g := (i: int) => Degree(n, w, i);
    degrees := [];
    var total := 0.0;
    var i := 0;
    while i < n
      invariant 0 <= i <= n && |degrees| == i
      invariant forall x | 0 <= x < i :: degrees[x] == Degree(n, w, x)
      invariant total == Sum(i, g)
    {
      var d := RowTotal(adj[i], n, w, i);
      degrees := degrees + [d];
      total := total + d;
      i := i + 1;
    }
    m := total / 2.0;
  }
}
