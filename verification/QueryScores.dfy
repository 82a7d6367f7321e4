/** Keyword scores of the nodes of a subgraph, and the up to three best that a query starts from. */
module QueryScores {
  import opened GraphTypes
  import opened StoreIndex
  import opened StableSort

  // ---------- Scores and seeds ----------

  function Count(tokens: seq<string>, term: string): nat { multiset(tokens)[term] }

  function ScoreOf(terms: seq<string>, tokens: seq<string>): nat {
    if terms == [] then 0 else ScoreOf(terms[..|terms| - 1], tokens) + Count(tokens, terms[|terms| - 1])
  }

  type Scored = (string, nat)

  function Scores(nodes: seq<Node>, terms: seq<string>, tokenize: string -> seq<string>): (r: seq<Scored>)
    ensures |r| == |nodes|
  {
    seq(|nodes|, i requires 0 <= i < |nodes| => (nodes[i].id, ScoreOf(terms, tokenize(Text(nodes[i])))))
  }

  function Descending(): Scored -> int { (s: Scored) => -(s.1 as int) }

  function Positive(ranked: seq<Scored>): seq<string> {
    if ranked == [] then [] else
      Positive(ranked[..|ranked| - 1]) + (if ranked[|ranked| - 1].1 > 0 then [ranked[|ranked| - 1].0] else [])
  }

  function Take(s: seq<string>, n: nat): seq<string> { if |s| <= n then s else s[..n] }

  lemma {:induction false} PositiveFacts(ranked: seq<Scored>)
    ensures forall id :: id in Positive(ranked) <==> exists s | s in ranked :: s.1 > 0 && s.0 == id
  {
    if ranked == [] {
    } else {
      var front, last := ranked[..|ranked| - 1], ranked[|ranked| - 1];
      PositiveFacts(front);
      assert ranked == front + [last];
      forall id ensures id in Positive(ranked) <==> exists s | s in ranked :: s.1 > 0 && s.0 == id {
        if id in Positive(front) { var s :| s in front && s.1 > 0 && s.0 == id; assert s in ranked; }
        if last.1 > 0 && last.0 == id { assert last in ranked; }
      }
    }
  }

  // ---------- What the score counts ----------

  /** The pairs of a position in the question and one in the text with the same token. */
  ghost function Pairs(terms: seq<string>, tokens: seq<string>): set<(nat, nat)> {
    set i: nat, j: nat | i < |terms| && j < |tokens| && terms[i] == tokens[j] :: (i, j)
  }

  ghost function PairsAt(k: nat, t: string, tokens: seq<string>): set<(nat, nat)> {
    set j: nat | j < |tokens| && tokens[j] == t :: (k, j)
  }

  lemma {:induction false} CountIsPairs(k: nat, t: string, tokens: seq<string>)
    ensures |PairsAt(k, t, tokens)| == Count(tokens, t)
  {
    if tokens == [] {
      assert PairsAt(k, t, tokens) == {};
    } else {
      var front, n := tokens[..|tokens| - 1], |tokens| - 1;
      CountIsPairs(k, t, front);
      assert tokens == front + [tokens[n]];
      assert PairsAt(k, t, tokens) == PairsAt(k, t, front) + (if tokens[n] == t then {(k, n)} else {});
    }
  }

  /** The score is the number of those pairs. */
  lemma {:induction false} ScoreIsPairs(terms: seq<string>, tokens: seq<string>)
    ensures ScoreOf(terms, tokens) == |Pairs(terms, tokens)|
  {
    if terms == [] {
      assert Pairs(terms, tokens) == {};
    } else {
      var front, n := terms[..|terms| - 1], |terms| - 1;
      ScoreIsPairs(front, tokens);
      CountIsPairs(n, terms[n], tokens);
      assert Pairs(terms, tokens) == Pairs(front, tokens) + PairsAt(n, terms[n], tokens);
    }
  }

  // ---------- Ranking ----------

  /** In a ranking by descending score, the positive ones come first. */
  lemma {:induction false} PositiveIsPrefix(ranked: seq<Scored>)
    requires Sorted(ranked, Descending())
    ensures IsPositivePrefix(ranked, Positive(ranked))
  {
    if ranked == [] {
    } else {
      var front, last := ranked[..|ranked| - 1], ranked[|ranked| - 1];
      PositiveIsPrefix(front);
      if last.1 > 0 {
        AllPositive(ranked);
        PrefixGrows(front, last, Positive(front));
        assert ranked == front + [last];
      }
    }
  }

  ghost predicate IsPositivePrefix(ranked: seq<Scored>, ids: seq<string>) {
    && |ids| <= |ranked|
    && (forall i | 0 <= i < |ids| :: ids[i] == ranked[i].0 && ranked[i].1 > 0)
    && (forall i | |ids| <= i < |ranked| :: ranked[i].1 == 0)
    && (|ids| < |ranked| ==> ranked[|ids|].1 == 0)
  }

  lemma PrefixGrows(front: seq<Scored>, last: Scored, ids: seq<string>)
    requires IsPositivePrefix(front, ids) && last.1 > 0 && forall i | 0 <= i < |front| :: (front + [last])[i].1 > 0
    ensures IsPositivePrefix(front + [last], ids + [last.0])
  {
    assert forall i | 0 <= i < |front| :: front[i] == (front + [last])[i] && front[i].1 > 0;
    assert |ids| == |front|;
  }

  lemma AllPositive(ranked: seq<Scored>)
    requires Sorted(ranked, Descending()) && ranked != [] && ranked[|ranked| - 1].1 > 0
    ensures forall i | 0 <= i < |ranked| :: ranked[i].1 > 0
  {
    var k := |ranked| - 1;
    forall i | 0 <= i < k ensures ranked[i].1 > 0 {
      assert Descending()(ranked[i]) <= Descending()(ranked[k]);
    }
  }

  /** The seeds are the best scored nodes: at most three, all positive, none beaten by a node left out, and among
      equals those that come first. */
  ghost predicate BestThree(scores: seq<Scored>, seeds: seq<string>) {
    exists ranked: seq<Scored> :: Leads(ranked, scores, seeds)
  }

  /** The seeds lead a ranking of the scores in which equal scores keep their order. */
  ghost predicate Leads(ranked: seq<Scored>, scores: seq<Scored>, seeds: seq<string>) {
    && (forall k: int :: WithKey(ranked, Descending(), k) == WithKey(scores, Descending(), k))
    && (forall i, j | 0 <= i < j < |ranked| :: ranked[j].1 <= ranked[i].1)
    && multiset(ranked) == multiset(scores) && |seeds| <= 3 && |seeds| <= |ranked|
    && (forall i | 0 <= i < |seeds| :: seeds[i] == ranked[i].0 && ranked[i].1 > 0)
    && (|seeds| < 3 ==> forall j | |seeds| <= j < |ranked| :: ranked[j].1 == 0)
  }

  lemma TakenLead(ranked: seq<Scored>, scores: seq<Scored>, positive: seq<string>)
    requires Sorted(ranked, Descending()) && multiset(ranked) == multiset(scores)
    requires positive == Positive(ranked)
    requires forall k: int :: WithKey(ranked, Descending(), k) == WithKey(scores, Descending(), k)
    ensures Leads(ranked, scores, Take(positive, 3))
  {
    PositiveIsPrefix(ranked);
    forall i, j | 0 <= i < j < |ranked| ensures ranked[j].1 <= ranked[i].1 {
      assert Descending()(ranked[i]) <= Descending()(ranked[j]);
    }
  }

  lemma TakenAreBest(scores: seq<Scored>)
    ensures BestThree(scores, Take(Positive(Sort(scores, Descending())), 3))
  {
    SortFacts(scores, Descending());
    TakenLead(Sort(scores, Descending()), scores, Positive(Sort(scores, Descending())));
  }

  function Ids(scored: seq<Scored>): seq<string> {
    seq(|scored|, i requires 0 <= i < |scored| => scored[i].0)
  }

  lemma NothingPositive(scores: seq<Scored>)
    requires Take(Positive(Sort(scores, Descending())), 3) == []
    ensures Sort(scores, Descending()) == scores
  {
    SortFacts(scores, Descending());
    var ranked := Sort(scores, Descending());
    PositiveIsPrefix(ranked);
    forall i | 0 <= i < |scores| ensures scores[i].1 == 0 {
      SortMembers(scores, Descending());
      assert scores[i] in ranked;
    }
    SortOfEqualKeys(scores, Descending());
  }

  lemma SeedsAreNodes(nodes: seq<Node>, terms: seq<string>, tokenize: string -> seq<string>, s: string)
    requires s in Take(Positive(Sort(Scores(nodes, terms, tokenize), Descending())), 3)
    ensures exists n | n in nodes :: n.id == s
  {
    var scores := Scores(nodes, terms, tokenize);
    var ranked := Sort(scores, Descending());
    PositiveFacts(ranked);
    SortMembers(scores, Descending());
    assert s in Positive(ranked);
    var e :| e in ranked && e.1 > 0 && e.0 == s;
    assert e in scores;
    var i :| 0 <= i < |scores| && scores[i] == e;
    assert nodes[i] in nodes;
  }

  // ---------- The best, by position ----------

  /** How often tokens of the question occur in the node's title and description. */
  ghost function Matches(node: Node, terms: seq<string>, tokenize: string -> seq<string>): nat {
    |Pairs(terms, tokenize(node.title + " " + node.description))|
  }

  /** Node p comes before node k: with more matches, or with as many and an earlier position. */
  ghost predicate Better(m: nat -> nat, p: nat, k: nat) { m(p) > m(k) || (m(p) == m(k) && p < k) }

  ghost function MatchesAt(nodes: seq<Node>, terms: seq<string>, tokenize: string -> seq<string>): nat -> nat {
    (p: nat) => if p < |nodes| then Matches(nodes[p], terms, tokenize) else 0
  }

  /** At most three positions, best first, all with a match; no position left out is better, and with fewer than
      three no position left out has a match. */
  ghost predicate AreBest(n: nat, m: nat -> nat, chosen: seq<nat>) {
    && |chosen| <= 3
    && (forall i | 0 <= i < |chosen| :: chosen[i] < n && m(chosen[i]) > 0)
    && (forall i, j | 0 <= i < j < |chosen| :: Better(m, chosen[i], chosen[j]))
    && (forall i, k: nat | 0 <= i < |chosen| && k < n && k !in chosen :: Better(m, chosen[i], k))
    && (|chosen| < 3 ==> forall k: nat | k < n && k !in chosen :: m(k) == 0)
  }

  ghost function Numbers(n: nat): seq<nat> { seq(n, i requires 0 <= i < n => i) }

  ghost function ScoredAt(scores: seq<Scored>): nat -> Scored {
    (p: nat) => if p < |scores| then scores[p] else ("", 0)
  }

  ghost function Falling(m: nat -> nat): nat -> int { (p: nat) => -(m(p) as int) }

  /** The stable ranking, by position. */
  ghost function RankedPositions(nodes: seq<Node>, terms: seq<string>, tokenize: string -> seq<string>): seq<nat> {
    Sort(Numbers(|nodes|), Falling(MatchesAt(nodes, terms, tokenize)))
  }

  lemma ScoresAreMatches(nodes: seq<Node>, terms: seq<string>, tokenize: string -> seq<string>, p: nat)
    requires p < |nodes|
    ensures Scores(nodes, terms, tokenize)[p] == (nodes[p].id, MatchesAt(nodes, terms, tokenize)(p))
  {
    ScoreIsPairs(terms, tokenize(Text(nodes[p])));
  }

  lemma RankedByPosition(nodes: seq<Node>, terms: seq<string>, tokenize: string -> seq<string>)
    ensures var scores := Scores(nodes, terms, tokenize);
      Map(RankedPositions(nodes, terms, tokenize), ScoredAt(scores)) == Sort(scores, Descending())
  {
    var scores, numbers := Scores(nodes, terms, tokenize), Numbers(|nodes|);
    var key := Falling(MatchesAt(nodes, terms, tokenize));
    forall p: nat | p in numbers ensures Agrees(p, ScoredAt(scores), key, Descending()) {
      ScoresAreMatches(nodes, terms, tokenize, p);
    }
    SortMaps(numbers, ScoredAt(scores), key, Descending());
    assert Map(numbers, ScoredAt(scores)) == scores;
  }

  /** Every position is ranked once, the better ones first. */
  lemma RankedFacts(nodes: seq<Node>, terms: seq<string>, tokenize: string -> seq<string>)
    ensures var ranked, m := RankedPositions(nodes, terms, tokenize), MatchesAt(nodes, terms, tokenize);
      |ranked| == |nodes| && RanksAll(|nodes|, m, ranked)
  {
    var m, numbers := MatchesAt(nodes, terms, tokenize), Numbers(|nodes|);
    SortInOrder(numbers, Falling(m));
    SortMembers(numbers, Falling(m));
    forall k: nat ensures k in numbers <==> k < |nodes| {
      if k < |nodes| { assert numbers[k] == k; }
    }
  }

  /** The ranking of the scores and that of the positions go together. */
  ghost predicate Together(nodes: seq<Node>, m: nat -> nat, ranked: seq<Scored>, positions: seq<nat>) {
    && |ranked| == |positions|
    && forall i | 0 <= i < |ranked| :: positions[i] < |nodes| && ranked[i] == (nodes[positions[i]].id, m(positions[i]))
  }

  lemma RankingsTogether(nodes: seq<Node>, terms: seq<string>, tokenize: string -> seq<string>)
    ensures Together(nodes, MatchesAt(nodes, terms, tokenize), Sort(Scores(nodes, terms, tokenize), Descending()),
                     RankedPositions(nodes, terms, tokenize))
  {
    var scores, positions := Scores(nodes, terms, tokenize), RankedPositions(nodes, terms, tokenize);
    var m := MatchesAt(nodes, terms, tokenize);
    RankedByPosition(nodes, terms, tokenize);
    RankedFacts(nodes, terms, tokenize);
    forall i | 0 <= i < |positions|
      ensures positions[i] < |nodes| && ScoredAt(scores)(positions[i]) == (nodes[positions[i]].id, m(positions[i]))
    {
      assert positions[i] in positions;
      ScoresAreMatches(nodes, terms, tokenize, positions[i]);
    }
  }

  /** The seeds are the ids at the best positions. */
  lemma SeedsAreBest(nodes: seq<Node>, terms: seq<string>, tokenize: string -> seq<string>, seeds: seq<string>)
    returns (chosen: seq<nat>)
    requires seeds == Take(Positive(Sort(Scores(nodes, terms, tokenize), Descending())), 3)
    ensures AreBest(|nodes|, MatchesAt(nodes, terms, tokenize), chosen)
    ensures SeedsAt(nodes, chosen, seeds)
  {
    var ranked := Sort(Scores(nodes, terms, tokenize), Descending());
    var positions := RankedPositions(nodes, terms, tokenize);
    RankingsTogether(nodes, terms, tokenize);
    RankedFacts(nodes, terms, tokenize);
    SortFacts(Scores(nodes, terms, tokenize), Descending());
    PositiveIsPrefix(ranked);
    chosen := TakenPositions(nodes, MatchesAt(nodes, terms, tokenize), ranked, positions, Positive(ranked));
  }

  /** The seeds are the ids of the nodes at the chosen positions. */
  ghost predicate SeedsAt(nodes: seq<Node>, chosen: seq<nat>, seeds: seq<string>) {
    |seeds| == |chosen| && forall i | 0 <= i < |seeds| :: chosen[i] < |nodes| && seeds[i] == nodes[chosen[i]].id
  }

  ghost predicate RanksAll(n: nat, m: nat -> nat, positions: seq<nat>) {
    && (forall p: nat :: p in positions <==> p < n)
    && (forall i, j | 0 <= i < j < |positions| :: Better(m, positions[i], positions[j]))
  }

  lemma TakenPositions(nodes: seq<Node>, m: nat -> nat, ranked: seq<Scored>, positions: seq<nat>, ids: seq<string>)
    returns (chosen: seq<nat>)
    requires Together(nodes, m, ranked, positions) && RanksAll(|nodes|, m, positions) && IsPositivePrefix(ranked, ids)
    ensures AreBest(|nodes|, m, chosen) && SeedsAt(nodes, chosen, Take(ids, 3))
  {
    var k := |Take(ids, 3)|;
    chosen := positions[..k];
    forall i | 0 <= i < k ensures m(positions[i]) > 0 { assert ranked[i].1 > 0; }
    if k < 3 {
      forall i | k <= i < |positions| ensures m(positions[i]) == 0 { assert ranked[i].1 == 0; }
    }
    PrefixIsBest(|nodes|, m, positions, k);
    forall i | 0 <= i < k ensures chosen[i] < |nodes| && Take(ids, 3)[i] == nodes[chosen[i]].id {
      assert ids[i] == ranked[i].0;
    }
  }

  /** A beginning of a ranking of all positions, cut after the last match or after three. */
  lemma PrefixIsBest(n: nat, m: nat -> nat, positions: seq<nat>, k: nat)
    requires k <= 3 && k <= |positions| && RanksAll(n, m, positions)
    requires forall i | 0 <= i < k :: m(positions[i]) > 0
    requires k < 3 ==> forall i | k <= i < |positions| :: m(positions[i]) == 0
    ensures AreBest(n, m, positions[..k])
  {
    var chosen := positions[..k];
    forall i | 0 <= i < |chosen| ensures chosen[i] < n {
      assert chosen[i] == positions[i] && positions[i] in positions;
    }
    forall p: nat | p < n
      ensures p in chosen || forall i | 0 <= i < |chosen| :: Better(m, chosen[i], p)
      ensures p in chosen || (|chosen| < 3 ==> m(p) == 0)
    {
      assert p in positions;
      var j :| 0 <= j < |positions| && positions[j] == p;
      if j < k { assert chosen[j] == p; }
    }
  }

  /** No seed exactly when no token of the question occurs in the title or the description of any node. */
  lemma NoSeedExactly(nodes: seq<Node>, terms: seq<string>, tokenize: string -> seq<string>, chosen: seq<nat>)
    requires AreBest(|nodes|, MatchesAt(nodes, terms, tokenize), chosen)
    ensures chosen == [] <==> forall node, t | node in nodes && t in terms ::
              t !in tokenize(node.title + " " + node.description)
  {
    var m := MatchesAt(nodes, terms, tokenize);
    if chosen == [] {
      forall node, t | node in nodes && t in terms ensures t !in tokenize(node.title + " " + node.description) {
        var p: nat :| p < |nodes| && nodes[p] == node;
        assert p !in chosen && m(p) == 0;
        MatchCounts(terms, tokenize(node.title + " " + node.description), t);
      }
    } else {
      var node := nodes[chosen[0]];
      assert m(chosen[0]) > 0;
      var i, j := SomeMatch(terms, tokenize(node.title + " " + node.description));
      assert node in nodes && terms[i] in terms;
    }
  }

  lemma MatchCounts(terms: seq<string>, tokens: seq<string>, t: string)
    ensures t in terms && t in tokens ==> |Pairs(terms, tokens)| > 0
  {
    if t in terms && t in tokens {
      var i: nat :| i < |terms| && terms[i] == t;
      var j: nat :| j < |tokens| && tokens[j] == t;
      assert (i, j) in Pairs(terms, tokens);
    }
  }

  lemma SomeMatch(terms: seq<string>, tokens: seq<string>) returns (i: nat, j: nat)
    requires |Pairs(terms, tokens)| > 0
    ensures i < |terms| && j < |tokens| && terms[i] == tokens[j]
  {
    var p :| p in Pairs(terms, tokens);
    i, j := p.0, p.1;
  }
}
