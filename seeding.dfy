/**
  Seeding phase (Algorithm 1): rough seeds built around centers taken from
  the set NL of unlabeled nodes, their scores, and the score order in which
  they are handed to the expansion phase.
 */
module Seeding {
  import opened Graphs
  import opened SetSums
  import opened Similarity

  /** At most this many candidate seeds are collected. */
  const MaxSeeds: nat := 100
  /** Safety limit on seeding iterations (never reached before MaxSeeds). */
  const MaxSeedIterations: nat := 1000

  /** The rough seed around `center`: the center plus every other neighbour
      that shares at least one neighbour with it. NC is always taken against
      the center, so the order in which the source adds them does not matter. */
  function RoughSeedOf(g: Graph, center: int): set<int> {
    {center} + set v | v in Neighbors(g, center) && v != center && CommonNeighborSimilarity(g, center, v) > 0
  }

  /** On a well-formed graph the rough seed of a node is made of graph nodes. */
  lemma RoughSeedInGraph(g: Graph, center: int)
    requires ValidGraph(g) && center in g
    ensures RoughSeedOf(g, center) <= g.Keys
  {
    forall v | v in RoughSeedOf(g, center) ensures v in g {
      if v != center {
        assert v in g[center];
      }
    }
  }

  /** The rough seed contains its center, stays inside the closed
      neighbourhood of the center, and so has at most degree + 1 nodes. */
  lemma RoughSeedBounds(g: Graph, center: int)
    ensures center in RoughSeedOf(g, center)
    ensures RoughSeedOf(g, center) <= Neighbors(g, center) + {center}
    ensures |RoughSeedOf(g, center)| <= Degree(g, center) + 1
  {
    SubsetCard(RoughSeedOf(g, center), Neighbors(g, center) + {center});
  }

  /** The head of the candidate list sorted by (NC descending, id ascending). */
  method BestByCommonNeighbors(g: Graph, center: int, candidates: set<int>) returns (best: int, bestNc: nat)
    requires candidates != {}
    ensures best in candidates && bestNc == CommonNeighborSimilarity(g, center, best)
    ensures forall v | v in candidates ::
              CommonNeighborSimilarity(g, center, v) < bestNc
              || (CommonNeighborSimilarity(g, center, v) == bestNc && best <= v)
  {
    NonEmptyHasElement(candidates);
    best :| best in candidates;
    bestNc := CommonNeighborSimilarity(g, center, best);
    var rest := candidates - {best};
    while rest != {}
      invariant rest <= candidates && best in candidates && best !in rest
      invariant bestNc == CommonNeighborSimilarity(g, center, best)
      invariant forall v | v in candidates - rest ::
                  CommonNeighborSimilarity(g, center, v) < bestNc
                  || (CommonNeighborSimilarity(g, center, v) == bestNc && best <= v)
      decreases rest
    {
      NonEmptyHasElement(rest);
      var v :| v in rest;
      var nc := CommonNeighborSimilarity(g, center, v);
      if nc > bestNc || (nc == bestNc && v < best) {
        best, bestNc := v, nc;
      }
      rest := rest - {v};
    }
  }

  /** Grows the rough seed one best neighbour at a time until no remaining
      neighbour has a positive NC with the center. */
  method CreateRoughSeed(g: Graph, center: int) returns (roughSeed: set<int>)
    requires center in g
    ensures roughSeed == RoughSeedOf(g, center)
  {
    roughSeed := {center};
    var neighbors := Neighbors(g, center);
    var available := neighbors - roughSeed;
    while available != {}
      invariant center in roughSeed && roughSeed <= RoughSeedOf(g, center)
      invariant available == neighbors - roughSeed
      decreases available
    {
      var best, bestNc := BestByCommonNeighbors(g, center, available);
      if bestNc > 0 {
        roughSeed := roughSeed + {best};
        available := neighbors - roughSeed;
      } else {
        assert forall v | v in available :: CommonNeighborSimilarity(g, center, v) == 0;
        break;
      }
    }
  }

  /** The members of `s` adjacent to `u` with a larger id: counting these for
      every u counts each internal edge once. */
  function UpperNeighborsIn(g: Graph, s: set<int>, u: int): set<int> {
    set v | v in s && u < v && HasEdge(g, u, v)
  }

  function UpperCountOf(g: Graph, s: set<int>): int -> int {
    u => |UpperNeighborsIn(g, s, u)|
  }

  /** Sum of the degrees of the members of `s`. */
  ghost function DegreeSum(g: Graph, s: set<int>): int {
    Sum(s, DegreeOf(g))
  }

  /** Edges with both endpoints in `s`, each counted once (node1 < node2). */
  ghost function InternalEdges(g: Graph, s: set<int>): int {
    Sum(s, UpperCountOf(g, s))
  }

  /** Score = Sum(degree) + Count(nodes) + Count(internal edges). */
  ghost function SeedScore(g: Graph, s: set<int>): int {
    DegreeSum(g, s) + |s| + InternalEdges(g, s)
  }

  /** Every part of the score is a count, so the score is at least the
      size of the seed and at least its degree sum. */
  lemma SeedScoreLowerBound(g: Graph, s: set<int>)
    ensures DegreeSum(g, s) >= 0 && InternalEdges(g, s) >= 0
    ensures SeedScore(g, s) >= |s|
    ensures SeedScore(g, s) >= DegreeSum(g, s)
  {
    SumNonneg(s, DegreeOf(g));
    SumNonneg(s, UpperCountOf(g, s));
  }

  method CalculateSeedScore(g: Graph, roughSeed: set<int>) returns (score: nat)
    ensures score == SeedScore(g, roughSeed)
  {
    var degreeSum := SumDegrees(g, roughSeed);
    var nodeCount := |roughSeed|;
    var edgeCount := CountInternalEdges(g, roughSeed);
    score := degreeSum + nodeCount + edgeCount;
  }

  method SumDegrees(g: Graph, s: set<int>) returns (total: nat)
    ensures total == DegreeSum(g, s)
  {
    total := 0;
    var rest := s;
    while rest != {}
      invariant rest <= s
      invariant total + Sum(rest, DegreeOf(g)) == Sum(s, DegreeOf(g))
      decreases rest
    {
      NonEmptyHasElement(rest);
      var node :| node in rest;
      SumRemove(rest, DegreeOf(g), node);
      total := total + Degree(g, node);
      rest := rest - {node};
    }
  }

  method CountInternalEdges(g: Graph, s: set<int>) returns (count: nat)
    ensures count == InternalEdges(g, s)
  {
    count := 0;
    var rest := s;
    while rest != {}
      invariant rest <= s
      invariant count + Sum(rest, UpperCountOf(g, s)) == Sum(s, UpperCountOf(g, s))
      decreases rest
    {
      NonEmptyHasElement(rest);
      var node1 :| node1 in rest;
      SumRemove(rest, UpperCountOf(g, s), node1);
      var upper := CountUpperNeighbors(g, s, node1);
      count := count + upper;
      rest := rest - {node1};
    }
  }

  /** The inner loop over node2 for a fixed node1. */
  method CountUpperNeighbors(g: Graph, s: set<int>, node1: int) returns (count: nat)
    ensures count == |UpperNeighborsIn(g, s, node1)|
  {
    count := 0;
    var rest := s;
    while rest != {}
      invariant count + |UpperNeighborsIn(g, rest, node1)| == |UpperNeighborsIn(g, s, node1)|
      decreases rest
    {
      NonEmptyHasElement(rest);
      var node2 :| node2 in rest;
      var next := rest - {node2};
      if node1 < node2 && HasEdge(g, node1, node2) {
        assert UpperNeighborsIn(g, rest, node1) == UpperNeighborsIn(g, next, node1) + {node2};
        count := count + 1;
      } else {
        assert UpperNeighborsIn(g, rest, node1) == UpperNeighborsIn(g, next, node1);
      }
      rest := next;
    }
  }

  /** min(NL, key = (-degree, id)): the unlabeled node of largest degree,
      smallest id among equals. */
  method SelectCenter(g: Graph, nl: set<int>) returns (center: int)
    requires nl != {}
    ensures center in nl
    ensures forall v | v in nl && v != center :: CenterBefore(g, center, v)
  {
    NonEmptyHasElement(nl);
    center :| center in nl;
    var rest := nl - {center};
    while rest != {}
      invariant rest <= nl && center in nl && center !in rest
      invariant forall v | v in nl - rest && v != center :: CenterBefore(g, center, v)
      decreases rest
    {
      NonEmptyHasElement(rest);
      var v :| v in rest;
      CenterOrder(g, v, center, v);
      if CenterBefore(g, v, center) {
        ghost var previous := center;
        center := v;
        forall w | w in nl - (rest - {v}) && w != center
          ensures CenterBefore(g, center, w)
        {
          CenterOrder(g, center, previous, w);
        }
      }
      rest := rest - {v};
    }
  }

  /** (rough seed, score, center), as collected by the seeding loop. */
  datatype CandidateSeed = CandidateSeed(seed: set<int>, score: nat, center: int)

  function CentersOf(seeds: seq<CandidateSeed>): seq<int> {
    seq(|seeds|, k requires 0 <= k < |seeds| => seeds[k].center)
  }

  /** Each entry is the rough seed of its center with that seed's score. */
  ghost predicate WellFormedSeeds(g: Graph, seeds: seq<CandidateSeed>) {
    forall k | 0 <= k < |seeds| ::
      seeds[k].center in g
      && seeds[k].seed == RoughSeedOf(g, seeds[k].center)
      && seeds[k].score == SeedScore(g, seeds[k].seed)
  }

  lemma CentersOfAppend(seeds: seq<CandidateSeed>, x: CandidateSeed)
    ensures CentersOf(seeds + [x]) == CentersOf(seeds) + [x.center]
  {
  }

  /** One iteration of the seeding loop: the next center, its rough seed
      and the seed's score. */
  method NextSeed(g: Graph, nl: set<int>) returns (candidate: CandidateSeed)
    requires nl != {} && nl <= g.Keys
    ensures candidate.center in nl
    ensures forall v | v in nl && v != candidate.center :: CenterBefore(g, candidate.center, v)
    ensures candidate.seed == RoughSeedOf(g, candidate.center)
    ensures candidate.score == SeedScore(g, candidate.seed)
  {
    var center := SelectCenter(g, nl);
    var roughSeed := CreateRoughSeed(g, center);
    var score := CalculateSeedScore(g, roughSeed);
    candidate := CandidateSeed(roughSeed, score, center);
  }

  /** What the seeding loop keeps: the seeds are well formed, their centers
      are exactly the nodes taken out of NL, in center order, and every
      node still in NL comes after all of them. */
  ghost predicate SeedLoopInvariant(g: Graph, seeds: seq<CandidateSeed>, nl: set<int>) {
    && nl <= g.Keys
    && |seeds| + |nl| == |g.Keys|
    && WellFormedSeeds(g, seeds)
    && (forall v | v in g :: v in nl <==> v !in CentersOf(seeds))
    && (forall k, l | 0 <= k < l < |seeds| :: CenterBefore(g, seeds[k].center, seeds[l].center))
    && (forall v, k | v in nl && 0 <= k < |seeds| :: CenterBefore(g, seeds[k].center, v))
  }

  lemma StepWellFormed(g: Graph, seeds: seq<CandidateSeed>, candidate: CandidateSeed)
    requires WellFormedSeeds(g, seeds)
    requires candidate.center in g
    requires candidate.seed == RoughSeedOf(g, candidate.center)
    requires candidate.score == SeedScore(g, candidate.seed)
    ensures WellFormedSeeds(g, seeds + [candidate])
  {
    var next := seeds + [candidate];
    forall k | 0 <= k < |next|
      ensures next[k].center in g
      ensures next[k].seed == RoughSeedOf(g, next[k].center)
      ensures next[k].score == SeedScore(g, next[k].seed)
    {
      if k < |seeds| {
        assert next[k] == seeds[k];
      }
    }
  }

  lemma StepCenters(g: Graph, seeds: seq<CandidateSeed>, nl: set<int>, candidate: CandidateSeed)
    requires forall v | v in g :: v in nl <==> v !in CentersOf(seeds)
    ensures forall v | v in g :: v in nl - {candidate.center} <==> v !in CentersOf(seeds + [candidate])
  {
    CentersOfAppend(seeds, candidate);
    forall v | v in g ensures v in nl - {candidate.center} <==> v !in CentersOf(seeds + [candidate]) {
      assert v in CentersOf(seeds + [candidate]) <==> v in CentersOf(seeds) || v == candidate.center;
    }
  }

  lemma StepOrdered(g: Graph, seeds: seq<CandidateSeed>, nl: set<int>, candidate: CandidateSeed)
    requires forall k, l | 0 <= k < l < |seeds| :: CenterBefore(g, seeds[k].center, seeds[l].center)
    requires forall v, k | v in nl && 0 <= k < |seeds| :: CenterBefore(g, seeds[k].center, v)
    requires candidate.center in nl
    ensures forall k, l | 0 <= k < l < |seeds| + 1 ::
              CenterBefore(g, (seeds + [candidate])[k].center, (seeds + [candidate])[l].center)
  {
    var next := seeds + [candidate];
    forall k, l | 0 <= k < l < |next| ensures CenterBefore(g, next[k].center, next[l].center) {
      if l == |seeds| {
        assert next[k] == seeds[k];
      } else {
        assert next[k] == seeds[k] && next[l] == seeds[l];
      }
    }
  }

  lemma StepAfter(g: Graph, seeds: seq<CandidateSeed>, nl: set<int>, candidate: CandidateSeed)
    requires forall v, k | v in nl && 0 <= k < |seeds| :: CenterBefore(g, seeds[k].center, v)
    requires forall v | v in nl && v != candidate.center :: CenterBefore(g, candidate.center, v)
    ensures forall v, k | v in nl - {candidate.center} && 0 <= k < |seeds| + 1 ::
              CenterBefore(g, (seeds + [candidate])[k].center, v)
  {
    var next := seeds + [candidate];
    forall v, k | v in nl - {candidate.center} && 0 <= k < |next|
      ensures CenterBefore(g, next[k].center, v)
    {
      if k < |seeds| {
        assert next[k] == seeds[k];
      }
    }
  }

  lemma SeedLoopStep(g: Graph, seeds: seq<CandidateSeed>, nl: set<int>, candidate: CandidateSeed)
    requires SeedLoopInvariant(g, seeds, nl)
    requires candidate.center in nl
    requires forall v | v in nl && v != candidate.center :: CenterBefore(g, candidate.center, v)
    requires candidate.seed == RoughSeedOf(g, candidate.center)
    requires candidate.score == SeedScore(g, candidate.seed)
    ensures SeedLoopInvariant(g, seeds + [candidate], nl - {candidate.center})
  {
    StepWellFormed(g, seeds, candidate);
    StepCenters(g, seeds, nl, candidate);
    StepOrdered(g, seeds, nl, candidate);
    StepAfter(g, seeds, nl, candidate);
  }

  /** The seeding loop of `run`: drain NL, highest degree first, until NL is
      empty or MaxSeeds seeds have been collected. */
  method CollectSeeds(g: Graph) returns (seeds: seq<CandidateSeed>)
    ensures |seeds| == if NodeCount(g) < MaxSeeds then NodeCount(g) else MaxSeeds
    ensures WellFormedSeeds(g, seeds)
    ensures forall k, l | 0 <= k < l < |seeds| :: CenterBefore(g, seeds[k].center, seeds[l].center)
    ensures forall v, k | v in g && v !in CentersOf(seeds) && 0 <= k < |seeds| ::
              CenterBefore(g, seeds[k].center, v)
  {
    var nl := g.Keys;
    seeds := [];
    var iteration := 0;
    while nl != {} && iteration < MaxSeedIterations
      invariant iteration == |seeds| < MaxSeeds
      invariant SeedLoopInvariant(g, seeds, nl)
      decreases nl
    {
      iteration := iteration + 1;
      var candidate := NextSeed(g, nl);
      SeedLoopStep(g, seeds, nl, candidate);
      seeds := seeds + [candidate];
      nl := nl - {candidate.center};
      if |seeds| >= MaxSeeds {
        break;
      }
    }
  }

  predicate SortedByScore(s: seq<CandidateSeed>) {
    forall i, j | 0 <= i < j < |s| :: s[i].score >= s[j].score
  }

  /** Places `x` after every entry whose score is at least its own. */
  function InsertByScore(sorted: seq<CandidateSeed>, x: CandidateSeed): (r: seq<CandidateSeed>)
    ensures |r| == |sorted| + 1
    ensures r[0] == x || (sorted != [] && r[0] == sorted[0])
  {
    if sorted == [] then [x]
    else if sorted[0].score >= x.score then [sorted[0]] + InsertByScore(sorted[1..], x)
    else [x] + sorted
  }

  /** Inserting into a list sorted by score keeps it sorted. */
  lemma {:induction false} InsertByScoreSorted(sorted: seq<CandidateSeed>, x: CandidateSeed)
    requires SortedByScore(sorted)
    ensures SortedByScore(InsertByScore(sorted, x))
    decreases |sorted|
  {
    if sorted != [] && sorted[0].score >= x.score {
      InsertByScoreSorted(sorted[1..], x);
      var tail := InsertByScore(sorted[1..], x);
      assert tail[0].score <= sorted[0].score;
      assert InsertByScore(sorted, x) == [sorted[0]] + tail;
    }
  }

  /** Insertion adds exactly `x` and loses nothing. */
  lemma {:induction false} InsertByScorePermutation(sorted: seq<CandidateSeed>, x: CandidateSeed)
    ensures multiset(InsertByScore(sorted, x)) == multiset(sorted) + multiset{x}
    decreases |sorted|
  {
    if sorted != [] && sorted[0].score >= x.score {
      InsertByScorePermutation(sorted[1..], x);
      assert sorted == [sorted[0]] + sorted[1..];
    }
  }

  /** `candidate_seeds.sort(key=score, reverse=True)`: a stable sort on the
      score alone, largest first. */
  function SortByScore(seeds: seq<CandidateSeed>): (r: seq<CandidateSeed>)
    ensures SortedByScore(r)
    ensures multiset(r) == multiset(seeds)
  {
    if seeds == [] then []
    else
      var init := seeds[..|seeds| - 1];
      var last := seeds[|seeds| - 1];
      assert seeds == init + [last];
      var sortedInit := SortByScore(init);
      InsertByScoreSorted(sortedInit, last);
      InsertByScorePermutation(sortedInit, last);
      InsertByScore(sortedInit, last)
  }

  /** The entries with score `v`, in order. */
  function WithScore(s: seq<CandidateSeed>, v: nat): seq<CandidateSeed> {
    if s == [] then [] else (if s[0].score == v then [s[0]] else []) + WithScore(s[1..], v)
  }

  lemma {:induction false} WithScoreConcat(a: seq<CandidateSeed>, b: seq<CandidateSeed>, v: nat)
    ensures WithScore(a + b, v) == WithScore(a, v) + WithScore(b, v)
    decreases |a|
  {
    if a != [] {
      WithScoreConcat(a[1..], b, v);
      assert (a + b)[1..] == a[1..] + b;
      var head := if a[0].score == v then [a[0]] else [];
      assert WithScore(a + b, v) == head + WithScore(a[1..] + b, v);
      assert WithScore(a, v) == head + WithScore(a[1..], v);
    } else {
      assert a + b == b;
    }
  }

  lemma {:induction false} WithScoreBelow(s: seq<CandidateSeed>, v: nat)
    requires forall k | 0 <= k < |s| :: s[k].score < v
    ensures WithScore(s, v) == []
    decreases |s|
  {
    if s != [] {
      WithScoreBelow(s[1..], v);
    }
  }

  lemma WithScoreCons(y: CandidateSeed, s: seq<CandidateSeed>, v: nat)
    ensures WithScore([y] + s, v) == (if y.score == v then [y] else []) + WithScore(s, v)
  {
    assert ([y] + s)[1..] == s;
  }

  /** Inserting in front of entries of lower score: they have no entry of
      the inserted score. */
  lemma WithScoreInsertFront(sorted: seq<CandidateSeed>, x: CandidateSeed, v: nat)
    requires SortedByScore(sorted)
    requires sorted != [] && sorted[0].score < x.score
    ensures WithScore([x] + sorted, v) == WithScore(sorted, v) + (if x.score == v then [x] else [])
  {
    WithScoreCons(x, sorted, v);
    if x.score == v {
      forall k | 0 <= k < |sorted| ensures sorted[k].score < v {
        assert sorted[k].score <= sorted[0].score;
      }
      WithScoreBelow(sorted, v);
    }
  }

  lemma WithScoreInsertAfter(y: CandidateSeed, s: seq<CandidateSeed>, tail: seq<CandidateSeed>,
                             added: seq<CandidateSeed>, v: nat)
    requires WithScore(tail, v) == WithScore(s, v) + added
    ensures WithScore([y] + tail, v) == WithScore([y] + s, v) + added
  {
    WithScoreCons(y, tail, v);
    WithScoreCons(y, s, v);
    var head := if y.score == v then [y] else [];
    assert head + (WithScore(s, v) + added) == (head + WithScore(s, v)) + added;
  }

  lemma {:induction false} WithScoreInsert(sorted: seq<CandidateSeed>, x: CandidateSeed, v: nat)
    requires SortedByScore(sorted)
    ensures WithScore(InsertByScore(sorted, x), v)
            == WithScore(sorted, v) + (if x.score == v then [x] else [])
    decreases |sorted|
  {
    if sorted == [] {
      WithScoreCons(x, [], v);
      assert [x] + [] == [x];
    } else if sorted[0].score >= x.score {
      assert SortedByScore(sorted[1..]);
      assert InsertByScore(sorted, x) == [sorted[0]] + InsertByScore(sorted[1..], x);
      WithScoreInsert(sorted[1..], x, v);
      WithScoreInsertAfter(sorted[0], sorted[1..], InsertByScore(sorted[1..], x),
                           if x.score == v then [x] else [], v);
      assert sorted == [sorted[0]] + sorted[1..];
    } else {
      WithScoreInsertFront(sorted, x, v);
    }
  }

  /** Stability: for every score value, the entries with that score keep
      their input order, so ties stay in center-selection order. */
  lemma {:induction false} SortByScoreStable(seeds: seq<CandidateSeed>, v: nat)
    ensures WithScore(SortByScore(seeds), v) == WithScore(seeds, v)
    decreases |seeds|
  {
    if seeds != [] {
      var init := seeds[..|seeds| - 1];
      var last := seeds[|seeds| - 1];
      SortByScoreStable(init, v);
      WithScoreInsert(SortByScore(init), last, v);
      assert seeds == init + [last];
      WithScoreConcat(init, [last], v);
      assert WithScore([last], v) == if last.score == v then [last] else [] by {
        assert [last][1..] == [];
      }
    }
  }
}
