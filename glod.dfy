/**
  The GLOD algorithm object: a graph, the fitness power, the Jaccard
  threshold of the merge phase, and the list of communities that `Run`
  extends (seeding, expansion) and then merges in place.
 */
module Glod {
  import opened Graphs
  import Seeding
  import Expansion
  import Merging
  import Modularity
  import Lazar

  lemma CoversReflexive(cs: seq<set<int>>)
    ensures Merging.Covers(cs, cs)
  {
    forall k | 0 <= k < |cs| ensures Merging.Within(cs[k], cs) {
      assert cs[k] <= cs[k];
    }
  }

  lemma CoversTransitive(a: seq<set<int>>, b: seq<set<int>>, c: seq<set<int>>)
    requires Merging.Covers(a, b) && Merging.Covers(b, c)
    ensures Merging.Covers(a, c)
  {
    forall k | 0 <= k < |a| ensures Merging.Within(a[k], c) {
      assert Merging.Within(a[k], b);
      var t :| 0 <= t < |b| && a[k] <= b[t];
      assert Merging.Within(b[t], c);
      var u :| 0 <= u < |c| && b[t] <= c[u];
    }
  }

  /** The communities are made of graph nodes exactly when their union is. */
  lemma InGraphByMembers(g: Graph, cs: seq<set<int>>)
    ensures Modularity.CommunitiesInGraph(g, cs) <==> Merging.Members(cs) <= g.Keys
  {
    if Merging.Members(cs) <= g.Keys {
      forall k | 0 <= k < |cs| ensures cs[k] <= g.Keys {
        forall v | v in cs[k] ensures v in g.Keys {
          assert v in Merging.Members(cs);
        }
      }
    }
  }

  lemma InGraphAppend(g: Graph, a: seq<set<int>>, b: seq<set<int>>)
    requires Modularity.CommunitiesInGraph(g, a) && Modularity.CommunitiesInGraph(g, b)
    ensures Modularity.CommunitiesInGraph(g, a + b)
  {
    forall k | 0 <= k < |a + b| ensures (a + b)[k] <= g.Keys {
      if k < |a| {
        assert (a + b)[k] == a[k];
      } else {
        assert (a + b)[k] == b[k - |a|];
      }
    }
  }

  /** The distinct rough seeds of a candidate list. */
  ghost function SeedSets(seeds: seq<Seeding.CandidateSeed>): set<set<int>> {
    set k | 0 <= k < |seeds| :: seeds[k].seed
  }

  /** expand_seed on the algorithm's graph and power, as a function value. */
  ghost function ExpanderOf(g: Graph, power: nat -> real): set<int> -> set<int> {
    seed => Expansion.Expanded(g, power, seed)
  }

  /** The expansion phase: the candidates in order, each rough seed expanded
      the first time it occurs (later duplicates and seeds already in
      `processed` are skipped), keeping the communities of at least 3 nodes. */
  ghost function ExpandAll(expand: set<int> -> set<int>, seeds: seq<Seeding.CandidateSeed>,
                           processed: set<set<int>>): seq<set<int>>
    decreases |seeds|
  {
    if seeds == [] then []
    else
      var s := seeds[0].seed;
      if s in processed then ExpandAll(expand, seeds[1..], processed)
      else
        var community := expand(s);
        (if |community| >= 3 then [community] else []) + ExpandAll(expand, seeds[1..], processed + {s})
  }

  /** `c` is the expansion of a seed of the list that was not processed before. */
  ghost predicate ExpandedFrom(expand: set<int> -> set<int>, seeds: seq<Seeding.CandidateSeed>,
                               processed: set<set<int>>, c: set<int>) {
    exists k :: 0 <= k < |seeds| && seeds[k].seed !in processed && c == expand(seeds[k].seed)
  }

  lemma SeedSetsCons(seeds: seq<Seeding.CandidateSeed>)
    requires seeds != []
    ensures SeedSets(seeds) == {seeds[0].seed} + SeedSets(seeds[1..])
  {
    var rest := seeds[1..];
    forall x | x in SeedSets(seeds) ensures x in {seeds[0].seed} + SeedSets(rest) {
      var k :| 0 <= k < |seeds| && seeds[k].seed == x;
      if k > 0 { assert rest[k - 1] == seeds[k]; }
    }
    forall x | x in SeedSets(rest) ensures x in SeedSets(seeds) {
      var k :| 0 <= k < |rest| && rest[k].seed == x;
      assert seeds[k + 1] == rest[k];
    }
  }

  /** Taking the first candidate off the list: its seed leaves the
      unprocessed seed sets once, and only if it was not processed. */
  lemma SeedSetsRemaining(seeds: seq<Seeding.CandidateSeed>, processed: set<set<int>>)
    requires seeds != []
    ensures seeds[0].seed in processed ==>
              SeedSets(seeds) - processed == SeedSets(seeds[1..]) - processed
    ensures seeds[0].seed !in processed ==>
              |SeedSets(seeds) - processed| == |SeedSets(seeds[1..]) - (processed + {seeds[0].seed})| + 1
  {
    var s := seeds[0].seed;
    SeedSetsCons(seeds);
    if s !in processed {
      var remaining := SeedSets(seeds[1..]) - (processed + {s});
      assert SeedSets(seeds) - processed == remaining + {s};
      assert s !in remaining;
    }
  }

  /** Duplicate seeds are expanded once: there are at most as many
      communities as distinct seeds not processed before. */
  lemma {:induction false} ExpandAllCount(expand: set<int> -> set<int>, seeds: seq<Seeding.CandidateSeed>,
                                          processed: set<set<int>>)
    ensures |ExpandAll(expand, seeds, processed)| <= |SeedSets(seeds) - processed|
    decreases |seeds|
  {
    if seeds != [] {
      var s := seeds[0].seed;
      var rest := seeds[1..];
      SeedSetsRemaining(seeds, processed);
      if s in processed {
        ExpandAllCount(expand, rest, processed);
      } else {
        ExpandAllCount(expand, rest, processed + {s});
      }
    }
  }

  /** Every community the expansion phase keeps has at least 3 nodes and is
      the expansion of a seed of the list not processed before. */
  lemma {:induction false} ExpandAllFromSeeds(expand: set<int> -> set<int>, seeds: seq<Seeding.CandidateSeed>,
                                              processed: set<set<int>>)
    ensures forall t | 0 <= t < |ExpandAll(expand, seeds, processed)| ::
      |ExpandAll(expand, seeds, processed)[t]| >= 3
      && ExpandedFrom(expand, seeds, processed, ExpandAll(expand, seeds, processed)[t])
    decreases |seeds|
  {
    if seeds != [] {
      var s := seeds[0].seed;
      var rest := seeds[1..];
      var r := ExpandAll(expand, seeds, processed);
      if s in processed {
        ExpandAllFromSeeds(expand, rest, processed);
        assert r == ExpandAll(expand, rest, processed);
        forall t | 0 <= t < |r| ensures ExpandedFrom(expand, seeds, processed, r[t]) {
          assert ExpandedFrom(expand, rest, processed, r[t]);
          var k :| 0 <= k < |rest| && rest[k].seed !in processed && r[t] == expand(rest[k].seed);
          assert seeds[k + 1] == rest[k];
        }
      } else {
        var tail := ExpandAll(expand, rest, processed + {s});
        var head := if |expand(s)| >= 3 then [expand(s)] else [];
        assert r == head + tail;
        ExpandAllFromSeeds(expand, rest, processed + {s});
        forall t | 0 <= t < |r| ensures |r[t]| >= 3 && ExpandedFrom(expand, seeds, processed, r[t]) {
          if t < |head| {
            assert r[t] == expand(seeds[0].seed);
          } else {
            assert r[t] == tail[t - |head|];
            assert ExpandedFrom(expand, rest, processed + {s}, tail[t - |head|]);
            var k :| 0 <= k < |rest| && rest[k].seed !in processed + {s} && tail[t - |head|] == expand(rest[k].seed);
            assert seeds[k + 1] == rest[k];
          }
        }
      }
    }
  }

  /** On a well-formed graph, expand_seed of a seed of graph nodes stays
      inside the graph. */
  lemma ExpanderInGraph(g: Graph, power: nat -> real, seed: set<int>)
    requires ValidGraph(g) && seed <= g.Keys
    ensures ExpanderOf(g, power)(seed) <= g.Keys
  {
    Expansion.ExpandedProperties(g, power, seed);
  }

  /** Expanding seeds whose expansions stay inside a node set keeps every
      community inside it. */
  lemma ExpandAllWithin(expand: set<int> -> set<int>, seeds: seq<Seeding.CandidateSeed>, nodes: set<int>)
    requires forall k | 0 <= k < |seeds| :: expand(seeds[k].seed) <= nodes
    ensures forall t | 0 <= t < |ExpandAll(expand, seeds, {})| :: ExpandAll(expand, seeds, {})[t] <= nodes
  {
    var r := ExpandAll(expand, seeds, {});
    ExpandAllFromSeeds(expand, seeds, {});
    forall t | 0 <= t < |r| ensures r[t] <= nodes {
      assert ExpandedFrom(expand, seeds, {}, r[t]);
    }
  }

  /** Well-formed rough seeds are made of graph nodes. */
  lemma SeedsInGraph(g: Graph, seeds: seq<Seeding.CandidateSeed>)
    requires ValidGraph(g) && Seeding.WellFormedSeeds(g, seeds)
    ensures forall k | 0 <= k < |seeds| :: seeds[k].seed <= g.Keys
  {
    forall k | 0 <= k < |seeds| ensures seeds[k].seed <= g.Keys {
      Seeding.RoughSeedInGraph(g, seeds[k].center);
    }
  }

  /** On a well-formed graph the communities expanded from well-formed seeds
      are made of graph nodes. */
  lemma ExpandAllInGraph(g: Graph, power: nat -> real, seeds: seq<Seeding.CandidateSeed>)
    requires ValidGraph(g) && Seeding.WellFormedSeeds(g, seeds)
    ensures Modularity.CommunitiesInGraph(g, ExpandAll(ExpanderOf(g, power), seeds, {}))
  {
    var expand := ExpanderOf(g, power);
    SeedsInGraph(g, seeds);
    forall k | 0 <= k < |seeds| ensures expand(seeds[k].seed) <= g.Keys {
      ExpanderInGraph(g, power, seeds[k].seed);
    }
    ExpandAllWithin(expand, seeds, g.Keys);
  }

  /** One iteration of the expansion loop keeps `done + rest-to-do` fixed. */
  lemma ExpandAllStep(expand: set<int> -> set<int>, seeds: seq<Seeding.CandidateSeed>, idx: nat,
                      processed: set<set<int>>, done: seq<set<int>>, total: seq<set<int>>)
    requires idx < |seeds|
    requires done + ExpandAll(expand, seeds[idx..], processed) == total
    ensures var s := seeds[idx].seed;
      if s in processed then done + ExpandAll(expand, seeds[idx + 1..], processed) == total
      else
        var kept := if |expand(s)| >= 3 then done + [expand(s)] else done;
        kept + ExpandAll(expand, seeds[idx + 1..], processed + {s}) == total
  {
    var s := seeds[idx].seed;
    assert seeds[idx..][1..] == seeds[idx + 1..];
    if s !in processed {
      var tail := ExpandAll(expand, seeds[idx + 1..], processed + {s});
      if |expand(s)| >= 3 {
        assert done + ([expand(s)] + tail) == (done + [expand(s)]) + tail;
      } else {
        assert [] + tail == tail;
      }
    }
  }

  /** Sorting the candidates keeps every entry, so keeps them well formed. */
  lemma SortedWellFormed(g: Graph, seeds: seq<Seeding.CandidateSeed>)
    requires Seeding.WellFormedSeeds(g, seeds)
    ensures Seeding.WellFormedSeeds(g, Seeding.SortByScore(seeds))
  {
    var sorted := Seeding.SortByScore(seeds);
    forall k | 0 <= k < |sorted|
      ensures sorted[k].center in g
      ensures sorted[k].seed == Seeding.RoughSeedOf(g, sorted[k].center)
      ensures sorted[k].score == Seeding.SeedScore(g, sorted[k].seed)
    {
      assert sorted[k] in multiset(sorted);
      assert sorted[k] in multiset(seeds);
      var j :| 0 <= j < |seeds| && seeds[j] == sorted[k];
    }
  }

  class GlodAlgorithm {
    const graph: Graph
    /** n ↦ n^alpha, the denominator of the fitness function. */
    const power: nat -> real
    const jaccardThreshold: real
    var communities: seq<set<int>>

    ghost predicate Valid()
      reads this
    {
      ValidGraph(graph) && Modularity.CommunitiesInGraph(graph, communities)
    }

    constructor(graph: Graph, power: nat -> real, jaccardThreshold: real)
      requires ValidGraph(graph)
      ensures Valid()
      ensures this.graph == graph && this.power == power && this.jaccardThreshold == jaccardThreshold
      ensures communities == []
    {
      this.graph := graph;
      this.power := power;
      this.jaccardThreshold := jaccardThreshold;
      communities := [];
    }

    /** merge_communities: merge passes until one merges nothing. The nodes
        covered do not change, every community ends up inside a merged one,
        and no remaining pair reaches the threshold. */
    method MergeCommunities()
      requires Valid()
      modifies this
      ensures Valid()
      ensures Merging.Members(communities) == Merging.Members(old(communities))
      ensures Merging.Covers(old(communities), communities)
      ensures |communities| <= |old(communities)|
      ensures Merging.NoMergeablePair(communities, jaccardThreshold)
      ensures communities == Merging.MergeFix(old(communities), jaccardThreshold)
    {
      ghost var start := communities;
      CoversReflexive(start);
      var merged := true;
      while merged
        invariant Merging.Members(communities) == Merging.Members(start)
        invariant Merging.Covers(start, communities)
        invariant |communities| <= |start|
        invariant Merging.MergeFix(communities, jaccardThreshold) == Merging.MergeFix(start, jaccardThreshold)
        invariant !merged ==> Merging.NoMergeablePair(communities, jaccardThreshold)
        decreases |communities| + (if merged then 1 else 0)
      {
        var newCommunities, mergedAny := Merging.MergePass(communities, jaccardThreshold);
        CoversTransitive(start, communities, newCommunities);
        communities := newCommunities;
        merged := mergedAny;
      }
      InGraphByMembers(graph, start);
      InGraphByMembers(graph, communities);
    }

    /** The expansion loop of run: each distinct rough seed is expanded
        once, and the communities of at least 3 nodes are appended. */
    method ExpandCandidates(candidateSeeds: seq<Seeding.CandidateSeed>)
      requires Valid() && Seeding.WellFormedSeeds(graph, candidateSeeds)
      modifies this
      ensures Valid()
      ensures communities == old(communities) + ExpandAll(ExpanderOf(graph, power), candidateSeeds, {})
    {
      ghost var start := communities;
      ghost var expand := ExpanderOf(graph, power);
      var processedSeeds: set<set<int>> := {};
      var idx := 0;
      while idx < |candidateSeeds|
        invariant 0 <= idx <= |candidateSeeds|
        invariant communities + ExpandAll(expand, candidateSeeds[idx..], processedSeeds)
                  == start + ExpandAll(expand, candidateSeeds, {})
        decreases |candidateSeeds| - idx
      {
        var candidateSeed := candidateSeeds[idx].seed;
        ExpandAllStep(expand, candidateSeeds, idx, processedSeeds, communities, start + ExpandAll(expand, candidateSeeds, {}));
        if candidateSeed !in processedSeeds {
          processedSeeds := processedSeeds + {candidateSeed};
          var community := Expansion.ExpandSeed(graph, power, candidateSeed);
          assert community == expand(candidateSeed);
          if |community| >= 3 {
            communities := communities + [community];
          }
        }
        idx := idx + 1;
      }
      assert candidateSeeds[idx..] == [];
      assert communities == start + ExpandAll(expand, candidateSeeds, {});
      ExpandAllInGraph(graph, power, candidateSeeds);
      InGraphAppend(graph, start, ExpandAll(expand, candidateSeeds, {}));
    }

    /** run: seeding, sorting by score, expansion, merging, then the three
        modularities of the final cover. */
    method Run() returns (result: seq<set<int>>, shenEq: real, lazarMov: real, nicosiaQov: real,
                          ghost collected: seq<Seeding.CandidateSeed>)
      requires Valid()
      modifies this
      ensures Valid()
      ensures result == communities
      ensures |collected| == if NodeCount(graph) < Seeding.MaxSeeds then NodeCount(graph) else Seeding.MaxSeeds
      ensures Seeding.WellFormedSeeds(graph, collected)
      ensures forall k, l | 0 <= k < l < |collected| :: CenterBefore(graph, collected[k].center, collected[l].center)
      ensures forall v, k | v in graph && v !in Seeding.CentersOf(collected) && 0 <= k < |collected| ::
                CenterBefore(graph, collected[k].center, v)
      ensures var expanded := old(communities) + ExpandAll(ExpanderOf(graph, power), Seeding.SortByScore(collected), {});
              && communities == Merging.MergeFix(expanded, jaccardThreshold)
              && Merging.Members(communities) == Merging.Members(expanded)
              && Merging.Covers(expanded, communities)
      ensures Merging.NoMergeablePair(communities, jaccardThreshold)
      ensures shenEq == Modularity.ShenValue(graph, communities)
      ensures nicosiaQov == Modularity.NicosiaValue(graph, communities)
      ensures lazarMov == Lazar.LazarValue(graph, communities)
      ensures shenEq == nicosiaQov
      ensures -1.0 <= lazarMov <= 1.0
    {
      var seeds := Seeding.CollectSeeds(graph);
      collected := seeds;
      var candidateSeeds := Seeding.SortByScore(seeds);
      SortedWellFormed(graph, seeds);
      ExpandCandidates(candidateSeeds);
      MergeCommunities();
      result := communities;
      shenEq := Modularity.ShenModularity(graph, communities);
      lazarMov := Lazar.LazarModularity(graph, communities);
      nicosiaQov := Modularity.NicosiaModularity(graph, communities);
      Modularity.ShenEqualsNicosia(graph, communities);
      Lazar.LazarBounds(graph, communities);
    }
  }
}
