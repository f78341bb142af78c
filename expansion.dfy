/**
  Expansion phase (Algorithm 2 with the source's OR logic and stopping
  rules). Each round scores every shell node by fitness gain, omega and
  influence, takes the argmax of each score, picks among those (at most
  three) nodes the one whose largest score is largest, and adds it only if
  the acceptance rule holds; otherwise expansion stops.

  The round is specified by the ghost function `Step`, the whole expansion
  by `ExpandFrom`; the method `ExpandSeed` is proved to compute it.
 */
module Expansion {
  import opened Options
  import opened Graphs
  import opened SetSums
  import opened Similarity
  import opened Fitness

  /** A fitness gain at least this large is the primary reason to add a node. */
  const MinFitnessGain: real := 0.0001
  /** Omega or influence above this may override a negative fitness gain... */
  const HighScore: real := 0.8
  /** ...but only while fewer than this many nodes have been added. */
  const ExceptionIterations: nat := 10

  /** max(3, int(n * 0.5)): communities stop growing at half the graph. */
  function MaxCommunitySize(n: nat): (m: nat)
    ensures m >= 3 && m >= n / 2
    ensures m == 3 || m == n / 2
  {
    if n / 2 > 3 then n / 2 else 3
  }

  /** The three scores of a candidate. */
  datatype CandidateScore = CandidateScore(fitnessGain: real, omega: real, influence: real)

  datatype Criterion = ByFitness | ByOmega | ByInfluence

  function Component(s: CandidateScore, k: Criterion): real {
    match k
    case ByFitness => s.fitnessGain
    case ByOmega => s.omega
    case ByInfluence => s.influence
  }

  /** max(fitness, omega, influence) of one candidate. */
  function BestOfThree(s: CandidateScore): (m: real)
    ensures m >= s.fitnessGain && m >= s.omega && m >= s.influence
    ensures m == s.fitnessGain || m == s.omega || m == s.influence
  {
    Max(Max(s.fitnessGain, s.omega), s.influence)
  }

  /** The scores of candidate `v` for community `c`. */
  ghost function ScoreOf(g: Graph, power: nat -> real, c: set<int>, v: int): CandidateScore {
    CandidateScore(FitnessValue(g, power, c + {v}) - FitnessValue(g, power, c),
                   OmegaValue(g, v, c),
                   Influence(g, v, c))
  }

  /** A scorer maps (community, candidate) to the candidate's scores. The
      rounds below are stated for any scorer; `Expanded` instantiates them
      with `ScoreOf`. */
  type Scorer = (set<int>, int) -> CandidateScore

  ghost function SourceScorer(g: Graph, power: nat -> real): Scorer {
    (c, v) => ScoreOf(g, power, c, v)
  }

  function ComponentOf(scorer: Scorer, c: set<int>, k: Criterion): int -> real {
    v => Component(scorer(c, v), k)
  }

  function BestOfThreeOf(scorer: Scorer, c: set<int>): int -> real {
    v => BestOfThree(scorer(c, v))
  }

  /** The OR-set: the argmax of each of the three scores over the shell. */
  ghost function ArgmaxNodes(g: Graph, scorer: Scorer, c: set<int>): (a: set<int>)
    requires Shell(g, c) != {}
    ensures a != {} && a <= Shell(g, c)
  {
    var sh := Shell(g, c);
    {ArgMax(sh, ComponentOf(scorer, c, ByFitness)),
     ArgMax(sh, ComponentOf(scorer, c, ByOmega)),
     ArgMax(sh, ComponentOf(scorer, c, ByInfluence))}
  }

  /** The candidate of the round: largest best-of-three, smallest id on ties. */
  ghost function Chosen(g: Graph, scorer: Scorer, c: set<int>): (v: int)
    requires Shell(g, c) != {}
    ensures v in Shell(g, c)
  {
    ArgMax(ArgmaxNodes(g, scorer, c), BestOfThreeOf(scorer, c))
  }

  /** The acceptance rule: a fitness gain of at least MinFitnessGain, or a
      negative gain overridden by a high omega or influence early on. */
  predicate Accepts(s: CandidateScore, iterations: nat) {
    s.fitnessGain >= MinFitnessGain
    || (s.fitnessGain < 0.0 && iterations < ExceptionIterations
        && (s.omega > HighScore || s.influence > HighScore))
  }

  /** One round: the node added, or None when expansion stops. */
  ghost function Step(g: Graph, scorer: Scorer, maxSize: nat, c: set<int>, iterations: nat): (r: Option<int>)
    ensures r.Some? ==> r.value in Shell(g, c) && |c| < maxSize
  {
    if Shell(g, c) == {} || |c| >= maxSize then None
    else
      var v := Chosen(g, scorer, c);
      if Accepts(scorer(c, v), iterations) then Some(v) else None
  }

  /** The community reached from `c` after `iterations` additions. */
  ghost function ExpandFrom(g: Graph, scorer: Scorer, maxSize: nat, c: set<int>, iterations: nat): set<int>
    decreases maxSize - |c|
  {
    match Step(g, scorer, maxSize, c, iterations)
    case None => c
    case Some(v) => ExpandFrom(g, scorer, maxSize, c + {v}, iterations + 1)
  }

  /** expand_seed(seed). */
  ghost function Expanded(g: Graph, power: nat -> real, seed: set<int>): set<int> {
    ExpandFrom(g, SourceScorer(g, power), MaxCommunitySize(NodeCount(g)), seed, 0)
  }

  /** A round adds one node that is outside the community, adjacent to a
      member, one of the three argmaxes, the best of them by its largest
      score, and accepted by the acceptance rule. */
  lemma StepAddsShellNode(g: Graph, scorer: Scorer, maxSize: nat, c: set<int>, iterations: nat)
    ensures Step(g, scorer, maxSize, c, iterations).Some? ==>
      var v := Step(g, scorer, maxSize, c, iterations).value;
      && v !in c
      && (exists u :: u in c && v in Neighbors(g, u))
      && |c| < maxSize
      && Accepts(scorer(c, v), iterations)
      && v in ArgmaxNodes(g, scorer, c)
      && IsArgMax(v, ArgmaxNodes(g, scorer, c), BestOfThreeOf(scorer, c))
  {
  }

  /** A round that adds nothing ends the expansion. */
  lemma StepStops(g: Graph, scorer: Scorer, maxSize: nat, c: set<int>, iterations: nat)
    ensures Step(g, scorer, maxSize, c, iterations).None? <==>
      Shell(g, c) == {} || |c| >= maxSize || !Accepts(scorer(c, Chosen(g, scorer, c)), iterations)
    ensures Step(g, scorer, maxSize, c, iterations).None? ==> ExpandFrom(g, scorer, maxSize, c, iterations) == c
  {
  }

  /** Expansion only adds nodes, never grows past max(|c|, maxSize), and
      (on a well-formed graph) only adds graph nodes. */
  lemma {:induction false} ExpandFromGrows(g: Graph, scorer: Scorer, maxSize: nat, c: set<int>, iterations: nat)
    ensures c <= ExpandFrom(g, scorer, maxSize, c, iterations)
    ensures |ExpandFrom(g, scorer, maxSize, c, iterations)| <= if |c| > maxSize then |c| else maxSize
    ensures ValidGraph(g) && c <= g.Keys ==> ExpandFrom(g, scorer, maxSize, c, iterations) <= g.Keys
    decreases maxSize - |c|
  {
    var step := Step(g, scorer, maxSize, c, iterations);
    if step.Some? {
      var v := step.value;
      assert ExpandFrom(g, scorer, maxSize, c, iterations)
          == ExpandFrom(g, scorer, maxSize, c + {v}, iterations + 1);
      ExpandFromGrows(g, scorer, maxSize, c + {v}, iterations + 1);
    }
  }

  /** expand_seed returns a superset of the seed, of size at most
      max(|seed|, max(3, n div 2)), made of graph nodes. */
  lemma ExpandedProperties(g: Graph, power: nat -> real, seed: set<int>)
    ensures seed <= Expanded(g, power, seed)
    ensures var m := MaxCommunitySize(NodeCount(g));
            |Expanded(g, power, seed)| <= if |seed| > m then |seed| else m
    ensures ValidGraph(g) && seed <= g.Keys ==> Expanded(g, power, seed) <= g.Keys
  {
    ExpandFromGrows(g, SourceScorer(g, power), MaxCommunitySize(NodeCount(g)), seed, 0);
  }

  /** Scores held in the source's candidate_scores dictionary. */
  function MapComponent(scores: map<int, CandidateScore>, k: Criterion): int -> real {
    v => if v in scores then Component(scores[v], k) else 0.0
  }

  function MapBestOfThree(scores: map<int, CandidateScore>): int -> real {
    v => if v in scores then BestOfThree(scores[v]) else 0.0
  }

  ghost predicate ScoresAgree(scorer: Scorer, c: set<int>, shell: set<int>, scores: map<int, CandidateScore>) {
    shell <= scores.Keys && forall v | v in shell :: scores[v] == scorer(c, v)
  }

  /** The choice the method makes from its score dictionary is the one
      `Chosen` describes. */
  lemma ChosenFromScores(g: Graph, scorer: Scorer, c: set<int>,
                         scores: map<int, CandidateScore>, bestF: int, bestO: int, bestI: int, best: int)
    requires Shell(g, c) != {}
    requires ScoresAgree(scorer, c, Shell(g, c), scores)
    requires IsArgMax(bestF, Shell(g, c), MapComponent(scores, ByFitness))
    requires IsArgMax(bestO, Shell(g, c), MapComponent(scores, ByOmega))
    requires IsArgMax(bestI, Shell(g, c), MapComponent(scores, ByInfluence))
    requires IsArgMax(best, {bestF, bestO, bestI}, MapBestOfThree(scores))
    ensures best == Chosen(g, scorer, c)
  {
    var sh := Shell(g, c);
    SameArgMax(g, scorer, c, scores, ByFitness, bestF);
    SameArgMax(g, scorer, c, scores, ByOmega, bestO);
    SameArgMax(g, scorer, c, scores, ByInfluence, bestI);
    var nodes := ArgmaxNodes(g, scorer, c);
    assert nodes == {bestF, bestO, bestI};
    ArgMaxCongruent(best, nodes, MapBestOfThree(scores), BestOfThreeOf(scorer, c));
    ArgMaxUnique(best, Chosen(g, scorer, c), nodes, BestOfThreeOf(scorer, c));
  }

  lemma SameArgMax(g: Graph, scorer: Scorer, c: set<int>, scores: map<int, CandidateScore>, k: Criterion, best: int)
    requires Shell(g, c) != {}
    requires ScoresAgree(scorer, c, Shell(g, c), scores)
    requires IsArgMax(best, Shell(g, c), MapComponent(scores, k))
    ensures best == ArgMax(Shell(g, c), ComponentOf(scorer, c, k))
  {
    var sh := Shell(g, c);
    ArgMaxCongruent(best, sh, MapComponent(scores, k), ComponentOf(scorer, c, k));
    ArgMaxUnique(best, ArgMax(sh, ComponentOf(scorer, c, k)), sh, ComponentOf(scorer, c, k));
  }

  /** The shell nodes of `c` contributed by the members in `members`. */
  function ShellFrom(g: Graph, c: set<int>, members: set<int>): set<int> {
    set u, v | u in members && v in Neighbors(g, u) && v !in c :: v
  }

  lemma ShellFromAdd(g: Graph, c: set<int>, members: set<int>, u: int)
    ensures ShellFrom(g, c, members + {u}) == ShellFrom(g, c, members) + (Neighbors(g, u) - c)
  {
    forall v | v in Neighbors(g, u) - c ensures v in ShellFrom(g, c, members + {u}) {
    }
  }

  /** The source's shell loop: the outside neighbours of every member. */
  method ShellNodes(g: Graph, c: set<int>) returns (shell: set<int>)
    ensures shell == Shell(g, c)
  {
    shell := {};
    var rest := c;
    while rest != {}
      invariant rest <= c
      invariant shell == ShellFrom(g, c, c - rest)
      decreases rest
    {
      NonEmptyHasElement(rest);
      var node :| node in rest;
      ShellFromAdd(g, c, c - rest, node);
      shell := AddOutsideNeighbors(g, c, node, shell);
      assert c - (rest - {node}) == (c - rest) + {node};
      rest := rest - {node};
    }
    assert c - rest == c;
  }

  method AddOutsideNeighbors(g: Graph, c: set<int>, node: int, shell: set<int>) returns (result: set<int>)
    ensures result == shell + (Neighbors(g, node) - c)
  {
    result := shell;
    var neighbors := Neighbors(g, node);
    var rest := neighbors;
    while rest != {}
      invariant rest <= neighbors
      invariant result == shell + ((neighbors - rest) - c)
      decreases rest
    {
      NonEmptyHasElement(rest);
      var neighbor :| neighbor in rest;
      if neighbor !in c {
        result := result + {neighbor};
      }
      rest := rest - {neighbor};
    }
    assert neighbors - rest == neighbors;
  }

  /** candidate_scores: fitness gain, omega and influence of every shell node. */
  method ScoreCandidates(g: Graph, power: nat -> real, c: set<int>, shell: set<int>, currentFitness: real)
    returns (scores: map<int, CandidateScore>)
    requires currentFitness == FitnessValue(g, power, c)
    ensures scores.Keys == shell
    ensures ScoresAgree(SourceScorer(g, power), c, shell, scores)
  {
    scores := map[];
    var rest := shell;
    while rest != {}
      invariant rest <= shell
      invariant scores.Keys == shell - rest
      invariant ScoresAgree(SourceScorer(g, power), c, shell - rest, scores)
      decreases rest
    {
      NonEmptyHasElement(rest);
      var candidate :| candidate in rest;
      var score := ScoreCandidate(g, power, c, candidate, currentFitness);
      scores := scores[candidate := score];
      rest := rest - {candidate};
    }
  }

  method ScoreCandidate(g: Graph, power: nat -> real, c: set<int>, candidate: int, currentFitness: real)
    returns (score: CandidateScore)
    requires currentFitness == FitnessValue(g, power, c)
    ensures score == SourceScorer(g, power)(c, candidate)
  {
    var testCommunity := c + {candidate};
    var testFitness := ComputeFitness(g, power, testCommunity);
    assert testFitness == FitnessValue(g, power, c + {candidate});
    var omegaValue := Omega(g, candidate, c);
    var influence := Influence(g, candidate, c);
    score := CandidateScore(testFitness - currentFitness, omegaValue, influence);
  }

  /** max(candidate_scores.items(), key=criterion): over the ascending
      candidate order the first maximum wins, i.e. the smallest id. */
  method ArgMaxBy(shell: set<int>, scores: map<int, CandidateScore>, k: Criterion) returns (best: int)
    requires shell != {} && shell <= scores.Keys
    ensures IsArgMax(best, shell, MapComponent(scores, k))
  {
    ghost var f := MapComponent(scores, k);
    NonEmptyHasElement(shell);
    best :| best in shell;
    var rest := shell - {best};
    while rest != {}
      invariant rest <= shell && best in shell && best !in rest
      invariant IsArgMax(best, shell - rest, f)
      decreases rest
    {
      NonEmptyHasElement(rest);
      var candidate :| candidate in rest;
      var value := Component(scores[candidate], k);
      var bestValue := Component(scores[best], k);
      if value > bestValue || (value == bestValue && candidate < best) {
        best := candidate;
      }
      rest := rest - {candidate};
    }
  }

  /** The loop over the sorted argmax nodes with best_score starting at
      minus infinity (None) and the smallest id winning ties. */
  method PickAmongArgmax(nodes: set<int>, scores: map<int, CandidateScore>) returns (best: int)
    requires nodes != {} && nodes <= scores.Keys
    ensures IsArgMax(best, nodes, MapBestOfThree(scores))
  {
    ghost var f := MapBestOfThree(scores);
    var bestCandidate: Option<int> := None;
    var rest := nodes;
    while rest != {}
      invariant rest <= nodes
      invariant bestCandidate.None? <==> rest == nodes
      invariant bestCandidate.Some? ==> IsArgMax(bestCandidate.value, nodes - rest, f)
      decreases rest
    {
      NonEmptyHasElement(rest);
      var candidate :| candidate in rest;
      var score := BestOfThree(scores[candidate]);
      if bestCandidate.None?
         || score > BestOfThree(scores[bestCandidate.value])
         || (score == BestOfThree(scores[bestCandidate.value]) && candidate < bestCandidate.value) {
        bestCandidate := Some(candidate);
      }
      rest := rest - {candidate};
    }
    assert nodes - rest == nodes;
    best := bestCandidate.value;
  }

  /** The scoring and selection part of a round: the chosen candidate and
      its scores. */
  method ChooseCandidate(g: Graph, power: nat -> real, community: set<int>, shellNodes: set<int>, currentFitness: real)
    returns (bestCandidate: int, score: CandidateScore)
    requires shellNodes == Shell(g, community) && shellNodes != {}
    requires currentFitness == FitnessValue(g, power, community)
    ensures bestCandidate == Chosen(g, SourceScorer(g, power), community)
    ensures score == SourceScorer(g, power)(community, bestCandidate)
  {
    var scores := ScoreCandidates(g, power, community, shellNodes, currentFitness);
    var bestByFitness := ArgMaxBy(shellNodes, scores, ByFitness);
    var bestByOmega := ArgMaxBy(shellNodes, scores, ByOmega);
    var bestByInfluence := ArgMaxBy(shellNodes, scores, ByInfluence);
    var argmaxNodes := {bestByFitness, bestByOmega, bestByInfluence};
    bestCandidate := PickAmongArgmax(argmaxNodes, scores);
    ChosenFromScores(g, SourceScorer(g, power), community, scores,
                     bestByFitness, bestByOmega, bestByInfluence, bestCandidate);
    score := scores[bestCandidate];
  }

  /** One pass of expand_seed's loop body: the node it adds, or None where
      the source breaks out of the loop. */
  method ExpansionRound(g: Graph, power: nat -> real, maxCommunitySize: nat, community: set<int>, iterations: nat)
    returns (added: Option<int>)
    ensures added == Step(g, SourceScorer(g, power), maxCommunitySize, community, iterations)
  {
    var currentFitness := ComputeFitness(g, power, community);
    var shellNodes := ShellNodes(g, community);
    if shellNodes == {} {
      return None;
    }
    if |community| >= maxCommunitySize {
      return None;
    }
    var bestCandidate, score := ChooseCandidate(g, power, community, shellNodes, currentFitness);
    if Accepts(score, iterations) {
      added := Some(bestCandidate);
    } else {
      added := None;
    }
  }

  /** expand_seed: grows the seed round by round until a round stops. */
  method ExpandSeed(g: Graph, power: nat -> real, seed: set<int>) returns (community: set<int>)
    ensures community == Expanded(g, power, seed)
  {
    ghost var scorer := SourceScorer(g, power);
    var maxCommunitySize := MaxCommunitySize(|g.Keys|);
    community := seed;
    var improved := true;
    var iterations: nat := 0;
    while improved
      invariant ExpandFrom(g, scorer, maxCommunitySize, community, iterations) == Expanded(g, power, seed)
      invariant !improved ==> community == Expanded(g, power, seed)
      decreases maxCommunitySize - |community|
    {
      improved := false;
      var added := ExpansionRound(g, power, maxCommunitySize, community, iterations);
      if added.None? {
        break;
      }
      community := community + {added.value};
      improved := true;
      iterations := iterations + 1;
    }
  }
}
