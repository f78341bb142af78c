/**
  Node and set similarity measures of GLOD: common-neighbour similarity (NC),
  the standard and the "improved" Jaccard coefficient of two communities,
  the influence function F(v, S) and the hybrid node fitness omega
  (Equation 4 of the GLOD paper, as the source implements it).
 */
module Similarity {
  import opened Graphs
  import opened SetSums
  import opened Ratios

  /** NC(u, v): the number of neighbours u and v share. */
  function CommonNeighborSimilarity(g: Graph, u: int, v: int): (nc: nat)
    ensures nc <= Degree(g, u) && nc <= Degree(g, v)
  {
    var common := Neighbors(g, u) * Neighbors(g, v);
    SubsetCard(common, Neighbors(g, u));
    SubsetCard(common, Neighbors(g, v));
    |common|
  }

  lemma CommonNeighborSimilaritySymmetric(g: Graph, u: int, v: int)
    ensures CommonNeighborSimilarity(g, u, v) == CommonNeighborSimilarity(g, v, u)
  {
    assert Neighbors(g, u) * Neighbors(g, v) == Neighbors(g, v) * Neighbors(g, u);
  }

  /** |A ∩ B| / |A ∪ B|, and 0 when the union is empty. */
  function Jaccard(a: set<int>, b: set<int>): (r: real)
    ensures 0.0 <= r <= 1.0
    ensures a + b == {} ==> r == 0.0
    ensures r == 0.0 <==> a * b == {}
    ensures r == 1.0 <==> a == b && a != {}
  {
    var inter := |a * b|;
    var union := |a + b|;
    SubsetCard(a * b, a + b);
    SubsetCardEqual(a * b, a + b);
    if union == 0 then 0.0
    else
      CountRatio(inter, union);
      assert a * b == a + b ==> a == b by {
        if a * b == a + b {
          assert forall x | x in a :: x in b;
          assert forall x | x in b :: x in a;
        }
      }
      inter as real / union as real
  }

  lemma JaccardSymmetric(a: set<int>, b: set<int>)
    ensures Jaccard(a, b) == Jaccard(b, a)
  {
    assert a * b == b * a && a + b == b + a;
  }

  /** Equation 8 of the paper: each shared node contributes 1/|Ci ∪ Cj|;
      the source reads both communities from its list by index. */
  function ImprovedJaccard(communities: seq<set<int>>, i: nat, j: nat): (r: real)
    requires i < |communities| && j < |communities|
    ensures r == Jaccard(communities[i], communities[j])
  {
    var c1 := communities[i];
    var c2 := communities[j];
    var overlapping := c1 * c2;
    if overlapping == {} then 0.0
    else
      var unionSize := |c1 + c2|;
      if unionSize == 0 then 0.0 else |overlapping| as real / unionSize as real
  }

  /** F(v, S) = |N(v) ∩ S| / |S|, and 0 for an empty seed. */
  function Influence(g: Graph, v: int, seed: set<int>): (r: real)
    ensures 0.0 <= r <= 1.0
    ensures seed == {} ==> r == 0.0
    ensures seed != {} ==> (r == 0.0 <==> Neighbors(g, v) * seed == {})
    ensures seed != {} ==> (r == 1.0 <==> seed <= Neighbors(g, v))
  {
    var inter := Neighbors(g, v) * seed;
    SubsetCard(inter, seed);
    SubsetCardEqual(inter, seed);
    if |seed| == 0 then 0.0
    else
      CountRatio(|inter|, |seed|);
      assert inter == seed <==> seed <= Neighbors(g, v);
      |inter| as real / |seed| as real
  }

  /** The bracketed term of Equation 4 for a candidate `vi` and a community
      member `vj` adjacent to it: first-order plus 0.1 times second-order
      neighbourhood overlap. */
  function PairSimilarity(g: Graph, vi: int, vj: int): (r: real)
    ensures 0.0 < r <= 1.2
  {
    var ni := Neighbors(g, vi);
    var nj := Neighbors(g, vj);
    var n2i := TwoHop(g, vi);
    var n2j := TwoHop(g, vj);
    var denom2 := if n2j == {} then 1 else |n2j|;
    SubsetCard(ni * nj, nj);
    SubsetCard(n2i * n2j, n2j);
    var part1 := (|ni * nj| + 1) as real / (|nj| + 1) as real;
    var part2 := (|n2i * n2j| + 1) as real / denom2 as real;
    CountRatio(|ni * nj| + 1, |nj| + 1);
    assert 0.0 < part2 <= 2.0 by {
      if n2j == {} {
        assert n2i * n2j == {};
      } else {
        DivMonotone((|n2i * n2j| + 1) as real, 2.0 * denom2 as real, denom2 as real);
        assert (2.0 * denom2 as real) / denom2 as real == 2.0;
      }
    }
    part1 + 0.1 * part2
  }

  function PairSimilarityOf(g: Graph, vi: int): int -> real {
    vj => PairSimilarity(g, vi, vj)
  }

  /** ω(vi) with respect to community C: the best pair similarity over the
      members adjacent to vi, divided by the degree of vi; 0 when vi has no
      neighbour in C. */
  ghost function OmegaValue(g: Graph, vi: int, c: set<int>): real {
    var nci := Neighbors(g, vi) * c;
    if nci == {} then 0.0
    else if Degree(g, vi) == 0 then 0.0
    else Quotient(MaxOver(nci, PairSimilarityOf(g, vi)), Degree(g, vi) as real)
  }

  lemma PairSimilarityBounds(g: Graph, vi: int, s: set<int>)
    ensures forall x | x in s :: 0.0 < PairSimilarityOf(g, vi)(x) <= 1.2
  {
    forall x | x in s ensures 0.0 < PairSimilarityOf(g, vi)(x) <= 1.2 {
      var r := PairSimilarity(g, vi, x);
    }
  }

  /** omega never exceeds 1.2 and is positive exactly when vi has a neighbour in C. */
  lemma OmegaBounds(g: Graph, vi: int, c: set<int>)
    ensures 0.0 <= OmegaValue(g, vi, c) <= 1.2
    ensures OmegaValue(g, vi, c) > 0.0 <==> Neighbors(g, vi) * c != {}
  {
    var nci := Neighbors(g, vi) * c;
    if nci != {} {
      var f := PairSimilarityOf(g, vi);
      PairSimilarityBounds(g, vi, nci);
      MaxOverBounds(nci, f, 1.2);
      var x := Pick(nci);
      SubsetCard(nci, Neighbors(g, vi));
      var m := MaxOver(nci, f);
      var d := Degree(g, vi);
      assert m > 0.0 && d >= 1;
      DivByAtLeastOne(m, d as real);
      assert OmegaValue(g, vi, c) == m / d as real;
    }
  }

  /** The source's omega: the maximum is accumulated in a loop over the
      community neighbours of vi (see MaxPairSimilarity), then divided by
      the degree of vi. */
  method Omega(g: Graph, vi: int, c: set<int>) returns (w: real)
    ensures w == OmegaValue(g, vi, c)
  {
    var neighborsVi := Neighbors(g, vi);
    var nci := neighborsVi * c;
    if nci == {} {
      return 0.0;
    }
    var maxScore := MaxPairSimilarity(g, vi, nci);
    var degreeVi := |neighborsVi|;
    if degreeVi == 0 {
      return 0.0;
    }
    w := Quotient(maxScore, degreeVi as real);
  }

  /** The max accumulator of omega, started at 0. */
  method MaxPairSimilarity(g: Graph, vi: int, nci: set<int>) returns (maxScore: real)
    ensures maxScore == MaxOver(nci, PairSimilarityOf(g, vi))
  {
    ghost var f := PairSimilarityOf(g, vi);
    PairSimilarityBounds(g, vi, nci);
    MaxOverBounds(nci, f, 1.2);
    maxScore := 0.0;
    var rest := nci;
    while rest != {}
      invariant rest <= nci
      invariant maxScore >= 0.0
      invariant Max(maxScore, MaxOver(rest, f)) == MaxOver(nci, f)
      decreases rest
    {
      NonEmptyHasElement(rest);
      var vj :| vj in rest;
      var score := PairSimilarity(g, vi, vj);
      MaxOverRemove(rest, f, vj);
      maxScore := Max(maxScore, score);
      rest := rest - {vj};
    }
  }
}
