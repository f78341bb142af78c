/**
  The community fitness f(C) = k_in / (k_in + k_out)^alpha. The counts are
  concrete; the real power x^alpha is a parameter `power` supplied by the
  caller (the algorithm object fixes it from its alpha).
 */
module Fitness {
  import opened Graphs
  import opened SetSums
  import opened Ratios

  /** Neighbours of `u` inside / outside `c`. */
  function InsideCountOf(g: Graph, c: set<int>): int -> int {
    u => |Neighbors(g, u) * c|
  }

  function OutsideCountOf(g: Graph, c: set<int>): int -> int {
    u => |Neighbors(g, u) - c|
  }

  /** k_in: over the members, the neighbours inside C (an internal edge is
      seen from both ends, so it counts twice). */
  ghost function KIn(g: Graph, c: set<int>): nat {
    SumNonneg(c, InsideCountOf(g, c));
    Sum(c, InsideCountOf(g, c))
  }

  /** k_out: over the members, the neighbours outside C. */
  ghost function KOut(g: Graph, c: set<int>): nat {
    SumNonneg(c, OutsideCountOf(g, c));
    Sum(c, OutsideCountOf(g, c))
  }

  /** Every neighbour of a member is inside or outside C: k_in + k_out is the
      total degree of the community, so f(C) = k_in / (Σ degree)^alpha. */
  lemma KInPlusKOut(g: Graph, c: set<int>)
    ensures KIn(g, c) + KOut(g, c) == Sum(c, DegreeOf(g))
  {
    forall u | u in c
      ensures InsideCountOf(g, c)(u) + OutsideCountOf(g, c)(u) == DegreeOf(g)(u)
    {
      var n := Neighbors(g, u);
      assert n == (n * c) + (n - c);
      assert (n * c) * (n - c) == {};
    }
    SumAdd(c, InsideCountOf(g, c), OutsideCountOf(g, c), DegreeOf(g));
  }

  /** k_in / (k_in + k_out)^alpha, and 0 when there is no internal edge or
      the denominator is 0. */
  function FitnessOfCounts(power: nat -> real, kIn: nat, kOut: nat): real {
    if kIn == 0 then 0.0
    else if power(kIn + kOut) == 0.0 then 0.0
    else Quotient(kIn as real, power(kIn + kOut))
  }

  /** f(C). */
  ghost function FitnessValue(g: Graph, power: nat -> real, c: set<int>): real {
    FitnessOfCounts(power, KIn(g, c), KOut(g, c))
  }

  /** For every alpha, x^alpha > 0 for a count x >= 1, so the fitness is
      never negative and is 0 exactly when C has no internal edge. */
  lemma FitnessSign(g: Graph, power: nat -> real, c: set<int>)
    requires forall n: nat | n >= 1 :: power(n) > 0.0
    ensures FitnessValue(g, power, c) >= 0.0
    ensures FitnessValue(g, power, c) == 0.0 <==> KIn(g, c) == 0
  {
    var kIn := KIn(g, c);
    var kOut := KOut(g, c);
    if kIn != 0 {
      QuotientPositive(kIn as real, power(kIn + kOut));
    }
  }

  /** With alpha >= 1 (so x^alpha >= x for every count x >= 1) the fitness
      lies in [0, 1]; it is 0 exactly when C has no internal edge. */
  lemma FitnessBounds(g: Graph, power: nat -> real, c: set<int>)
    requires forall n: nat | n >= 1 :: power(n) >= n as real
    ensures 0.0 <= FitnessValue(g, power, c) <= 1.0
    ensures FitnessValue(g, power, c) == 0.0 <==> KIn(g, c) == 0
  {
    var kIn := KIn(g, c);
    var kOut := KOut(g, c);
    if kIn != 0 {
      var d := power(kIn + kOut);
      assert d >= (kIn + kOut) as real >= kIn as real > 0.0;
      DivAtMostOne(kIn as real, d);
    }
  }

  /** With alpha = 1 the fitness is k_in / (k_in + k_out), and it is 1
      exactly when C has internal edges and none leaving it. */
  lemma FitnessLinear(g: Graph, power: nat -> real, c: set<int>)
    requires forall n: nat :: power(n) == n as real
    ensures FitnessValue(g, power, c) == 1.0 <==> KIn(g, c) > 0 && KOut(g, c) == 0
  {
    var kIn := KIn(g, c);
    var kOut := KOut(g, c);
    if kIn != 0 {
      CountRatio(kIn, kIn + kOut);
    }
  }

  /** The inner loop of fitness_function for one member. */
  method CountMemberDegrees(g: Graph, c: set<int>, node: int) returns (kIn: nat, kOut: nat)
    ensures kIn == |Neighbors(g, node) * c| && kOut == |Neighbors(g, node) - c|
  {
    kIn, kOut := 0, 0;
    var rest := Neighbors(g, node);
    while rest != {}
      invariant kIn + |rest * c| == |Neighbors(g, node) * c|
      invariant kOut + |rest - c| == |Neighbors(g, node) - c|
      decreases rest
    {
      NonEmptyHasElement(rest);
      var neighbor :| neighbor in rest;
      var next := rest - {neighbor};
      if neighbor in c {
        assert rest * c == next * c + {neighbor};
        assert rest - c == next - c;
        kIn := kIn + 1;
      } else {
        assert rest * c == next * c;
        assert rest - c == (next - c) + {neighbor};
        kOut := kOut + 1;
      }
      rest := next;
    }
  }

  method CountDegrees(g: Graph, c: set<int>) returns (kIn: nat, kOut: nat)
    ensures kIn == KIn(g, c) && kOut == KOut(g, c)
  {
    kIn, kOut := 0, 0;
    ghost var inside := InsideCountOf(g, c);
    ghost var outside := OutsideCountOf(g, c);
    var rest := c;
    while rest != {}
      invariant kIn + Sum(rest, inside) == KIn(g, c)
      invariant kOut + Sum(rest, outside) == KOut(g, c)
      decreases rest
    {
      NonEmptyHasElement(rest);
      var node :| node in rest;
      SumRemove(rest, inside, node);
      SumRemove(rest, outside, node);
      var nodeIn, nodeOut := CountMemberDegrees(g, c, node);
      assert nodeIn == inside(node) && nodeOut == outside(node);
      kIn, kOut := kIn + nodeIn, kOut + nodeOut;
      rest := rest - {node};
    }
  }


  method ComputeFitness(g: Graph, power: nat -> real, c: set<int>) returns (f: real)
    ensures f == FitnessValue(g, power, c)
  {
    var kIn, kOut := CountDegrees(g, c);
    if kIn == 0 {
      return 0.0;
    }
    var denominator := power(kIn + kOut);
    if denominator == 0.0 {
      return 0.0;
    }
    f := Quotient(kIn as real, denominator);
  }
}
