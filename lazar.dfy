/**
  Lázár's overlapping modularity M^ov: for each community of at least two
  nodes, the average over its members of (k_in - k_out) / (d_i s_i), times
  the community's internal edge density; the cover's value is the mean
  over all K communities (communities below two nodes contribute 0 but
  still count in K).
 */
module Lazar {
  import opened Graphs
  import opened SetSums
  import opened Ratios
  import Seeding
  import Modularity

  /** (k_in - k_out) / (d_i s_i) of member i, and 0 for an isolated node. */
  function NodeContribution(g: Graph, c: set<int>, si: nat, i: int): real {
    var neighbors := Neighbors(g, i);
    var kIn := |neighbors * c|;
    var kOut := |neighbors| - kIn;
    var d := |neighbors|;
    if d > 0 && si > 0 then Quotient((kIn - kOut) as real, (d * si) as real) else 0.0
  }

  ghost function ContributionOf(g: Graph, cs: seq<set<int>>, c: set<int>): int -> real {
    i => NodeContribution(g, c, Modularity.Membership(cs, i), i)
  }

  /** n (n - 1) / 2, the number of node pairs of a community of n nodes. */
  function MaxPossibleEdges(n: nat): real {
    (n * (n - 1)) as real / 2.0
  }

  /** A community of at least two nodes has at least one node pair. */
  lemma PairsPositive(n: nat)
    requires n >= 2
    ensures MaxPossibleEdges(n) >= 1.0
  {
    var m := n - 1;
    assert m >= 1;
    assert n * m >= n * 1;
  }

  /** M^ov_cr of one community c of the cover cs. */
  ghost function CommunityLazar(g: Graph, cs: seq<set<int>>, c: set<int>): real {
    var n := |c|;
    if n < 2 then 0.0
    else
      PairsPositive(n);
      var density := Quotient(Seeding.InternalEdges(g, c) as real, MaxPossibleEdges(n));
      Quotient(SumR(c, ContributionOf(g, cs, c)), n as real) * density
  }

  /** The sum of M^ov_cr over the communities of `part`, memberships taken in cs. */
  ghost function LazarSum(g: Graph, cs: seq<set<int>>, part: seq<set<int>>): real {
    if part == [] then 0.0
    else LazarSum(g, cs, part[..|part| - 1]) + CommunityLazar(g, cs, part[|part| - 1])
  }

  /** M^ov, and 0 for an empty cover. */
  ghost function LazarValue(g: Graph, cs: seq<set<int>>): real {
    if |cs| == 0 then 0.0 else Quotient(LazarSum(g, cs, cs), |cs| as real)
  }

  /** Nodes of s with a larger id than u. */
  function Above(s: set<int>, u: int): set<int> {
    set v | v in s && u < v
  }

  function AboveCountOf(s: set<int>): int -> int {
    u => |Above(s, u)|
  }

  /** Counting, for every node, the larger nodes of s counts each pair once. */
  lemma {:induction false} PairsCount(s: set<int>)
    ensures 2 * Sum(s, AboveCountOf(s)) == |s| * (|s| - 1)
    decreases s
  {
    if s != {} {
      MinExists(s);
      var m :| m in s && forall y | y in s :: m <= y;
      var rest := s - {m};
      SumRemove(s, AboveCountOf(s), m);
      assert Above(s, m) == rest;
      forall u | u in rest ensures AboveCountOf(s)(u) == AboveCountOf(rest)(u) {
        assert Above(s, u) == Above(rest, u);
      }
      SumCongruent(rest, AboveCountOf(s), AboveCountOf(rest));
      PairsCount(rest);
      var n := |s|;
      var tail := Sum(rest, AboveCountOf(rest));
      assert |rest| == n - 1;
      assert 2 * tail == (n - 1) * (n - 2);
      assert Sum(s, AboveCountOf(s)) == (n - 1) + tail;
      PairsStep(n);
    }
  }

  lemma PairsStep(n: int)
    ensures (n - 1) * (n - 2) + 2 * (n - 1) == n * (n - 1)
  {
  }

  /** A community of n nodes has at most n (n - 1) / 2 internal edges. */
  lemma InternalEdgesAtMostPairs(g: Graph, c: set<int>)
    ensures 0 <= 2 * Seeding.InternalEdges(g, c) <= |c| * (|c| - 1)
  {
    forall u | u in c ensures Seeding.UpperCountOf(g, c)(u) <= AboveCountOf(c)(u) {
      SubsetCard(Seeding.UpperNeighborsIn(g, c, u), Above(c, u));
    }
    SumMonotone(c, Seeding.UpperCountOf(g, c), AboveCountOf(c));
    PairsCount(c);
    Seeding.SeedScoreLowerBound(g, c);
  }

  /** Each member contributes a value in [-1, 1]. */
  lemma NodeContributionBounds(g: Graph, c: set<int>, si: nat, i: int)
    ensures -1.0 <= NodeContribution(g, c, si, i) <= 1.0
  {
    var neighbors := Neighbors(g, i);
    var kIn := |neighbors * c|;
    var d := |neighbors|;
    SubsetCard(neighbors * c, neighbors);
    if d > 0 && si > 0 {
      var kOut := d - kIn;
      assert d <= d * si;
      QuotientUnit((kIn - kOut) as real, (d * si) as real);
    }
  }

  /** The internal density of a community of two or more nodes lies in [0, 1]. */
  lemma DensityBounds(g: Graph, c: set<int>)
    requires |c| >= 2
    ensures MaxPossibleEdges(|c|) > 0.0
    ensures 0.0 <= Quotient(Seeding.InternalEdges(g, c) as real, MaxPossibleEdges(|c|)) <= 1.0
  {
    var n := |c|;
    InternalEdgesAtMostPairs(g, c);
    assert n * (n - 1) >= 2;
    QuotientFraction(Seeding.InternalEdges(g, c) as real, MaxPossibleEdges(n));
  }

  /** Each M^ov_cr lies in [-1, 1]. */
  lemma CommunityLazarBounds(g: Graph, cs: seq<set<int>>, c: set<int>)
    ensures -1.0 <= CommunityLazar(g, cs, c) <= 1.0
  {
    var n := |c|;
    if n >= 2 {
      MeanContributionBounds(g, cs, c);
      DensityBounds(g, c);
      ProductUnit(Quotient(SumR(c, ContributionOf(g, cs, c)), n as real),
                  Quotient(Seeding.InternalEdges(g, c) as real, MaxPossibleEdges(n)));
    }
  }

  /** The mean contribution of the members of a non-empty community lies in [-1, 1]. */
  lemma MeanContributionBounds(g: Graph, cs: seq<set<int>>, c: set<int>)
    requires c != {}
    ensures -1.0 <= Quotient(SumR(c, ContributionOf(g, cs, c)), |c| as real) <= 1.0
  {
    var f := ContributionOf(g, cs, c);
    forall i | i in c ensures -1.0 <= f(i) <= 1.0 {
      NodeContributionBounds(g, c, Modularity.Membership(cs, i), i);
    }
    SumRUnitBounds(c, f);
    QuotientUnit(SumR(c, f), |c| as real);
  }

  lemma {:induction false} LazarSumBounds(g: Graph, cs: seq<set<int>>, part: seq<set<int>>)
    ensures -(|part| as real) <= LazarSum(g, cs, part) <= |part| as real
    decreases |part|
  {
    if part != [] {
      LazarSumBounds(g, cs, part[..|part| - 1]);
      CommunityLazarBounds(g, cs, part[|part| - 1]);
    }
  }

  /** M^ov lies in [-1, 1]. */
  lemma LazarBounds(g: Graph, cs: seq<set<int>>)
    ensures -1.0 <= LazarValue(g, cs) <= 1.0
  {
    if |cs| > 0 {
      LazarSumBounds(g, cs, cs);
      QuotientUnit(LazarSum(g, cs, cs), |cs| as real);
    }
  }

  /** calculate_lazar_modularity. */
  method LazarModularity(g: Graph, cs: seq<set<int>>) returns (lazar: real)
    requires forall k | 0 <= k < |cs| && |cs[k]| >= 2 :: cs[k] <= g.Keys
    ensures lazar == LazarValue(g, cs)
  {
    if |cs| == 0 {
      return 0.0;
    }
    var si := Modularity.MembershipCounts(g, cs);
    var total := 0.0;
    for k := 0 to |cs|
      invariant total == LazarSum(g, cs, cs[..k])
    {
      assert cs[..k + 1][..k] == cs[..k];
      var mCr := CommunityTotal(g, cs, si, cs[k]);
      total := total + mCr;
    }
    assert cs[..|cs|] == cs;
    lazar := Quotient(total, |cs| as real);
  }

  /** The body of the loop over communities: M^ov_cr of one community. */
  method CommunityTotal(g: Graph, cs: seq<set<int>>, si: map<int, nat>, c: set<int>) returns (mCr: real)
    requires |c| >= 2 ==> c <= g.Keys
    requires si.Keys == g.Keys && forall v | v in g :: si[v] == Modularity.Membership(cs, v)
    ensures mCr == CommunityLazar(g, cs, c)
  {
    var n := |c|;
    if n < 2 {
      return 0.0;
    }
    var internalEdges := Seeding.CountInternalEdges(g, c);
    PairsPositive(n);
    var density := Quotient(internalEdges as real, MaxPossibleEdges(n));
    var nodeContributions := SumContributions(g, cs, si, c);
    var mean := Quotient(nodeContributions, n as real);
    assert mean == Quotient(SumR(c, ContributionOf(g, cs, c)), n as real);
    assert density == Quotient(Seeding.InternalEdges(g, c) as real, MaxPossibleEdges(n));
    mCr := mean * density;
  }

  /** The loop over the members of one community adding their contributions. */
  method SumContributions(g: Graph, cs: seq<set<int>>, si: map<int, nat>, c: set<int>) returns (total: real)
    requires c <= g.Keys
    requires si.Keys == g.Keys && forall v | v in g :: si[v] == Modularity.Membership(cs, v)
    ensures total == SumR(c, ContributionOf(g, cs, c))
  {
    ghost var f := ContributionOf(g, cs, c);
    total := 0.0;
    var rest := c;
    while rest != {}
      invariant rest <= c
      invariant total + SumR(rest, f) == SumR(c, f)
      decreases rest
    {
      NonEmptyHasElement(rest);
      var i :| i in rest;
      SumRRemove(rest, f, i);
      assert si[i] == Modularity.Membership(cs, i);
      total := total + NodeContribution(g, c, si[i], i);
      rest := rest - {i};
    }
  }
}
