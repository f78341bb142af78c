/**
  Overlap-aware modularities of a cover: Shen's extended modularity EQ and
  Nicosia's Q_ov with product belonging factors. Both sum, over every
  community and every ordered pair (v, w) of its members (v == w included),
  a weight times (A_vw - k_v k_w / 2m), and divide by 2m; 0 for a graph
  without edges.
 */
module Modularity {
  import opened Graphs
  import opened SetSums
  import opened Ratios

  /** How many communities of the cover contain v. */
  function CountContaining(cs: seq<set<int>>, v: int): nat {
    if cs == [] then 0
    else CountContaining(cs[..|cs| - 1], v) + (if v in cs[|cs| - 1] then 1 else 0)
  }

  /** O_v (Shen) and s_i (Lázár, Nicosia): the number of communities
      containing v, with 0 read as 1 to avoid a division by zero. */
  function Membership(cs: seq<set<int>>, v: int): (o: nat)
    ensures o >= 1
    ensures o == 1 <==> CountContaining(cs, v) <= 1
  {
    var count := CountContaining(cs, v);
    if count > 0 then count else 1
  }

  /** Every community is made of graph nodes (the source looks O_v up in a
      dictionary keyed by the graph's nodes). */
  ghost predicate CommunitiesInGraph(g: Graph, cs: seq<set<int>>) {
    forall k | 0 <= k < |cs| :: cs[k] <= g.Keys
  }

  /** The dictionary of membership counts, filled node by node. */
  method MembershipCounts(g: Graph, cs: seq<set<int>>) returns (counts: map<int, nat>)
    ensures counts.Keys == g.Keys
    ensures forall v | v in g :: counts[v] == Membership(cs, v)
  {
    counts := map[];
    var rest := g.Keys;
    while rest != {}
      invariant rest <= g.Keys
      invariant counts.Keys == g.Keys - rest
      invariant forall v | v in counts :: counts[v] == Membership(cs, v)
      decreases rest
    {
      NonEmptyHasElement(rest);
      var node :| node in rest;
      var count := CountCommunities(cs, node);
      counts := counts[node := if count > 0 then count else 1];
      rest := rest - {node};
    }
  }

  /** sum(1 for comm in communities if node in comm). */
  method CountCommunities(cs: seq<set<int>>, v: int) returns (count: nat)
    ensures count == CountContaining(cs, v)
  {
    count := 0;
    for k := 0 to |cs|
      invariant count == CountContaining(cs[..k], v)
    {
      assert cs[..k + 1][..k] == cs[..k];
      if v in cs[k] {
        count := count + 1;
      }
    }
    assert cs[..|cs|] == cs;
  }

  /** A_vw. */
  function Adjacency(g: Graph, v: int, w: int): real {
    if HasEdge(g, v, w) then 1.0 else 0.0
  }

  /** The null-model term k_v k_w / 2m. */
  function ExpectedEdges(g: Graph, m: nat, v: int, w: int): real {
    if m == 0 then 0.0 else Quotient((Degree(g, v) * Degree(g, w)) as real, (2 * m) as real)
  }

  /** Shen's pair term: (1 / (O_v O_w)) (A_vw - k_v k_w / 2m). */
  function ShenTerm(g: Graph, m: nat, ov: nat, ow: nat, v: int, w: int): real {
    if ov == 0 || ow == 0 then 0.0
    else Quotient(1.0, (ov * ow) as real) * (Adjacency(g, v, w) - ExpectedEdges(g, m, v, w))
  }

  /** Nicosia's pair term: (1/s_i)(1/s_j) (A_ij - k_i k_j / 2m). */
  function NicosiaTerm(g: Graph, m: nat, si: nat, sj: nat, v: int, w: int): real {
    if si == 0 || sj == 0 then 0.0
    else Quotient(1.0, si as real) * Quotient(1.0, sj as real) * (Adjacency(g, v, w) - ExpectedEdges(g, m, v, w))
  }

  type PairTerm = (int, int) -> real

  ghost function ShenTermOf(g: Graph, cs: seq<set<int>>, m: nat): PairTerm {
    (v, w) => ShenTerm(g, m, Membership(cs, v), Membership(cs, w), v, w)
  }

  ghost function NicosiaTermOf(g: Graph, cs: seq<set<int>>, m: nat): PairTerm {
    (v, w) => NicosiaTerm(g, m, Membership(cs, v), Membership(cs, w), v, w)
  }

  /** The pair term the source evaluates, reading O_v from its dictionary. */
  function ShenTermWith(g: Graph, m: nat, counts: map<int, nat>): PairTerm {
    (v, w) => if v in counts && w in counts then ShenTerm(g, m, counts[v], counts[w], v, w) else 0.0
  }

  function NicosiaTermWith(g: Graph, m: nat, counts: map<int, nat>): PairTerm {
    (v, w) => if v in counts && w in counts then NicosiaTerm(g, m, counts[v], counts[w], v, w) else 0.0
  }

  /** Sum over w in c of term(v, w). */
  ghost function RowSum(c: set<int>, term: PairTerm, v: int): real {
    SumR(c, w => term(v, w))
  }

  ghost function RowSumOf(c: set<int>, term: PairTerm): int -> real {
    v => RowSum(c, term, v)
  }

  /** Sum over ordered pairs (v, w) of members of c. */
  ghost function PairSum(c: set<int>, term: PairTerm): real {
    SumR(c, RowSumOf(c, term))
  }

  /** Sum of PairSum over the communities of the cover, in order. */
  ghost function CoverSum(cs: seq<set<int>>, term: PairTerm): real {
    if cs == [] then 0.0 else CoverSum(cs[..|cs| - 1], term) + PairSum(cs[|cs| - 1], term)
  }

  /** EQ of Shen et al. */
  ghost function ShenValue(g: Graph, cs: seq<set<int>>): real {
    var m := EdgeCount(g);
    if m == 0 then 0.0 else Quotient(CoverSum(cs, ShenTermOf(g, cs, m)), (2 * m) as real)
  }

  /** Q_ov of Nicosia et al. with belonging factor 1/s_i. */
  ghost function NicosiaValue(g: Graph, cs: seq<set<int>>): real {
    var m := EdgeCount(g);
    if m == 0 then 0.0 else Quotient(CoverSum(cs, NicosiaTermOf(g, cs, m)), (2 * m) as real)
  }

  lemma {:induction false} CoverSumCongruent(cs: seq<set<int>>, t1: PairTerm, t2: PairTerm)
    requires forall k, v, w | 0 <= k < |cs| && v in cs[k] && w in cs[k] :: t1(v, w) == t2(v, w)
    ensures CoverSum(cs, t1) == CoverSum(cs, t2)
    decreases |cs|
  {
    if cs != [] {
      var init := cs[..|cs| - 1];
      var c := cs[|cs| - 1];
      assert forall k | 0 <= k < |init| :: init[k] == cs[k];
      CoverSumCongruent(init, t1, t2);
      PairSumCongruent(c, t1, t2);
    }
  }

  lemma PairSumCongruent(c: set<int>, t1: PairTerm, t2: PairTerm)
    requires forall v, w | v in c && w in c :: t1(v, w) == t2(v, w)
    ensures PairSum(c, t1) == PairSum(c, t2)
  {
    forall v | v in c ensures RowSumOf(c, t1)(v) == RowSumOf(c, t2)(v) {
      SumRCongruent(c, w => t1(v, w), w => t2(v, w));
    }
    SumRCongruent(c, RowSumOf(c, t1), RowSumOf(c, t2));
  }

  /** The two modularities agree: 1/(O_v O_w) = (1/s_v)(1/s_w) since both
      count memberships the same way. */
  /** 1/(O_v O_w) and (1/O_v)(1/O_w) weigh every pair alike. */
  lemma PairTermsAgree(g: Graph, m: nat, ov: nat, ow: nat, v: int, w: int)
    ensures ShenTerm(g, m, ov, ow, v, w) == NicosiaTerm(g, m, ov, ow, v, w)
  {
    if ov != 0 && ow != 0 {
      ReciprocalProduct(ov as real, ow as real);
    }
  }

  lemma ShenEqualsNicosia(g: Graph, cs: seq<set<int>>)
    ensures ShenValue(g, cs) == NicosiaValue(g, cs)
  {
    var m := EdgeCount(g);
    var shen := ShenTermOf(g, cs, m);
    var nicosia := NicosiaTermOf(g, cs, m);
    forall v, w ensures shen(v, w) == nicosia(v, w) {
      PairTermsAgree(g, m, Membership(cs, v), Membership(cs, w), v, w);
    }
    CoverSumCongruent(cs, shen, nicosia);
  }


  /** Both modularities are 0 on a graph without edges. */
  lemma ModularityEdgeless(g: Graph, cs: seq<set<int>>)
    requires EdgeCount(g) == 0
    ensures ShenValue(g, cs) == 0.0 && NicosiaValue(g, cs) == 0.0
  {
  }

  /** Reading the counts from the dictionary gives the same pair terms on
      community members. */
  lemma TermsFromCounts(g: Graph, cs: seq<set<int>>, m: nat, counts: map<int, nat>)
    requires CommunitiesInGraph(g, cs)
    requires counts.Keys == g.Keys && forall v | v in g :: counts[v] == Membership(cs, v)
    ensures CoverSum(cs, ShenTermWith(g, m, counts)) == CoverSum(cs, ShenTermOf(g, cs, m))
    ensures CoverSum(cs, NicosiaTermWith(g, m, counts)) == CoverSum(cs, NicosiaTermOf(g, cs, m))
  {
    forall k, v, w | 0 <= k < |cs| && v in cs[k] && w in cs[k]
      ensures ShenTermWith(g, m, counts)(v, w) == ShenTermOf(g, cs, m)(v, w)
      ensures NicosiaTermWith(g, m, counts)(v, w) == NicosiaTermOf(g, cs, m)(v, w)
    {
      assert v in g && w in g;
    }
    CoverSumCongruent(cs, ShenTermWith(g, m, counts), ShenTermOf(g, cs, m));
    CoverSumCongruent(cs, NicosiaTermWith(g, m, counts), NicosiaTermOf(g, cs, m));
  }

  /** The inner loop over w for a fixed v. */
  method RowTotal(c: set<int>, term: PairTerm, v: int) returns (total: real)
    ensures total == RowSum(c, term, v)
  {
    ghost var f := w => term(v, w);
    total := 0.0;
    var rest := c;
    while rest != {}
      invariant rest <= c
      invariant total + SumR(rest, f) == SumR(c, f)
      decreases rest
    {
      NonEmptyHasElement(rest);
      var w :| w in rest;
      SumRRemove(rest, f, w);
      total := total + term(v, w);
      rest := rest - {w};
    }
  }

  /** The double loop over the members of one community. */
  method PairTotal(c: set<int>, term: PairTerm) returns (total: real)
    ensures total == PairSum(c, term)
  {
    total := 0.0;
    var rest := c;
    while rest != {}
      invariant rest <= c
      invariant total + SumR(rest, RowSumOf(c, term)) == PairSum(c, term)
      decreases rest
    {
      NonEmptyHasElement(rest);
      var v :| v in rest;
      SumRRemove(rest, RowSumOf(c, term), v);
      var row := RowTotal(c, term, v);
      total := total + row;
      rest := rest - {v};
    }
  }

  /** The loop over the communities of the cover. */
  method CoverTotal(cs: seq<set<int>>, term: PairTerm) returns (total: real)
    ensures total == CoverSum(cs, term)
  {
    total := 0.0;
    for k := 0 to |cs|
      invariant total == CoverSum(cs[..k], term)
    {
      assert cs[..k + 1][..k] == cs[..k];
      var communityTotal := PairTotal(cs[k], term);
      total := total + communityTotal;
    }
    assert cs[..|cs|] == cs;
  }

  /** calculate_shen_modularity. */
  method ShenModularity(g: Graph, cs: seq<set<int>>) returns (eq: real)
    requires EdgeCount(g) > 0 ==> CommunitiesInGraph(g, cs)
    ensures eq == ShenValue(g, cs)
  {
    var m := EdgeCount(g);
    if m == 0 {
      return 0.0;
    }
    var counts := MembershipCounts(g, cs);
    TermsFromCounts(g, cs, m, counts);
    var totalEq := CoverTotal(cs, ShenTermWith(g, m, counts));
    eq := Quotient(totalEq, (2 * m) as real);
  }

  /** calculate_nicosia_modularity. */
  method NicosiaModularity(g: Graph, cs: seq<set<int>>) returns (qOv: real)
    requires EdgeCount(g) > 0 ==> CommunitiesInGraph(g, cs)
    ensures qOv == NicosiaValue(g, cs)
  {
    var m := EdgeCount(g);
    if m == 0 {
      return 0.0;
    }
    var counts := MembershipCounts(g, cs);
    TermsFromCounts(g, cs, m, counts);
    var total := CoverTotal(cs, NicosiaTermWith(g, m, counts));
    qOv := Quotient(total, (2 * m) as real);
  }
}
