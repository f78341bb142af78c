/**
  Conductance of a single community (Leskovec et al.): the share of cut
  edges among the edges that touch the community, k_out / (k_in + k_out),
  where k_in counts each internal edge once and k_out counts the edges
  leaving the community. Lower is better.
 */
module Conductance {
  import opened Graphs
  import opened SetSums
  import opened Ratios
  import Seeding
  import Fitness

  /** k_out / (k_in + k_out), and 0 when no edge touches the community. */
  function CutRatio(kIn: nat, kOut: nat): real {
    if kIn + kOut == 0 then 0.0 else Quotient(kOut as real, (kIn + kOut) as real)
  }

  /** Internal edges of C, each once (node1 < node2). */
  ghost function InternalEdgeCount(g: Graph, c: set<int>): nat {
    Seeding.SeedScoreLowerBound(g, c);
    Seeding.InternalEdges(g, c)
  }

  /** The conductance of C; 0 for the empty community. */
  ghost function ConductanceValue(g: Graph, c: set<int>): real {
    if c == {} then 0.0 else CutRatio(InternalEdgeCount(g, c), Fitness.KOut(g, c))
  }

  /** Conductance lies in [0, 1]; it is 0 exactly when no edge leaves C,
      and 1 exactly when edges leave C but none lies inside it. */
  lemma ConductanceBounds(g: Graph, c: set<int>)
    ensures 0.0 <= ConductanceValue(g, c) <= 1.0
    ensures ConductanceValue(g, c) == 0.0 <==> Fitness.KOut(g, c) == 0
    ensures ConductanceValue(g, c) == 1.0 <==> Fitness.KOut(g, c) > 0 && InternalEdgeCount(g, c) == 0
  {
    var kIn := InternalEdgeCount(g, c);
    var kOut := Fitness.KOut(g, c);
    if c == {} {
      assert kOut == 0;
      assert kIn == 0;
    } else if kIn + kOut > 0 {
      CountRatio(kOut, kIn + kOut);
    }
  }

  /** calculate_conductance. */
  method ComputeConductance(g: Graph, c: set<int>) returns (conductance: real)
    ensures conductance == ConductanceValue(g, c)
  {
    if c == {} {
      return 0.0;
    }
    var kIn := Seeding.CountInternalEdges(g, c);
    var kOut := CountCutEdges(g, c);
    conductance := CutRatio(kIn, kOut);
  }

  /** The loop over the members summing the neighbours outside C. */
  method CountCutEdges(g: Graph, c: set<int>) returns (kOut: nat)
    ensures kOut == Fitness.KOut(g, c)
  {
    kOut := 0;
    var rest := c;
    while rest != {}
      invariant rest <= c
      invariant kOut + Sum(rest, Fitness.OutsideCountOf(g, c)) == Sum(c, Fitness.OutsideCountOf(g, c))
      decreases rest
    {
      NonEmptyHasElement(rest);
      var node :| node in rest;
      SumRemove(rest, Fitness.OutsideCountOf(g, c), node);
      var _, nodeOut := Fitness.CountMemberDegrees(g, c, node);
      kOut := kOut + nodeOut;
      rest := rest - {node};
    }
  }
}
