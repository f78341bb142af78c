/**
  The read-only graph view every phase of GLOD works on: an undirected graph
  with totally ordered (integer) node ids, given as an adjacency map.
 */
module Graphs {

  /** Node id -> set of neighbour ids. */
  type Graph = map<int, set<int>>

  /** What a simple undirected graph guarantees: every neighbour is itself a
      node, adjacency is symmetric, and there are no self-loops. */
  ghost predicate ValidGraph(g: Graph) {
    forall u | u in g :: forall v | v in g[u] :: v in g && u in g[v] && v != u
  }

  /** The neighbours of `v`; a node outside the graph has none. */
  function Neighbors(g: Graph, v: int): set<int> {
    if v in g then g[v] else {}
  }

  function Degree(g: Graph, v: int): nat {
    |Neighbors(g, v)|
  }

  function DegreeOf(g: Graph): int -> int {
    v => Degree(g, v)
  }

  predicate HasEdge(g: Graph, u: int, v: int) {
    u in g && v in g[u]
  }

  function NodeCount(g: Graph): nat {
    |g.Keys|
  }

  /** Each undirected edge once, as the pair (smaller id, larger id). */
  function Edges(g: Graph): set<(int, int)> {
    set u, v | u in g && v in g[u] && u < v :: (u, v)
  }

  function EdgeCount(g: Graph): nat {
    |Edges(g)|
  }

  /** The shell of a community: non-members adjacent to some member. It is
      disjoint from the community and, in a valid graph, made of graph nodes. */
  function Shell(g: Graph, c: set<int>): (sh: set<int>)
    ensures forall v :: v in sh <==> v !in c && exists u :: u in c && v in Neighbors(g, u)
    ensures sh !! c
    ensures ValidGraph(g) ==> sh <= g.Keys
  {
    set u, v | u in c && v in Neighbors(g, u) && v !in c :: v
  }

  /** Second-order neighbourhood: every node reachable in exactly two steps. */
  function TwoHop(g: Graph, v: int): set<int> {
    set u, w | u in Neighbors(g, v) && w in Neighbors(g, u) :: w
  }

  /** Center order of the seeding phase: larger degree first, then smaller id. */
  predicate CenterBefore(g: Graph, u: int, v: int) {
    Degree(g, u) > Degree(g, v) || (Degree(g, u) == Degree(g, v) && u < v)
  }

  /** The center order is a strict total order on node ids. */
  lemma CenterOrder(g: Graph, u: int, v: int, w: int)
    ensures !CenterBefore(g, u, u)
    ensures CenterBefore(g, u, v) && CenterBefore(g, v, w) ==> CenterBefore(g, u, w)
    ensures u != v ==> CenterBefore(g, u, v) || CenterBefore(g, v, u)
  {
  }
}
