# GLOD overlapping community detection, modelled in Dafny

GLOD (Global Local Overlapping community Detection) finds overlapping
communities in an undirected protein–protein interaction graph. Its
`GLODAlgorithm` class works in four phases:

- **Seeding.** Centers are drained from the set of unlabeled nodes, largest
  degree first and smallest id on ties. Each center gets a rough seed (itself
  plus the neighbours sharing a neighbour with it) and a score (degree sum +
  size + internal edges). At most 100 seeds are collected. They are then
  stably sorted by score, largest first.
- **Expansion.** Each distinct seed grows one shell node at a time. Every
  round scores the shell by fitness gain, omega and influence. It forms the
  set of the three argmaxes and picks the node with the largest of its three
  scores. That node is added only if the acceptance rule holds. Communities
  of at least 3 nodes are kept.
- **Merging.** Passes over the list union every later community whose
  (improved) Jaccard coefficient with community i reaches the threshold.
  Passes repeat until one merges nothing.
- **Scoring.** The final cover is scored by Shen's EQ, Lázár's M^ov and
  Nicosia's Q_ov. Conductance scores single communities.

The two STRING import helpers are modelled too: deduplicating raw
interaction records into one edge per unordered protein pair, and mapping a
STRING id to a gene name.

Module layout:

- `graphs.dfy`: the graph as an adjacency map, plus degree, shell and center order.
- `setsums.dfy`: order-independent sums, maxima and argmaxes over finite sets.
- `ratios.dfy`: facts about quotients.
- `similarity.dfy`: NC, Jaccard, influence and omega.
- `seeding.dfy`: rough seeds, seed scores, the seeding loop and the stable sort by score.
- `fitness.dfy`: k_in, k_out and fitness.
- `expansion.dfy`: `expand_seed`, specified by the ghost functions `Step` and `ExpandFrom`.
- `merging.dfy`: one merge pass, specified by the ghost function `Pass`, and `MergeFix`, passes repeated until one merges nothing.
- `modularity.dfy`: Shen and Nicosia.
- `lazar.dfy`: Lázár's M^ov.
- `conductance.dfy`: conductance of one community.
- `glod.dfy`: the `GlodAlgorithm` class, with the expansion loop, `merge_communities` and `run`.
- `stringhelpers.dfy`: the STRING helpers.

Points where the code's behaviour is easy to misread, each modelled as the
code has it:

- **Fitness of a closed community.** With k_out = 0 the code computes
  k_in / k_in^alpha. That is 1 only for alpha = 1, so at other alphas a
  closed community's fitness depends on its size; see `Fitness.FitnessLinear`.
- **What k_in counts.** k_in is the sum over members of their neighbours
  inside the community, so each internal edge is counted from both ends.
- **Merge pass grouping.** Within a pass, every later unskipped community is
  compared with the original C_i, all of its matches are united in one go,
  and the scan moves on. Whole passes repeat until one merges nothing.
- **Seed sort ties.** The sort of the seeds is stable and keyed on the score
  alone, so seeds of equal score keep the order in which their centers were
  chosen.
- **Parameter checks.** Neither alpha nor the Jaccard threshold is
  validated, and the model does not constrain them either.

## Model

| member | source | states |
|---|---|---|
| Graphs.Shell | glod_app/views.py:231-235 | the shell is disjoint from the community and, in a well-formed graph, made of graph nodes; a node is in it exactly when some member is adjacent to it |
| Graphs.CenterOrder | glod_app/views.py:991-994 | the center key (degree descending, id ascending) is a strict total order, so the chosen center is unique |
| Similarity.CommonNeighborSimilarity | glod_app/views.py:87-91 | NC(u, v) is at most the degree of u and at most the degree of v |
| Similarity.CommonNeighborSimilaritySymmetric | glod_app/views.py:87-91 | NC(u, v) == NC(v, u) |
| Similarity.Jaccard | glod_app/views.py:356-364 | in [0, 1]; 0 for an empty union; 0 iff the sets are disjoint; 1 iff they are equal and non-empty |
| Similarity.JaccardSymmetric | glod_app/views.py:356-364 | the coefficient does not depend on argument order |
| Similarity.ImprovedJaccard | glod_app/views.py:366-401 | the sum of 1/\|Ci ∪ Cj\| over the overlap equals the standard Jaccard coefficient of communities i and j (0 without overlap) |
| Similarity.Influence | glod_app/views.py:179-189 | in [0, 1]; 0 for an empty seed; 0 iff v has no neighbour in S; 1 iff S ⊆ N(v) |
| Similarity.PairSimilarity | glod_app/views.py:57-76 | the bracketed term of omega lies in (0, 1.2] |
| Similarity.OmegaBounds | glod_app/views.py:27-85 | omega lies in [0, 1.2] and is positive exactly when the candidate has a neighbour in C |
| Similarity.Omega | glod_app/views.py:27-85 | returns the max pair similarity over N(vi) ∩ C divided by deg(vi), 0 when that set is empty |
| Similarity.MaxPairSimilarity | glod_app/views.py:54-77 | the max accumulator started at 0 ends at the maximum over NCi |
| Seeding.RoughSeedBounds | glod_app/views.py:113-154 | the rough seed contains the center, lies in N(center) ∪ {center}, and has at most degree + 1 nodes |
| Seeding.BestByCommonNeighbors | glod_app/views.py:141-147 | the head of the candidates sorted by (NC descending, id ascending) |
| Seeding.CreateRoughSeed | glod_app/views.py:134-154 | the loop yields exactly the center plus every neighbour with NC > 0 |
| Seeding.SeedScoreLowerBound | glod_app/views.py:93-111 | every part of the score is non-negative, so score ≥ \|S\| and score ≥ degree sum |
| Seeding.CalculateSeedScore | glod_app/views.py:93-111 | degree sum + \|S\| + internal edges counted once (node1 < node2) |
| Seeding.SumDegrees | glod_app/views.py:99 | the sum of the members' degrees |
| Seeding.CountInternalEdges | glod_app/views.py:105-109 | the number of pairs node1 < node2 of S joined by an edge |
| Seeding.CountUpperNeighbors | glod_app/views.py:107-109 | the members of S above node1 adjacent to it |
| Seeding.SelectCenter | glod_app/views.py:991-994 | the result is in NL and precedes every other node of NL in center order |
| Seeding.NextSeed | glod_app/views.py:991-1004 | the next center with its rough seed and that seed's score |
| Seeding.SeedLoopStep | glod_app/views.py:985-1013 | one seeding iteration keeps the loop invariant: ordered distinct centers, drained nodes, well-formed seeds |
| Seeding.CollectSeeds | glod_app/views.py:985-1013 | min(\|V\|, 100) well-formed seeds; centers strictly in center order, so distinct; every node never chosen comes after all centers |
| Seeding.InsertByScoreSorted | glod_app/views.py:1016 | inserting into a score-sorted list keeps it sorted |
| Seeding.InsertByScorePermutation | glod_app/views.py:1016 | insertion adds exactly the new entry and loses none |
| Seeding.SortByScore | glod_app/views.py:1016 | the result is sorted by score descending and is a permutation of the input |
| Seeding.SortByScoreStable | glod_app/views.py:1016 | the entries with any given score keep their relative order (stability) |
| Fitness.KInPlusKOut | glod_app/views.py:160-168 | k_in + k_out equals the community's degree sum |
| Fitness.FitnessSign | glod_app/views.py:156-177 | for any alpha, fitness ≥ 0, and it is 0 iff k_in == 0 |
| Fitness.FitnessBounds | glod_app/views.py:156-177 | for alpha ≥ 1, fitness lies in [0, 1] and is 0 iff k_in == 0 |
| Fitness.FitnessLinear | glod_app/views.py:156-177 | for alpha = 1, fitness is 1 iff k_in > 0 and k_out == 0 |
| Fitness.CountMemberDegrees | glod_app/views.py:164-168 | counts the node's neighbours inside and outside C |
| Fitness.CountDegrees | glod_app/views.py:160-168 | the loops compute k_in and k_out |
| Fitness.ComputeFitness | glod_app/views.py:156-177 | returns f(C) = k_in / (k_in + k_out)^alpha with both zero cases |
| Expansion.MaxCommunitySize | glod_app/views.py:221 | the cap is max(3, n div 2) |
| Expansion.BestOfThree | glod_app/views.py:293 | at least each score and equal to one of them |
| Expansion.ArgmaxNodes | glod_app/views.py:270-281 | the OR-set is non-empty and inside the shell |
| Expansion.Chosen | glod_app/views.py:284-308 | the chosen candidate is a shell node |
| Expansion.Step | glod_app/views.py:226-350 | a round that adds a node adds a shell node while the community is below the cap |
| Expansion.StepAddsShellNode | glod_app/views.py:226-350 | an added node is outside C, adjacent to a member, accepted, in the OR-set, and its largest score is the OR-set's largest (smallest id on ties) |
| Expansion.StepStops | glod_app/views.py:237-350 | a round adds nothing iff the shell is empty, the cap is reached, or the chosen node is rejected; expansion then returns C |
| Expansion.ExpandFromGrows | glod_app/views.py:226-350 | expansion only adds nodes, never beyond max(\|C\|, cap), and only graph nodes |
| Expansion.ExpandedProperties | glod_app/views.py:191-354 | expand_seed returns a superset of the seed of at most max(\|seed\|, max(3, n div 2)) graph nodes |
| Expansion.ChosenFromScores | glod_app/views.py:270-308 | picking from the score dictionary gives the candidate `Chosen` specifies |
| Expansion.SameArgMax | glod_app/views.py:270-272 | max over the dictionary items (first maximum in ascending id order) is the specified argmax |
| Expansion.ShellNodes | glod_app/views.py:231-235 | the loop collects exactly the shell |
| Expansion.AddOutsideNeighbors | glod_app/views.py:233-235 | adds the node's non-member neighbours to the shell |
| Expansion.ScoreCandidates | glod_app/views.py:248-266 | the dictionary holds the (fitness gain, omega, influence) of every shell node |
| Expansion.ScoreCandidate | glod_app/views.py:250-260 | one candidate's three scores |
| Expansion.ArgMaxBy | glod_app/views.py:270-272 | a maximiser of one score, the smallest id among equals |
| Expansion.PickAmongArgmax | glod_app/views.py:284-308 | the OR-set node with the largest best-of-three, the smallest id among equals |
| Expansion.ChooseCandidate | glod_app/views.py:248-308 | the round's candidate and its scores, as `Chosen` specifies |
| Expansion.ExpansionRound | glod_app/views.py:228-350 | one iteration of the while loop adds exactly what `Step` adds |
| Expansion.ExpandSeed | glod_app/views.py:191-354 | the loop terminates with `Expanded(seed)` |
| Merging.MembersAppend | glod_app/views.py:456-458 | appending a community adds its nodes to the union |
| Merging.FindMatches | glod_app/views.py:432-450 | exactly the later, unskipped j with improved Jaccard ≥ threshold, added to the skip set |
| Merging.UniteMatches | glod_app/views.py:452-458 | C_i united with every matched community |
| Merging.CoversByHome | glod_app/views.py:420-462 | every input community has a home in the output that contains it |
| Merging.MergePass | glod_app/views.py:420-462 | the pass returns `Pass(cs)`: each community not yet absorbed, in order, united with every later unabsorbed community whose improved Jaccard with the original C_i reaches the threshold; it reports a merge exactly when some pair reaches the threshold; it keeps the union of members, puts every community inside an output one, shrinks the list if it merged, and otherwise returns it unchanged |
| Merging.PassLoop | glod_app/views.py:424-460 | after the loop over every index, the emitted list is the whole of `Pass(cs)` and the bookkeeping of absorbed indices and homes holds |
| Merging.VisitIndex | glod_app/views.py:424-460 | visiting an unskipped index emits its group, skips its matches, and keeps the emitted prefix a prefix of `Pass(cs)` |
| Merging.SpecVisit | glod_app/views.py:432-460 | emitting C_i's group extends the prefix of `Pass(cs)` by one, and a match witnesses a mergeable pair |
| Merging.SpecEnd | glod_app/views.py:420-462 | at the end of the pass the prefix is the whole `Pass(cs)` |
| Merging.PassFromLength | glod_app/views.py:424-460 | the rest of a pass emits at most one community per unvisited index, and one per index only when no two unvisited indices reach the threshold |
| Merging.PassShrinks | glod_app/views.py:420-462 | a pass over a list with a mergeable pair returns a strictly shorter list, so repeated passes terminate |
| Merging.MergeFixStable | glod_app/views.py:420-462 | repeating passes until one merges nothing ends with no pair at the threshold |
| Merging.PassVisit | glod_app/views.py:424-460 | visiting an unskipped i keeps the pass invariant |
| Merging.PassEnd | glod_app/views.py:420-462 | the finished pass establishes MergePass's postconditions |
| Merging.PassCopyPairs | glod_app/views.py:432-458 | an unmerged visit means no later unskipped pair reaches the threshold |
| Modularity.Membership | glod_app/views.py:486-489 | O_v ≥ 1, and O_v == 1 iff v lies in at most one community |
| Modularity.MembershipCounts | glod_app/views.py:486-489 | the dictionary maps every graph node to its O_v |
| Modularity.CountCommunities | glod_app/views.py:488 | the number of communities containing the node |
| Modularity.ShenEqualsNicosia | glod_app/views.py:467-647 | EQ (weight 1/(O_v O_w)) equals Q_ov (weight (1/s_i)(1/s_j)) on every graph and cover |
| Modularity.PairTermsAgree | glod_app/views.py:512-513 | the weights 1/(O_v O_w) and (1/s_i)(1/s_j) agree for every pair of memberships |
| Modularity.ModularityEdgeless | glod_app/views.py:481-483 | both modularities are 0 on a graph without edges |
| Modularity.TermsFromCounts | glod_app/views.py:486-489 | reading O_v from the dictionary gives the specified terms |
| Modularity.RowTotal | glod_app/views.py:504-514 | the inner loop sums the pair terms of one v |
| Modularity.PairTotal | glod_app/views.py:497-514 | the double loop sums the pair terms of one community |
| Modularity.CoverTotal | glod_app/views.py:494-514 | the outer loop sums over the communities in order |
| Modularity.ShenModularity | glod_app/views.py:467-517 | returns EQ = (1/2m) Σ_c Σ_{v,w∈c} (A_vw − k_v k_w/2m)/(O_v O_w), 0 when m = 0 |
| Modularity.NicosiaModularity | glod_app/views.py:588-647 | returns Q_ov with product belonging factors, 0 when m = 0 |
| Lazar.PairsCount | glod_app/views.py:560 | counting the larger members of every node counts n(n−1)/2 pairs |
| Lazar.InternalEdgesAtMostPairs | glod_app/views.py:559-560 | a community of n nodes has at most n(n−1)/2 internal edges |
| Lazar.NodeContributionBounds | glod_app/views.py:564-579 | (k_in − k_out)/(d_i s_i) lies in [−1, 1] |
| Lazar.DensityBounds | glod_app/views.py:559-561 | the internal density of a community of ≥ 2 nodes lies in [0, 1] |
| Lazar.MeanContributionBounds | glod_app/views.py:563-580 | the mean contribution of the members of a non-empty community lies in [−1, 1] |
| Lazar.CommunityLazarBounds | glod_app/views.py:551-583 | each M^ov_cr lies in [−1, 1] |
| Lazar.LazarSumBounds | glod_app/views.py:551-583 | the sum over K communities lies in [−K, K] |
| Lazar.LazarBounds | glod_app/views.py:519-586 | M^ov lies in [−1, 1] (0 with no communities) |
| Lazar.LazarModularity | glod_app/views.py:519-586 | returns the mean over all communities of M^ov_cr |
| Lazar.CommunityTotal | glod_app/views.py:552-582 | M^ov_cr of one community, 0 below two nodes |
| Lazar.SumContributions | glod_app/views.py:563-579 | the sum of the members' contributions |
| Conductance.ConductanceBounds | glod_app/views.py:698-741 | in [0, 1]; 0 iff no edge leaves C; 1 iff edges leave C and none is internal |
| Conductance.ComputeConductance | glod_app/views.py:698-741 | returns k_out/(k_in + k_out), 0 for an empty community or no incident edge |
| Conductance.CountCutEdges | glod_app/views.py:730-736 | the number of member–non-member adjacencies |
| Glod.CoversTransitive | glod_app/views.py:420-462 | containment in a later community composes across merge passes |
| Glod.InGraphByMembers | glod_app/views.py:486-489 | every community is made of graph nodes iff their union is |
| Glod.ExpandAllCount | glod_app/views.py:1026-1032 | duplicate seeds are expanded once: no more communities than distinct seeds |
| Glod.ExpandAllFromSeeds | glod_app/views.py:1026-1041 | every kept community has ≥ 3 nodes and is the expansion of a candidate seed |
| Glod.ExpandAllInGraph | glod_app/views.py:1026-1041 | expanded communities are made of graph nodes |
| Glod.ExpandAllStep | glod_app/views.py:1026-1044 | one iteration of the expansion loop |
| Glod.SortedWellFormed | glod_app/views.py:1016 | sorting keeps every candidate a well-formed (seed, score, center) triple |
| Glod.GlodAlgorithm.constructor | glod_app/views.py:21-25 | the object starts with no communities |
| Glod.GlodAlgorithm.MergeCommunities | glod_app/views.py:403-465 | terminates with `MergeFix(old communities)`, the result of repeating `Pass` until a pass merges nothing; keeps the union of members; every old community lies in a final one; no final pair reaches the threshold |
| Glod.GlodAlgorithm.ExpandCandidates | glod_app/views.py:1021-1045 | appends the expansions of the distinct seeds, in order, that have ≥ 3 nodes, and keeps the class invariant (communities made of graph nodes) |
| Glod.GlodAlgorithm.Run | glod_app/views.py:944-1082 | seeds as `CollectSeeds` promises, including that every node never chosen as a center comes after all centers; the final cover is `MergeFix` of old + expanded communities, so it has their nodes, covers them, and has no mergeable pair; EQ == Q_ov; M^ov ∈ [−1, 1] |
| StringHelpers.StrLessOrder | glod_app/views/views_string.py:26 | string comparison is a strict total order |
| StringHelpers.SortedPairSymmetric | glod_app/views/views_string.py:26 | (a, b) and (b, a) get the same sorted key, and the key is ascending |
| StringHelpers.SortedPairSameEndpoints | glod_app/views/views_string.py:26 | two pairs share a key iff they have the same endpoints |
| StringHelpers.FirstKeysLength | glod_app/views/views_string.py:20-31 | there are no more keys than records |
| StringHelpers.FirstKeysDistinct | glod_app/views/views_string.py:26-31 | at most one entry per unordered pair |
| StringHelpers.FirstKeysSound | glod_app/views/views_string.py:22-31 | every key comes from a record with both endpoints present |
| StringHelpers.FirstKeysComplete | glod_app/views/views_string.py:22-31 | every usable record's pair is represented |
| StringHelpers.WinnerUnique | glod_app/views/views_string.py:28-30 | the kept record of a pair is unique |
| StringHelpers.WinnerReplaced | glod_app/views/views_string.py:29-30 | a strictly larger score replaces the kept record |
| StringHelpers.WinnerKept | glod_app/views/views_string.py:29 | an equal or smaller score keeps the earlier record |
| StringHelpers.ConsolidateInteractions | glod_app/views/views_string.py:19-31 | drops records missing an endpoint; gives one edge per unordered pair, in order of first occurrence; each edge is the earliest record with the pair's largest score, endpoints in its original order |
| StringHelpers.IndexOf | glod_app/views/views_string.py:37 | the first separator position |
| StringHelpers.Split | glod_app/views/views_string.py:37 | the pieces contain no separator and there are more than one iff the id contains it |
| StringHelpers.JoinSplit | glod_app/views/views_string.py:37 | joining the pieces of a split gives back the id |
| StringHelpers.SplitJoin | glod_app/views/views_string.py:37 | splitting a join of separator-free pieces gives back the pieces |
| StringHelpers.SecondPiece | glod_app/views/views_string.py:36-39 | the second piece is the text between the first '.' and the next '.' or the end |
| StringHelpers.MapStringIdToGene | glod_app/views/views_string.py:33-40 | the first mapped gene if the list is non-empty; else the non-empty text after the first '.' up to the next; else the id unchanged |

## Left out

- The NMI path (`h_binary`, entropies, `calculate_onmi_metrics`): it is
  floating-point `log2` with random sampling. It is not part of this model.
- `calculate_psi_normalized_node_cut` is not part of this model. Its edge
  weights are always 1, and `run` does not call it.
- The `calculate_modularity` alias is omitted. It only returns Shen's EQ.
- `print` logging is omitted, and so are the coverage and overlap statistics
  in `run` that only feed it.
- `random.seed` in `run` is omitted; no deterministic phase reads it.
- The Django views, CSV/XLSX export, the other view modules, URL routing and
  the template script are outside the algorithm.
- The STRING REST calls are omitted. `_safe_float` is omitted too: scores
  are taken as parsed reals.
- Floating point is modelled as exact `real`. Rounding, NaN and the
  iteration order of float sums are not modelled. Every sum is an
  order-independent set sum.
- `(k_in + k_out) ** alpha` becomes a caller-supplied `power: nat -> real`,
  a constant of the class.
- Fitness.FitnessBounds: the [0, 1] bound is stated only for powers with
  x^alpha ≥ x (alpha ≥ 1). At the default alpha = 0.8, k_in / (k_in + k_out)^0.8
  exceeds 1 for large closed communities. `Fitness.FitnessSign` states what
  holds for every alpha.
- Node ids are integers ordered by `<`. The source compares protein names
  with Python's string order, which `StringHelpers.StrLess` models. An id
  stands for the name's rank in that order. Numbering by rank keeps every
  choice the source makes by comparing names: the center key, the rough-seed
  neighbour, the argmaxes and the best-of-three tie-break.
- Graphs are simple: self-loops are excluded (`Graphs.ValidGraph`).
  networkx would count a self-loop twice in a degree.
- `Modularity.ShenModularity` and `Modularity.NicosiaModularity` require
  in-graph communities only when the graph has an edge. With m = 0 the
  source returns 0.0 for any cover. Otherwise it looks up the degree and the
  membership count of every member, which fails for a node outside the graph.
- `Lazar.LazarModularity` requires only the communities of two or more nodes
  to be in the graph. The source skips smaller ones, returns 0.0 for an empty
  cover, and fails in networkx's `neighbors` on a missing member of a larger
  one. `Conductance.ComputeConductance` has no such requirement, because the
  source checks membership of the graph itself. `run` meets all three.
- The 1000-iteration guard of the seeding loop is kept as a loop condition.
  It never binds before the 100-seed cap.
