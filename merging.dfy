/**
  Merge phase (Algorithm 3 as the source implements it). A pass visits the
  communities in order; a community not yet absorbed collects every later,
  not yet absorbed community whose improved Jaccard coefficient with it
  (its original node set, not the growing union) reaches the threshold,
  and the pass emits their union in its place. Passes repeat until one
  merges nothing (see GlodAlgorithm.MergeCommunities).
 */
module Merging {
  import opened SetSums
  import opened Similarity

  /** Every node of the cover. */
  function Members(cs: seq<set<int>>): set<int> {
    set k, v | 0 <= k < |cs| && v in cs[k] :: v
  }

  /** The nodes of the communities whose indices are in `idx`. */
  function MembersAt(cs: seq<set<int>>, idx: set<int>): set<int> {
    set k, v | k in idx && 0 <= k < |cs| && v in cs[k] :: v
  }

  /** No pair i < j is similar enough to merge: the state a merge ends in. */
  predicate NoMergeablePair(cs: seq<set<int>>, threshold: real) {
    forall i, j | 0 <= i < j < |cs| :: ImprovedJaccard(cs, i, j) < threshold
  }

  lemma MembersAppend(cs: seq<set<int>>, c: set<int>)
    ensures Members(cs + [c]) == Members(cs) + c
  {
    var ext := cs + [c];
    forall v | v in Members(cs) ensures v in Members(ext) {
      var k :| 0 <= k < |cs| && v in cs[k];
      assert ext[k] == cs[k];
    }
    forall v | v in c ensures v in Members(ext) {
      assert ext[|cs|] == c;
    }
    forall v | v in Members(ext) ensures v in Members(cs) + c {
      var k :| 0 <= k < |ext| && v in ext[k];
      if k < |cs| {
        assert ext[k] == cs[k];
      }
    }
  }

  lemma MembersAtSplit(cs: seq<set<int>>, a: set<int>, b: set<int>)
    ensures MembersAt(cs, a + b) == MembersAt(cs, a) + MembersAt(cs, b)
  {
  }

  lemma MembersAtSingle(cs: seq<set<int>>, k: int)
    requires 0 <= k < |cs|
    ensures MembersAt(cs, {k}) == cs[k]
  {
    forall v | v in cs[k] ensures v in MembersAt(cs, {k}) {
      assert k in {k};
    }
  }

  lemma MembersAtContains(cs: seq<set<int>>, idx: set<int>, k: int)
    requires k in idx && 0 <= k < |cs|
    ensures cs[k] <= MembersAt(cs, idx)
  {
    forall v | v in cs[k] ensures v in MembersAt(cs, idx) {
      assert k in idx;
    }
  }

  lemma MembersAtAll(cs: seq<set<int>>, idx: set<int>)
    requires forall k | 0 <= k < |cs| :: k in idx
    ensures MembersAt(cs, idx) == Members(cs)
  {
  }

  /** The later communities, not yet skipped, whose improved Jaccard
      coefficient with community i reaches the threshold. */
  ghost function Matches(cs: seq<set<int>>, threshold: real, i: nat, skip: set<int>): set<int>
    requires i < |cs|
  {
    set t | i < t < |cs| && t !in skip && ImprovedJaccard(cs, i, t) >= threshold
  }

  /** The inner loop over j > i: every later community not yet skipped whose
      improved Jaccard coefficient with community i reaches the threshold.
      Each match is added to the skip set at once. */
  method FindMatches(cs: seq<set<int>>, i: nat, skip: set<int>, threshold: real)
    returns (matches: set<int>, skipAfter: set<int>)
    requires i < |cs|
    ensures matches == Matches(cs, threshold, i, skip)
    ensures skipAfter == skip + matches
  {
    matches := {};
    skipAfter := skip;
    var j := i + 1;
    while j < |cs|
      invariant i + 1 <= j <= |cs|
      invariant matches == set t | i < t < j && t !in skip && ImprovedJaccard(cs, i, t) >= threshold
      invariant skipAfter == skip + matches
      decreases |cs| - j
    {
      if j !in skipAfter {
        if ImprovedJaccard(cs, i, j) >= threshold {
          matches := matches + {j};
          skipAfter := skipAfter + {j};
        }
      }
      j := j + 1;
    }
  }

  /** merged_community: community i united with every match. */
  method UniteMatches(cs: seq<set<int>>, i: nat, matches: set<int>) returns (merged: set<int>)
    requires i < |cs|
    requires forall t | t in matches :: 0 <= t < |cs|
    ensures merged == cs[i] + MembersAt(cs, matches)
  {
    merged := cs[i];
    var rest := matches;
    while rest != {}
      invariant rest <= matches
      invariant merged == cs[i] + MembersAt(cs, matches - rest)
      decreases rest
    {
      NonEmptyHasElement(rest);
      var idx :| idx in rest;
      MembersAtSplit(cs, matches - rest, {idx});
      MembersAtSingle(cs, idx);
      merged := merged + cs[idx];
      assert matches - (rest - {idx}) == (matches - rest) + {idx};
      rest := rest - {idx};
    }
    assert matches - rest == matches;
  }

  /** A strictly increasing sequence of indices below n misses no index if
      it has n entries: one that leaves out an index below n is shorter. */
  lemma {:induction false} IncreasingIndicesLength(s: seq<int>, n: int, missing: int)
    requires forall a, b | 0 <= a < b < |s| :: s[a] < s[b]
    requires forall a | 0 <= a < |s| :: 0 <= s[a] < n
    requires 0 <= missing < n && missing !in s
    ensures |s| < n
    decreases |s|
  {
    if s != [] {
      var last := s[|s| - 1];
      var init := s[..|s| - 1];
      assert forall a | 0 <= a < |init| :: init[a] == s[a] && s[a] < last;
      assert missing !in init by {
        assert forall a | 0 <= a < |init| :: init[a] == s[a];
      }
      if missing < last {
        IncreasingIndicesLength(init, last, missing);
      } else {
        IncreasingIndicesBelow(init, last);
      }
    }
  }

  lemma {:induction false} IncreasingIndicesBelow(s: seq<int>, n: int)
    requires 0 <= n
    requires forall a, b | 0 <= a < b < |s| :: s[a] < s[b]
    requires forall a | 0 <= a < |s| :: 0 <= s[a] < n
    ensures |s| <= n
    decreases |s|
  {
    if s != [] {
      var last := s[|s| - 1];
      var init := s[..|s| - 1];
      assert forall a | 0 <= a < |init| :: init[a] == s[a] && s[a] < last;
      IncreasingIndicesBelow(init, last);
    }
  }

  /** The list a pass emits from index i on, given the indices skipped so
      far: an unskipped community is replaced by its union with all of its
      matches, which are then skipped; a skipped one is dropped. */
  ghost function PassFrom(cs: seq<set<int>>, threshold: real, i: nat, skip: set<int>): seq<set<int>>
    decreases |cs| - i
  {
    if i >= |cs| then []
    else if i in skip then PassFrom(cs, threshold, i + 1, skip)
    else
      var matches := Matches(cs, threshold, i, skip);
      [cs[i] + MembersAt(cs, matches)] + PassFrom(cs, threshold, i + 1, skip + matches + {i})
  }

  /** One full pass of merge_communities over `cs`. */
  ghost function Pass(cs: seq<set<int>>, threshold: real): seq<set<int>> {
    PassFrom(cs, threshold, 0, {})
  }

  /** The indices from i on that the pass has not skipped yet. */
  ghost function Unvisited(cs: seq<set<int>>, i: nat, skip: set<int>): set<int> {
    set k | i <= k < |cs| && k !in skip
  }

  /** No two unskipped indices from i on form a mergeable pair. */
  ghost predicate NoMergeFrom(cs: seq<set<int>>, threshold: real, i: nat, skip: set<int>) {
    forall a, b | i <= a < b < |cs| && a !in skip && b !in skip :: ImprovedJaccard(cs, a, b) < threshold
  }

  lemma DifferenceCard(a: set<int>, b: set<int>)
    requires b <= a
    ensures |a - b| == |a| - |b|
  {
    assert a == (a - b) + b;
    assert (a - b) * b == {};
  }

  /** With nothing skipped, every index from i on is unvisited. */
  lemma {:induction false} UnvisitedAll(cs: seq<set<int>>, i: nat)
    requires i <= |cs|
    ensures |Unvisited(cs, i, {})| == |cs| - i
    decreases |cs| - i
  {
    if i < |cs| {
      UnvisitedAll(cs, i + 1);
      assert Unvisited(cs, i, {}) == Unvisited(cs, i + 1, {}) + {i};
    } else {
      assert Unvisited(cs, i, {}) == {};
    }
  }

  /** Visiting i uses up i and every match. */
  lemma UnvisitedVisit(cs: seq<set<int>>, i: nat, skip: set<int>, matches: set<int>)
    requires i < |cs| && i !in skip
    requires forall t | t in matches :: i < t < |cs| && t !in skip
    ensures |Unvisited(cs, i, skip)| == |Unvisited(cs, i + 1, skip + matches + {i})| + |matches| + 1
  {
    var later := Unvisited(cs, i + 1, skip);
    assert Unvisited(cs, i, skip) == later + {i};
    forall t | t in matches ensures t in later {
      assert i + 1 <= t < |cs| && t !in skip;
    }
    assert Unvisited(cs, i + 1, skip + matches + {i}) == later - matches;
    DifferenceCard(later, matches);
  }

  /** Without matches at i, no mergeable pair after i means none from i on. */
  lemma NoMergeFromVisit(cs: seq<set<int>>, threshold: real, i: nat, skip: set<int>)
    requires i < |cs| && i !in skip
    requires Matches(cs, threshold, i, skip) == {}
    requires NoMergeFrom(cs, threshold, i + 1, skip + {i})
    ensures NoMergeFrom(cs, threshold, i, skip)
  {
    forall a, b | i <= a < b < |cs| && a !in skip && b !in skip
      ensures ImprovedJaccard(cs, a, b) < threshold
    {
      if a == i {
        assert b !in Matches(cs, threshold, i, skip);
      } else {
        assert a !in skip + {i} && b !in skip + {i};
      }
    }
  }

  /** A pass emits at most one community per unskipped index, and exactly
      one per unskipped index only when no unskipped pair is mergeable. */
  lemma {:induction false} PassFromLength(cs: seq<set<int>>, threshold: real, i: nat, skip: set<int>)
    ensures |PassFrom(cs, threshold, i, skip)| <= |Unvisited(cs, i, skip)|
    ensures |PassFrom(cs, threshold, i, skip)| == |Unvisited(cs, i, skip)| ==> NoMergeFrom(cs, threshold, i, skip)
    decreases |cs| - i
  {
    if i >= |cs| {
      assert Unvisited(cs, i, skip) == {};
    } else if i in skip {
      PassFromLength(cs, threshold, i + 1, skip);
      assert Unvisited(cs, i, skip) == Unvisited(cs, i + 1, skip);
    } else {
      var matches := Matches(cs, threshold, i, skip);
      PassFromLength(cs, threshold, i + 1, skip + matches + {i});
      UnvisitedVisit(cs, i, skip, matches);
      if matches == {} {
        assert skip + matches + {i} == skip + {i};
        if |PassFrom(cs, threshold, i, skip)| == |Unvisited(cs, i, skip)| {
          NoMergeFromVisit(cs, threshold, i, skip);
        }
      }
    }
  }

  lemma NoMergeFromStart(cs: seq<set<int>>, threshold: real)
    ensures NoMergeFrom(cs, threshold, 0, {}) <==> NoMergeablePair(cs, threshold)
  {
  }

  /** A pass over a list with a mergeable pair emits fewer communities. */
  lemma PassShrinks(cs: seq<set<int>>, threshold: real)
    requires !NoMergeablePair(cs, threshold)
    ensures |Pass(cs, threshold)| < |cs|
  {
    PassFromLength(cs, threshold, 0, {});
    UnvisitedAll(cs, 0);
    NoMergeFromStart(cs, threshold);
  }

  /** merge_communities: passes repeat until one merges nothing; that last
      pass copies the list. */
  ghost function MergeFix(cs: seq<set<int>>, threshold: real): seq<set<int>>
    decreases |cs|
  {
    if NoMergeablePair(cs, threshold) then cs
    else
      PassShrinks(cs, threshold);
      MergeFix(Pass(cs, threshold), threshold)
  }

  /** The fixpoint has no mergeable pair left. */
  lemma {:induction false} MergeFixStable(cs: seq<set<int>>, threshold: real)
    ensures NoMergeablePair(MergeFix(cs, threshold), threshold)
    decreases |cs|
  {
    if !NoMergeablePair(cs, threshold) {
      PassShrinks(cs, threshold);
      MergeFixStable(Pass(cs, threshold), threshold);
    }
  }

  /** What the emitted prefix and the merged flag mean after visiting
      indices 0 .. i-1: the rest of the pass completes `Pass`, and a merge
      witnesses a mergeable pair. */
  ghost predicate SpecState(cs: seq<set<int>>, threshold: real, i: nat, skip: set<int>,
                            merged: bool, next: seq<set<int>>) {
    && next + PassFrom(cs, threshold, i, skip) == Pass(cs, threshold)
    && (merged ==> !NoMergeablePair(cs, threshold))
  }

  /** The outer loop's invariant: the bookkeeping of PassState and what
      the emitted prefix means (SpecState). */
  ghost predicate LoopState(cs: seq<set<int>>, threshold: real, i: int, skip: set<int>, absorbed: set<int>,
                            merged: bool, next: seq<set<int>>, origin: seq<int>, home: map<int, int>) {
    && 0 <= i <= |cs|
    && PassState(cs, threshold, i, skip, absorbed, merged, next, origin, home)
    && SpecState(cs, threshold, i, skip, merged, next)
  }

  lemma SpecSkip(cs: seq<set<int>>, threshold: real, i: nat, skip: set<int>, merged: bool, next: seq<set<int>>)
    requires i < |cs| && i in skip
    requires SpecState(cs, threshold, i, skip, merged, next)
    ensures SpecState(cs, threshold, i + 1, skip, merged, next)
  {
    PassFromSkip(cs, threshold, i, skip);
  }

  lemma SpecVisit(cs: seq<set<int>>, threshold: real, i: nat, skip: set<int>, merged: bool, next: seq<set<int>>,
                  matches: set<int>, mergedCommunity: set<int>)
    requires i < |cs| && i !in skip
    requires SpecState(cs, threshold, i, skip, merged, next)
    requires matches == Matches(cs, threshold, i, skip)
    requires mergedCommunity == cs[i] + MembersAt(cs, matches)
    ensures SpecState(cs, threshold, i + 1, skip + matches + {i}, merged || matches != {}, next + [mergedCommunity])
  {
    PassFromVisit(cs, threshold, i, skip, next, matches, mergedCommunity);
    if matches != {} {
      MatchWitness(cs, threshold, i, skip);
    }
  }

  lemma SpecEnd(cs: seq<set<int>>, threshold: real, skip: set<int>, merged: bool, next: seq<set<int>>)
    requires SpecState(cs, threshold, |cs|, skip, merged, next)
    ensures next == Pass(cs, threshold)
    ensures merged ==> !NoMergeablePair(cs, threshold)
  {
    assert next + [] == next;
  }

  /** A skipped index emits nothing. */
  lemma PassFromSkip(cs: seq<set<int>>, threshold: real, i: nat, skip: set<int>)
    requires i < |cs| && i in skip
    ensures PassFrom(cs, threshold, i, skip) == PassFrom(cs, threshold, i + 1, skip)
  {
  }

  /** Visiting an unskipped index emits its union with its matches. */
  lemma PassFromVisit(cs: seq<set<int>>, threshold: real, i: nat, skip: set<int>, done: seq<set<int>>,
                      matches: set<int>, mergedCommunity: set<int>)
    requires i < |cs| && i !in skip
    requires matches == Matches(cs, threshold, i, skip)
    requires mergedCommunity == cs[i] + MembersAt(cs, matches)
    ensures done + PassFrom(cs, threshold, i, skip)
            == (done + [mergedCommunity]) + PassFrom(cs, threshold, i + 1, skip + matches + {i})
  {
    var rest := PassFrom(cs, threshold, i + 1, skip + matches + {i});
    assert PassFrom(cs, threshold, i, skip) == [mergedCommunity] + rest;
    assert done + ([mergedCommunity] + rest) == (done + [mergedCommunity]) + rest;
  }

  /** A match is a mergeable pair. */
  lemma MatchWitness(cs: seq<set<int>>, threshold: real, i: nat, skip: set<int>)
    requires i < |cs| && Matches(cs, threshold, i, skip) != {}
    ensures !NoMergeablePair(cs, threshold)
  {
    var matches := Matches(cs, threshold, i, skip);
    NonEmptyHasElement(matches);
    var t :| t in matches;
    assert i < t < |cs| && ImprovedJaccard(cs, i, t) >= threshold;
  }

  /** `c` is contained in some community of `next`. */
  ghost predicate Within(c: set<int>, next: seq<set<int>>) {
    exists t :: 0 <= t < |next| && c <= next[t]
  }

  /** Every community of `cs` is contained in some community of `next`. */
  ghost predicate Covers(cs: seq<set<int>>, next: seq<set<int>>) {
    forall k | 0 <= k < |cs| :: Within(cs[k], next)
  }

  lemma CoversByHome(cs: seq<set<int>>, next: seq<set<int>>, home: map<int, int>)
    requires forall k | 0 <= k < |cs| :: k in home && 0 <= home[k] < |next| && cs[k] <= next[home[k]]
    ensures Covers(cs, next)
  {
    forall k | 0 <= k < |cs| ensures Within(cs[k], next) {
      var t := home[k];
      assert 0 <= t < |next| && cs[k] <= next[t];
    }
  }

  /** `skip` holds every visited index and the absorbed ones. */
  ghost predicate SkipState(cs: seq<set<int>>, i: int, skip: set<int>, absorbed: set<int>) {
    && 0 <= i <= |cs|
    && (forall k | k in skip :: 0 <= k < |cs|)
    && (forall k | 0 <= k < i :: k in skip)
    && (forall k | k in skip :: k < i || k in absorbed)
    && absorbed <= skip
  }

  /** `home` says which entry of `next` holds each skipped community. */
  ghost predicate HomeState(cs: seq<set<int>>, skip: set<int>, next: seq<set<int>>, home: map<int, int>) {
    && home.Keys == skip
    && (forall k | k in skip :: 0 <= k < |cs| && 0 <= home[k] < |next| && cs[k] <= next[home[k]])
  }

  /** `origin` lists the visited index that produced each entry of `next`:
      increasing, below i, never an absorbed index. */
  ghost predicate OriginState(i: int, absorbed: set<int>, next: seq<set<int>>, origin: seq<int>) {
    && |origin| == |next|
    && (forall a, b | 0 <= a < b < |origin| :: origin[a] < origin[b])
    && (forall a | 0 <= a < |origin| :: 0 <= origin[a] < i && origin[a] !in absorbed)
  }

  /** With no merge so far, `next` is a copy and every examined pair is
      below the threshold. */
  ghost predicate CopyState(cs: seq<set<int>>, threshold: real, i: int, merged: bool, next: seq<set<int>>)
    requires 0 <= i <= |cs|
  {
    && (!merged ==> next == cs[..i])
    && (!merged ==> forall a, b | 0 <= a < i && a < b < |cs| :: ImprovedJaccard(cs, a, b) < threshold)
  }

  /** What a pass keeps after visiting indices 0 .. i-1. */
  ghost predicate PassState(cs: seq<set<int>>, threshold: real, i: int, skip: set<int>, absorbed: set<int>,
                            merged: bool, next: seq<set<int>>, origin: seq<int>, home: map<int, int>) {
    && SkipState(cs, i, skip, absorbed)
    && (merged <==> absorbed != {})
    && Members(next) == MembersAt(cs, skip)
    && HomeState(cs, skip, next, home)
    && OriginState(i, absorbed, next, origin)
    && CopyState(cs, threshold, i, merged, next)
  }

  /** One pass of merge_communities over `cs` (the list read by every
      improved Jaccard call of the pass). */
  method MergePass(cs: seq<set<int>>, threshold: real) returns (next: seq<set<int>>, merged: bool)
    ensures next == Pass(cs, threshold)
    ensures merged <==> !NoMergeablePair(cs, threshold)
    ensures Members(next) == Members(cs)
    ensures Covers(cs, next)
    ensures merged ==> |next| < |cs|
    ensures !merged ==> next == cs && NoMergeablePair(cs, threshold)
  {
    ghost var skip, absorbed, origin, home;
    next, merged, skip, absorbed, origin, home := PassLoop(cs, threshold);
    PassEnd(cs, threshold, skip, absorbed, merged, next, origin, home);
  }

  /** The outer loop of one pass, over every index of `cs`. */
  method PassLoop(cs: seq<set<int>>, threshold: real)
    returns (next: seq<set<int>>, merged: bool, skip: set<int>, ghost absorbed: set<int>,
             ghost origin: seq<int>, ghost home: map<int, int>)
    ensures LoopState(cs, threshold, |cs|, skip, absorbed, merged, next, origin, home)
  {
    next := [];
    merged := false;
    skip := {};
    absorbed := {};
    origin := [];
    home := map[];
    PassStart(cs, threshold);
    var i := 0;
    while i < |cs|
      invariant 0 <= i <= |cs|
      // `== true` has the verifier check LoopState as one fact instead of
      // conjunct by conjunct; VisitIndex and PassSkip re-establish it whole
      invariant LoopState(cs, threshold, i, skip, absorbed, merged, next, origin, home) == true
      decreases |cs| - i
    {
      if i !in skip {
        next, merged, skip, absorbed, origin, home :=
          VisitIndex(cs, threshold, i, skip, absorbed, merged, next, origin, home);
      } else {
        PassSkip(cs, threshold, i, skip, absorbed, merged, next, origin, home);
      }
      i := i + 1;
    }
  }

  /** The body of the outer loop for an index not skipped yet: collect its
      matches, emit their union with community i, and skip them and i. */
  method VisitIndex(cs: seq<set<int>>, threshold: real, i: nat, skip: set<int>, ghost absorbed: set<int>,
                    merged: bool, next: seq<set<int>>, ghost origin: seq<int>, ghost home: map<int, int>)
    returns (next': seq<set<int>>, merged': bool, skip': set<int>, ghost absorbed': set<int>,
             ghost origin': seq<int>, ghost home': map<int, int>)
    requires i < |cs| && i !in skip
    requires LoopState(cs, threshold, i, skip, absorbed, merged, next, origin, home)
    ensures LoopState(cs, threshold, i + 1, skip', absorbed', merged', next', origin', home')
  {
    var matches, skipAfter := FindMatches(cs, i, skip, threshold);
    var mergedCommunity := UniteMatches(cs, i, matches);
    home' := map k | k in skipAfter + {i} :: if k in skip then home[k] else |next|;
    PassVisit(cs, threshold, i, skip, absorbed, merged, next, origin, home, matches, mergedCommunity, home');
    SpecVisit(cs, threshold, i, skip, merged, next, matches, mergedCommunity);
    merged' := merged || matches != {};
    next' := next + [mergedCommunity];
    origin' := origin + [i];
    absorbed' := absorbed + matches;
    skip' := skipAfter + {i};
  }

  lemma PassEnd(cs: seq<set<int>>, threshold: real, skip: set<int>, absorbed: set<int>,
                merged: bool, next: seq<set<int>>, origin: seq<int>, home: map<int, int>)
    requires LoopState(cs, threshold, |cs|, skip, absorbed, merged, next, origin, home)
    ensures Members(next) == Members(cs)
    ensures Covers(cs, next)
    ensures merged ==> |next| < |cs|
    ensures !merged ==> next == cs && NoMergeablePair(cs, threshold)
    ensures next == Pass(cs, threshold)
    ensures merged ==> !NoMergeablePair(cs, threshold)
  {
    SpecEnd(cs, threshold, skip, merged, next);
    if merged {
      NonEmptyHasElement(absorbed);
      var x :| x in absorbed;
      IncreasingIndicesLength(origin, |cs|, x);
    }
    MembersAtAll(cs, skip);
    CoversByHome(cs, next, home);
    assert cs[..|cs|] == cs;
  }

  /** Before the first index nothing is emitted, skipped or merged. */
  lemma PassStart(cs: seq<set<int>>, threshold: real)
    ensures LoopState(cs, threshold, 0, {}, {}, false, [], [], map[])
  {
    assert [] + Pass(cs, threshold) == Pass(cs, threshold);
    assert cs[..0] == [];
    assert Members([]) == MembersAt(cs, {}) == {};
  }

  /** Passing over a skipped index keeps PassState. */
  lemma PassSkip(cs: seq<set<int>>, threshold: real, i: int, skip: set<int>, absorbed: set<int>, merged: bool,
                 next: seq<set<int>>, origin: seq<int>, home: map<int, int>)
    requires LoopState(cs, threshold, i, skip, absorbed, merged, next, origin, home)
    requires i < |cs| && i in skip
    ensures LoopState(cs, threshold, i + 1, skip, absorbed, merged, next, origin, home)
  {
    SpecSkip(cs, threshold, i, skip, merged, next);
    assert forall k | 0 <= k < i + 1 :: k in skip;
  }

  /** Visiting a non-skipped index i keeps PassState. */
  lemma PassVisit(cs: seq<set<int>>, threshold: real, i: int, skip: set<int>, absorbed: set<int>, merged: bool,
                  next: seq<set<int>>, origin: seq<int>, home: map<int, int>,
                  matches: set<int>, mergedCommunity: set<int>, homeAfter: map<int, int>)
    requires PassState(cs, threshold, i, skip, absorbed, merged, next, origin, home)
    requires i < |cs| && i !in skip
    requires matches == Matches(cs, threshold, i, skip)
    requires mergedCommunity == cs[i] + MembersAt(cs, matches)
    requires homeAfter == map k | k in skip + matches + {i} :: if k in skip then home[k] else |next|
    ensures PassState(cs, threshold, i + 1, skip + matches + {i}, absorbed + matches, merged || matches != {},
                      next + [mergedCommunity], origin + [i], homeAfter)
  {
    PassMembers(cs, i, skip, next, matches, mergedCommunity);
    PassHome(cs, i, skip, next, home, matches, mergedCommunity, homeAfter);
    PassOrigin(cs, i, skip, absorbed, next, origin, matches, mergedCommunity);
    if !merged && matches == {} {
      PassCopy(cs, i, next, matches, mergedCommunity);
      PassCopyPairs(cs, threshold, i, skip, matches);
    }
  }

  lemma PassHome(cs: seq<set<int>>, i: int, skip: set<int>, next: seq<set<int>>, home: map<int, int>,
                 matches: set<int>, mergedCommunity: set<int>, homeAfter: map<int, int>)
    requires 0 <= i < |cs|
    requires HomeState(cs, skip, next, home)
    requires forall t | t in matches :: 0 <= t < |cs|
    requires mergedCommunity == cs[i] + MembersAt(cs, matches)
    requires homeAfter == map k | k in skip + matches + {i} :: if k in skip then home[k] else |next|
    ensures HomeState(cs, skip + matches + {i}, next + [mergedCommunity], homeAfter)
  {
    var next' := next + [mergedCommunity];
    forall k | k in skip + matches + {i}
      ensures 0 <= k < |cs| && 0 <= homeAfter[k] < |next'| && cs[k] <= next'[homeAfter[k]]
    {
      if k in skip {
        assert next'[home[k]] == next[home[k]];
      } else if k in matches {
        MembersAtContains(cs, matches, k);
      }
    }
  }

  lemma PassOrigin(cs: seq<set<int>>, i: int, skip: set<int>, absorbed: set<int>, next: seq<set<int>>,
                   origin: seq<int>, matches: set<int>, mergedCommunity: set<int>)
    requires SkipState(cs, i, skip, absorbed) && i < |cs| && i !in skip
    requires OriginState(i, absorbed, next, origin)
    requires forall t | t in matches :: i < t < |cs| && t !in skip
    ensures SkipState(cs, i + 1, skip + matches + {i}, absorbed + matches)
    ensures OriginState(i + 1, absorbed + matches, next + [mergedCommunity], origin + [i])
  {
    var origin' := origin + [i];
    assert forall a | 0 <= a < |origin| :: origin'[a] == origin[a];
  }

  lemma PassMembers(cs: seq<set<int>>, i: int, skip: set<int>, next: seq<set<int>>,
                    matches: set<int>, mergedCommunity: set<int>)
    requires 0 <= i < |cs|
    requires Members(next) == MembersAt(cs, skip)
    requires mergedCommunity == cs[i] + MembersAt(cs, matches)
    ensures Members(next + [mergedCommunity]) == MembersAt(cs, skip + matches + {i})
  {
    MembersAppend(next, mergedCommunity);
    MembersAtSplit(cs, skip, matches);
    MembersAtSplit(cs, skip + matches, {i});
    MembersAtSingle(cs, i);
  }

  /** With no merge so far and none at i, the pass copies community i... */
  lemma PassCopy(cs: seq<set<int>>, i: int, next: seq<set<int>>, matches: set<int>, mergedCommunity: set<int>)
    requires 0 <= i < |cs|
    requires next == cs[..i]
    requires matches == {}
    requires mergedCommunity == cs[i] + MembersAt(cs, matches)
    ensures next + [mergedCommunity] == cs[..i + 1]
  {
    assert MembersAt(cs, matches) == {};
    assert mergedCommunity == cs[i];
    assert cs[..i + 1] == cs[..i] + [cs[i]];
  }

  /** ...and every pair (i, b) was examined and is below the threshold. */
  lemma PassCopyPairs(cs: seq<set<int>>, threshold: real, i: int, skip: set<int>, matches: set<int>)
    requires 0 <= i < |cs|
    requires forall k | k in skip :: k < i
    requires forall a, b | 0 <= a < i && a < b < |cs| :: ImprovedJaccard(cs, a, b) < threshold
    requires matches == set t | i < t < |cs| && t !in skip && ImprovedJaccard(cs, i, t) >= threshold
    requires matches == {}
    ensures forall a, b | 0 <= a < i + 1 && a < b < |cs| :: ImprovedJaccard(cs, a, b) < threshold
  {
    forall a, b | 0 <= a < i + 1 && a < b < |cs| ensures ImprovedJaccard(cs, a, b) < threshold {
      if a == i {
        assert b !in skip;
        assert b !in matches;
      }
    }
  }
}
