/**
  The two edge-list helpers of the STRING import: consolidating the raw
  interaction records into one edge per unordered protein pair, and
  mapping a STRING protein id to a gene name.
 */
module StringHelpers {
  import opened Options

  /** A raw interaction record: either endpoint may be absent; the score is
      taken as already parsed. */
  datatype Interaction = Interaction(protein1: Option<string>, protein2: Option<string>, score: real)

  /** A consolidated edge, with its endpoints in the order of the record kept. */
  datatype Edge = Edge(protein1: string, protein2: string, score: real)

  /** Python's string order: lexicographic on code points, a proper prefix first. */
  predicate StrLess(a: string, b: string)
    decreases |a|
  {
    if a == [] then b != []
    else if b == [] then false
    else a[0] < b[0] || (a[0] == b[0] && StrLess(a[1..], b[1..]))
  }

  /** The order is strict and total, so sorting two ids is well defined. */
  lemma {:induction false} StrLessOrder(a: string, b: string)
    ensures !(StrLess(a, b) && StrLess(b, a))
    ensures a == b || StrLess(a, b) || StrLess(b, a)
    decreases |a|
  {
    if a != [] && b != [] && a[0] == b[0] {
      StrLessOrder(a[1..], b[1..]);
      if a[1..] == b[1..] {
        assert a == [a[0]] + a[1..] && b == [b[0]] + b[1..];
      }
    }
  }

  /** The dictionary key: the pair of endpoints sorted ascending. */
  datatype Key = Key(low: string, high: string)

  function SortedPair(a: string, b: string): Key {
    if StrLess(b, a) then Key(b, a) else Key(a, b)
  }

  /** (a, b) and (b, a) share a key, and two pairs share a key exactly when
      they have the same endpoints. */
  lemma SortedPairSymmetric(a: string, b: string)
    ensures SortedPair(a, b) == SortedPair(b, a)
    ensures !StrLess(SortedPair(a, b).high, SortedPair(a, b).low)
  {
    StrLessOrder(a, b);
  }

  lemma SortedPairSameEndpoints(a: string, b: string, c: string, d: string)
    ensures SortedPair(a, b) == SortedPair(c, d) <==> multiset{a, b} == multiset{c, d}
  {
    StrLessOrder(a, b);
    StrLessOrder(c, d);
    if multiset{a, b} == multiset{c, d} {
      assert a in multiset{c, d} && b in multiset{c, d};
      if a == c {
        assert multiset{a, b} - multiset{a} == multiset{b};
        assert multiset{c, d} - multiset{c} == multiset{d};
      } else {
        assert a == d;
        assert multiset{a, b} - multiset{a} == multiset{b};
        assert multiset{c, d} - multiset{d} == multiset{c};
        SortedPairSymmetric(c, d);
      }
    }
  }

  /** A record is kept only when both endpoints are present and non-empty. */
  predicate Usable(it: Interaction) {
    it.protein1.Some? && it.protein1.value != "" && it.protein2.Some? && it.protein2.value != ""
  }

  function KeyOf(it: Interaction): Key
    requires Usable(it)
  {
    SortedPair(it.protein1.value, it.protein2.value)
  }

  function EdgeKey(e: Edge): Key {
    SortedPair(e.protein1, e.protein2)
  }

  function EdgeOf(it: Interaction): (e: Edge)
    requires Usable(it)
    ensures EdgeKey(e) == KeyOf(it)
  {
    Edge(it.protein1.value, it.protein2.value, it.score)
  }

  /** The distinct keys of the usable records among the first n, in order
      of first occurrence (the insertion order of the dictionary). */
  ghost function FirstKeys(its: seq<Interaction>, n: nat): seq<Key>
    requires n <= |its|
  {
    if n == 0 then []
    else
      var earlier := FirstKeys(its, n - 1);
      var it := its[n - 1];
      if Usable(it) && KeyOf(it) !in earlier then earlier + [KeyOf(it)] else earlier
  }

  /** `w` is the record whose edge is kept for key `k` after the first n
      records: usable, with key k, carrying the largest score of its pair,
      and strictly above every earlier record of the pair. */
  ghost predicate Winner(its: seq<Interaction>, n: nat, w: int, k: Key)
    requires n <= |its|
  {
    && 0 <= w < n
    && Usable(its[w]) && KeyOf(its[w]) == k
    && (forall j | 0 <= j < n && Usable(its[j]) && KeyOf(its[j]) == k :: its[j].score <= its[w].score)
    && (forall j | 0 <= j < w && Usable(its[j]) && KeyOf(its[j]) == k :: its[j].score < its[w].score)
  }

  /** There are no more first-occurrence keys than records. */
  lemma {:induction false} FirstKeysLength(its: seq<Interaction>, n: nat)
    requires n <= |its|
    ensures |FirstKeys(its, n)| <= n
  {
    if n > 0 {
      FirstKeysLength(its, n - 1);
    }
  }

  /** The first-occurrence keys are distinct. */
  lemma {:induction false} FirstKeysDistinct(its: seq<Interaction>, n: nat)
    requires n <= |its|
    ensures forall a, b | 0 <= a < b < |FirstKeys(its, n)| :: FirstKeys(its, n)[a] != FirstKeys(its, n)[b]
  {
    if n > 0 {
      FirstKeysDistinct(its, n - 1);
    }
  }

  /** Each first-occurrence key is the key of a usable record. */
  lemma {:induction false} FirstKeysSound(its: seq<Interaction>, n: nat)
    requires n <= |its|
    ensures forall k | k in FirstKeys(its, n) :: exists i :: 0 <= i < n && Usable(its[i]) && KeyOf(its[i]) == k
  {
    if n > 0 {
      FirstKeysSound(its, n - 1);
    }
  }

  /** Every usable record's key is among the first-occurrence keys. */
  lemma {:induction false} FirstKeysComplete(its: seq<Interaction>, n: nat)
    requires n <= |its|
    ensures forall i | 0 <= i < n && Usable(its[i]) :: KeyOf(its[i]) in FirstKeys(its, n)
  {
    if n > 0 {
      FirstKeysComplete(its, n - 1);
    }
  }

  /** At most one winner per key. */
  lemma WinnerUnique(its: seq<Interaction>, n: nat, w1: int, w2: int, k: Key)
    requires n <= |its|
    requires Winner(its, n, w1, k) && Winner(its, n, w2, k)
    ensures w1 == w2
  {
  }

  /** Every entry of the dictionary is the edge of its key's winner. */
  ghost predicate Winners(its: seq<Interaction>, n: nat, edgeMap: map<Key, Edge>)
    requires n <= |its|
  {
    forall k | k in edgeMap :: exists w :: Winner(its, n, w, k) && edgeMap[k] == EdgeOf(its[w])
  }

  /** The dictionary state after the first n records: its keys in insertion
      order, and the kept entries. */
  ghost predicate TableState(its: seq<Interaction>, n: nat, order: seq<Key>, edgeMap: map<Key, Edge>)
    requires n <= |its|
  {
    && order == FirstKeys(its, n)
    && (forall k :: k in edgeMap <==> k in order)
    && Winners(its, n, edgeMap)
  }

  /** A record that does not beat the current winner of k leaves it the winner. */
  lemma WinnerKept(its: seq<Interaction>, n: nat, w: int, k: Key)
    requires n < |its| && Winner(its, n, w, k)
    requires !(Usable(its[n]) && KeyOf(its[n]) == k && its[n].score > its[w].score)
    ensures Winner(its, n + 1, w, k)
  {
  }

  /** A record that strictly beats the winner of its key takes its place. */
  lemma WinnerReplaced(its: seq<Interaction>, n: nat, w: int)
    requires n < |its| && Usable(its[n]) && Winner(its, n, w, KeyOf(its[n]))
    requires its[n].score > its[w].score
    ensures Winner(its, n + 1, n, KeyOf(its[n]))
  {
  }

  /** The first record of a pair is its winner. */
  lemma WinnerFirst(its: seq<Interaction>, n: nat)
    requires n < |its| && Usable(its[n]) && KeyOf(its[n]) !in FirstKeys(its, n)
    ensures Winner(its, n + 1, n, KeyOf(its[n]))
  {
    FirstKeysComplete(its, n);
  }

  /** A record that is skipped or does not beat its pair's entry keeps
      every winner. */
  lemma WinnersKept(its: seq<Interaction>, n: nat, edgeMap: map<Key, Edge>)
    requires n < |its| && Winners(its, n, edgeMap)
    requires Usable(its[n]) ==> KeyOf(its[n]) in edgeMap && !(its[n].score > edgeMap[KeyOf(its[n])].score)
    ensures Winners(its, n + 1, edgeMap)
  {
    forall k | k in edgeMap ensures exists w :: Winner(its, n + 1, w, k) && edgeMap[k] == EdgeOf(its[w]) {
      var w :| Winner(its, n, w, k) && edgeMap[k] == EdgeOf(its[w]);
      WinnerKept(its, n, w, k);
    }
  }

  /** The first record of a new pair becomes its entry. */
  lemma WinnersInsert(its: seq<Interaction>, n: nat, order: seq<Key>, edgeMap: map<Key, Edge>)
    requires n < |its| && Usable(its[n]) && KeyOf(its[n]) !in edgeMap
    requires TableState(its, n, order, edgeMap)
    ensures Winners(its, n + 1, edgeMap[KeyOf(its[n]) := EdgeOf(its[n])])
  {
    var key := KeyOf(its[n]);
    var newMap := edgeMap[key := EdgeOf(its[n])];
    forall k | k in newMap ensures exists w :: Winner(its, n + 1, w, k) && newMap[k] == EdgeOf(its[w]) {
      if k == key {
        WinnerFirst(its, n);
      } else {
        var w :| Winner(its, n, w, k) && edgeMap[k] == EdgeOf(its[w]);
        WinnerKept(its, n, w, k);
      }
    }
  }

  /** A record with a strictly larger score replaces its pair's entry. */
  lemma WinnersReplace(its: seq<Interaction>, n: nat, edgeMap: map<Key, Edge>)
    requires n < |its| && Usable(its[n]) && KeyOf(its[n]) in edgeMap
    requires its[n].score > edgeMap[KeyOf(its[n])].score
    requires Winners(its, n, edgeMap)
    ensures Winners(its, n + 1, edgeMap[KeyOf(its[n]) := EdgeOf(its[n])])
  {
    var key := KeyOf(its[n]);
    var newMap := edgeMap[key := EdgeOf(its[n])];
    forall k | k in newMap ensures exists w :: Winner(its, n + 1, w, k) && newMap[k] == EdgeOf(its[w]) {
      var w :| Winner(its, n, w, k) && edgeMap[k] == EdgeOf(its[w]);
      if k == key {
        WinnerReplaced(its, n, w);
      } else {
        WinnerKept(its, n, w, k);
      }
    }
  }

  /** The insertion order grows only by the first record of a new pair. */
  lemma OrderStep(its: seq<Interaction>, n: nat, order: seq<Key>, edgeMap: map<Key, Edge>)
    requires n < |its|
    requires order == FirstKeys(its, n) && forall k :: k in edgeMap <==> k in order
    ensures Usable(its[n]) && KeyOf(its[n]) !in edgeMap ==> FirstKeys(its, n + 1) == order + [KeyOf(its[n])]
    ensures !(Usable(its[n]) && KeyOf(its[n]) !in edgeMap) ==> FirstKeys(its, n + 1) == order
  {
  }

  /** _consolidate_interactions: one edge per unordered pair of usable
      records, in order of the pair's first occurrence, each the record
      with the pair's largest score (the earliest such record). */
  method ConsolidateInteractions(interactions: seq<Interaction>) returns (edges: seq<Edge>)
    ensures |edges| == |FirstKeys(interactions, |interactions|)| <= |interactions|
    ensures forall a | 0 <= a < |edges| :: EdgeKey(edges[a]) == FirstKeys(interactions, |interactions|)[a]
    ensures forall a | 0 <= a < |edges| ::
              exists w :: Winner(interactions, |interactions|, w, EdgeKey(edges[a])) && edges[a] == EdgeOf(interactions[w])
  {
    var edgeMap: map<Key, Edge> := map[];
    var order: seq<Key> := [];
    for n := 0 to |interactions|
      invariant TableState(interactions, n, order, edgeMap)
    {
      var it := interactions[n];
      OrderStep(interactions, n, order, edgeMap);
      if !Usable(it) {
        WinnersKept(interactions, n, edgeMap);
        continue;
      }
      var key := KeyOf(it);
      if key !in edgeMap {
        WinnersInsert(interactions, n, order, edgeMap);
        order := order + [key];
        edgeMap := edgeMap[key := EdgeOf(it)];
      } else if it.score > edgeMap[key].score {
        WinnersReplace(interactions, n, edgeMap);
        edgeMap := edgeMap[key := EdgeOf(it)];
      } else {
        WinnersKept(interactions, n, edgeMap);
      }
    }
    FirstKeysLength(interactions, |interactions|);
    edges := seq(|order|, a requires 0 <= a < |order| && order[a] in edgeMap => edgeMap[order[a]]);
  }

  /** The index of the first `sep` in s. */
  function IndexOf(s: string, sep: char): (i: nat)
    requires sep in s
    ensures i < |s| && s[i] == sep && sep !in s[..i]
  {
    if s[0] == sep then 0
    else
      assert sep in s[1..];
      var i := IndexOf(s[1..], sep);
      assert s[..i + 1] == [s[0]] + s[1..][..i];
      i + 1
  }

  /** str.split(sep): the pieces between the occurrences of sep. */
  function Split(s: string, sep: char): (parts: seq<string>)
    ensures |parts| >= 1
    ensures forall k | 0 <= k < |parts| :: sep !in parts[k]
    ensures sep in s <==> |parts| > 1
    decreases |s|
  {
    if sep !in s then [s]
    else
      var i := IndexOf(s, sep);
      [s[..i]] + Split(s[i + 1..], sep)
  }

  /** sep.join(parts). */
  function Join(parts: seq<string>, sep: char): string
    requires |parts| >= 1
  {
    if |parts| == 1 then parts[0] else parts[0] + [sep] + Join(parts[1..], sep)
  }

  /** Joining the pieces gives back the id. */
  lemma {:induction false} JoinSplit(s: string, sep: char)
    ensures Join(Split(s, sep), sep) == s
    decreases |s|
  {
    if sep in s {
      var i := IndexOf(s, sep);
      JoinSplit(s[i + 1..], sep);
      assert s == s[..i] + [sep] + s[i + 1..];
    }
  }

  /** A separator with none before it is the first one. */
  lemma IndexOfUnique(s: string, sep: char, j: nat)
    requires j < |s| && s[j] == sep && sep !in s[..j]
    ensures IndexOf(s, sep) == j
  {
    var i := IndexOf(s, sep);
    assert forall k | 0 <= k < j :: s[k] == s[..j][k];
    assert forall k | 0 <= k < i :: s[k] == s[..i][k];
  }

  /** Splitting a join of separator-free pieces gives back the pieces. */
  lemma {:induction false} SplitJoin(parts: seq<string>, sep: char)
    requires |parts| >= 1
    requires forall k | 0 <= k < |parts| :: sep !in parts[k]
    ensures Split(Join(parts, sep), sep) == parts
    decreases |parts|
  {
    if |parts| > 1 {
      var first := parts[0];
      var rest := Join(parts[1..], sep);
      var s := first + [sep] + rest;
      assert Join(parts, sep) == s;
      assert s[..|first|] == first;
      IndexOfUnique(s, sep, |first|);
      assert s[|first| + 1..] == rest;
      assert forall k | 0 <= k < |parts| - 1 :: parts[1..][k] == parts[k + 1];
      SplitJoin(parts[1..], sep);
      assert parts == [first] + parts[1..];
    }
  }

  /** The id's first '.' is at index i. */
  predicate FirstDotAt(s: string, i: int) {
    0 <= i < |s| && s[i] == '.' && '.' !in s[..i]
  }

  /** r is the non-empty text between the first '.' of s and the next '.'
      (or the end). */
  ghost predicate SecondComponent(s: string, r: string) {
    exists i :: FirstDotAt(s, i) && r != "" && i + 1 + |r| <= |s|
                && s[i + 1..i + 1 + |r|] == r && '.' !in r
                && (i + 1 + |r| == |s| || s[i + 1 + |r|] == '.')
  }

  /** The second piece of the split is the text after the first '.' up to the next one. */
  lemma SecondPiece(s: string)
    requires '.' in s
    ensures var i := IndexOf(s, '.');
      var r := Split(s, '.')[1];
      FirstDotAt(s, i) && i + 1 + |r| <= |s| && s[i + 1..i + 1 + |r|] == r
      && (i + 1 + |r| == |s| || s[i + 1 + |r|] == '.')
  {
    var i := IndexOf(s, '.');
    var t := s[i + 1..];
    var r := Split(s, '.')[1];
    assert r == Split(t, '.')[0];
    if '.' in t {
      var j := IndexOf(t, '.');
      assert r == t[..j];
    }
  }

  /** _map_string_id_to_gene. */
  function MapStringIdToGene(stringId: string, idToGene: map<string, seq<string>>): (gene: string)
    ensures stringId in idToGene && idToGene[stringId] != [] ==> gene == idToGene[stringId][0]
    ensures !(stringId in idToGene && idToGene[stringId] != []) ==>
              (SecondComponent(stringId, gene) || gene == stringId)
    ensures !(stringId in idToGene && idToGene[stringId] != []) ==>
              forall i | FirstDotAt(stringId, i) ::
                (i + 1 < |stringId| && stringId[i + 1] != '.' ==> SecondComponent(stringId, gene))
                && (i + 1 == |stringId| || stringId[i + 1] == '.' ==> gene == stringId)
    ensures '.' !in stringId && !(stringId in idToGene && idToGene[stringId] != []) ==> gene == stringId
  {
    if stringId in idToGene && idToGene[stringId] != [] then idToGene[stringId][0]
    else if '.' in stringId then
      var parts := Split(stringId, '.');
      SecondPiece(stringId);
      if |parts| > 1 && parts[1] != "" then parts[1] else stringId
    else stringId
  }
}
