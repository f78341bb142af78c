/**
  Order-independent folds over finite sets of node ids: sums (integer and
  real), a maximum starting from 0, and the argmax with smallest-id
  tie-breaking. The source accumulates these in loops over Python sets;
  the model states the accumulated value through these definitions.
 */
module SetSums {

  lemma NonEmptyHasElement(s: set<int>)
    ensures s != {} ==> exists y :: y in s
  {
    if s != {} && forall y :: y !in s {
      assert false;
    }
  }

  ghost function Pick(s: set<int>): (x: int)
    requires s != {}
    ensures x in s
  {
    NonEmptyHasElement(s);
    var y :| y in s; y
  }

  ghost function Sum(s: set<int>, f: int -> int): int
    decreases s
  {
    if s == {} then 0 else var x := Pick(s); f(x) + Sum(s - {x}, f)
  }

  ghost function SumR(s: set<int>, f: int -> real): real
    decreases s
  {
    if s == {} then 0.0 else var x := Pick(s); f(x) + SumR(s - {x}, f)
  }

  function Max(a: real, b: real): real {
    if a >= b then a else b
  }

  /** max(0, f(x) for x in s), the shape of a max accumulator started at 0. */
  ghost function MaxOver(s: set<int>, f: int -> real): real
    decreases s
  {
    if s == {} then 0.0 else var x := Pick(s); Max(f(x), MaxOver(s - {x}, f))
  }

  /** Any element can be taken out first: the sum does not depend on the order. */
  lemma {:induction false} SumRemove(s: set<int>, f: int -> int, y: int)
    requires y in s
    ensures Sum(s, f) == f(y) + Sum(s - {y}, f)
    decreases s
  {
    var x := Pick(s);
    if x != y {
      SumRemove(s - {x}, f, y);
      SumRemove(s - {y}, f, x);
      assert s - {x} - {y} == s - {y} - {x};
    }
  }

  lemma {:induction false} SumRRemove(s: set<int>, f: int -> real, y: int)
    requires y in s
    ensures SumR(s, f) == f(y) + SumR(s - {y}, f)
    decreases s
  {
    var x := Pick(s);
    if x != y {
      SumRRemove(s - {x}, f, y);
      SumRRemove(s - {y}, f, x);
      assert s - {x} - {y} == s - {y} - {x};
    }
  }

  lemma {:induction false} MaxOverRemove(s: set<int>, f: int -> real, y: int)
    requires y in s
    ensures MaxOver(s, f) == Max(f(y), MaxOver(s - {y}, f))
    decreases s
  {
    var x := Pick(s);
    if x != y {
      MaxOverRemove(s - {x}, f, y);
      MaxOverRemove(s - {y}, f, x);
      assert s - {x} - {y} == s - {y} - {x};
    }
  }

  lemma {:induction false} SumNonneg(s: set<int>, f: int -> int)
    requires forall x | x in s :: f(x) >= 0
    ensures Sum(s, f) >= 0
    decreases s
  {
    if s != {} {
      SumNonneg(s - {Pick(s)}, f);
    }
  }

  /** Summing two functions separately gives the sum of their pointwise sum. */
  lemma {:induction false} SumAdd(s: set<int>, f: int -> int, h: int -> int, d: int -> int)
    requires forall x | x in s :: f(x) + h(x) == d(x)
    ensures Sum(s, f) + Sum(s, h) == Sum(s, d)
    decreases s
  {
    if s != {} {
      var x := Pick(s);
      SumAdd(s - {x}, f, h, d);
    }
  }

  /** Integer sums of two functions that agree on the set are equal. */
  lemma {:induction false} SumCongruent(s: set<int>, f: int -> int, h: int -> int)
    requires forall x | x in s :: f(x) == h(x)
    ensures Sum(s, f) == Sum(s, h)
    decreases s
  {
    if s != {} {
      var x := Pick(s);
      SumCongruent(s - {x}, f, h);
      SumRemove(s, h, x);
    }
  }

  /** A pointwise smaller function has a smaller sum. */
  lemma {:induction false} SumMonotone(s: set<int>, f: int -> int, h: int -> int)
    requires forall x | x in s :: f(x) <= h(x)
    ensures Sum(s, f) <= Sum(s, h)
    decreases s
  {
    if s != {} {
      var x := Pick(s);
      SumMonotone(s - {x}, f, h);
      SumRemove(s, h, x);
    }
  }

  /** Summing values in [-1, 1] gives a total in [-|s|, |s|]. */
  lemma {:induction false} SumRUnitBounds(s: set<int>, f: int -> real)
    requires forall x | x in s :: -1.0 <= f(x) <= 1.0
    ensures -(|s| as real) <= SumR(s, f) <= |s| as real
    decreases s
  {
    if s != {} {
      var x := Pick(s);
      SumRUnitBounds(s - {x}, f);
    }
  }

  /** Sums of two functions that agree on the set are equal. */
  lemma {:induction false} SumRCongruent(s: set<int>, f: int -> real, h: int -> real)
    requires forall x | x in s :: f(x) == h(x)
    ensures SumR(s, f) == SumR(s, h)
    decreases s
  {
    if s != {} {
      var x := Pick(s);
      SumRCongruent(s - {x}, f, h);
      SumRRemove(s, h, x);
    }
  }

  lemma {:induction false} MaxOverBounds(s: set<int>, f: int -> real, b: real)
    requires b >= 0.0
    requires forall x | x in s :: f(x) <= b
    ensures 0.0 <= MaxOver(s, f) <= b
    ensures forall x | x in s :: f(x) <= MaxOver(s, f)
    decreases s
  {
    if s != {} {
      var x := Pick(s);
      MaxOverBounds(s - {x}, f, b);
      forall y | y in s ensures f(y) <= MaxOver(s, f) {
        MaxOverRemove(s, f, y);
      }
    }
  }

  /** `x` is a maximiser of `f` on `s`, and the smallest id among the maximisers. */
  ghost predicate IsArgMax(x: int, s: set<int>, f: int -> real) {
    x in s && forall y | y in s :: f(y) < f(x) || (f(y) == f(x) && x <= y)
  }

  lemma {:induction false} ArgMaxExists(s: set<int>, f: int -> real)
    requires s != {}
    ensures exists x :: IsArgMax(x, s, f)
    decreases s
  {
    var y := Pick(s);
    if s - {y} == {} {
      assert s == {y};
      assert IsArgMax(y, s, f);
    } else {
      ArgMaxExists(s - {y}, f);
      var x :| IsArgMax(x, s - {y}, f);
      if f(y) > f(x) || (f(y) == f(x) && y < x) {
        assert IsArgMax(y, s, f);
      } else {
        assert IsArgMax(x, s, f);
      }
    }
  }

  /** The argmax only depends on the values of `f` on `s`. */
  lemma ArgMaxCongruent(x: int, s: set<int>, f: int -> real, h: int -> real)
    requires forall y | y in s :: f(y) == h(y)
    ensures IsArgMax(x, s, f) <==> IsArgMax(x, s, h)
  {
  }

  lemma ArgMaxUnique(x: int, y: int, s: set<int>, f: int -> real)
    requires IsArgMax(x, s, f) && IsArgMax(y, s, f)
    ensures x == y
  {
  }

  ghost function ArgMax(s: set<int>, f: int -> real): (x: int)
    requires s != {}
    ensures IsArgMax(x, s, f)
  {
    ArgMaxExists(s, f);
    var x :| IsArgMax(x, s, f); x
  }

  lemma {:induction false} MinExists(s: set<int>)
    requires s != {}
    ensures exists m :: m in s && forall y | y in s :: m <= y
    decreases s
  {
    var y := Pick(s);
    if s - {y} != {} {
      MinExists(s - {y});
      var m :| m in s - {y} && forall z | z in s - {y} :: m <= z;
      var least := if y < m then y else m;
      forall z | z in s ensures least <= z {
        if z != y { assert z in s - {y}; }
      }
    } else {
      assert s == {y};
    }
  }

  lemma {:induction false} SubsetCard(a: set<int>, b: set<int>)
    requires a <= b
    ensures |a| <= |b|
    decreases a
  {
    if a != {} {
      var x := Pick(a);
      SubsetCard(a - {x}, b - {x});
    }
  }

  lemma SubsetCardEqual(a: set<int>, b: set<int>)
    requires a <= b
    ensures |a| == |b| ==> a == b
  {
    if |a| == |b| {
      if b - a != {} {
        NonEmptyHasElement(b - a);
        var x :| x in b - a;
        SubsetCard(a, b - {x});
        assert false;
      }
      forall x | x in b ensures x in a {
        assert x !in b - a;
      }
    }
  }
}
