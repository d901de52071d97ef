/** Sums of naturals, the measures of the schedulers; sequences of distinct elements; and elements
    that two sequences share, found by an index of their values. */
module Sequences {

  ghost function Sum(s: seq<nat>): nat {
    if s == [] then 0 else s[0] + Sum(s[1..])
  }

  lemma {:induction false} SumUpdate(s: seq<nat>, s': seq<nat>, v: nat)
    requires |s| == |s'| && v < |s|
    requires forall u: nat :: u < |s| && u != v ==> s'[u] == s[u]
    ensures Sum(s') + s[v] == Sum(s) + s'[v]
  {
    if v == 0 {
      assert s'[1..] == s[1..];
    } else {
      SumUpdate(s[1..], s'[1..], v - 1);
    }
  }

  lemma {:induction false} SumZero(s: seq<nat>)
    ensures Sum(s) == 0 <==> forall i: nat :: i < |s| ==> s[i] == 0
  {
    if s != [] {
      SumZero(s[1..]);
      assert forall i: nat :: i < |s| - 1 ==> s[1..][i] == s[i + 1];
      if Sum(s) == 0 {
        forall i: nat | i < |s|
          ensures s[i] == 0
        {
          if i > 0 {
            assert s[1..][i - 1] == 0;
          }
        }
      }
    }
  }

  ghost predicate NoDuplicates<T>(s: seq<T>) {
    forall i: nat, j: nat :: i < j < |s| ==> s[i] != s[j]
  }

  lemma SubsetCount<T>(a: set<T>, b: set<T>)
    requires a <= b
    ensures |a| <= |b|
    ensures |a| == |b| ==> a == b
  {
    assert b == a + (b - a);
  }

  /** Distinct elements of a set are no more than the set has. */
  lemma {:induction false} DistinctInside<T>(s: seq<T>, all: set<T>)
    requires NoDuplicates(s) && forall x :: x in s ==> x in all
    ensures |s| <= |all|
  {
    if s != [] {
      var n := |s| - 1;
      forall x | x in s[..n]
        ensures x in all - {s[n]}
      {
        var i: nat :| i < n && s[i] == x;
      }
      DistinctInside(s[..n], all - {s[n]});
    }
  }

  /** Some element of s has value v. */
  ghost predicate HasLike<I(!new), Q(!new)>(value: I -> Q, s: seq<I>, v: Q) {
    exists x :: x in s && value(x) == v
  }

  lemma LikeOf<I(!new), Q(!new)>(value: I -> Q, s: seq<I>, v: Q) returns (x: I)
    requires HasLike(value, s, v)
    ensures x in s && value(x) == v
  {
    x :| x in s && value(x) == v;
  }

  /** No element of Y shares its value with another element of X or Y. */
  ghost predicate Unshared<I(!new), Q(!new)>(value: I -> Q, X: seq<I>, Y: seq<I>) {
    forall x, y :: x in X + Y && y in Y && value(x) == value(y) ==> x == y
  }

  lemma SameElement<I(!new), Q(!new)>(value: I -> Q, X: seq<I>, Y: seq<I>, x: I, y: I)
    requires Unshared(value, X, Y) && (x in X || x in Y) && y in Y && value(x) == value(y)
    ensures x == y
  {
    assert x in X + Y;
  }

  /** When no values are shared by different elements, those found by the values they share with
      elements of X are those of X. */
  lemma FoundExactly<I(!new), Q(!new)>(X: seq<I>, Y: seq<I>, share: I -> Q, result: seq<I>, y: I)
    requires y in result ==> y in Y && HasLike(share, X, share(y))
    requires y in X && y in Y ==> HasLike(share, result, share(y))
    requires forall y' :: y' in result ==> y' in Y
    requires Unshared(share, X, Y)
    ensures y in result <==> y in X && y in Y
  {
    hide HasLike, Unshared;
    if y in result {
      var x := LikeOf(share, X, share(y));
      SameElement(share, X, Y, x, y);
    }
    if y in X && y in Y {
      var y' := LikeOf(share, result, share(y));
      SameElement(share, X, Y, y', y);
    }
  }

  /** The index holds just the values of the elements of X. */
  ghost predicate IndexesValues<I(!new), Q(!new)>(share: I -> Q, X: seq<I>, index: set<Q>) {
    && (forall x :: x in X ==> share(x) in index)
    && forall q :: q in index ==> HasLike(share, X, q)
  }

  /** Elements of Y with values in the index were matched, and one for each such value. */
  ghost predicate Matched<I(!new), Q(!new)>(share: I -> Q, Y: seq<I>, index: set<Q>, result: seq<I>) {
    && (forall y :: y in result ==> y in Y && share(y) in index)
    && forall y :: y in Y && share(y) in index ==> HasLike(share, result, share(y))
  }

  /** What is found is shared, and nothing shared is missed. */
  ghost predicate Found<I(!new), Q(!new)>(share: I -> Q, X: seq<I>, Y: seq<I>, result: seq<I>) {
    && (forall y :: y in result ==> y in Y && HasLike(share, X, share(y)))
    && forall y :: y in X && y in Y ==> HasLike(share, result, share(y))
  }

  lemma Exchanged<I(!new), Q(!new)>(X: seq<I>, Y: seq<I>, share: I -> Q, remote: set<Q>, result: seq<I>)
    requires IndexesValues(share, X, remote) && Matched(share, Y, remote, result)
    ensures Found(share, X, Y, result)
  {
    hide HasLike;
  }

  lemma FoundIsExact<I(!new), Q(!new)>(share: I -> Q, X: seq<I>, Y: seq<I>, result: seq<I>, y: I)
    requires Found(share, X, Y, result) && Unshared(share, X, Y)
    ensures y in result <==> y in X && y in Y
  {
    hide HasLike, Unshared;
    FoundExactly(X, Y, share, result, y);
  }
}
