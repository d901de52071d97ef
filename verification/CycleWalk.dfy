/** Iterating a permutation of [0, m) until it falls below l. */
module CycleWalk {
  import opened Sequences
  import opened UintBits

  ghost predicate Injective(f: nat -> nat, m: nat) {
    forall a: nat, b: nat :: a < m && b < m && f(a) == f(b) ==> a == b
  }

  ghost predicate Inside(f: nat -> nat, m: nat) {
    forall i: nat :: i < m ==> f(i) < m
  }

  ghost predicate Permutes(f: nat -> nat, m: nat) {
    Inside(f, m) && Injective(f, m)
  }

  ghost function Iter(f: nat -> nat, i: nat, t: nat): nat {
    if t == 0 then i else f(Iter(f, i, t - 1))
  }

  // ----- the pigeonhole principle

  ghost function Elements(s: seq<nat>): set<nat> {
    set x | x in s
  }

  lemma {:induction false} DistinctCount(s: seq<nat>)
    requires forall a, b :: 0 <= a < b < |s| ==> s[a] != s[b]
    ensures |Elements(s)| == |s|
  {
    if s == [] {
    } else {
      var n := |s| - 1;
      DistinctCount(s[..n]);
      assert s == s[..n] + [s[n]];
      assert Elements(s) == Elements(s[..n]) + {s[n]};
    }
  }

  /** Too many values below m: two of them are the same. */
  lemma Pigeonhole(s: seq<nat>, m: nat) returns (a: nat, b: nat)
    requires |s| > m && forall x :: x in s ==> x < m
    ensures a < b < |s| && s[a] == s[b]
  {
    if forall a, b :: 0 <= a < b < |s| ==> s[a] != s[b] {
      DistinctCount(s);
      SubsetCount(Elements(s), Below(m));
      assert false;
    }
    a, b :| 0 <= a < b < |s| && s[a] == s[b];
  }

  // ----- orbits

  lemma {:induction false} IterBelow(f: nat -> nat, m: nat, i: nat, t: nat)
    requires Permutes(f, m) && i < m
    ensures Iter(f, i, t) < m
  {
    if t > 0 {
      IterBelow(f, m, i, t - 1);
    }
  }

  /** Steps of an injection are taken back one for one. */
  lemma {:induction false} IterCancel(f: nat -> nat, m: nat, i: nat, j: nat, a: nat, d: nat)
    requires Permutes(f, m) && i < m && j < m && Iter(f, i, a) == Iter(f, j, d + a)
    ensures i == Iter(f, j, d)
    decreases a
  {
    hide Permutes;
    if a == 0 {
      assert d + a == d;
    } else {
      var a', e := a - 1, d + a - 1;
      IterBelow(f, m, i, a');
      IterBelow(f, m, j, e);
      Cancel(f, m, Iter(f, i, a'), Iter(f, j, e));
      assert e == d + a';
      IterCancel(f, m, i, j, a', d);
    }
  }

  lemma Cancel(f: nat -> nat, m: nat, a: nat, b: nat)
    requires Permutes(f, m) && a < m && b < m && f(a) == f(b)
    ensures a == b
  {
  }

  /** Every orbit comes back to where it started. */
  lemma OrbitReturns(f: nat -> nat, m: nat, i: nat) returns (t: nat)
    requires Permutes(f, m) && i < m
    ensures 1 <= t <= m && Iter(f, i, t) == i
  {
    var s := seq(m + 1, t requires 0 <= t => Iter(f, i, t));
    forall x | x in s
      ensures x < m
    {
      var t: nat :| t < |s| && s[t] == x;
      IterBelow(f, m, i, t);
    }
    var a, b := Pigeonhole(s, m);
    IterCancel(f, m, i, i, a, b - a);
    t := b - a;
  }

  lemma InjectionIsOnto(f: nat -> nat, m: nat, y: nat) returns (x: nat)
    requires Permutes(f, m) && y < m
    ensures x < m && f(x) == y
  {
    var t := OrbitReturns(f, m, y);
    IterBelow(f, m, y, t - 1);
    x := Iter(f, y, t - 1);
  }

  /** Where g takes f back, its iterates take back those of f. */
  lemma {:induction false} IterBack(f: nat -> nat, g: nat -> nat, m: nat, i: nat, t: nat, s: nat)
    requires Permutes(f, m) && i < m && s <= t && forall x: nat :: x < m ==> g(f(x)) == x
    ensures Iter(g, Iter(f, i, t), s) == Iter(f, i, t - s)
  {
    if s > 0 {
      IterBack(f, g, m, i, t, s - 1);
      IterBelow(f, m, i, t - s);
      assert Iter(f, i, t - s + 1) == f(Iter(f, i, t - s));
    }
  }

  // ----- walking until below l

  /** t is the first step, after at least one, at which the walk from i is below l. */
  ghost predicate FirstReturn(f: nat -> nat, l: nat, i: nat, t: nat) {
    t >= 1 && Iter(f, i, t) < l && forall s: nat :: 1 <= s < t ==> Iter(f, i, s) >= l
  }

  /** The walk ends: at the latest when the orbit closes. */
  lemma WalkEnds(f: nat -> nat, m: nat, l: nat, i: nat) returns (t: nat)
    requires Permutes(f, m) && i < l <= m
    ensures FirstReturn(f, l, i, t)
  {
    var last := OrbitReturns(f, m, i);
    t := 1;
    while Iter(f, i, t) >= l
      invariant 1 <= t <= last
      invariant forall s: nat :: 1 <= s < t ==> Iter(f, i, s) >= l
      decreases last - t
    {
      t := t + 1;
    }
  }

  ghost function Walk(f: nat -> nat, m: nat, l: nat, i: nat): (r: nat)
    requires Permutes(f, m) && l <= m
    ensures i < l ==> r < l && exists t: nat :: FirstReturn(f, l, i, t) && r == Iter(f, i, t)
  {
    if i < l then
      assert exists t: nat :: FirstReturn(f, l, i, t) by {
        var t := WalkEnds(f, m, l, i);
      }
      var t: nat :| FirstReturn(f, l, i, t);
      Iter(f, i, t)
    else i
  }

  lemma FirstReturnIsLeast(f: nat -> nat, l: nat, i: nat, t: nat, s: nat)
    requires FirstReturn(f, l, i, t) && s >= 1 && Iter(f, i, s) < l
    ensures t <= s
  {
  }

  lemma WalkCancel(f: nat -> nat, m: nat, l: nat, i: nat, j: nat, a: nat, b: nat)
    requires Permutes(f, m) && i < l <= m && j < l && a <= b
    requires FirstReturn(f, l, i, a) && FirstReturn(f, l, j, b) && Iter(f, i, a) == Iter(f, j, b)
    ensures i == j
  {
    var d: nat := b - a;
    IterCancel(f, m, i, j, a, d);
    if d > 0 {
      FirstReturnIsLeast(f, l, j, b, d);
    }
  }

  /** Cycle walking a permutation of [0, m) permutes [0, l). */
  lemma WalkPermutes(f: nat -> nat, m: nat, l: nat)
    requires Permutes(f, m) && l <= m
    ensures Permutes(i => Walk(f, m, l, i), l)
  {
    forall i: nat, j: nat | i < l && j < l && Walk(f, m, l, i) == Walk(f, m, l, j)
      ensures i == j
    {
      var a: nat :| FirstReturn(f, l, i, a) && Walk(f, m, l, i) == Iter(f, i, a);
      var b: nat :| FirstReturn(f, l, j, b) && Walk(f, m, l, j) == Iter(f, j, b);
      if a <= b {
        WalkCancel(f, m, l, i, j, a, b);
      } else {
        WalkCancel(f, m, l, j, i, b, a);
      }
    }
  }
}
