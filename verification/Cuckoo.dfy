/** The 3-way cuckoo hash table of internal/cuckoo/cuckoo.go. */
module CuckooTable {
  import opened Sequences
  import opened Words

  type Item = seq<byte>

  const NHASH: nat := 3
  const REINSERT_LIMIT: nat := 200

  /** The three seeded hash functions. */
  type Hashers = (nat, Item) -> nat

  /** BucketIndices(item)[h] */
  function Bucket(hash: Hashers, m: nat, item: Item, h: nat): (b: nat)
    requires m > 0
    ensures b < m
  {
    hash(h, item) % m
  }

  /** The items at 1..n lie in buckets, each in one, in the bucket that its recorded hash function
      gives; only the item at `homeless` lies in none (0 when there is no such item). */
  ghost predicate Placed(hash: Hashers, items: seq<Item>, hashes: seq<nat>, lookup: seq<nat>, n: nat, homeless: nat) {
    && |lookup| > 0
    && n < |items| == |hashes| && hashes[0] == 0
    && (forall b: nat :: b < |lookup| ==> lookup[b] <= n && (lookup[b] != 0 ==> lookup[b] != homeless))
    && (forall i: nat :: 1 <= i <= n && i != homeless ==>
          hashes[i] < NHASH && lookup[Bucket(hash, |lookup|, items[i], hashes[i])] == i)
    && (forall b: nat :: b < |lookup| && lookup[b] != 0 ==>
          Bucket(hash, |lookup|, items[lookup[b]], hashes[lookup[b]]) == b)
  }

  ghost predicate Distinct(items: seq<Item>, n: nat)
    requires n < |items|
  {
    forall i: nat, j: nat :: 1 <= i < j <= n ==> items[i] != items[j]
  }

  /** A new item behind the first n is homeless. */
  lemma Append(hash: Hashers, items: seq<Item>, hashes: seq<nat>, lookup: seq<nat>, n: nat, item: Item)
    requires Placed(hash, items, hashes, lookup, n, 0) && n + 1 < |items| && Distinct(items, n)
    ensures var items' := items[n + 1 := item];
      && Placed(hash, items', hashes, lookup, n, 0)
      && Placed(hash, items', hashes, lookup, n + 1, n + 1)
      && Distinct(items', n)
      && items'[1..n + 1] == items[1..n + 1]
      && items'[1..n + 2] == items[1..n + 1] + [item]
      && (item !in items[1..n + 1] ==> Distinct(items', n + 1))
  {
    var items' := items[n + 1 := item];
    if item !in items[1..n + 1] {
      forall i: nat, j: nat | 1 <= i < j <= n + 1
        ensures items'[i] != items'[j]
      {
        assert items[i] == items[1..n + 1][i - 1];
      }
    }
  }

  /** Filling a free bucket houses the homeless item. */
  lemma FillFree(hash: Hashers, items: seq<Item>, hashes: seq<nat>, lookup: seq<nat>, n: nat, idx: nat, h: nat)
    requires Placed(hash, items, hashes, lookup, n, idx) && 1 <= idx <= n && h < NHASH
    requires lookup[Bucket(hash, |lookup|, items[idx], h)] == 0
    ensures Placed(hash, items, hashes[idx := h], lookup[Bucket(hash, |lookup|, items[idx], h) := idx], n, 0)
  {
  }

  /** Taking a bucket houses the homeless item and makes the one that was there homeless. */
  lemma Evict(hash: Hashers, items: seq<Item>, hashes: seq<nat>, lookup: seq<nat>, n: nat, idx: nat, h: nat)
    requires Placed(hash, items, hashes, lookup, n, idx) && 1 <= idx <= n && h < NHASH
    requires lookup[Bucket(hash, |lookup|, items[idx], h)] != 0
    ensures var b := Bucket(hash, |lookup|, items[idx], h);
      && Placed(hash, items, hashes[idx := h], lookup[b := idx], n, lookup[b])
      && 1 <= lookup[b] <= n && lookup[b] != idx
  {
  }

  /** Some candidate bucket of the item holds it. */
  ghost predicate InSomeBucket(hash: Hashers, items: seq<Item>, lookup: seq<nat>, item: Item)
    requires |lookup| > 0 && forall b: nat :: b < |lookup| ==> lookup[b] < |items|
  {
    exists h: nat :: h < NHASH && items[lookup[Bucket(hash, |lookup|, item, h)]] == item
  }

  lemma FindPlace(hash: Hashers, items: seq<Item>, hashes: seq<nat>, lookup: seq<nat>, n: nat, item: Item)
    requires Placed(hash, items, hashes, lookup, n, 0) && item in items[1..n + 1]
    ensures InSomeBucket(hash, items, lookup, item)
  {
    var i: nat :| 1 <= i <= n && items[i] == item;
    assert items[lookup[Bucket(hash, |lookup|, items[i], hashes[i])]] == item;
  }

  // ----- what Insert does, given the random choices

  /** What a table holds. */
  datatype State = State(items: seq<Item>, hashes: seq<nat>, lookup: seq<nat>) {
    ghost predicate Sized() {
      |lookup| > 0 && |items| == |hashes| && forall b: nat :: b < |lookup| ==> lookup[b] < |items|
    }
  }

  /** All candidate buckets of the item are taken. */
  ghost predicate AllTaken(hash: Hashers, lookup: seq<nat>, item: Item)
    requires |lookup| > 0
  {
    forall h: nat :: h < NHASH ==> lookup[Bucket(hash, |lookup|, item, h)] != 0
  }

  /** Bucket h of the item is free, and the candidates before it are taken. */
  ghost predicate FirstFree(hash: Hashers, lookup: seq<nat>, item: Item, h: nat)
    requires |lookup| > 0
  {
    && h < NHASH && lookup[Bucket(hash, |lookup|, item, h)] == 0
    && forall h': nat :: h' < h ==> lookup[Bucket(hash, |lookup|, item, h')] != 0
  }

  /** The item at idx goes to its bucket h. */
  ghost function Put(hash: Hashers, s: State, idx: nat, h: nat): (s': State)
    requires s.Sized() && idx < |s.items|
    ensures s'.Sized() && s'.items == s.items && |s'.lookup| == |s.lookup|
  {
    State(s.items, s.hashes[idx := h], s.lookup[Bucket(hash, |s.lookup|, s.items[idx], h) := idx])
  }

  /** The item at idx goes to its first free bucket. */
  ghost predicate Houses(hash: Hashers, s: State, idx: nat, s': State)
    requires s.Sized() && idx < |s.items|
  {
    exists h: nat :: FirstFree(hash, s.lookup, s.items[idx], h) && s' == Put(hash, s, idx, h)
  }

  /** Bucket h of the item is free, and not the excepted one when that is to be ignored. */
  ghost predicate AllowedFree(hash: Hashers, lookup: seq<nat>, item: Item, ignore: bool, except: nat, h: nat)
    requires |lookup| > 0
  {
    var b := Bucket(hash, |lookup|, item, h);
    lookup[b] == 0 && !(ignore && b == except)
  }

  ghost predicate NoneBut(hash: Hashers, lookup: seq<nat>, item: Item, ignore: bool, except: nat)
    requires |lookup| > 0
  {
    forall h: nat :: h < NHASH ==> !AllowedFree(hash, lookup, item, ignore, except, h)
  }

  /** The item at idx goes to the first bucket that is free and not excepted. */
  ghost predicate HousesBut(hash: Hashers, s: State, idx: nat, ignore: bool, except: nat, s': State)
    requires s.Sized() && idx < |s.items|
  {
    exists h: nat ::
      && h < NHASH && AllowedFree(hash, s.lookup, s.items[idx], ignore, except, h)
      && (forall h': nat :: h' < h ==> !AllowedFree(hash, s.lookup, s.items[idx], ignore, except, h'))
      && s' == Put(hash, s, idx, h)
  }

  /** A bucket that is taken need not be excepted. */
  lemma NothingExcepted(hash: Hashers, s: State, idx: nat, ignore: bool, except: nat, s': State)
    requires s.Sized() && idx < |s.items| && (ignore ==> except < |s.lookup| && s.lookup[except] != 0)
    ensures NoneBut(hash, s.lookup, s.items[idx], ignore, except) <==> AllTaken(hash, s.lookup, s.items[idx])
    ensures HousesBut(hash, s, idx, ignore, except, s') ==>
              Houses(hash, s, idx, s') && !AllTaken(hash, s.lookup, s.items[idx])
  {
    hide Bucket, Put;
    assert forall h: nat :: AllowedFree(hash, s.lookup, s.items[idx], ignore, except, h)
                            <==> s.lookup[Bucket(hash, |s.lookup|, s.items[idx], h)] == 0;
  }

  /** The table and the homeless item after the evictions of the hash functions `picks`. */
  ghost function Evictions(hash: Hashers, s: State, idx: nat, picks: seq<nat>): (r: (State, nat))
    requires s.Sized() && idx < |s.items|
    ensures r.0.Sized() && r.0.items == s.items && r.1 < |s.items|
  {
    if picks == [] then (s, idx)
    else
      var k: nat := |picks| - 1;
      var (t, i) := Evictions(hash, s, idx, picks[..k]);
      (Put(hash, t, i, picks[k]), t.lookup[Bucket(hash, |t.lookup|, t.items[i], picks[k])])
  }

  /** After each of these evictions all buckets of the evicted item are taken. */
  ghost predicate Futile(hash: Hashers, s: State, idx: nat, picks: seq<nat>)
    requires s.Sized() && idx < |s.items|
  {
    picks != [] ==>
      var (t, i) := Evictions(hash, s, idx, picks);
      && picks[|picks| - 1] < NHASH
      && AllTaken(hash, t.lookup, t.items[i])
      && Futile(hash, s, idx, picks[..|picks| - 1])
  }

  /** The item is in one of its candidate buckets, or seems to be. */
  ghost predicate Seen(hash: Hashers, s: State, item: Item)
    requires s.Sized()
  {
    exists h: nat :: h < NHASH && s.items[s.lookup[Bucket(hash, |s.lookup|, item, h)]] == item
  }

  /** Evictions with `picks` lead from s, where the item at idx is homeless, to s': the last evicted
      item finds a free bucket, at the latest after 199 evictions. */
  ghost predicate EvictsInto(hash: Hashers, s: State, idx: nat, picks: seq<nat>, s': State)
    requires s.Sized() && idx < |s.items|
  {
    && 1 <= |picks| <= 199 && picks[|picks| - 1] < NHASH
    && Futile(hash, s, idx, picks[..|picks| - 1])
    && var (t, i) := Evictions(hash, s, idx, picks);
       Houses(hash, t, i, s')
  }

  /** 199 evictions with `picks` lead from s to s' and leave the item at `homeless` without a bucket. */
  ghost predicate EvictsInVain(hash: Hashers, s: State, idx: nat, picks: seq<nat>, s': State, homeless: nat)
    requires s.Sized() && idx < |s.items|
  {
    |picks| == 199 && Futile(hash, s, idx, picks) && Evictions(hash, s, idx, picks) == (s', homeless)
  }

  /** What Insert does with a table of n items in state s. */
  ghost predicate Inserts(hash: Hashers, s: State, n: nat, item: Item, picks: seq<nat>, s': State, n': nat, r: Outcome)
    requires s.Sized() && n < |s.items|
  {
    if n + 1 == |s.items| then
      r == IndexPanic && s' == s && n' == n
    else
      var t := s.(items := s.items[n + 1 := item]);
      if Seen(hash, t, item) then
        r == Present && s' == t && n' == n
      else if !AllTaken(hash, t.lookup, item) then
        r == Inserted && n' == n + 1 && Houses(hash, t, n + 1, s')
      else if r == Inserted then
        n' == n + 1 && EvictsInto(hash, t, n + 1, picks, s')
      else
        r.Homeless? && n' == n && EvictsInVain(hash, t, n + 1, picks, s', r.idx)
  }

  lemma InsertsNothing(hash: Hashers, s: State, n: nat, item: Item)
    requires s.Sized() && n + 1 == |s.items|
    ensures Inserts(hash, s, n, item, [], s, n, IndexPanic)
  {
  }

  lemma InsertsAgain(hash: Hashers, s: State, n: nat, item: Item, t: State)
    requires s.Sized() && n + 1 < |s.items| && t == s.(items := s.items[n + 1 := item]) && Seen(hash, t, item)
    ensures Inserts(hash, s, n, item, [], t, n, Present)
  {
  }

  lemma InsertsNew(hash: Hashers, s: State, n: nat, item: Item, picks: seq<nat>, t: State, s': State, r: Outcome)
    requires s.Sized() && n + 1 < |s.items| && t == s.(items := s.items[n + 1 := item]) && !Seen(hash, t, item)
    requires r.Inserted? || r.Homeless?
    requires !AllTaken(hash, t.lookup, item) ==> r.Inserted? && Houses(hash, t, n + 1, s')
    requires AllTaken(hash, t.lookup, item) && r.Inserted? ==> EvictsInto(hash, t, n + 1, picks, s')
    requires AllTaken(hash, t.lookup, item) && r.Homeless? ==> EvictsInVain(hash, t, n + 1, picks, s', r.idx)
    ensures Inserts(hash, s, n, item, picks, s', if r.Inserted? then n + 1 else n, r)
  {
    hide Seen, AllTaken, Houses, EvictsInto, EvictsInVain;
  }

  /** Insert fails only for an item that is not there, when all its candidate buckets are taken and
      after 199 evictions. */
  lemma FailureMeans(hash: Hashers, s: State, n: nat, item: Item, picks: seq<nat>, s': State, n': nat, r: Outcome)
    requires s.Sized() && n < |s.items| && Inserts(hash, s, n, item, picks, s', n', r) && r.Homeless?
    ensures |picks| == 199 && forall h: nat :: h < 3 ==> s.lookup[hash(h, item) % |s.lookup|] != 0
  {
    hide Futile, Evictions, Houses, Seen;
    assert AllTaken(hash, s.lookup, item);
    forall h: nat | h < 3
      ensures s.lookup[hash(h, item) % |s.lookup|] != 0
    {
      assert s.lookup[Bucket(hash, |s.lookup|, item, h)] != 0;
    }
  }

  lemma {:induction false} EvictMore(hash: Hashers, s: State, idx: nat, picks: seq<nat>, pick: nat)
    requires s.Sized() && idx < |s.items|
    ensures var (t, i) := Evictions(hash, s, idx, picks);
      Evictions(hash, s, idx, picks + [pick])
      == (Put(hash, t, i, pick), t.lookup[Bucket(hash, |t.lookup|, t.items[i], pick)])
    ensures (picks + [pick])[..|picks|] == picks
  {
    assert (picks + [pick])[..|picks|] == picks;
  }

  lemma NoEvictions(hash: Hashers, s: State, idx: nat)
    requires s.Sized() && idx < |s.items|
    ensures Evictions(hash, s, idx, []) == (s, idx) && Futile(hash, s, idx, [])
  {
  }

  lemma StillFutile(hash: Hashers, s: State, idx: nat, picks: seq<nat>)
    requires s.Sized() && idx < |s.items| && picks != [] && picks[|picks| - 1] < NHASH
    requires Futile(hash, s, idx, picks[..|picks| - 1])
    requires var (t, i) := Evictions(hash, s, idx, picks); AllTaken(hash, t.lookup, t.items[i])
    ensures Futile(hash, s, idx, picks)
  {
  }

  // ----- how many buckets are taken

  ghost function Occupied(lookup: seq<nat>): set<nat> {
    set b: nat | b < |lookup| && lookup[b] != 0
  }

  ghost function BucketsOf(hash: Hashers, items: seq<Item>, hashes: seq<nat>, m: nat, n: nat): set<nat>
    requires m > 0 && n < |items| == |hashes|
  {
    if n == 0 then {} else BucketsOf(hash, items, hashes, m, n - 1) + {Bucket(hash, m, items[n], hashes[n])}
  }

  /** Item k and its bucket determine each other. */
  lemma BucketOfItem(hash: Hashers, items: seq<Item>, hashes: seq<nat>, lookup: seq<nat>, n: nat, k: nat, b: nat)
    requires Placed(hash, items, hashes, lookup, n, 0) && 1 <= k <= n
    ensures b < |lookup| && lookup[b] == k <==> b == Bucket(hash, |lookup|, items[k], hashes[k])
  {
  }

  /** The buckets of the first k items are those that hold them. */
  lemma {:induction false} BucketsHold(hash: Hashers, items: seq<Item>, hashes: seq<nat>, lookup: seq<nat>, n: nat,
                                       k: nat, b: nat)
    requires Placed(hash, items, hashes, lookup, n, 0) && k <= n
    ensures |lookup| > 0 && n < |items| == |hashes|
    ensures b in BucketsOf(hash, items, hashes, |lookup|, k) <==> b < |lookup| && 1 <= lookup[b] <= k
  {
    assert |lookup| > 0 && n < |items| == |hashes|;
    hide Placed, Bucket;
    if k > 0 {
      BucketsHold(hash, items, hashes, lookup, n, k - 1, b);
      BucketOfItem(hash, items, hashes, lookup, n, k, b);
    }
  }

  lemma {:induction false} BucketsCounted(hash: Hashers, items: seq<Item>, hashes: seq<nat>, lookup: seq<nat>, n: nat,
                                          k: nat)
    requires Placed(hash, items, hashes, lookup, n, 0) && k <= n
    ensures |lookup| > 0 && n < |items| == |hashes|
    ensures |BucketsOf(hash, items, hashes, |lookup|, k)| == k
  {
    assert |lookup| > 0 && n < |items| == |hashes|;
    hide Placed, Bucket;
    if k > 0 {
      var last := Bucket(hash, |lookup|, items[k], hashes[k]);
      BucketsCounted(hash, items, hashes, lookup, n, k - 1);
      BucketsHold(hash, items, hashes, lookup, n, k - 1, last);
      BucketOfItem(hash, items, hashes, lookup, n, k, last);
    }
  }

  /** One bucket is taken for each item. */
  lemma OccupiedCounted(hash: Hashers, items: seq<Item>, hashes: seq<nat>, lookup: seq<nat>, n: nat)
    requires Placed(hash, items, hashes, lookup, n, 0)
    ensures |Occupied(lookup)| == n
  {
    BucketsCounted(hash, items, hashes, lookup, n, n);
    forall b: nat
      ensures b in BucketsOf(hash, items, hashes, |lookup|, n) <==> b in Occupied(lookup)
    {
      BucketsHold(hash, items, hashes, lookup, n, n, b);
    }
    assert Occupied(lookup) == BucketsOf(hash, items, hashes, |lookup|, n);
  }

  lemma OccupiedNext(lookup: seq<nat>, v: nat)
    ensures |Occupied(lookup + [v])| == |Occupied(lookup)| + if v != 0 then 1 else 0
  {
    var b: nat := |lookup|;
    if v != 0 {
      assert Occupied(lookup + [v]) == Occupied(lookup) + {b};
    } else {
      assert Occupied(lookup + [v]) == Occupied(lookup);
    }
  }

  /** The buckets that an item may go to. */
  ghost function Candidates(hash: Hashers, m: nat, item: Item): set<nat>
    requires m > 0
  {
    {hash(0, item) % m, hash(1, item) % m, hash(2, item) % m}
  }

  /** As long as there are fewer items than an item has candidate buckets, one of these is free. */
  lemma CandidateFree(hash: Hashers, items: seq<Item>, hashes: seq<nat>, lookup: seq<nat>, n: nat, item: Item)
    requires Placed(hash, items, hashes, lookup, n, 0) && n < |Candidates(hash, |lookup|, item)|
    ensures exists h: nat :: h < NHASH && lookup[hash(h, item) % |lookup|] == 0
  {
    assert |lookup| > 0;
    OccupiedCounted(hash, items, hashes, lookup, n);
    hide Placed;
    var m, candidates, occupied := |lookup|, Candidates(hash, |lookup|, item), Occupied(lookup);
    if candidates <= occupied {
      SubsetCount(candidates, occupied);
      assert false;
    }
    var b :| b in candidates && b !in occupied;
    var h: nat := if b == hash(0, item) % m then 0 else if b == hash(1, item) % m then 1 else 2;
    assert lookup[hash(h, item) % m] == 0;
  }

  // ----- the table

  datatype Outcome =
    | Inserted
    | Present
    | Homeless(idx: nat)
    | Full            // the error of the guard of Insert
    | IndexPanic      // items[inserted+1] is out of range

  class Cuckoo {
    const hash: Hashers
    const items: array<Item>
    const hashes: array<nat>
    const lookup: array<nat>
    var inserted: nat

    /** Everything but the places of the items. */
    ghost predicate Shape()
      reads this, items, hashes, lookup
    {
      && items.Length == hashes.Length > 0 && lookup.Length > 0 && hashes != lookup
      && inserted < items.Length
      && items[0] == []
      && Distinct(items[..], inserted)
    }

    ghost predicate Valid()
      reads this, items, hashes, lookup
    {
      Shape() && Placed(hash, items[..], hashes[..], lookup[..], inserted, 0)
    }

    /** The identifiers in the table, in the order of insertion. */
    ghost function Ids(): (ids: seq<Item>)
      requires Shape()
      reads this, items, hashes, lookup
    {
      items[1..inserted + 1]
    }

    /** NewCuckoo for `size` items and m buckets. */
    constructor (size: nat, m: nat, hash: Hashers)
      requires m > 0
      ensures Valid() && fresh(items) && fresh(hashes) && fresh(lookup)
      ensures this.hash == hash && Ids() == [] && items.Length == size + 1 && lookup.Length == m
      ensures Fields() == State(seq(size + 1, _ => []), seq(size + 1, _ => 0), seq(m, _ => 0)) && inserted == 0
    {
      this.hash := hash;
      items := new Item[size + 1](_ => []);
      hashes := new nat[size + 1](_ => 0);
      lookup := new nat[m](_ => 0);
      inserted := 0;
      new;
      assert items[..] == seq(size + 1, _ => []) && hashes[..] == seq(size + 1, _ => 0);
      assert lookup[..] == seq(m, _ => 0);
    }

    /** Some candidate bucket of the item is free. */
    ghost predicate HasFreeBucket(item: Item)
      requires lookup.Length > 0
      reads lookup
    {
      exists h: nat :: h < NHASH && lookup[hash(h, item) % lookup.Length] == 0
    }

    lemma FreeMeans(item: Item)
      requires lookup.Length > 0
      ensures HasFreeBucket(item) <==> exists h: nat :: h < NHASH && lookup[Bucket(hash, lookup.Length, item, h)] == 0
    {
      if HasFreeBucket(item) {
        var h: nat :| h < NHASH && lookup[hash(h, item) % lookup.Length] == 0;
        assert lookup[Bucket(hash, lookup.Length, item, h)] == 0;
      }
      if h: nat :| h < NHASH && lookup[Bucket(hash, lookup.Length, item, h)] == 0 {
        assert lookup[hash(h, item) % lookup.Length] == 0;
      }
    }

    /** Exists: the empty identifier also seems present when one of its buckets is free, for it
        equals the keeper items[0]. */
    method Exists(item: Item) returns (found: bool, hIdx: nat)
      requires Valid()
      ensures found <==> item in Ids() || (item == [] && HasFreeBucket(item))
      ensures found ==> hIdx < NHASH && items[lookup[hash(hIdx, item) % lookup.Length]] == item
      ensures !found ==> hIdx == 0
    {
      FreeMeans(item);
      assert item in Ids() ==> InSomeBucket(hash, items[..], lookup[..], item) by {
        if item in Ids() {
          FindPlace(hash, items[..], hashes[..], lookup[..], inserted, item);
        }
      }
      for h := 0 to NHASH
        invariant forall h': nat :: h' < h ==> items[lookup[Bucket(hash, lookup.Length, item, h')]] != item
      {
        if items[lookup[Bucket(hash, lookup.Length, item, h)]] == item {
          assert lookup[Bucket(hash, lookup.Length, item, h)] != 0 ==> item in Ids();
          return true, h;
        }
      }
      return false, 0;
    }

    ghost function Fields(): State
      reads this, items, hashes, lookup
    {
      State(items[..], hashes[..], lookup[..])
    }

    /** tryAdd: the homeless item idx, one of the first n, goes to its first free bucket, `except`
        left out when it is to be ignored. */
    method TryAdd(idx: nat, ignore: bool, except: nat, ghost n: nat) returns (added: bool)
      requires hashes != lookup
      requires Placed(hash, items[..], hashes[..], lookup[..], n, idx) && 1 <= idx <= n
      modifies hashes, lookup
      ensures added ==> Placed(hash, items[..], hashes[..], lookup[..], n, 0)
      ensures Fields().Sized() && old(Fields()).Sized()
      ensures added ==> HousesBut(hash, old(Fields()), idx, ignore, except, Fields())
      ensures !added ==> NoneBut(hash, old(lookup[..]), items[idx], ignore, except) && Fields() == old(Fields())
    {
      ghost var s := Fields();
      for h := 0 to NHASH
        invariant Fields() == s
        invariant forall h': nat :: h' < h ==> !AllowedFree(hash, s.lookup, items[idx], ignore, except, h')
      {
        hide Placed;
        var b := Bucket(hash, lookup.Length, items[idx], h);
        if !(ignore && except == b) && lookup[b] == 0 {
          FillFree(hash, items[..], hashes[..], lookup[..], n, idx, h);
          assert AllowedFree(hash, s.lookup, items[idx], ignore, except, h);
          lookup[b] := idx;
          hashes[idx] := h;
          assert Fields() == Put(hash, s, idx, h);
          return true;
        }
      }
      return false;
    }

    /** One eviction: the item at idx takes the bucket that the hash function `pick` gives. */
    method EvictOnce(idx: nat, pick: nat, ghost n: nat) returns (evicted: nat, bucket: nat)
      requires hashes != lookup && pick < NHASH
      requires Placed(hash, items[..], hashes[..], lookup[..], n, idx) && 1 <= idx <= n
      requires AllTaken(hash, lookup[..], items[idx])
      modifies hashes, lookup
      ensures Placed(hash, items[..], hashes[..], lookup[..], n, evicted) && 1 <= evicted <= n
      ensures bucket < lookup.Length && lookup[bucket] == idx
      ensures old(Fields()).Sized() && Fields() == Put(hash, old(Fields()), idx, pick)
      ensures evicted == old(lookup[Bucket(hash, lookup.Length, items[idx], pick)])
    {
      ghost var s := Fields();
      assert s.Sized();
      Evict(hash, items[..], hashes[..], lookup[..], n, idx, pick);
      hide Placed;
      bucket := Bucket(hash, lookup.Length, items[idx], pick);
      evicted := lookup[bucket];
      lookup[bucket] := idx;
      hashes[idx] := pick;
      assert Fields() == Put(hash, s, idx, pick);
    }

    /** tryGreedyAdd: evictions at random, at most 199 of them. At every turn exactly one of the
        first n items is homeless and all its buckets are taken; `picks` are the random choices. */
    method TryGreedyAdd(start: nat, ghost n: nat) returns (homeless: nat, added: bool, ghost picks: seq<nat>)
      requires hashes != lookup
      requires Placed(hash, items[..], hashes[..], lookup[..], n, start) && 1 <= start <= n
      requires AllTaken(hash, lookup[..], items[start])
      modifies hashes, lookup
      ensures Placed(hash, items[..], hashes[..], lookup[..], n, homeless)
      ensures added ==> homeless == 0
      ensures !added ==> 1 <= homeless <= n
      ensures old(Fields()).Sized()
      ensures added ==> EvictsInto(hash, old(Fields()), start, picks, Fields())
      ensures !added ==> EvictsInVain(hash, old(Fields()), start, picks, Fields(), homeless)
    {
      hide Placed, AllTaken, FirstFree, Houses, HousesBut, NoneBut, Evictions, Futile, Put, Bucket;
      SizedWhenPlaced(n, start);
      ghost var s := Fields();
      NoEvictions(hash, s, start);
      var idx: nat := start;
      picks := [];
      for i := 1 to REINSERT_LIMIT
        invariant Placed(hash, items[..], hashes[..], lookup[..], n, idx) && 1 <= idx <= n
        invariant AllTaken(hash, lookup[..], items[idx])
        invariant |picks| == i - 1 && Futile(hash, s, start, picks)
        invariant Evictions(hash, s, start, picks) == (Fields(), idx)
      {
        var pick: nat :| pick < NHASH;
        EvictMore(hash, s, start, picks, pick);
        var evicted, bucket := EvictOnce(idx, pick, n);
        picks := picks + [pick];
        assert picks[|picks| - 1] == pick;
        ghost var t := Fields();
        var done := TryAdd(evicted, true, bucket, n);
        NothingExcepted(hash, t, evicted, true, bucket, Fields());
        if done {
          return 0, true, picks;
        }
        StillFutile(hash, s, start, picks);
        idx := evicted;
      }
      return idx, false, picks;
    }

    lemma SizedWhenPlaced(n: nat, homeless: nat)
      requires Placed(hash, items[..], hashes[..], lookup[..], n, homeless)
      ensures Fields().Sized() && n < items.Length
    {
    }

    /** The item written behind the inserted ones is the only homeless one among the first
        inserted + 1, and it is not among the others. */
    ghost predicate Pending(ids: seq<Item>, item: Item, homeless: nat)
      requires Shape() && inserted + 1 < items.Length
      reads this, items, hashes, lookup
    {
      && items[1..inserted + 2] == ids + [item]
      && item !in ids
      && Placed(hash, items[..], hashes[..], lookup[..], inserted + 1, homeless)
    }

    /** The first line of Insert past its guard. */
    method WriteNext(item: Item)
      requires Valid() && inserted + 1 < items.Length
      modifies items
      ensures Valid() && Ids() == old(Ids())
      ensures item !in Ids() ==> Pending(Ids(), item, inserted + 1) && Distinct(items[..], inserted + 1)
      ensures items[..] == old(items[..])[inserted + 1 := item]
    {
      hide Placed, Distinct;
      Append(hash, items[..], hashes[..], lookup[..], inserted, item);
      items[inserted + 1] := item;
      assert items[..] == old(items[..])[inserted + 1 := item];
    }

    /** The two attempts of Insert to house the new item: a free bucket, and only when there is none,
        evictions. */
    method House(item: Item) returns (r: Outcome, ghost picks: seq<nat>)
      requires Valid() && inserted + 1 < items.Length
      requires Pending(Ids(), item, inserted + 1) && Distinct(items[..], inserted + 1)
      modifies this`inserted, hashes, lookup
      ensures r.Inserted? || r.Homeless?
      ensures r.Inserted? ==> Valid() && inserted == old(inserted) + 1 && Ids() == old(Ids()) + [item]
      ensures r.Homeless? ==> Shape() && inserted == old(inserted) && 1 <= r.idx <= inserted + 1 < items.Length &&
                              Pending(old(Ids()), item, r.idx)
      ensures old(Fields()).Sized()
      ensures !old(AllTaken(hash, lookup[..], item)) ==>
                r.Inserted? && Houses(hash, old(Fields()), old(inserted) + 1, Fields())
      ensures old(AllTaken(hash, lookup[..], item)) && r.Inserted? ==>
                EvictsInto(hash, old(Fields()), old(inserted) + 1, picks, Fields())
      ensures old(AllTaken(hash, lookup[..], item)) && r.Homeless? ==>
                EvictsInVain(hash, old(Fields()), old(inserted) + 1, picks, Fields(), r.idx)
    {
      hide Placed, Distinct, AllTaken, Houses, HousesBut, NoneBut, EvictsInto, EvictsInVain;
      assert items[inserted + 1] == item by {
        assert items[1..inserted + 2][inserted] == item;
      }
      picks := [];
      ghost var s := Fields();
      var added := TryAdd(inserted + 1, false, 0, inserted + 1);
      NothingExcepted(hash, s, inserted + 1, false, 0, Fields());
      if added {
        inserted := inserted + 1;
        return Inserted, picks;
      }
      var homeless;
      homeless, added, picks := TryGreedyAdd(inserted + 1, inserted + 1);
      if added {
        inserted := inserted + 1;
        return Inserted, picks;
      }
      return Homeless(homeless), picks;
    }

    /** Insert, for every sequence `picks` of random evictions. A table with all its slots used panics:
        the guard compares with one slot more than there is and never holds. */
    method Insert(item: Item) returns (r: Outcome, ghost picks: seq<nat>)
      requires Valid()
      modifies this`inserted, items, hashes, lookup
      ensures r != Full
      ensures r.IndexPanic? <==> old(inserted) + 1 == items.Length
      ensures r.IndexPanic? || r.Present? ==> Valid() && Ids() == old(Ids())
      ensures r.Present? ==> item in old(Ids()) || (item == [] && old(HasFreeBucket(item)))
      ensures r.Inserted? ==> Valid() && item !in old(Ids()) && Ids() == old(Ids()) + [item]
      ensures r.Homeless? ==> Shape() && inserted == old(inserted) && 1 <= r.idx <= inserted + 1 < items.Length &&
                              Pending(old(Ids()), item, r.idx)
      ensures r.Inserted? || r.Homeless? ==> !(item == [] && old(HasFreeBucket(item)))
      ensures r.Inserted? || r.Present? ==>
                (item in Ids() <==> item in old(Ids()) || !(item == [] && old(HasFreeBucket(item))))
      ensures old(Fields()).Sized() && Inserts(hash, old(Fields()), old(inserted), item, picks, Fields(), inserted, r)
      ensures old(inserted) + 1 < items.Length && item in old(Ids()) ==> r.Present?
      ensures old(inserted) + 1 < items.Length && item !in old(Ids()) && item != [] && old(HasFreeBucket(item)) ==>
                r.Inserted?
    {
      hide Placed, Distinct, HasFreeBucket, Bucket, Houses, EvictsInto, EvictsInVain, AllTaken, Seen, Inserts, Pending;
      picks := [];
      SizedWhenPlaced(inserted, 0);
      ghost var s, n := Fields(), inserted;
      if inserted == items.Length {
        return Full, picks;
      }
      if inserted + 1 == items.Length {
        InsertsNothing(hash, s, n, item);
        return IndexPanic, picks;
      }
      r, picks := InsertWithRoom(item);
    }

    /** Insert when there is a slot left. */
    method InsertWithRoom(item: Item) returns (r: Outcome, ghost picks: seq<nat>)
      requires Valid() && inserted + 1 < items.Length
      modifies this`inserted, items, hashes, lookup
      ensures r.Present? || r.Inserted? || r.Homeless?
      ensures r.Present? <==> item in old(Ids()) || (item == [] && old(HasFreeBucket(item)))
      ensures r.Present? ==> Valid() && Ids() == old(Ids())
      ensures r.Inserted? ==> Valid() && Ids() == old(Ids()) + [item]
      ensures r.Homeless? ==> Shape() && inserted == old(inserted) && 1 <= r.idx <= inserted + 1 < items.Length &&
                              Pending(old(Ids()), item, r.idx)
      ensures r.Homeless? ==> !old(HasFreeBucket(item))
      ensures old(Fields()).Sized() && Inserts(hash, old(Fields()), old(inserted), item, picks, Fields(), inserted, r)
    {
      hide Placed, Distinct, HasFreeBucket, Bucket, Houses, EvictsInto, EvictsInVain, AllTaken, Seen, Inserts, Pending;
      picks := [];
      SizedWhenPlaced(inserted, 0);
      ghost var s, n := Fields(), inserted;
      WriteNext(item);
      var found, _ := Exists(item);
      SeenIffFound(item, found);
      FreeIsNotTaken(item);
      ghost var t := Fields();
      if found {
        InsertsAgain(hash, s, n, item, t);
        return Present, picks;
      }
      r, picks := House(item);
      InsertsNew(hash, s, n, item, picks, t, Fields(), r);
    }

    lemma FreeIsNotTaken(item: Item)
      requires lookup.Length > 0
      ensures HasFreeBucket(item) <==> !AllTaken(hash, lookup[..], item)
    {
      FreeMeans(item);
      hide Bucket, HasFreeBucket;
    }

    lemma SeenIffFound(item: Item, found: bool)
      requires Valid()
      requires found <==> item in Ids() || (item == [] && HasFreeBucket(item))
      ensures Fields().Sized() && (Seen(hash, Fields(), item) <==> found)
    {
      hide Bucket, HasFreeBucket;
      FreeMeans(item);
      SizedWhenPlaced(inserted, 0);
    }

    /** GetBucket, for a bucket index in range. */
    method GetBucket(b: nat) returns (idx: nat)
      requires Valid() && b < lookup.Length
      ensures idx == lookup[b] <= inserted
      ensures idx != 0 ==> hash(hashes[idx], items[idx]) % lookup.Length == b
    {
      return lookup[b];
    }

    /** GetItemWithHash, for an index in range. */
    method GetItemWithHash(idx: nat) returns (item: Item, hIdx: nat)
      requires Valid() && idx < items.Length
      ensures item == items[idx] && hIdx == hashes[idx]
      ensures 1 <= idx <= inserted ==> item == Ids()[idx - 1] && hIdx < NHASH &&
                                       lookup[hash(hIdx, item) % lookup.Length] == idx
    {
      return items[idx], hashes[idx];
    }

    /** LoadFactor: as many buckets are taken as there are items. */
    method LoadFactor() returns (occupation: nat, factor: real)
      requires Valid()
      ensures occupation == inserted && factor == inserted as real / lookup.Length as real
    {
      occupation := 0;
      for b := 0 to lookup.Length
        invariant occupation == |Occupied(lookup[..b])|
      {
        OccupiedNext(lookup[..b], lookup[b]);
        assert lookup[..b + 1] == lookup[..b] + [lookup[b]];
        if lookup[b] != 0 {
          occupation := occupation + 1;
        }
      }
      assert lookup[..lookup.Length] == lookup[..];
      OccupiedCounted(hash, items[..], hashes[..], lookup[..], inserted);
      factor := occupation as real / lookup.Length as real;
    }
  }

  /** A fresh table drops the empty identifier without an error. */
  method EmptyIdentifierIsDropped(hash: Hashers, size: nat, m: nat) returns (r: Outcome, ids: seq<Item>)
    requires size > 0 && m > 0
    ensures r == Present && ids == []
  {
    var c := new Cuckoo(size, m, hash);
    assert c.lookup[..][hash(0, []) % m] == 0;
    var outcome, picks := c.Insert([]);
    r := outcome;
    ids := c.items[1..c.inserted + 1];
  }
}
