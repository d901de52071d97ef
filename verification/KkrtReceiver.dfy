/** The receiver of pkg/kkrtpsi: the cuckoo table is filled, the receiver's OPRF rows are indexed by
    their hashes, and the sender's hashes are looked up in the index. */
module KkrtReceiver {
  import opened Sequences
  import opened Blocks
  import opened CuckooTable
  import opened KkrtSender

  // ----- stage 1

  datatype Fill = Filled | Failed(outcome: CuckooTable.Outcome)

  ghost function NonEmpty(ids: seq<Item>): set<Item> {
    set x | x in ids && x != []
  }

  /** Whatever the evictions, a candidate bucket of the item is free when the identifiers in `seen`
      but the empty one are in the table: they are fewer than the candidates, or none of them has a
      certain one among its own. */
  ghost predicate RoomFor(hash: Hashers, m: nat, seen: seq<Item>, item: Item)
    requires m > 0
  {
    || |NonEmpty(seen)| < |Candidates(hash, m, item)|
    || exists b :: b in Candidates(hash, m, item) && forall x :: x in NonEmpty(seen) ==> b !in Candidates(hash, m, x)
  }

  /** There is room for the empty identifier wherever it comes. */
  ghost predicate EmptyComesEarly(hash: Hashers, m: nat, ids: seq<Item>)
    requires m > 0
  {
    forall k: nat :: k < |ids| && ids[k] == [] ==> RoomFor(hash, m, ids[..k], ids[k])
  }

  /** There is room for every identifier that has not come before. */
  ghost predicate AllHaveRoom(hash: Hashers, m: nat, ids: seq<Item>)
    requires m > 0
  {
    forall k: nat :: k < |ids| ==> (ids[k] != [] && ids[k] in ids[..k]) || RoomFor(hash, m, ids[..k], ids[k])
  }

  lemma RoomIsFree(table: Cuckoo, seen: seq<Item>, item: Item)
    requires table.Valid() && [] !in table.Ids() && forall x :: x in table.Ids() ==> x in seen
    requires RoomFor(table.hash, table.lookup.Length, seen, item)
    ensures table.HasFreeBucket(item)
  {
    hide Bucket, Candidates, Placed, Cuckoo.HasFreeBucket;
    var ids := table.Ids();
    if |NonEmpty(seen)| < |Candidates(table.hash, table.lookup.Length, item)| {
      DistinctIds(table);
      DistinctInside(ids, NonEmpty(seen));
      FewLeaveOneFree(table, item);
    } else {
      var b :| b in Candidates(table.hash, table.lookup.Length, item) &&
               forall x :: x in NonEmpty(seen) ==> b !in Candidates(table.hash, table.lookup.Length, x);
      if b < table.lookup.Length && table.lookup[b] != 0 {
        TakenByCandidate(table, b);
      }
      FreeCandidate(table, item, b);
    }
  }

  lemma FewLeaveOneFree(table: Cuckoo, item: Item)
    requires table.Valid() && table.inserted < |Candidates(table.hash, table.lookup.Length, item)|
    ensures table.HasFreeBucket(item)
  {
    hide Placed, Candidates;
    CandidateFree(table.hash, table.items[..], table.hashes[..], table.lookup[..], table.inserted, item);
    var h: nat :| h < NHASH && table.lookup[..][table.hash(h, item) % table.lookup.Length] == 0;
    assert table.lookup[table.hash(h, item) % table.lookup.Length] == 0;
  }

  /** A taken bucket is a candidate of the item in it. */
  lemma TakenByCandidate(table: Cuckoo, b: nat)
    requires table.Valid() && b < table.lookup.Length && table.lookup[b] != 0
    ensures table.lookup[b] <= table.inserted && table.items[table.lookup[b]] in table.Ids()
    ensures b in Candidates(table.hash, table.lookup.Length, table.items[table.lookup[b]])
  {
    var idx := table.lookup[b];
    assert table.lookup[..][b] == idx;
    assert table.items[idx] == table.Ids()[idx - 1];
  }

  lemma FreeCandidate(table: Cuckoo, item: Item, b: nat)
    requires table.Valid() && b in Candidates(table.hash, table.lookup.Length, item)
    requires b < table.lookup.Length ==> table.lookup[b] == 0
    ensures table.HasFreeBucket(item)
  {
    hide Placed;
    var m := table.lookup.Length;
    var h: nat := if b == table.hash(0, item) % m then 0 else if b == table.hash(1, item) % m then 1 else 2;
    assert table.lookup[table.hash(h, item) % m] == 0;
  }

  lemma DistinctIds(table: Cuckoo)
    requires table.Valid()
    ensures NoDuplicates(table.Ids())
  {
    hide Placed;
    var ids, items := table.Ids(), table.items[..];
    forall i: nat, j: nat | i < j < |ids|
      ensures ids[i] != ids[j]
    {
      assert ids[i] == items[i + 1] && ids[j] == items[j + 1];
    }
  }

  /** The table after the first k identifiers. */
  ghost predicate FilledWith(table: Cuckoo, hash: Hashers, m: nat, ids: seq<Item>, k: nat)
    requires m > 0 && k <= |ids|
    reads table, table.items, table.hashes, table.lookup
  {
    && table.Valid()
    && IdsAfter(hash, m, ids, k, table.Ids())
  }

  ghost predicate IdsAfter(hash: Hashers, m: nat, ids: seq<Item>, k: nat, held: seq<Item>)
    requires m > 0 && k <= |ids|
  {
    && (forall x :: x in held ==> x in ids[..k])
    && (forall x :: x in ids[..k] && x != [] ==> x in held)
    && (EmptyComesEarly(hash, m, ids) ==> [] !in held)
  }

  lemma IdsAtStart(hash: Hashers, m: nat, ids: seq<Item>)
    requires m > 0
    ensures IdsAfter(hash, m, ids, 0, [])
  {
  }

  lemma IdsAtEnd(hash: Hashers, m: nat, ids: seq<Item>, held: seq<Item>)
    requires m > 0 && IdsAfter(hash, m, ids, |ids|, held)
    ensures forall x :: x in held ==> x in ids
    ensures forall x :: x in ids && x != [] ==> x in held
    ensures EmptyComesEarly(hash, m, ids) ==> [] !in held
  {
    assert ids[..|ids|] == ids;
  }

  lemma EarlyIsFree(table: Cuckoo, hash: Hashers, m: nat, ids: seq<Item>, k: nat)
    requires m > 0 && k < |ids| && FilledWith(table, hash, m, ids, k) && table.hash == hash && table.lookup.Length == m
    ensures EmptyComesEarly(hash, m, ids) && ids[k] == [] ==> table.HasFreeBucket(ids[k])
    ensures AllHaveRoom(hash, m, ids) ==>
              (ids[k] in table.Ids() && ids[k] != []) || table.HasFreeBucket(ids[k])
  {
    hide Placed, Distinct, RoomFor, Cuckoo.HasFreeBucket;
    if EmptyComesEarly(hash, m, ids) && ids[k] == [] {
      RoomIsFree(table, ids[..k], ids[k]);
    }
    if AllHaveRoom(hash, m, ids) && !(ids[k] != [] && ids[k] in ids[..k]) {
      RoomForEmpty(hash, m, ids);
      RoomIsFree(table, ids[..k], ids[k]);
    }
  }

  lemma RoomForEmpty(hash: Hashers, m: nat, ids: seq<Item>)
    requires m > 0 && AllHaveRoom(hash, m, ids)
    ensures EmptyComesEarly(hash, m, ids)
  {
    hide RoomFor;
  }

  /** What Insert may do to the identifiers held. */
  lemma InsertedOne(hash: Hashers, m: nat, ids: seq<Item>, k: nat, held: seq<Item>, held': seq<Item>)
    requires m > 0 && k < |ids| && IdsAfter(hash, m, ids, k, held)
    requires (held' == held && (ids[k] in held || ids[k] == [])) || held' == held + [ids[k]]
    requires EmptyComesEarly(hash, m, ids) && ids[k] == [] ==> held' == held
    ensures IdsAfter(hash, m, ids, k + 1, held')
  {
    hide EmptyComesEarly;
    assert ids[..k + 1] == ids[..k] + [ids[k]];
  }

  // The states of the table from one Insert to the next.

  /** A state of a table with the number of its items. */
  type Stage = (State, nat)

  ghost function EmptyTable(size: nat, m: nat): Stage {
    (State(seq(size + 1, _ => []), seq(size + 1, _ => 0), seq(m, _ => 0)), 0)
  }

  /** Insert of the item with some random choices succeeds and leads from s to s'. */
  ghost predicate Follows(hash: Hashers, s: Stage, item: Item, s': Stage) {
    && s.0.Sized() && s.1 < |s.0.items|
    && exists picks, r :: (r == Inserted || r == Present) && Inserts(hash, s.0, s.1, item, picks, s'.0, s'.1, r)
  }

  /** How the table was filled: its states after the Inserts that succeeded, the state after the last
      one, and the random choices of that. */
  datatype Filling = Filling(past: seq<Stage>, last: Stage, picks: seq<nat>) {
    ghost predicate FromEmpty(hash: Hashers, size: nat, m: nat, ids: seq<Item>) {
      && 1 <= |past| <= |ids| + 1 && past[0] == EmptyTable(size, m)
      && forall k: nat :: k + 1 < |past| ==> Follows(hash, past[k], ids[k], past[k + 1])
    }

    /** The Insert after those fails with the outcome. */
    ghost predicate FailsWith(hash: Hashers, size: nat, m: nat, ids: seq<Item>, outcome: CuckooTable.Outcome) {
      && FromEmpty(hash, size, m, ids) && |past| <= |ids|
      && var k: nat := |past| - 1;
         var (s, n) := past[k];
         && s.Sized() && n < |s.items|
         && Inserts(hash, s, n, ids[k], picks, last.0, last.1, outcome)
         && (outcome.Homeless? ==> NoBucketLeft(hash, ids, k, past[k]) && |picks| == 199)
    }
  }

  /** The table has all that came before identifier k but possibly the empty one, and all candidate
      buckets of identifier k are taken. */
  ghost predicate NoBucketLeft(hash: Hashers, ids: seq<Item>, k: nat, s: Stage)
    requires s.0.Sized() && s.1 < |s.0.items| && k < |ids|
  {
    && (forall h: nat :: h < 3 ==> s.0.lookup[hash(h, ids[k]) % |s.0.lookup|] != 0)
    && forall x :: x in ids[..k] && x != [] ==> x in s.0.items[1..s.1 + 1]
  }

  ghost function StageOf(table: Cuckoo): Stage
    reads table, table.items, table.hashes, table.lookup
  {
    (table.Fields(), table.inserted)
  }

  lemma FillingStarts(hash: Hashers, size: nat, m: nat, ids: seq<Item>, last: Stage)
    ensures Filling([EmptyTable(size, m)], last, []).FromEmpty(hash, size, m, ids)
  {
  }

  lemma FillingGoesOn(hash: Hashers, size: nat, m: nat, ids: seq<Item>, f: Filling, s': Stage, picks: seq<nat>,
                      r: CuckooTable.Outcome)
    requires f.FromEmpty(hash, size, m, ids) && |f.past| <= |ids|
    requires var k: nat := |f.past| - 1;
      var (s, n) := f.past[k];
      s.Sized() && n < |s.items| && Inserts(hash, s, n, ids[k], picks, s'.0, s'.1, r)
    requires r == Inserted || r == Present
    ensures Filling(f.past + [s'], s', picks).FromEmpty(hash, size, m, ids)
  {
    hide Inserts;
    var k: nat := |f.past| - 1;
    var past' := f.past + [s'];
    assert Follows(hash, f.past[k], ids[k], s');
    forall i: nat | i + 1 < |past'|
      ensures Follows(hash, past'[i], ids[i], past'[i + 1])
    {
      if i < k {
        assert Follows(hash, f.past[i], ids[i], f.past[i + 1]);
      }
    }
  }

  lemma FillingFails(hash: Hashers, size: nat, m: nat, ids: seq<Item>, f: Filling, k: nat, s: Stage, s': Stage,
                     picks: seq<nat>, r: CuckooTable.Outcome)
    requires f.FromEmpty(hash, size, m, ids) && |f.past| == k + 1 <= |ids| && f.past[k] == s
    requires s.0.Sized() && s.1 < |s.0.items| && Inserts(hash, s.0, s.1, ids[k], picks, s'.0, s'.1, r)
    requires r.Homeless? ==> NoBucketLeft(hash, ids, k, s) && |picks| == 199
    ensures Filling(f.past, s', picks).FailsWith(hash, size, m, ids, r)
  {
    hide Inserts, Filling.FromEmpty, NoBucketLeft;
    FromEmptyPast(f, Filling(f.past, s', picks), hash, size, m, ids);
  }

  lemma StuckHere(hash: Hashers, m: nat, ids: seq<Item>, k: nat, s: Stage, picks: seq<nat>, s': Stage,
                  r: CuckooTable.Outcome)
    requires m > 0 && k < |ids| && s.0.Sized() && s.1 < |s.0.items| && r.Homeless?
    requires Inserts(hash, s.0, s.1, ids[k], picks, s'.0, s'.1, r)
    requires IdsAfter(hash, m, ids, k, s.0.items[1..s.1 + 1])
    ensures NoBucketLeft(hash, ids, k, s) && |picks| == 199
  {
    hide Inserts, EmptyComesEarly;
    FailureMeans(hash, s.0, s.1, ids[k], picks, s'.0, s'.1, r);
  }

  lemma FromEmptyPast(f: Filling, g: Filling, hash: Hashers, size: nat, m: nat, ids: seq<Item>)
    requires f.FromEmpty(hash, size, m, ids) && g.past == f.past
    ensures g.FromEmpty(hash, size, m, ids)
  {
  }

  /** The loop of stage 1, which ends at the first Insert that fails. A table for as many
      identifiers as come never panics; all but the empty identifier get in. That one is dropped,
      whatever the evictions, when it comes early. No Insert fails when there is room for all. */
  method FillTable(ids: seq<Item>, size: nat, m: nat, hash: Hashers)
    returns (table: Cuckoo, r: Fill, ghost filling: Filling)
    requires m > 0
    ensures fresh(table) && fresh(table.items) && fresh(table.hashes) && fresh(table.lookup)
    ensures table.hash == hash && table.lookup.Length == m
    ensures r.Failed? ==> r.outcome.Homeless? || (r.outcome.IndexPanic? && |ids| > size)
    ensures r.Failed? ==> filling.FailsWith(hash, size, m, ids, r.outcome)
    ensures AllHaveRoom(hash, m, ids) && |ids| <= size ==> r.Filled?
    ensures r.Filled? ==> filling.FromEmpty(hash, size, m, ids) && |filling.past| == |ids| + 1
    ensures r.Filled? ==> filling.past[|ids|] == StageOf(table)
    ensures r.Filled? ==> table.Valid()
    ensures r.Filled? ==> forall x :: x in table.Ids() ==> x in ids
    ensures r.Filled? ==> forall x :: x in ids && x != [] ==> x in table.Ids()
    ensures r.Filled? && EmptyComesEarly(hash, m, ids) ==> [] !in table.Ids()
  {
    table := new Cuckoo(size, m, hash);
    hide Placed, Distinct, IdsAfter, EmptyComesEarly, AllHaveRoom, Inserts, Filling.FromEmpty, Filling.FailsWith;
    filling := Filling([EmptyTable(size, m)], EmptyTable(size, m), []);
    FillingStarts(hash, size, m, ids, EmptyTable(size, m));
    IdsAtStart(hash, m, ids);
    for k := 0 to |ids|
      invariant fresh(table) && fresh(table.items) && fresh(table.hashes) && fresh(table.lookup)
      invariant table.hash == hash && table.lookup.Length == m && table.items.Length == size + 1 && table.inserted <= k
      invariant FilledWith(table, hash, m, ids, k)
      invariant filling.FromEmpty(hash, size, m, ids) && |filling.past| == k + 1 && filling.past[k] == StageOf(table)
    {
      hide FilledWith;
      var outcome;
      outcome, filling := InsertNext(table, hash, size, m, ids, k, filling);
      if outcome != Inserted && outcome != Present {
        return table, Failed(outcome), filling;
      }
    }
    IdsAtEnd(hash, m, ids, table.Ids());
    r := Filled;
  }

  /** One turn of the loop. */
  method InsertNext(table: Cuckoo, hash: Hashers, ghost size: nat, m: nat, ids: seq<Item>, k: nat, ghost f: Filling)
    returns (r: CuckooTable.Outcome, ghost f': Filling)
    requires m > 0 && k < |ids| && FilledWith(table, hash, m, ids, k) && table.hash == hash && table.lookup.Length == m
    requires f.FromEmpty(hash, size, m, ids) && |f.past| == k + 1 && f.past[k] == StageOf(table)
    modifies table`inserted, table.items, table.hashes, table.lookup
    ensures r.IndexPanic? <==> old(table.inserted) + 1 == table.items.Length
    ensures r == Inserted || r == Present ==> FilledWith(table, hash, m, ids, k + 1)
    ensures r == Inserted || r == Present ==> table.inserted <= old(table.inserted) + 1
    ensures r == Inserted || r == Present ==>
              f'.FromEmpty(hash, size, m, ids) && |f'.past| == k + 2 && f'.past[k + 1] == StageOf(table)
    ensures r != Inserted && r != Present ==>
              (r.Homeless? || r.IndexPanic?) && f'.FailsWith(hash, size, m, ids, r)
    ensures AllHaveRoom(hash, m, ids) ==> !r.Homeless?
  {
    hide Placed, Distinct, IdsAfter, EmptyComesEarly, AllHaveRoom, Inserts, Filling.FromEmpty, Filling.FailsWith;
    hide Cuckoo.HasFreeBucket, NoBucketLeft;
    assert table.items[1..table.inserted + 1] == table.items[..][1..table.inserted + 1];
    EarlyIsFree(table, hash, m, ids, k);
    ghost var before, s := table.Ids(), StageOf(table);
    ghost var picks;
    r, picks := table.Insert(ids[k]);
    if r == Inserted || r == Present {
      FillingGoesOn(hash, size, m, ids, f, StageOf(table), picks, r);
      f' := Filling(f.past + [StageOf(table)], StageOf(table), picks);
      InsertedOne(hash, m, ids, k, before, table.Ids());
    } else {
      if r.Homeless? {
        StuckHere(hash, m, ids, k, s, picks, StageOf(table), r);
      }
      FillingFails(hash, size, m, ids, f, k, s, StageOf(table), picks, r);
      f' := Filling(f.past, StageOf(table), picks);
    }
  }

  // ----- the index of stage 2

  /** Bucket b holds an item under hash function h, and its row hashes to k. */
  ghost predicate IsEntry(hash: Hashers, hashes: seq<nat>, lookup: seq<nat>, own: Matrix, b: nat, h: nat, k: nat)
    requires |own| == |lookup|
  {
    b < |lookup| && lookup[b] != 0 && lookup[b] < |hashes| && hashes[lookup[b]] == h && hash(0, own[b]) == k
  }

  /** Bucket b is the last of the first n with its hash function and hash. */
  ghost predicate IsLatest(hash: Hashers, hashes: seq<nat>, lookup: seq<nat>, own: Matrix, n: nat, b: nat, h: nat,
                           k: nat)
    requires |own| == |lookup|
  {
    && b < n && IsEntry(hash, hashes, lookup, own, b, h, k)
    && forall b': nat :: b < b' < n ==> !IsEntry(hash, hashes, lookup, own, b', h, k)
  }

  type Index = seq<map<nat, nat>>

  function Put(maps: Index, h: nat, k: nat, idx: nat): Index
    requires h < |maps|
  {
    var changed: map<nat, nat> := maps[h][k := idx];
    maps[h := changed]
  }

  function Delete(maps: Index, h: nat, k: nat): Index
    requires h < |maps|
  {
    var changed: map<nat, nat> := maps[h] - {k};
    maps[h := changed]
  }

  /** The index of the first n buckets. */
  ghost predicate Indexed(hash: Hashers, hashes: seq<nat>, lookup: seq<nat>, own: Matrix, n: nat, maps: Index)
    requires |own| == |lookup|
  {
    && |maps| == NHASH
    && (forall h: nat, k: nat :: h < NHASH && k in maps[h] ==>
          exists b: nat :: IsLatest(hash, hashes, lookup, own, n, b, h, k) && lookup[b] == maps[h][k])
    && forall b: nat, h: nat, k: nat :: b < n && h < NHASH && IsEntry(hash, hashes, lookup, own, b, h, k) ==>
         k in maps[h]
  }

  lemma IndexFree(hash: Hashers, hashes: seq<nat>, lookup: seq<nat>, own: Matrix, n: nat, maps: Index)
    requires |own| == |lookup| && n < |lookup| && Indexed(hash, hashes, lookup, own, n, maps) && lookup[n] == 0
    ensures Indexed(hash, hashes, lookup, own, n + 1, maps)
  {
    forall h: nat, k: nat | h < NHASH && k in maps[h]
      ensures exists b: nat :: IsLatest(hash, hashes, lookup, own, n + 1, b, h, k) && lookup[b] == maps[h][k]
    {
      var b: nat :| IsLatest(hash, hashes, lookup, own, n, b, h, k) && lookup[b] == maps[h][k];
      assert IsLatest(hash, hashes, lookup, own, n + 1, b, h, k);
    }
  }

  lemma IndexTaken(hash: Hashers, hashes: seq<nat>, lookup: seq<nat>, own: Matrix, n: nat, maps: Index, h: nat, k: nat)
    requires |own| == |lookup| && n < |lookup| && Indexed(hash, hashes, lookup, own, n, maps)
    requires IsEntry(hash, hashes, lookup, own, n, h, k) && h < NHASH
    ensures Indexed(hash, hashes, lookup, own, n + 1, Put(maps, h, k, lookup[n]))
  {
    var maps' := Put(maps, h, k, lookup[n]);
    forall h': nat, k': nat | h' < NHASH && k' in maps'[h']
      ensures exists b: nat :: IsLatest(hash, hashes, lookup, own, n + 1, b, h', k') && lookup[b] == maps'[h'][k']
    {
      if h' == h && k' == k {
        assert IsLatest(hash, hashes, lookup, own, n + 1, n, h, k);
      } else {
        var b: nat :| IsLatest(hash, hashes, lookup, own, n, b, h', k') && lookup[b] == maps[h'][k'];
        assert IsLatest(hash, hashes, lookup, own, n + 1, b, h', k');
      }
    }
  }

  /** The end of Receive: the rows of the taken buckets are indexed by their hashes. */
  method MakeIndex(table: Cuckoo, own: Matrix) returns (maps: Index)
    requires table.Valid() && |own| == table.lookup.Length
    ensures Indexed(table.hash, table.hashes[..], table.lookup[..], own, |own|, maps)
  {
    maps := seq(NHASH, _ => map[]);
    for b := 0 to |own|
      invariant Indexed(table.hash, table.hashes[..], table.lookup[..], own, b, maps)
    {
      hide Indexed, Placed;
      var idx := table.GetBucket(b);
      if idx != 0 {
        TakenHash(table, b);
        var _, h := table.GetItemWithHash(idx);
        var k := table.hash(0, own[b]);
        IndexTaken(table.hash, table.hashes[..], table.lookup[..], own, b, maps, h, k);
        IndexWidth(table.hash, table.hashes[..], table.lookup[..], own, b, maps);
        maps := Put(maps, h, k, idx);
      } else {
        IndexFree(table.hash, table.hashes[..], table.lookup[..], own, b, maps);
      }
    }
  }

  lemma IndexWidth(hash: Hashers, hashes: seq<nat>, lookup: seq<nat>, own: Matrix, n: nat, maps: Index)
    requires |own| == |lookup| && Indexed(hash, hashes, lookup, own, n, maps)
    ensures |maps| == NHASH
  {
  }

  lemma TakenHash(table: Cuckoo, b: nat)
    requires table.Valid() && b < table.lookup.Length && table.lookup[b] != 0
    ensures table.lookup[b] <= table.inserted < table.hashes.Length && table.hashes[table.lookup[b]] < NHASH
  {
    hide Bucket;
    var lookup, hashes := table.lookup[..], table.hashes[..];
    assert lookup[b] == table.lookup[b] && hashes[lookup[b]] == table.hashes[table.lookup[b]];
  }

  // ----- stage 3

  /** A key of the index, with its hash function. */
  datatype Hit = Hit(h: nat, k: nat)

  /** Some remote hash before (n, h0) looks this key up. */
  ghost predicate Asked(remote: seq<Hashes>, n: nat, h0: nat, hit: Hit) {
    hit.h < NHASH &&
    exists i: nat ::
      i < |remote| && |remote[i]| == NHASH && remote[i][hit.h] == hit.k && (i < n || (i == n && hit.h < h0))
  }

  /** The keys that were hit are those of the index that have been asked for, each hit once and then
      deleted. */
  ghost predicate Looked(index: Index, maps: Index, remote: seq<Hashes>, n: nat, h0: nat, hits: seq<Hit>) {
    && |index| == |maps| == NHASH
    && NoDuplicates(hits)
    && (forall hit :: hit in hits <==> Asked(remote, n, h0, hit) && hit.k in index[hit.h])
    && forall h: nat, k: nat :: h < NHASH ==>
         (k in maps[h] <==> k in index[h] && Hit(h, k) !in hits) && (k in maps[h] ==> maps[h][k] == index[h][k])
  }

  lemma LookStep(index: Index, maps: Index, remote: seq<Hashes>, n: nat, h: nat, hits: seq<Hit>)
    requires n < |remote| && |remote[n]| == NHASH && h < NHASH && Looked(index, maps, remote, n, h, hits)
    ensures var k := remote[n][h];
      Looked(index, Delete(maps, h, k), remote, n, h + 1, if k in maps[h] then hits + [Hit(h, k)] else hits)
  {
    var k := remote[n][h];
    var hits' := if k in maps[h] then hits + [Hit(h, k)] else hits;
    forall hit: Hit
      ensures Asked(remote, n, h + 1, hit) <==> Asked(remote, n, h, hit) || hit == Hit(h, k)
    {
      if hit == Hit(h, k) {
        assert remote[n][hit.h] == hit.k;
      }
    }
  }

  lemma LookNext(index: Index, maps: Index, remote: seq<Hashes>, n: nat, hits: seq<Hit>)
    requires n < |remote| && Looked(index, maps, remote, n, NHASH, hits)
    ensures Looked(index, maps, remote, n + 1, 0, hits)
  {
    forall hit: Hit
      ensures Asked(remote, n + 1, 0, hit) <==> Asked(remote, n, NHASH, hit)
    {
    }
  }

  /** The item found under a key. */
  ghost function ItemOf(items: seq<Item>, index: Index, hit: Hit): Item {
    if hit.h < |index| && hit.k in index[hit.h] && index[hit.h][hit.k] < |items| then items[index[hit.h][hit.k]] else []
  }

  ghost predicate IndexInside(index: Index, n: nat) {
    |index| == NHASH && forall h: nat, k: nat :: h < NHASH && k in index[h] ==> index[h][k] < n
  }

  ghost predicate Widths(remote: seq<Hashes>) {
    forall i: nat :: i < |remote| ==> |remote[i]| == NHASH
  }

  /** What has been found is what the hits lead to. */
  ghost predicate Found(items: seq<Item>, index: Index, hits: seq<Hit>, intersection: seq<Item>) {
    && |intersection| == |hits|
    && forall j: nat :: j < |hits| ==> intersection[j] == ItemOf(items, index, hits[j])
  }

  /** The lookup of the hash of remote identifier i under hash function h: a hit is deleted. */
  method LookUpOne(table: Cuckoo, ghost index: Index, maps: Index, remote: seq<Hashes>, i: nat, h: nat,
                   intersection: seq<Item>, ghost hits: seq<Hit>)
    returns (maps': Index, intersection': seq<Item>, ghost hits': seq<Hit>)
    requires table.Valid() && Widths(remote) && IndexInside(index, table.items.Length) && i < |remote| && h < NHASH
    requires Looked(index, maps, remote, i, h, hits) && Found(table.items[..], index, hits, intersection)
    ensures Looked(index, maps', remote, i, h + 1, hits') && Found(table.items[..], index, hits', intersection')
  {
    hide NoDuplicates, Asked, Placed, Distinct;
    var k := remote[i][h];
    maps', intersection', hits' := maps, intersection, hits;
    LookStep(index, maps, remote, i, h, hits);
    if k in maps[h] {
      assert maps[h][k] == index[h][k];
      var item, _ := table.GetItemWithHash(maps[h][k]);
      hits' := hits + [Hit(h, k)];
      intersection' := intersection + [item];
      maps' := Delete(maps, h, k);
    } else {
      assert maps[h] - {k} == maps[h];
      assert Delete(maps, h, k) == maps;
    }
  }

  /** The loops of stage 3. */
  method LookUp(table: Cuckoo, index: Index, remote: seq<Hashes>)
    returns (intersection: seq<Item>, ghost hits: seq<Hit>)
    requires table.Valid() && Widths(remote) && IndexInside(index, table.items.Length)
    ensures Found(table.items[..], index, hits, intersection)
    ensures NoDuplicates(hits)
    ensures forall hit :: hit in hits <==> Asked(remote, |remote|, 0, hit) && hit.h < NHASH && hit.k in index[hit.h]
  {
    var maps := index;
    intersection, hits := [], [];
    for i := 0 to |remote|
      invariant Looked(index, maps, remote, i, 0, hits) && Found(table.items[..], index, hits, intersection)
    {
      hide Looked, Found, Cuckoo.Valid;
      for h := 0 to NHASH
        invariant Looked(index, maps, remote, i, h, hits) && Found(table.items[..], index, hits, intersection)
      {
        maps, intersection, hits := LookUpOne(table, index, maps, remote, i, h, intersection, hits);
      }
      LookNext(index, maps, remote, i, hits);
    }
  }

  /** The table's parts as values. */
  ghost predicate TableOk(hash: Hashers, items: seq<Item>, hashes: seq<nat>, lookup: seq<nat>, n: nat) {
    Placed(hash, items, hashes, lookup, n, 0) && Distinct(items, n)
  }

  /** Bucket b is in the index and its key is asked for. */
  ghost predicate Reported(hash: Hashers, hashes: seq<nat>, lookup: seq<nat>, own: Matrix, remote: seq<Hashes>, b: nat)
    requires |own| == |lookup|
  {
    && b < |lookup| && lookup[b] < |hashes|
    && IsLatest(hash, hashes, lookup, own, |own|, b, hashes[lookup[b]], hash(0, own[b]))
    && Asked(remote, |remote|, 0, Hit(hashes[lookup[b]], hash(0, own[b])))
  }

  lemma IndexEntries(hash: Hashers, items: seq<Item>, hashes: seq<nat>, lookup: seq<nat>, n: nat, own: Matrix,
                     index: Index)
    requires TableOk(hash, items, hashes, lookup, n) && |own| == |lookup|
    requires Indexed(hash, hashes, lookup, own, |own|, index)
    ensures IndexInside(index, n + 1)
  {
    hide Bucket;
    forall h: nat, k: nat | h < NHASH && k in index[h]
      ensures index[h][k] < n + 1
    {
      var b: nat :| IsLatest(hash, hashes, lookup, own, |own|, b, h, k) && lookup[b] == index[h][k];
    }
  }

  /** The bucket behind a key of the index. */
  lemma BucketOfHit(hash: Hashers, items: seq<Item>, hashes: seq<nat>, lookup: seq<nat>, n: nat, own: Matrix,
                    index: Index, hit: Hit) returns (b: nat)
    requires TableOk(hash, items, hashes, lookup, n) && |own| == |lookup|
    requires Indexed(hash, hashes, lookup, own, |own|, index)
    requires hit.h < NHASH && hit.k in index[hit.h]
    ensures b < |lookup| && 1 <= lookup[b] <= n < |items| == |hashes| && ItemOf(items, index, hit) == items[lookup[b]]
    ensures hit == Hit(hashes[lookup[b]], hash(0, own[b]))
    ensures IsLatest(hash, hashes, lookup, own, |own|, b, hit.h, hit.k)
  {
    hide Bucket;
    b :| IsLatest(hash, hashes, lookup, own, |own|, b, hit.h, hit.k) && lookup[b] == index[hit.h][hit.k];
  }

  /** Each item lies in one bucket, and so is found under one key: distinct hits give distinct
      items. */
  lemma OneKeyPerItem(hash: Hashers, items: seq<Item>, hashes: seq<nat>, lookup: seq<nat>, n: nat, own: Matrix,
                      index: Index, hit: Hit, hit': Hit)
    requires TableOk(hash, items, hashes, lookup, n) && |own| == |lookup|
    requires Indexed(hash, hashes, lookup, own, |own|, index)
    requires hit.h < NHASH && hit.k in index[hit.h] && hit'.h < NHASH && hit'.k in index[hit'.h]
    requires ItemOf(items, index, hit) == ItemOf(items, index, hit')
    ensures hit == hit'
  {
    hide Bucket, Indexed, ItemOf;
    var b := BucketOfHit(hash, items, hashes, lookup, n, own, index, hit);
    var b' := BucketOfHit(hash, items, hashes, lookup, n, own, index, hit');
    assert lookup[b] == lookup[b'];
  }

  /** The key of a bucket that is the last with it leads back to the bucket. */
  lemma HitOfBucket(hash: Hashers, items: seq<Item>, hashes: seq<nat>, lookup: seq<nat>, n: nat, own: Matrix,
                    index: Index, b: nat)
    requires TableOk(hash, items, hashes, lookup, n) && |own| == |lookup|
    requires Indexed(hash, hashes, lookup, own, |own|, index)
    requires b < |lookup| && lookup[b] < |hashes|
    requires IsLatest(hash, hashes, lookup, own, |own|, b, hashes[lookup[b]], hash(0, own[b]))
    ensures var hit := Hit(hashes[lookup[b]], hash(0, own[b]));
      hit.h < NHASH && hit.k in index[hit.h] && ItemOf(items, index, hit) == items[lookup[b]]
  {
    hide Bucket;
    var hit := Hit(hashes[lookup[b]], hash(0, own[b]));
    assert hit.k in index[hit.h];
    var b' := BucketOfHit(hash, items, hashes, lookup, n, own, index, hit);
    assert b' == b;
  }

  /** Stage 3, for any remote hashes whatever: no identifier is reported twice, and those reported
      are the items of the buckets whose key is in the index and is asked for. */
  method Intersect(table: Cuckoo, own: Matrix, index: Index, remote: seq<Hashes>) returns (intersection: seq<Item>)
    requires table.Valid() && |own| == table.lookup.Length && Widths(remote)
    requires Indexed(table.hash, table.hashes[..], table.lookup[..], own, |own|, index)
    ensures NoDuplicates(intersection)
    ensures forall y :: y in intersection <==> exists b: nat ::
              && Reported(table.hash, table.hashes[..], table.lookup[..], own, remote, b)
              && table.items[table.lookup[b]] == y
  {
    hide Placed, Distinct, Indexed, IsLatest, Asked, ItemOf, Bucket;
    ghost var hash, items, hashes := table.hash, table.items[..], table.hashes[..];
    ghost var lookup, n := table.lookup[..], table.inserted;
    IndexEntries(hash, items, hashes, lookup, n, own, index);
    ghost var hits;
    intersection, hits := LookUp(table, index, remote);
    HitsAreItems(hash, items, hashes, lookup, n, own, index, remote, intersection, hits);
  }

  lemma HitsAreItems(hash: Hashers, items: seq<Item>, hashes: seq<nat>, lookup: seq<nat>, n: nat, own: Matrix,
                     index: Index, remote: seq<Hashes>, intersection: seq<Item>, hits: seq<Hit>)
    requires TableOk(hash, items, hashes, lookup, n) && |own| == |lookup|
    requires Indexed(hash, hashes, lookup, own, |own|, index)
    requires Found(items, index, hits, intersection)
    requires NoDuplicates(hits) && |index| == NHASH
    requires forall hit :: hit in hits <==> Asked(remote, |remote|, 0, hit) && hit.h < NHASH && hit.k in index[hit.h]
    ensures NoDuplicates(intersection)
    ensures forall y :: y in intersection <==> exists b: nat ::
              Reported(hash, hashes, lookup, own, remote, b) && lookup[b] < |items| && items[lookup[b]] == y
  {
    hide Placed, Distinct, Indexed, IsLatest, ItemOf, Bucket;
    forall i: nat, j: nat | i < j < |hits|
      ensures intersection[i] != intersection[j]
    {
      assert hits[i] in hits && hits[j] in hits;
      if intersection[i] == intersection[j] {
        OneKeyPerItem(hash, items, hashes, lookup, n, own, index, hits[i], hits[j]);
      }
    }
    forall y | y in intersection
      ensures exists b: nat ::
                Reported(hash, hashes, lookup, own, remote, b) && lookup[b] < |items| && items[lookup[b]] == y
    {
      var j: nat :| j < |hits| && intersection[j] == y;
      assert hits[j] in hits;
      var b := BucketOfHit(hash, items, hashes, lookup, n, own, index, hits[j]);
      ReportedBucket(hash, items, hashes, lookup, n, own, remote, b);
    }
    forall b: nat | Reported(hash, hashes, lookup, own, remote, b) && lookup[b] < |items|
      ensures items[lookup[b]] in intersection
    {
      HitOfBucket(hash, items, hashes, lookup, n, own, index, b);
      var hit := Hit(hashes[lookup[b]], hash(0, own[b]));
      var j: nat :| j < |hits| && hits[j] == hit;
      assert intersection[j] == items[lookup[b]];
    }
  }

  lemma ReportedBucket(hash: Hashers, items: seq<Item>, hashes: seq<nat>, lookup: seq<nat>, n: nat, own: Matrix,
                       remote: seq<Hashes>, b: nat)
    requires TableOk(hash, items, hashes, lookup, n) && |own| == |lookup| && b < |lookup| && lookup[b] <= n
    requires IsLatest(hash, hashes, lookup, own, |own|, b, hashes[lookup[b]], hash(0, own[b]))
    requires Asked(remote, |remote|, 0, Hit(hashes[lookup[b]], hash(0, own[b])))
    ensures Reported(hash, hashes, lookup, own, remote, b)
  {
  }
}
