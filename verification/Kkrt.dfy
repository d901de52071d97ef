/** The protocol of pkg/kkrtpsi from end to end: the receiver's table, the OPRF between the parties,
    the sender's batches and the receiver's lookups. */
module Kkrt {
  import opened Sequences
  import opened Words
  import opened Blocks
  import opened CuckooTable
  import opened NaorPinkas
  import opened Oprf
  import opened KkrtSender
  import opened SenderBatches
  import opened KkrtReceiver

  /** The hash of the encoding of x under hash function h. */
  ghost function HashOf(hash: Hashers, code: Coder, key: Key, x: Item, h: nat): nat
    requires |key.rows| > 0
  {
    var b := Bucket(hash, |key.rows|, x, h);
    if |code(x, h)| == |key.secret| == |key.rows[b]| then hash(0, Encoded(code(x, h), key.secret, key.rows[b])) else 0
  }

  /** No hash of an item of A is, under the same hash function, that of another item of B. */
  ghost predicate NoCollision(hash: Hashers, code: Coder, key: Key, A: seq<Item>, B: seq<Item>)
    requires |key.rows| > 0
  {
    forall h: nat, x, y ::
      h < NHASH && x in A && y in B && HashOf(hash, code, key, x, h) == HashOf(hash, code, key, y, h) ==>
      x == y
  }

  // ----- what the sender sends

  /** What is to be sent for x. */
  ghost predicate HashesFor(hash: Hashers, code: Coder, key: Key, x: Item, w: Hashes)
    requires |key.rows| > 0
  {
    |w| == NHASH && forall h: nat :: h < NHASH ==> w[h] == HashOf(hash, code, key, x, h)
  }

  /** The remote hashes are those of the identifiers of X. */
  ghost predicate SentFor(hash: Hashers, code: Coder, key: Key, X: seq<Item>, remote: seq<Hashes>)
    requires |key.rows| > 0
  {
    forall hit: Hit :: hit.h < NHASH ==>
      (Asked(remote, |remote|, 0, hit) <==> exists x :: x in X && HashOf(hash, code, key, x, hit.h) == hit.k)
  }

  lemma InputIsOk(hash: Hashers, code: Coder, key: Key, x: Item)
    requires CoderOk(code) && |key.rows| > 0 && KeyOk(key, |key.rows|)
    ensures InputOk(InputOf(hash, |key.rows|, code, x), key)
    ensures HashesFor(hash, code, key, x, HashesOf(hash, key, InputOf(hash, |key.rows|, code, x)))
  {
    hide Bucket, Encoded;
  }

  /** Stages 1 and 3 of the sender: for each identifier its hashes are written once. */
  method SendAll(hash: Hashers, code: Coder, key: Key, ids: seq<Item>, threads: nat) returns (written: seq<Hashes>)
    requires CoderOk(code) && |key.rows| > 0 && KeyOk(key, |key.rows|) && threads > 0
    ensures |written| == |ids| && Widths(written)
    ensures SentFor(hash, code, key, ids, written)
  {
    var inputs := Inputs(hash, |key.rows|, code, ids);
    forall i: nat | i < |ids|
      ensures InputOk(inputs[i], key)
      ensures HashesFor(hash, code, key, ids[i], HashesOf(hash, key, inputs[i]))
    {
      InputIsOk(hash, code, key, ids[i]);
    }
    ghost var before := inputs[..];
    ghost var goal :=
      seq(|ids|, i requires 0 <= i < |ids| && InputOk(before[i], key) => HashesOf(hash, key, before[i]));
    hide HashesOf, InputOf, InputOk, HashesFor, SentFor, Stage3.Valid;
    var stage := new Stage3(hash, key, threads, inputs, goal);
    stage.Run();
    written := stage.written;
    AllSent(hash, code, key, ids, goal, written);
  }

  lemma AllSent(hash: Hashers, code: Coder, key: Key, ids: seq<Item>, goal: seq<Hashes>, written: seq<Hashes>)
    requires |key.rows| > 0 && |goal| == |ids|
    requires forall i: nat :: i < |ids| ==> HashesFor(hash, code, key, ids[i], goal[i])
    requires multiset(written) == multiset(goal)
    ensures |written| == |ids| && Widths(written)
    ensures SentFor(hash, code, key, ids, written)
  {
    hide HashOf;
    SameMembers(written, goal);
    forall i: nat | i < |written|
      ensures exists j: nat :: j < |ids| && HashesFor(hash, code, key, ids[j], written[i])
    {
      assert written[i] in goal;
    }
    forall hit: Hit | hit.h < NHASH
      ensures Asked(written, |written|, 0, hit) <==> exists x :: x in ids && HashOf(hash, code, key, x, hit.h) == hit.k
    {
      if Asked(written, |written|, 0, hit) {
        var i: nat :| i < |written| && |written[i]| == NHASH && written[i][hit.h] == hit.k;
        var j: nat :| j < |ids| && HashesFor(hash, code, key, ids[j], written[i]);
        assert ids[j] in ids;
      }
      if x :| x in ids && HashOf(hash, code, key, x, hit.h) == hit.k {
        var j: nat :| j < |ids| && ids[j] == x;
        assert HashesFor(hash, code, key, ids[j], goal[j]);
        assert goal[j] in written;
        var i: nat :| i < |written| && written[i] == goal[j];
        assert written[i][hit.h] == hit.k;
      }
    }
  }

  lemma SameMembers<T>(s: seq<T>, t: seq<T>)
    requires multiset(s) == multiset(t)
    ensures |s| == |t|
    ensures forall x :: x in s <==> x in t
  {
    assert |multiset(s)| == |s| && |multiset(t)| == |t|;
    assert forall x :: x in s <==> x in multiset(s);
    assert forall x :: x in t <==> x in multiset(t);
  }

  // ----- what the receiver finds

  /** The row of a taken bucket is the encoding of the item in it. */
  lemma RowOfBucket(table: Cuckoo, code: Coder, key: Key, own: Matrix, b: nat)
    requires table.Valid() && EncodesTo(table, code, key, own) && b < |own| && table.lookup[b] != 0
    ensures table.lookup[b] <= table.inserted && table.items[table.lookup[b]] in table.Ids()
    ensures table.hashes[table.lookup[b]] < NHASH
    ensures var idx := table.lookup[b];
      table.hash(0, own[b]) == HashOf(table.hash, code, key, table.items[idx], table.hashes[idx])
  {
    hide Encoded;
    assert table.lookup[..][b] == table.lookup[b];
    var idx := table.lookup[b];
    assert table.items[idx] == table.Ids()[idx - 1];
  }

  /** The bucket of an item of the table. */
  lemma BucketOfId(table: Cuckoo, y: Item) returns (b: nat)
    requires table.Valid() && y in table.Ids()
    ensures b < table.lookup.Length && table.lookup[b] != 0 && table.lookup[b] <= table.inserted
    ensures table.items[table.lookup[b]] == y
  {
    var i: nat :| i < |table.Ids()| && table.Ids()[i] == y;
    assert table.items[..][i + 1] == y;
    b := Bucket(table.hash, table.lookup.Length, y, table.hashes[i + 1]);
    assert table.lookup[..][b] == i + 1;
  }

  /** Every reported item shares a hash with an identifier of the sender. */
  lemma ReportedShares(table: Cuckoo, code: Coder, key: Key, own: Matrix, X: seq<Item>, remote: seq<Hashes>, b: nat)
    requires table.Valid() && EncodesTo(table, code, key, own) && |key.rows| > 0
    requires SentFor(table.hash, code, key, X, remote)
    requires Reported(table.hash, table.hashes[..], table.lookup[..], own, remote, b)
    ensures table.lookup[b] <= table.inserted && table.items[table.lookup[b]] in table.Ids()
    ensures exists x, h: nat :: h < NHASH && x in X &&
                                HashOf(table.hash, code, key, x, h)
                                == HashOf(table.hash, code, key, table.items[table.lookup[b]], h)
  {
    hide HashOf, Cuckoo.Valid, Placed, Asked;
    RowOfBucket(table, code, key, own, b);
    var h := table.hashes[table.lookup[b]];
    assert Asked(remote, |remote|, 0, Hit(h, table.hash(0, own[b])));
    var x :| x in X && HashOf(table.hash, code, key, x, h) == table.hash(0, own[b]);
  }

  /** When the hashes of the table's items do not collide, the bucket of a common identifier is
      reported. */
  lemma CommonReported(table: Cuckoo, code: Coder, key: Key, own: Matrix, X: seq<Item>, remote: seq<Hashes>, y: Item)
    returns (b: nat)
    requires table.Valid() && EncodesTo(table, code, key, own) && |key.rows| > 0
    requires SentFor(table.hash, code, key, X, remote)
    requires NoCollision(table.hash, code, key, table.Ids(), table.Ids())
    requires y in X && y in table.Ids()
    ensures Reported(table.hash, table.hashes[..], table.lookup[..], own, remote, b)
    ensures table.items[table.lookup[b]] == y
  {
    hide HashOf, Asked, Placed, Distinct;
    b := BucketOfId(table, y);
    RowOfBucket(table, code, key, own, b);
    var idx := table.lookup[b];
    var h, k := table.hashes[idx], table.hash(0, own[b]);
    assert Asked(remote, |remote|, 0, Hit(h, k));
    forall b': nat | b < b' < |own| && IsEntry(table.hash, table.hashes[..], table.lookup[..], own, b', h, k)
      ensures false
    {
      RowOfBucket(table, code, key, own, b');
      SameItemSameBucket(table, b, b');
    }
  }

  lemma SameItemSameBucket(table: Cuckoo, b: nat, b': nat)
    requires table.Valid() && b < table.lookup.Length && b' < table.lookup.Length
    requires table.lookup[b] != 0 && table.lookup[b'] != 0
    requires table.lookup[b] <= table.inserted && table.lookup[b'] <= table.inserted
    requires table.items[table.lookup[b]] == table.items[table.lookup[b']]
    ensures b == b'
  {
    var lookup, items := table.lookup[..], table.items[..];
    assert lookup[b] == table.lookup[b] && lookup[b'] == table.lookup[b'];
    assert items[lookup[b]] == items[lookup[b']];
  }

  datatype Outcome =
    | Intersection(ids: seq<Item>)
    | Failed(outcome: CuckooTable.Outcome)

  /** The state has m buckets and holds the identifiers. */
  ghost predicate Holds(s: Stage, m: nat, local: seq<Item>) {
    s.0.Sized() && |s.0.lookup| == m && s.1 < |s.0.items| && local == s.0.items[1..s.1 + 1]
  }

  /** Bit c of row b of the key is bit b of the stream of the receiver's first seed for column c,
      flipped where both the secret and the code of what bucket b holds have the bit. */
  ghost predicate KeyFromSeeds(s: State, code: Coder, key: Key, m: nat, pairs: seq<SeedPair>,
                               drbg: (Bytes, nat) -> Bytes)
    requires s.Sized() && |s.lookup| == m && KeyOk(key, m) && |pairs| == COUNT && CoderOk(code) && DrbgOk(drbg)
  {
    forall b: nat, i: nat :: b < m && i < COUNT ==>
      IsBitSet(key.rows[b], i)
      == (IsBitSet(drbg(pairs[i].0, PaddedLen(m)), b)
          != (IsBitSet(key.secret, i) && IsBitSet(code(s.items[s.lookup[b]], s.hashes[s.lookup[b]]), i)))
  }

  /** A bucket holds y, it is the last with its hash function and hash, and some x has the same hash
      under that function. */
  ghost predicate ReportsBucket(s: State, hash: Hashers, code: Coder, key: Key, X: seq<Item>, b: nat, y: Item)
    requires s.Sized() && |key.rows| > 0
  {
    && b < |s.lookup| && s.lookup[b] != 0 && s.items[s.lookup[b]] == y
    && var h := s.hashes[s.lookup[b]];
       && (exists x :: x in X && HashOf(hash, code, key, x, h) == HashOf(hash, code, key, y, h))
       && forall b': nat :: b < b' < |s.lookup| && s.lookup[b'] != 0 && s.hashes[s.lookup[b']] == h ==>
            HashOf(hash, code, key, s.items[s.lookup[b']], h) != HashOf(hash, code, key, y, h)
  }

  /** What is reported for a table in state s, collisions or not. */
  ghost predicate IsReported(s: State, hash: Hashers, code: Coder, key: Key, X: seq<Item>, y: Item)
    requires s.Sized() && |key.rows| > 0
  {
    exists b: nat :: ReportsBucket(s, hash, code, key, X, b, y)
  }

  /** A bucket is reported by its row as it is by its item. */
  lemma ReportsSame(table: Cuckoo, code: Coder, key: Key, own: Matrix, X: seq<Item>, remote: seq<Hashes>, b: nat)
    requires table.Valid() && EncodesTo(table, code, key, own) && |key.rows| > 0 && b < |own|
    requires SentFor(table.hash, code, key, X, remote)
    ensures table.Fields().Sized() && table.lookup[b] < table.items.Length
    ensures Reported(table.hash, table.hashes[..], table.lookup[..], own, remote, b)
            <==> ReportsBucket(table.Fields(), table.hash, code, key, X, b, table.items[table.lookup[b]])
  {
    hide HashOf, Asked, Placed, Distinct, CodeOf, Encoded;
    table.SizedWhenPlaced(table.inserted, 0);
    var s := table.Fields();
    assert s.lookup[b] == table.lookup[b];
    if table.lookup[b] != 0 {
      RowOfBucket(table, code, key, own, b);
      var h, k := table.hashes[table.lookup[b]], table.hash(0, own[b]);
      forall b': nat | b < b' < |own|
        ensures IsEntry(table.hash, table.hashes[..], table.lookup[..], own, b', h, k)
                <==> s.lookup[b'] != 0 && s.hashes[s.lookup[b']] == h
                     && HashOf(table.hash, code, key, s.items[s.lookup[b']], h) == k
      {
        if s.lookup[b'] != 0 {
          RowOfBucket(table, code, key, own, b');
        }
      }
    }
  }

  lemma ReportedExactly(table: Cuckoo, code: Coder, key: Key, own: Matrix, X: seq<Item>, remote: seq<Hashes>,
                        ids: seq<Item>)
    requires table.Valid() && EncodesTo(table, code, key, own) && |key.rows| > 0
    requires SentFor(table.hash, code, key, X, remote)
    requires table.items.Length == table.hashes.Length
    requires forall y :: y in ids <==> exists b: nat ::
               && Reported(table.hash, table.hashes[..], table.lookup[..], own, remote, b)
               && table.items[table.lookup[b]] == y
    ensures table.Fields().Sized()
    ensures forall y :: y in ids <==> IsReported(table.Fields(), table.hash, code, key, X, y)
  {
    hide Placed, Distinct, SentFor, HashOf, CodeOf, Encoded, IsLatest, Asked;
    table.SizedWhenPlaced(table.inserted, 0);
    forall y
      ensures y in ids <==> IsReported(table.Fields(), table.hash, code, key, X, y)
    {
      if y in ids {
        var b: nat :|
          && Reported(table.hash, table.hashes[..], table.lookup[..], own, remote, b)
          && table.items[table.lookup[b]] == y;
        ReportsSame(table, code, key, own, X, remote, b);
        assert ReportsBucket(table.Fields(), table.hash, code, key, X, b, y);
      }
      if IsReported(table.Fields(), table.hash, code, key, X, y) {
        var b: nat :| ReportsBucket(table.Fields(), table.hash, code, key, X, b, y);
        ReportsSame(table, code, key, own, X, remote, b);
      }
    }
  }

  lemma TableHolds(table: Cuckoo, m: nat)
    requires table.Valid() && table.lookup.Length == m
    ensures Holds(StageOf(table), m, table.Ids())
  {
    table.SizedWhenPlaced(table.inserted, 0);
    assert table.items[1..table.inserted + 1] == table.items[..][1..table.inserted + 1];
  }

  lemma KeyIsFromSeeds(table: Cuckoo, code: Coder, key: Key, own: Matrix, m: nat, pairs: seq<SeedPair>,
                       drbg: (Bytes, nat) -> Bytes)
    requires table.Valid() && CoderOk(code) && DrbgOk(drbg) && |pairs| == COUNT && m == table.lookup.Length
    requires KeyOk(key, m) && |own| == m && forall b: nat :: b < m ==> |own[b]| == LEN
    requires forall b: nat, i: nat :: b < m && i < COUNT ==> StreamsGive(table, code, key, own, m, pairs, drbg, i, b)
    ensures table.Fields().Sized() && |table.Fields().lookup| == m
    ensures KeyFromSeeds(table.Fields(), code, key, m, pairs, drbg)
  {
    hide IsBitSet, Placed, Distinct;
    TableHolds(table, m);
    forall b: nat, i: nat | b < m && i < COUNT
      ensures IsBitSet(key.rows[b], i)
              == (IsBitSet(drbg(pairs[i].0, PaddedLen(m)), b)
                  != (IsBitSet(key.secret, i)
                      && IsBitSet(code(table.items[..][table.lookup[b]], table.hashes[..][table.lookup[b]]), i)))
    {
      assert StreamsGive(table, code, key, own, m, pairs, drbg, i, b);
    }
  }

  /** The protocol for the receiver's Y and the sender's X, with m buckets. `local` is what the
      receiver's table holds: all of Y but, when one of its buckets is free, the empty identifier.

      Without any assumption about collisions nothing is reported twice, and what is reported is in
      Y. When no hash collides, exactly the common identifiers are. */
  method Run<P(!new)>(X: seq<Item>, Y: seq<Item>, hash: Hashers, m: nat, code: Coder,
                      c: Suite<P>, secretA: nat, secretR: nat, secrets: seq<nat>, s: Bytes, pairs: seq<SeedPair>,
                      drbg: (Bytes, nat) -> Bytes, workers: nat, threads: nat)
    returns (r: Outcome, key: Key, local: seq<Item>, ghost filling: Filling)
    requires m > 0 && CoderOk(code) && SuiteOk(c) && DrbgOk(drbg)
    requires |s| == LEN && |pairs| == |secrets| == COUNT && workers > 0 && threads > 0
    ensures r.Failed? ==> r.outcome.Homeless? && filling.FailsWith(hash, |Y|, m, Y, r.outcome)
    ensures AllHaveRoom(hash, m, Y) ==> r.Intersection?
    ensures r.Intersection? ==> filling.FromEmpty(hash, |Y|, m, Y) && |filling.past| == |Y| + 1
    ensures r.Intersection? ==> Holds(filling.past[|Y|], m, local)
    ensures r.Intersection? ==> KeyOk(key, m) && key.secret == s
    ensures r.Intersection? && (forall i: nat :: i < COUNT ==> |pairs[i].0| == LEN) ==>
              KeyFromSeeds(filling.past[|Y|].0, code, key, m, pairs, drbg)
    ensures r.Intersection? ==> forall y :: (y in local ==> y in Y) && (y in Y && y != [] ==> y in local)
    ensures r.Intersection? ==> NoDuplicates(r.ids) && forall y :: y in r.ids ==> y in local
    ensures r.Intersection? ==> forall y :: y in r.ids <==> IsReported(filling.past[|Y|].0, hash, code, key, X, y)
    ensures r.Intersection? ==> forall y :: y in r.ids ==>
              exists x, h: nat :: h < NHASH && x in X && HashOf(hash, code, key, x, h) == HashOf(hash, code, key, y, h)
    ensures r.Intersection? && NoCollision(hash, code, key, local, local) ==>
              forall y :: y in X && y in local ==> y in r.ids
    ensures r.Intersection? && NoCollision(hash, code, key, X, local) ==>
              forall y :: y in r.ids ==> y in X && y in local
    ensures r.Intersection? && NoCollision(hash, code, key, X + local, local) ==>
              ((forall y :: y in r.ids <==> y in X && y in Y) <==> !([] in X && [] in Y && [] !in local))
    ensures r.Intersection? && NoCollision(hash, code, key, X + local, local) && !([] in X && [] in Y) ==>
              forall y :: y in r.ids <==> y in X && y in Y
    ensures r.Intersection? && EmptyComesEarly(hash, m, Y) ==> [] !in local
    ensures r.Intersection? && EmptyComesEarly(hash, m, Y) && [] in X && [] in Y ==>
              !forall y :: y in r.ids <==> y in X && y in Y
  {
    hide HashOf, Cuckoo.Valid, SuiteOk, EncodesTo, NoDuplicates, EmptyComesEarly, AllHaveRoom;
    hide Filling.FromEmpty, Filling.FailsWith, StreamsGive, Holds, KeyFromSeeds, IsReported, KeyOk;
    key, local := Key([], []), [];
    var table, fill;
    table, fill, filling := FillTable(Y, |Y|, m, hash);
    if fill.Failed? {
      return Outcome.Failed(fill.outcome), key, local, filling;
    }
    var extension := Oprf.Run(table, m, code, c, secretA, secretR, secrets, s, pairs, drbg, workers);
    key := extension.key;
    local := TableIds(table);
    TableHolds(table, m);
    if forall i: nat :: i < COUNT ==> |pairs[i].0| == LEN {
      KeyIsFromSeeds(table, code, key, extension.own, m, pairs, drbg);
    }
    var ids := LookUpSent(table, code, key, extension.own, X, threads);
    r := Intersection(ids);
  }

  /** The receiver indexes its rows, and looks up what the sender sends. */
  method LookUpSent(table: Cuckoo, code: Coder, key: Key, own: Matrix, X: seq<Item>, threads: nat)
    returns (ids: seq<Item>)
    requires table.Valid() && EncodesTo(table, code, key, own) && CoderOk(code) && threads > 0
    ensures table.Fields().Sized() && KeyOk(key, table.lookup.Length) && |key.rows| > 0
    ensures NoDuplicates(ids)
    ensures forall y :: y in ids <==> IsReported(table.Fields(), table.hash, code, key, X, y)
    ensures forall y :: y in ids ==> y in table.Ids()
    ensures forall y :: y in ids ==>
              exists x, h: nat ::
                h < NHASH && x in X && HashOf(table.hash, code, key, x, h) == HashOf(table.hash, code, key, y, h)
    ensures NoCollision(table.hash, code, key, table.Ids(), table.Ids()) ==>
              forall y :: y in X && y in table.Ids() ==> y in ids
    ensures NoCollision(table.hash, code, key, X, table.Ids()) ==>
              forall y :: y in ids ==> y in X && y in table.Ids()
  {
    TableSizes(table);
    hide HashOf, Asked, Indexed, IsLatest, Reported, Cuckoo.Valid, Encoded, CodeOf, SentFor, NoDuplicates, IsReported;
    hide NoCollision;
    var index := MakeIndex(table, own);
    var remote := SendAll(table.hash, code, key, X, threads);
    ids := KkrtReceiver.Intersect(table, own, index, remote);
    Conclude(table, code, key, own, X, remote, ids);
    ReportedExactly(table, code, key, own, X, remote, ids);
  }

  /** What is in the result when it holds the reported items of the table. */
  lemma Conclude(table: Cuckoo, code: Coder, key: Key, own: Matrix, X: seq<Item>, remote: seq<Hashes>, ids: seq<Item>)
    requires table.Valid() && EncodesTo(table, code, key, own) && |key.rows| > 0
    requires SentFor(table.hash, code, key, X, remote)
    requires table.items.Length == table.hashes.Length
    requires forall y :: y in ids <==> exists b: nat ::
               && Reported(table.hash, table.hashes[..], table.lookup[..], own, remote, b)
               && table.items[table.lookup[b]] == y
    ensures forall y :: y in ids ==> y in table.Ids()
    ensures forall y :: y in ids ==>
              exists x, h: nat ::
                h < NHASH && x in X && HashOf(table.hash, code, key, x, h) == HashOf(table.hash, code, key, y, h)
    ensures NoCollision(table.hash, code, key, table.Ids(), table.Ids()) ==>
              forall y :: y in X && y in table.Ids() ==> y in ids
    ensures NoCollision(table.hash, code, key, X, table.Ids()) ==>
              forall y :: y in ids ==> y in X && y in table.Ids()
  {
    hide HashOf, Asked, IsLatest, Placed, Distinct, CodeOf, Encoded, SentFor;
    forall y | y in ids
      ensures y in table.Ids()
      ensures exists x, h: nat ::
                h < NHASH && x in X && HashOf(table.hash, code, key, x, h) == HashOf(table.hash, code, key, y, h)
    {
      var b: nat :|
        && Reported(table.hash, table.hashes[..], table.lookup[..], own, remote, b)
        && table.items[table.lookup[b]] == y;
      ReportedShares(table, code, key, own, X, remote, b);
    }
    if NoCollision(table.hash, code, key, table.Ids(), table.Ids()) {
      forall y | y in X && y in table.Ids()
        ensures y in ids
      {
        var b := CommonReported(table, code, key, own, X, remote, y);
      }
    }
  }

  lemma TableSizes(table: Cuckoo)
    requires table.Valid()
    ensures table.items.Length == table.hashes.Length > table.inserted && table.lookup.Length > 0
  {
  }

  method TableIds(table: Cuckoo) returns (ids: seq<Item>)
    requires table.Valid()
    ensures ids == table.Ids()
  {
    ids := table.items[1..table.inserted + 1];
  }
}
