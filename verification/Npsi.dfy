/** pkg/npsi: identifiers are hashed in batches by a pool of handlers that pump out the pairs in any
    order, and the receiver intersects two indexes of hashes. */
module Npsi {
  import opened Sequences

  const BATCH: nat := 512

  datatype Pair<I> = Pair(x: I, h: nat)

  function PairsOf<I>(hash: I -> nat, ids: seq<I>): (r: seq<Pair<I>>)
    ensures |r| == |ids| && forall i: nat :: i < |ids| ==> r[i] == Pair(ids[i], hash(ids[i]))
  {
    seq(|ids|, i requires 0 <= i < |ids| => Pair(ids[i], hash(ids[i])))
  }

  lemma PairsAppend<I>(hash: I -> nat, ids: seq<I>, more: seq<I>)
    ensures PairsOf(hash, ids + more) == PairsOf(hash, ids) + PairsOf(hash, more)
  {
  }

  // ----- the goroutines

  /** A handler with the identifiers of its batch that are still to be pumped out. */
  datatype Handler<I> = Idle | Pumping(x: seq<I>)

  datatype Batcher = Accumulating | Handing | Done

  ghost function Pending<I>(hash: I -> nat, w: Handler<I>): multiset<Pair<I>> {
    if w.Idle? then multiset{} else multiset(PairsOf(hash, w.x))
  }

  /** The pairs that the handlers still have to pump out. */
  ghost function Held<I>(hash: I -> nat, ws: seq<Handler<I>>): multiset<Pair<I>> {
    if ws == [] then multiset{} else Pending(hash, ws[0]) + Held(hash, ws[1..])
  }

  lemma AddFirst<T>(first: multiset<T>, a: multiset<T>, b: multiset<T>, c: multiset<T>, d: multiset<T>)
    requires a + b == c + d
    ensures (first + a) + b == (first + c) + d
  {
    assert first + (a + b) == first + (c + d);
    assert (first + a) + b == first + (a + b);
    assert (first + c) + d == first + (c + d);
  }

  lemma Cancel<T>(a: multiset<T>, b: multiset<T>, c: multiset<T>, d: multiset<T>)
    requires a + (b + c) == d + c
    ensures a + b == d
  {
    assert ((a + b) + c) - c == a + b;
    assert (d + c) - c == d;
    assert (a + b) + c == a + (b + c);
  }

  lemma {:induction false} HeldUpdate<I>(hash: I -> nat, ws: seq<Handler<I>>, v: nat, w: Handler<I>)
    requires v < |ws|
    ensures Held(hash, ws[v := w]) + Pending(hash, ws[v]) == Held(hash, ws) + Pending(hash, w)
  {
    hide Pending;
    if v == 0 {
      assert ws[v := w][1..] == ws[1..];
    } else {
      assert ws[v := w][1..] == ws[1..][v - 1 := w];
      HeldUpdate(hash, ws[1..], v - 1, w);
      AddFirst(Pending(hash, ws[0]), Held(hash, ws[1..][v - 1 := w]), Pending(hash, ws[v]),
               Held(hash, ws[1..]), Pending(hash, w));
    }
  }

  lemma {:induction false} HeldNothing<I>(hash: I -> nat, ws: seq<Handler<I>>)
    requires forall w: nat :: w < |ws| ==> ws[w].Idle?
    ensures Held(hash, ws) == multiset{}
  {
    if ws != [] {
      HeldNothing(hash, ws[1..]);
    }
  }

  ghost function Busy<I>(ws: seq<Handler<I>>): seq<nat> {
    seq(|ws|, w requires 0 <= w < |ws| => if ws[w].Idle? then 0 else 1)
  }

  ghost function StepsOf<I>(ws: seq<Handler<I>>): seq<nat> {
    seq(|ws|, w requires 0 <= w < |ws| => if ws[w].Idle? then 0 else |ws[w].x| + 1)
  }

  /** Every pair is pumped out, held by a handler, in the batch or still to come. */
  ghost predicate Conserved<I>(hash: I -> nat, ids: seq<I>, taken: nat, batch: seq<I>, ws: seq<Handler<I>>,
                               pairs: seq<Pair<I>>) {
    && taken <= |ids|
    && multiset(pairs) + Held(hash, ws) + multiset(PairsOf(hash, batch)) + multiset(PairsOf(hash, ids[taken..]))
       == multiset(PairsOf(hash, ids))
  }

  lemma TakeStep<I>(hash: I -> nat, ids: seq<I>, taken: nat, batch: seq<I>, ws: seq<Handler<I>>, pairs: seq<Pair<I>>)
    requires Conserved(hash, ids, taken, batch, ws, pairs) && taken < |ids|
    ensures Conserved(hash, ids, taken + 1, batch + [ids[taken]], ws, pairs)
  {
    hide PairsOf, Held;
    assert ids[taken..] == [ids[taken]] + ids[taken + 1..];
    PairsAppend(hash, [ids[taken]], ids[taken + 1..]);
    PairsAppend(hash, batch, [ids[taken]]);
  }

  lemma HandStep<I>(hash: I -> nat, ids: seq<I>, taken: nat, batch: seq<I>, ws: seq<Handler<I>>, pairs: seq<Pair<I>>,
                    v: nat)
    requires Conserved(hash, ids, taken, batch, ws, pairs) && v < |ws| && ws[v].Idle?
    ensures Conserved(hash, ids, taken, [], ws[v := Pumping(batch)], pairs)
  {
    hide Held;
    HeldUpdate(hash, ws, v, Pumping(batch));
    assert PairsOf<I>(hash, []) == [];
    assert Held(hash, ws[v := Pumping(batch)]) == Held(hash, ws) + multiset(PairsOf(hash, batch));
    assert multiset(pairs) + Held(hash, ws[v := Pumping(batch)]) + multiset(PairsOf<I>(hash, []))
           + multiset(PairsOf(hash, ids[taken..])) == multiset(PairsOf(hash, ids));
  }

  lemma PumpStep<I>(hash: I -> nat, ids: seq<I>, taken: nat, batch: seq<I>, ws: seq<Handler<I>>, pairs: seq<Pair<I>>,
                    v: nat)
    requires Conserved(hash, ids, taken, batch, ws, pairs) && v < |ws| && ws[v].Pumping? && ws[v].x != []
    ensures var x := ws[v].x;
      Conserved(hash, ids, taken, batch, ws[v := Pumping(x[1..])], pairs + [Pair(x[0], hash(x[0]))])
  {
    hide Held;
    var x := ws[v].x;
    HeldUpdate(hash, ws, v, Pumping(x[1..]));
    PairsAppend(hash, [x[0]], x[1..]);
    assert [x[0]] + x[1..] == x;
    assert PairsOf(hash, [x[0]]) == [Pair(x[0], hash(x[0]))];
    assert PairsOf(hash, x) == [Pair(x[0], hash(x[0]))] + PairsOf(hash, x[1..]);
    assert Pending(hash, ws[v]) == multiset{Pair(x[0], hash(x[0]))} + Pending(hash, Pumping(x[1..]));
    Cancel(Held(hash, ws[v := Pumping(x[1..])]), multiset{Pair(x[0], hash(x[0]))}, Pending(hash, Pumping(x[1..])),
           Held(hash, ws));
  }

  lemma RestStep<I>(hash: I -> nat, ids: seq<I>, taken: nat, batch: seq<I>, ws: seq<Handler<I>>, pairs: seq<Pair<I>>,
                    v: nat)
    requires Conserved(hash, ids, taken, batch, ws, pairs) && v < |ws| && ws[v] == Pumping([])
    ensures Conserved(hash, ids, taken, batch, ws[v := Idle], pairs)
  {
    hide Held;
    HeldUpdate(hash, ws, v, Idle);
    assert PairsOf<I>(hash, []) == [];
    assert Pending(hash, ws[v]) == multiset{};
    Cancel(Held(hash, ws[v := Idle]), multiset{}, multiset{}, Held(hash, ws));
  }

  /** HashAllParallel */
  class HashAll<I(!new)> {
    const ids: seq<I>
    const hash: I -> nat
    var taken: nat
    var batch: seq<I>
    var batcher: Batcher
    var ws: seq<Handler<I>>
    var wg: nat
    var pairs: seq<Pair<I>>
    var closed: bool

    ghost predicate Valid()
      reads this
    {
      && |ws| > 0 && |batch| <= BATCH
      && Conserved(hash, ids, taken, batch, ws, pairs)
      && wg == (match batcher case Accumulating => 1 case Handing => 2 case Done => 0) + Sum(Busy(ws))
      && (batcher.Handing? ==> batch != [] && (|batch| == BATCH || taken == |ids|))
      && (batcher.Done? ==> taken == |ids| && batch == [])
      && (closed ==> wg == 0)
    }

    constructor (ids: seq<I>, hash: I -> nat, handlers: nat)
      requires handlers > 0
      ensures Valid() && this.ids == ids && this.hash == hash && !closed
    {
      this.ids, this.hash := ids, hash;
      taken, batch, batcher, ws, wg, pairs, closed := 0, [], Accumulating, seq(handlers, _ => Idle), 1, [], false;
      new;
      AllIdle(ws);
      HeldNothing(hash, ws);
      assert ids[0..] == ids;
      assert PairsOf<I>(hash, []) == [];
    }

    /** The batcher takes an identifier, or announces a batch that is full or the last, or ends. */
    method Accumulate()
      requires Valid() && batcher.Accumulating?
      modifies this`taken, this`batch, this`batcher, this`wg
      ensures Valid() && !closed && Steps() < old(Steps())
    {
      hide Conserved, Sum;
      if |batch| == BATCH || (taken == |ids| && batch != []) {
        wg := wg + 1;
        batcher := Handing;
      } else if taken < |ids| {
        ConservedInside(hash, ids, taken, batch, ws, pairs);
        TakeStep(hash, ids, taken, batch, ws, pairs);
        batch := batch + [ids[taken]];
        taken := taken + 1;
      } else {
        ConservedInside(hash, ids, taken, batch, ws, pairs);
        wg := wg - 1;
        batcher := Done;
      }
    }

    /** The batch goes to an idle handler. */
    method Hand(v: nat)
      requires Valid() && batcher.Handing? && v < |ws| && ws[v].Idle?
      modifies this`batch, this`batcher, this`ws
      ensures Valid() && ws == old(ws)[v := Pumping(old(batch))] && batcher == Accumulating && batch == []
    {
      hide Conserved, Sum;
      HandStep(hash, ids, taken, batch, ws, pairs, v);
      SumUpdate(Busy(ws), Busy(ws[v := Pumping(batch)]), v);
      ws := ws[v := Pumping(batch)];
      batch := [];
      batcher := Accumulating;
    }

    /** A handler pumps out a pair, or reports its batch done. The channel is open. */
    method Pump(v: nat)
      requires Valid() && v < |ws| && ws[v].Pumping?
      modifies this`ws, this`pairs, this`wg
      ensures Valid() && !closed
      ensures ws == old(ws)[v := if old(ws)[v].x == [] then Idle else Pumping(old(ws)[v].x[1..])]
    {
      hide Conserved, Sum;
      BusyCounts(ws, v);
      var x := ws[v].x;
      if x != [] {
        PumpStep(hash, ids, taken, batch, ws, pairs, v);
        SumUpdate(Busy(ws), Busy(ws[v := Pumping(x[1..])]), v);
        pairs := pairs + [Pair(x[0], hash(x[0]))];
        ws := ws[v := Pumping(x[1..])];
      } else {
        RestStep(hash, ids, taken, batch, ws, pairs, v);
        SumUpdate(Busy(ws), Busy(ws[v := Idle]), v);
        ws := ws[v := Idle];
        wg := wg - 1;
      }
    }

    /** wg.Wait is over, and the channel is closed. */
    method Close()
      requires Valid() && wg == 0 && !closed
      modifies this`closed
      ensures Valid() && closed
    {
      hide Conserved, Sum;
      closed := true;
    }

    /** A bound on the steps left. */
    ghost function Steps(): int
      reads this
    {
      5 * (|ids| - taken) + 4 * |batch|
      + (match batcher case Accumulating => 2 case Handing => 1 case Done => 0)
      + Sum(StepsOf(ws)) + if closed then 0 else 1
    }

    lemma StepsBounded()
      requires Valid()
      ensures Steps() >= 0
    {
      hide Sum;
    }

    /** What can go on: the handlers, the batcher (|ws|) and the closer (|ws| + 1). */
    predicate Enabled(g: nat)
      reads this
    {
      if g < |ws| then ws[g].Pumping?
      else if g == |ws| then
        batcher.Accumulating? || (batcher.Handing? && exists w: nat :: w < |ws| && ws[w].Idle?)
      else g == |ws| + 1 && wg == 0 && !closed
    }

    /** No deadlock before the channel is closed. */
    lemma Progress()
      requires Valid() && !closed
      ensures exists g: nat :: g <= |ws| + 1 && Enabled(g)
    {
      hide Conserved, Sum;
      if w: nat :| w < |ws| && ws[w].Pumping? {
        assert Enabled(w);
      } else if !batcher.Done? {
        assert ws[0].Idle?;
        assert Enabled(|ws|);
      } else {
        AllIdle(ws);
        assert Enabled(|ws| + 1);
      }
    }

    method Step(g: nat)
      requires Valid() && Enabled(g)
      modifies this
      ensures Valid() && Steps() < old(Steps())
    {
      hide Conserved, Sum;
      ghost var before := ws;
      if g < |ws| {
        Pump(g);
        SumUpdate(StepsOf(before), StepsOf(ws), g);
      } else if g == |ws| {
        if batcher.Accumulating? {
          Accumulate();
        } else {
          var w: nat :| w < |ws| && ws[w].Idle?;
          Hand(w);
          SumUpdate(StepsOf(before), StepsOf(ws), w);
        }
      } else {
        Close();
      }
    }

    /** Any goroutine that can go on goes on, until the channel is closed: every identifier has come
        out once with its hash, and nothing is left behind. */
    method Run()
      requires Valid() && !closed
      modifies this
      ensures multiset(pairs) == multiset(PairsOf(hash, ids)) && closed
    {
      while !closed
        invariant Valid()
        decreases Steps()
      {
        hide Valid, Steps, Enabled;
        Progress();
        StepsBounded();
        var g: nat :| g <= |ws| + 1 && Enabled(g);
        Step(g);
      }
      AllPumped();
    }

    lemma AllPumped()
      requires Valid() && closed
      ensures multiset(pairs) == multiset(PairsOf(hash, ids))
    {
      hide Sum, Held;
      AllIdle(ws);
      HeldNothing(hash, ws);
      assert ids[taken..] == [];
      assert PairsOf<I>(hash, []) == [];
    }
  }

  lemma ConservedInside<I>(hash: I -> nat, ids: seq<I>, taken: nat, batch: seq<I>, ws: seq<Handler<I>>,
                           pairs: seq<Pair<I>>)
    requires Conserved(hash, ids, taken, batch, ws, pairs)
    ensures taken <= |ids|
  {
  }

  lemma {:induction false} AllIdle<I>(ws: seq<Handler<I>>)
    ensures Sum(Busy(ws)) == 0 <==> forall w: nat :: w < |ws| ==> ws[w].Idle?
  {
    if ws != [] {
      AllIdle(ws[1..]);
      assert Busy(ws)[1..] == Busy(ws[1..]);
      assert forall w: nat :: w < |ws| - 1 ==> ws[1..][w] == ws[w + 1];
      if w: nat :| w < |ws| && !ws[w].Idle? {
        assert w > 0 ==> ws[1..][w - 1] == ws[w];
      }
    }
  }

  lemma BusyCounts<I>(ws: seq<Handler<I>>, v: nat)
    requires v < |ws| && ws[v].Pumping?
    ensures Sum(Busy(ws)) > 0
  {
    AllIdle(ws);
  }

  // ----- the receiver

  method HashAllParallel<I(!new)>(hash: I -> nat, ids: seq<I>, handlers: nat) returns (pairs: seq<Pair<I>>)
    requires handlers > 0
    ensures multiset(pairs) == multiset(PairsOf(hash, ids))
  {
    var pool := new HashAll(ids, hash, handlers);
    pool.Run();
    pairs := pool.pairs;
  }

  /** The same pairs, in any order. */
  lemma PairsFrom<I>(hash: I -> nat, ids: seq<I>, pairs: seq<Pair<I>>)
    requires multiset(pairs) == multiset(PairsOf(hash, ids))
    ensures forall q :: q in pairs <==> q.x in ids && q.h == hash(q.x)
  {
    forall q
      ensures q in pairs <==> q.x in ids && q.h == hash(q.x)
    {
      assert q in pairs <==> q in multiset(PairsOf(hash, ids));
      if q.x in ids {
        var i: nat :| i < |ids| && ids[i] == q.x;
        assert PairsOf(hash, ids)[i] == Pair(q.x, hash(q.x));
      }
    }
  }

  method IndexLocal<I(!new)>(pairs: seq<Pair<I>>) returns (index: map<nat, I>)
    ensures forall q :: q in pairs ==> q.h in index
    ensures forall h: nat :: h in index ==> Pair(index[h], h) in pairs
  {
    index := map[];
    for i := 0 to |pairs|
      invariant forall q :: q in pairs[..i] ==> q.h in index
      invariant forall h: nat :: h in index ==> Pair(index[h], h) in pairs[..i]
    {
      assert pairs[..i + 1] == pairs[..i] + [pairs[i]];
      index := index[pairs[i].h := pairs[i].x];
    }
    assert pairs[..|pairs|] == pairs;
  }

  method IndexRemote<I(!new)>(pairs: seq<Pair<I>>) returns (index: set<nat>)
    ensures IndexesValues((q: Pair<I>) => q.h, pairs, index)
  {
    index := {};
    ghost var value := (q: Pair<I>) => q.h;
    for i := 0 to |pairs|
      invariant IndexesValues(value, pairs[..i], index)
    {
      hide IndexesValues;
      IndexNext(value, pairs[..i], pairs[i], index);
      assert pairs[..i + 1] == pairs[..i] + [pairs[i]];
      index := index + {pairs[i].h};
    }
    assert pairs[..|pairs|] == pairs;
  }

  lemma IndexNext<I(!new), Q(!new)>(value: I -> Q, s: seq<I>, x: I, index: set<Q>)
    requires IndexesValues(value, s, index)
    ensures IndexesValues(value, s + [x], index + {value(x)})
  {
    hide HasLike;
    forall q | q in index + {value(x)}
      ensures HasLike(value, s + [x], q)
    {
      LikeNext(value, s, x, q);
    }
  }

  lemma LikeNext<I(!new), Q(!new)>(value: I -> Q, s: seq<I>, x: I, q: Q)
    requires HasLike(value, s, q) || q == value(x)
    ensures HasLike(value, s + [x], q)
  {
    if HasLike(value, s, q) {
      var y := LikeOf(value, s, q);
      assert y in s + [x];
    } else {
      assert x in s + [x];
    }
  }

  /** The hashes of the pairs of X are those of X. */
  lemma PairsIndexed<I(!new)>(hash: I -> nat, X: seq<I>, pairs: seq<Pair<I>>, index: set<nat>)
    requires forall q :: q in pairs <==> q.x in X && q.h == hash(q.x)
    requires IndexesValues((q: Pair<I>) => q.h, pairs, index)
    ensures IndexesValues(hash, X, index)
  {
    forall x | x in X
      ensures hash(x) in index
    {
      assert Pair(x, hash(x)) in pairs;
    }
    hide HasLike;
    forall h | h in index
      ensures HasLike(hash, X, h)
    {
      var q := LikeOf((q: Pair<I>) => q.h, pairs, h);
      LikeIs(hash, X, q.x, h);
    }
  }

  lemma LikeIs<I(!new), Q(!new)>(value: I -> Q, s: seq<I>, x: I, v: Q)
    requires x in s && value(x) == v
    ensures HasLike(value, s, v)
  {
  }

  /** The loop over the local index, in any order of its keys. */
  method Select<I(!new)>(local: map<nat, I>, remote: set<nat>) returns (ids: seq<I>, ghost keys: seq<nat>)
    ensures |ids| == |keys| && NoDuplicates(keys)
    ensures forall i: nat :: i < |keys| ==> keys[i] in local && keys[i] in remote && ids[i] == local[keys[i]]
    ensures forall h :: h in local && h in remote ==> h in keys
  {
    ids, keys := [], [];
    var left := local.Keys;
    while left != {}
      invariant left <= local.Keys
      invariant |ids| == |keys| && NoDuplicates(keys)
      invariant forall i: nat :: i < |keys| ==>
                  keys[i] in local && keys[i] in remote && keys[i] !in left && ids[i] == local[keys[i]]
      invariant forall h :: h in local && h in remote && h !in left ==> h in keys
    {
      var h :| h in left;
      left := left - {h};
      if h in remote {
        ids, keys := ids + [local[h]], keys + [h];
      }
    }
  }

  /** The protocol for the sender's X and the receiver's Y, for every schedule of the handlers. No
      identifier is reported twice; all reported ones are in Y and share their hash with one of X;
      and for each common identifier one with its hash is reported. When no identifier of Y shares
      its hash, exactly the common ones are. */
  method Intersect<I(!new)>(X: seq<I>, Y: seq<I>, hash: I -> nat, handlers: nat) returns (ids: seq<I>)
    requires handlers > 0
    ensures NoDuplicates(ids)
    ensures forall y :: y in ids ==> y in Y && exists x :: x in X && hash(x) == hash(y)
    ensures forall y :: y in X && y in Y ==> exists y' :: y' in ids && hash(y') == hash(y)
    ensures Unshared(hash, X, Y) ==> forall y :: y in ids <==> y in X && y in Y
  {
    var sent := HashAllParallel(hash, X, handlers);
    var mine := HashAllParallel(hash, Y, handlers);
    PairsFrom(hash, X, sent);
    PairsFrom(hash, Y, mine);
    var remote := IndexRemote(sent);
    PairsIndexed(hash, X, sent, remote);
    var local := IndexLocal(mine);
    LocalHolds(hash, Y, mine, local);
    ghost var keys;
    ids, keys := Select(local, remote);
    Selected(Y, hash, local, remote, ids, keys);
    Exchanged(X, Y, hash, remote, ids);
    if Unshared(hash, X, Y) {
      forall y
        ensures y in ids <==> y in X && y in Y
      {
        FoundIsExact(hash, X, Y, ids, y);
      }
    }
  }

  /** The local index holds the hashes of Y, each with an identifier of Y. */
  ghost predicate LocalOk<I(!new)>(hash: I -> nat, Y: seq<I>, local: map<nat, I>) {
    && (forall y :: y in Y ==> hash(y) in local)
    && forall h: nat :: h in local ==> local[h] in Y && hash(local[h]) == h
  }

  lemma LocalHolds<I(!new)>(hash: I -> nat, Y: seq<I>, pairs: seq<Pair<I>>, local: map<nat, I>)
    requires forall q :: q in pairs <==> q.x in Y && q.h == hash(q.x)
    requires forall q :: q in pairs ==> q.h in local
    requires forall h: nat :: h in local ==> Pair(local[h], h) in pairs
    ensures LocalOk(hash, Y, local)
  {
    forall y | y in Y
      ensures hash(y) in local
    {
      assert Pair(y, hash(y)) in pairs;
    }
  }

  lemma Selected<I(!new)>(Y: seq<I>, hash: I -> nat, local: map<nat, I>, remote: set<nat>, ids: seq<I>, keys: seq<nat>)
    requires LocalOk(hash, Y, local) && |ids| == |keys| && NoDuplicates(keys)
    requires forall i: nat :: i < |keys| ==> keys[i] in local && keys[i] in remote && ids[i] == local[keys[i]]
    requires forall h :: h in local && h in remote ==> h in keys
    ensures NoDuplicates(ids) && Matched(hash, Y, remote, ids)
  {
    hide HasLike;
    assert forall i: nat :: i < |ids| ==> hash(ids[i]) == keys[i];
    forall y | y in Y && hash(y) in remote
      ensures HasLike(hash, ids, hash(y))
    {
      assert hash(y) in keys;
      var i: nat :| i < |keys| && keys[i] == hash(y);
      LikeIs(hash, ids, ids[i], hash(y));
    }
  }
}
