/** The writers of pkg/dhpsi that derive, multiply and permute identifiers: the sequential shuffler
    with its cache, and the parallel one with its batches and workers. */
module DhpsiShufflers {
  import opened Sequences
  import opened Words
  import opened CycleWalk

  type Identifier = seq<byte>
  type Point = seq<byte>

  datatype Status = Accepted | ErrUnexpectedPoint

  /** The first n points to be written: the k-th is that of identifier p(k). */
  ghost function Stream(derive: Identifier -> Point, p: nat -> nat, ids: seq<Identifier>, n: nat): (s: seq<Point>)
    requires n <= |ids| && forall k: nat :: k < n ==> p(k) < |ids|
    ensures |s| == n
    ensures forall k: nat :: k < n ==> s[k] == derive(ids[p(k)])
  {
    seq(n, k requires 0 <= k < n => derive(ids[p(k)]))
  }

  lemma StreamNext(derive: Identifier -> Point, p: nat -> nat, ids: seq<Identifier>, n: nat)
    requires n < |ids| && forall k: nat :: k < n + 1 ==> p(k) < |ids|
    ensures Stream(derive, p, ids, n + 1) == Stream(derive, p, ids, n) + [derive(ids[p(n)])]
  {
  }

  lemma StreamExtends(derive: Identifier -> Point, p: nat -> nat, ids: seq<Identifier>, n: nat, id: Identifier)
    requires n <= |ids| && forall k: nat :: k < n ==> p(k) < |ids|
    ensures Stream(derive, p, ids + [id], n) == Stream(derive, p, ids, n)
  {
  }

  // ----- the sequential shuffler

  /** Identifier i is not among the first `sent` of the stream. */
  ghost predicate Unsent(p: nat -> nat, sent: nat, i: nat) {
    forall k: nat :: k < sent ==> p(k) != i
  }

  lemma UnsentNext(p: nat -> nat, sent: nat, i: nat)
    ensures Unsent(p, sent + 1, i) <==> Unsent(p, sent, i) && p(sent) != i
  {
  }

  /** The cache has the point of identifier i just when that has come and is not sent. */
  ghost predicate CacheRight(derive: Identifier -> Point, p: nat -> nat, ids: seq<Identifier>, sent: nat,
                             b: map<nat, Point>, i: nat) {
    && (i in b <==> i < |ids| && Unsent(p, sent, i))
    && (i in b && i < |ids| ==> b[i] == derive(ids[i]))
  }

  /** `sent` points are written, and those of the other identifiers are in the cache. */
  ghost predicate Cached(derive: Identifier -> Point, p: nat -> nat, ids: seq<Identifier>, sent: nat,
                         b: map<nat, Point>, out: seq<Point>) {
    && sent <= |ids|
    && (forall k: nat :: k < sent ==> p(k) < |ids|)
    && out == Stream(derive, p, ids, sent)
    && forall i: nat :: CacheRight(derive, p, ids, sent, b, i)
  }

  lemma WriteStep(derive: Identifier -> Point, p: nat -> nat, ids: seq<Identifier>, sent: nat,
                  b: map<nat, Point>, out: seq<Point>, id: Identifier)
    requires Cached(derive, p, ids, sent, b, out) && p(sent) == |ids|
    ensures Cached(derive, p, ids + [id], sent + 1, b, out + [derive(id)])
  {
    hide Stream, CacheRight;
    StreamExtends(derive, p, ids, sent, id);
    StreamNext(derive, p, ids + [id], sent);
    var ids', sent' := ids + [id], sent + 1;
    forall i: nat
      ensures CacheRight(derive, p, ids', sent', b, i)
    {
      assert CacheRight(derive, p, ids, sent, b, i);
      WrittenRight(derive, p, ids, sent, b, id, i);
    }
  }

  lemma WrittenRight(derive: Identifier -> Point, p: nat -> nat, ids: seq<Identifier>, sent: nat,
                     b: map<nat, Point>, id: Identifier, i: nat)
    requires CacheRight(derive, p, ids, sent, b, i) && p(sent) == |ids|
    ensures CacheRight(derive, p, ids + [id], sent + 1, b, i)
  {
    hide Unsent;
    UnsentNext(p, sent, i);
  }

  lemma CacheStep(derive: Identifier -> Point, p: nat -> nat, ids: seq<Identifier>, sent: nat,
                  b: map<nat, Point>, out: seq<Point>, id: Identifier)
    requires Cached(derive, p, ids, sent, b, out)
    ensures Cached(derive, p, ids + [id], sent, b[|ids| := derive(id)], out)
  {
    hide Stream, CacheRight;
    StreamExtends(derive, p, ids, sent, id);
    assert Unsent(p, sent, |ids|);
    var ids', b' := ids + [id], b[|ids| := derive(id)];
    forall i: nat
      ensures CacheRight(derive, p, ids', sent, b', i)
    {
      assert CacheRight(derive, p, ids, sent, b, i);
      CachedRight(derive, p, ids, sent, b, id, i);
    }
  }

  lemma CachedRight(derive: Identifier -> Point, p: nat -> nat, ids: seq<Identifier>, sent: nat,
                    b: map<nat, Point>, id: Identifier, i: nat)
    requires CacheRight(derive, p, ids, sent, b, i) && Unsent(p, sent, |ids|)
    ensures CacheRight(derive, p, ids + [id], sent, b[|ids| := derive(id)], i)
  {
    hide Unsent;
  }

  /** What is still to be sent is in the cache when all identifiers have come. */
  lemma InCache(derive: Identifier -> Point, p: nat -> nat, ids: seq<Identifier>, sent: nat,
                b: map<nat, Point>, out: seq<Point>, i: nat)
    requires Cached(derive, p, ids, sent, b, out) && Permutes(p, |ids|) && sent <= i < |ids|
    ensures p(i) in b && p(i) < |ids| && b[p(i)] == derive(ids[p(i)])
  {
    hide Stream;
    assert Unsent(p, sent, p(i));
    assert CacheRight(derive, p, ids, sent, b, p(i));
  }

  lemma CachedStream(derive: Identifier -> Point, p: nat -> nat, ids: seq<Identifier>, sent: nat,
                     b: map<nat, Point>, out: seq<Point>)
    requires Cached(derive, p, ids, sent, b, out) && Permutes(p, |ids|)
    ensures sent <= |ids| && Inside(p, |ids|) && out == Stream(derive, p, ids, sent)
  {
  }

  class DeriveMultiplyShuffler {
    const max: nat
    const derive: Identifier -> Point
    const p: nat -> nat
    var taken: nat
    var sent: nat
    var b: map<nat, Point>
    var out: seq<Point>
    ghost var ids: seq<Identifier>

    ghost predicate Valid()
      reads this
    {
      && Permutes(p, max)
      && taken == |ids| <= max
      && (taken < max ==> Cached(derive, p, ids, sent, b, out))
      && (taken == max ==> out == Stream(derive, p, ids, max))
    }

    constructor (max: nat, derive: Identifier -> Point, p: nat -> nat)
      requires Permutes(p, max)
      ensures Valid() && this.max == max && this.derive == derive && this.p == p && ids == []
    {
      this.max, this.derive, this.p := max, derive, p;
      taken, sent, b, out, ids := 0, 0, map[], [], [];
    }

    lemma Complete()
      requires Valid() && |ids| == max
      ensures Permutes(p, max) && out == Stream(derive, p, ids, max)
    {
    }

    /** What is left in the cache is written in the order of the permutation. */
    method Flush()
      requires taken == max == |ids| && Permutes(p, max) && Cached(derive, p, ids, sent, b, out)
      modifies this`out
      ensures out == Stream(derive, p, ids, max)
    {
      hide Permutes, Cached, Stream;
      ghost var written := out;
      CachedStream(derive, p, ids, sent, b, out);
      for i := sent to max
        invariant out == Stream(derive, p, ids, i)
      {
        InCache(derive, p, ids, sent, b, written, i);
        StreamNext(derive, p, ids, i);
        out := out + [b[p(i)]];
      }
    }

    /** A point is written or cached. */
    method Take(id: Identifier)
      requires taken == |ids| < max && Cached(derive, p, ids, sent, b, out)
      modifies this
      ensures taken == |ids| && ids == old(ids) + [id] && Cached(derive, p, ids, sent, b, out)
    {
      hide Cached, Stream;
      var point := derive(id);
      var next := p(sent);
      if next == taken {
        WriteStep(derive, p, ids, sent, b, out, id);
        out := out + [point];
        sent := sent + 1;
      } else {
        CacheStep(derive, p, ids, sent, b, out, id);
        b := b[taken := point];
      }
      ids := ids + [id];
      taken := taken + 1;
    }

    /** Shuffle: a point whose turn it is is written, any other cached; the last identifier empties
        the cache. */
    method Shuffle(id: Identifier) returns (status: Status)
      requires Valid()
      modifies this
      ensures Valid()
      ensures status.Accepted? <==> |old(ids)| < max
      ensures status.Accepted? ==> ids == old(ids) + [id]
      ensures status.ErrUnexpectedPoint? ==> ids == old(ids) && out == old(out)
    {
      if taken == max {
        return ErrUnexpectedPoint;
      }
      hide Cached, Permutes, Stream;
      Take(id);
      if taken == max {
        Flush();
      }
      return Accepted;
    }
  }

  /** All identifiers through the sequential shuffler. */
  method ShuffleAll(ids: seq<Identifier>, derive: Identifier -> Point, p: nat -> nat) returns (out: seq<Point>)
    requires Permutes(p, |ids|)
    ensures out == Stream(derive, p, ids, |ids|)
  {
    var enc := new DeriveMultiplyShuffler(|ids|, derive, p);
    hide Permutes, Cached, Stream, DeriveMultiplyShuffler.Valid;
    for i := 0 to |ids|
      invariant fresh(enc) && enc.Valid()
      invariant enc.ids == ids[..i]
    {
      assert ids[..i + 1] == ids[..i] + [ids[i]];
      var status := enc.Shuffle(ids[i]);
    }
    assert ids[..|ids|] == ids;
    enc.Complete();
    out := enc.out;
  }

  // ----- the parallel shuffler

  const BATCH: nat := 512

  function Min(a: nat, b: nat): nat {
    if a < b then a else b
  }

  /** dmBatch: room for the identifiers from `start` on. */
  datatype Batch = Batch(start: nat, batch: seq<Identifier>)

  function MakeBatch(start: nat, size: nat): Batch {
    Batch(start, seq(size, _ => []))
  }

  /** A batch on its way through a worker, with the number of points written. */
  datatype Job = Job(start: nat, batch: seq<Identifier>, done: nat)

  ghost predicate JobOk(ids: seq<Identifier>, n: nat, j: Job) {
    && j.start + |j.batch| <= n <= |ids|
    && j.done <= |j.batch|
    && j.batch == ids[j.start..j.start + |j.batch|]
  }

  /** A job still has to write point i. */
  ghost predicate Waiting(jobs: seq<Job>, i: nat) {
    exists k: nat :: k < |jobs| && jobs[k].start + jobs[k].done <= i < jobs[k].start + |jobs[k].batch|
  }

  /** The points of the first n identifiers are there, except those a job still has to write. */
  ghost predicate Processed(derive: Identifier -> Point, ids: seq<Identifier>, n: nat, jobs: seq<Job>,
                            points: seq<Point>) {
    && n <= |ids| && n <= |points|
    && (forall k: nat :: k < |jobs| ==> JobOk(ids, n, jobs[k]))
    && forall i: nat :: i < n ==> Waiting(jobs, i) || points[i] == derive(ids[i])
  }

  /** A worker writes its next point. */
  lemma WorkerWrites(derive: Identifier -> Point, ids: seq<Identifier>, n: nat, jobs: seq<Job>, points: seq<Point>,
                     k: nat)
    requires Processed(derive, ids, n, jobs, points) && k < |jobs| && jobs[k].done < |jobs[k].batch|
    ensures var j := jobs[k];
      && j.start + j.done < |points|
      && Processed(derive, ids, n, jobs[k := j.(done := j.done + 1)],
                   points[j.start + j.done := derive(j.batch[j.done])])
  {
    var j := jobs[k];
    assert JobOk(ids, n, j);
    var jobs' := jobs[k := j.(done := j.done + 1)];
    var points' := points[j.start + j.done := derive(j.batch[j.done])];
    forall i: nat | i < n
      ensures Waiting(jobs', i) || points'[i] == derive(ids[i])
    {
      if i != j.start + j.done && Waiting(jobs, i) {
        var k': nat :| k' < |jobs| && jobs[k'].start + jobs[k'].done <= i < jobs[k'].start + |jobs[k'].batch|;
        assert jobs'[k'].start + jobs'[k'].done <= i < jobs'[k'].start + |jobs'[k'].batch|;
      }
    }
  }

  /** A worker is done with its batch. */
  lemma WorkerDone(derive: Identifier -> Point, ids: seq<Identifier>, n: nat, jobs: seq<Job>, points: seq<Point>,
                   k: nat)
    requires Processed(derive, ids, n, jobs, points) && k < |jobs| && jobs[k].done == |jobs[k].batch|
    ensures Processed(derive, ids, n, jobs[..k] + jobs[k + 1..], points)
  {
    var jobs' := jobs[..k] + jobs[k + 1..];
    forall i: nat | i < n
      ensures Waiting(jobs', i) || points[i] == derive(ids[i])
    {
      if Waiting(jobs, i) {
        var k': nat :| k' < |jobs| && jobs[k'].start + jobs[k'].done <= i < jobs[k'].start + |jobs[k'].batch|;
        var k'': nat := if k' < k then k' else k' - 1;
        assert jobs'[k''] == jobs[k'];
      }
    }
  }

  /** A full batch goes to a worker. */
  lemma Dispatch(derive: Identifier -> Point, ids: seq<Identifier>, n: nat, jobs: seq<Job>, points: seq<Point>,
                 batch: seq<Identifier>)
    requires Processed(derive, ids, n, jobs, points) && n + |batch| <= |ids| && n + |batch| <= |points|
    requires batch == ids[n..n + |batch|]
    ensures Processed(derive, ids, n + |batch|, jobs + [Job(n, batch, 0)], points)
  {
    var jobs' := jobs + [Job(n, batch, 0)];
    forall i: nat | i < n + |batch|
      ensures Waiting(jobs', i) || points[i] == derive(ids[i])
    {
      if i >= n {
        assert jobs'[|jobs|] == Job(n, batch, 0);
      } else if Waiting(jobs, i) {
        var k: nat :| k < |jobs| && jobs[k].start + jobs[k].done <= i < jobs[k].start + |jobs[k].batch|;
        assert jobs'[k] == jobs[k];
      }
    }
    assert forall k: nat :: k < |jobs| ==> JobOk(ids, n, jobs[k]);
  }

  lemma OneMore(derive: Identifier -> Point, ids: seq<Identifier>, n: nat, jobs: seq<Job>, points: seq<Point>,
                id: Identifier)
    requires Processed(derive, ids, n, jobs, points)
    ensures Processed(derive, ids + [id], n, jobs, points)
  {
    assert forall k: nat :: k < |jobs| ==> JobOk(ids, n, jobs[k]);
  }

  /** The batch being filled, with the last of the identifiers in front. */
  ghost predicate BatchOk(ids: seq<Identifier>, max: nat, b: Batch) {
    && b.start <= |ids| < b.start + |b.batch| <= max
    && |b.batch| == Min(BATCH, max - b.start) && b.start % BATCH == 0
    && b.batch[..|ids| - b.start] == ids[b.start..]
  }

  /** Where the next identifier goes; when that is the last place, the batch is complete, and the
      next one starts behind it. */
  lemma NextPlace(ids: seq<Identifier>, max: nat, b: Batch, id: Identifier)
    requires BatchOk(ids, max, b)
    ensures var next := |ids| % BATCH;
      var b' := b.(batch := if next < |b.batch| then b.batch[next := id] else b.batch);
      && next < |b.batch|
      && (next < |b.batch| - 1 ==> BatchOk(ids + [id], max, b'))
      && (next == |b.batch| - 1 ==>
           |ids| + 1 == b.start + |b.batch| && b'.batch == (ids + [id])[b.start..b.start + |b.batch|])
      && (next == |b.batch| - 1 && |ids| + 1 < max ==>
            BatchOk(ids + [id], max, MakeBatch(|ids| + 1, Min(BATCH, max - |ids| - 1))))
      && (next < |b.batch| - 1 ==> |ids| + 1 < max)
  {
    var next := |ids| % BATCH;
    assert next == |ids| - b.start;
    var b' := b.batch[next := id];
    assert b'[..next + 1] == b.batch[..next] + [id];
    assert (ids + [id])[b.start..] == ids[b.start..] + [id];
    if next == |b.batch| - 1 {
      assert b'[..next + 1] == b';
      assert (ids + [id])[b.start..|ids| + 1] == (ids + [id])[b.start..];
    }
  }

  ghost function PointsLeft(jobs: seq<Job>): seq<nat> {
    seq(|jobs|, k requires 0 <= k < |jobs| =>
      if jobs[k].done < |jobs[k].batch| then |jobs[k].batch| - jobs[k].done else 0)
  }

  class DeriveMultiplyParallelShuffler {
    const max: nat
    const derive: Identifier -> Point
    const p: nat -> nat
    const points: array<Point>
    var taken: nat
    var b: Batch
    var wg: nat
    var jobs: seq<Job>
    var out: seq<Point>
    ghost var ids: seq<Identifier>

    /** The identifiers that have gone to workers. */
    ghost function Dispatched(): nat
      reads this
    {
      if taken < max then b.start else taken
    }

    ghost predicate Valid()
      reads this, points
    {
      && Inside(p, max) && points.Length == max
      && taken == |ids| <= max
      && (taken < max ==> BatchOk(ids, max, b))
      && Processed(derive, ids, Dispatched(), jobs, points[..])
      && wg == |jobs| + (if taken < max || max == 0 then 1 else 0)
      && out == (if taken < max then [] else Stream(derive, p, ids, max))
    }

    constructor (max: nat, derive: Identifier -> Point, p: nat -> nat)
      requires Inside(p, max)
      ensures Valid() && fresh(points) && this.max == max && this.derive == derive && this.p == p && ids == []
    {
      this.max, this.derive, this.p := max, derive, p;
      points := new Point[max](_ => []);
      b := MakeBatch(0, Min(BATCH, max));
      taken, wg, jobs, out, ids := 0, 1, [], [], [];
    }

    /** One step of the worker with job k: a point, or the end of the batch. */
    method WorkerStep(k: nat)
      requires k < |jobs| && Processed(derive, ids, Dispatched(), jobs, points[..]) && wg >= |jobs|
      modifies points, this`jobs, this`wg
      ensures Processed(derive, ids, Dispatched(), jobs, points[..])
      ensures wg >= |jobs| && wg - |jobs| == old(wg - |jobs|)
      ensures |jobs| < old(|jobs|) || (|jobs| == old(|jobs|) && Sum(PointsLeft(jobs)) < old(Sum(PointsLeft(jobs))))
    {
      hide Processed, Sum;
      var j := jobs[k];
      JobInside(derive, ids, Dispatched(), jobs, points[..], k);
      if j.done < |j.batch| {
        WorkerWrites(derive, ids, Dispatched(), jobs, points[..], k);
        points[j.start + j.done] := derive(j.batch[j.done]);
        jobs := jobs[k := j.(done := j.done + 1)];
        SumUpdate(PointsLeft(old(jobs)), PointsLeft(jobs), k);
        assert points[..] == old(points[..])[j.start + j.done := derive(j.batch[j.done])];
      } else {
        WorkerDone(derive, ids, Dispatched(), jobs, points[..], k);
        jobs := jobs[..k] + jobs[k + 1..];
        wg := wg - 1;
      }
    }

    /** Any number of steps of any workers. */
    method WorkersRun()
      requires Processed(derive, ids, Dispatched(), jobs, points[..]) && wg >= |jobs|
      modifies points, this`jobs, this`wg
      ensures Processed(derive, ids, Dispatched(), jobs, points[..])
      ensures wg >= |jobs| && wg - |jobs| == old(wg - |jobs|)
    {
      hide Processed, Sum;
      var on: bool := *;
      while on && jobs != []
        invariant Processed(derive, ids, Dispatched(), jobs, points[..])
        invariant wg >= |jobs| && wg - |jobs| == old(wg - |jobs|)
        decreases |jobs|, Sum(PointsLeft(jobs))
      {
        var k: nat :| k < |jobs|;
        WorkerStep(k);
        on := *;
      }
    }

    /** wg.Wait: the counter reaches zero when all jobs are done, and not before. */
    method WaitForJobs()
      requires taken == max && Processed(derive, ids, max, jobs, points[..]) && wg == |jobs|
      modifies points, this`jobs, this`wg
      ensures Processed(derive, ids, max, [], points[..]) && wg == 0 && jobs == []
    {
      hide Sum, Processed;
      while wg != 0
        invariant Processed(derive, ids, max, jobs, points[..]) && wg == |jobs|
        decreases |jobs|, Sum(PointsLeft(jobs))
      {
        var k: nat :| k < |jobs|;
        WorkerStep(k);
      }
    }

    /** The points are written in the order of the permutation. */
    method WriteAll()
      requires max == |ids| && points.Length == max && Inside(p, max)
      requires Processed(derive, ids, max, [], points[..]) && out == []
      modifies this`out
      ensures out == Stream(derive, p, ids, max)
    {
      hide Processed, Stream;
      AllProcessed(derive, ids, points[..]);
      StreamStart(derive, p, ids);
      for i := 0 to max
        invariant out == Stream(derive, p, ids, i)
      {
        StreamNext(derive, p, ids, i);
        assert points[..][p(i)] == points[p(i)];
        out := out + [points[p(i)]];
      }
    }

    /** wg.Wait and the writing. */
    method Flush()
      requires taken == max == |ids| && points.Length == max && Inside(p, max)
      requires Processed(derive, ids, max, jobs, points[..]) && wg == |jobs| && out == []
      modifies points, this`jobs, this`wg, this`out
      ensures Processed(derive, ids, max, jobs, points[..]) && wg == 0 && jobs == []
      ensures out == Stream(derive, p, ids, max)
    {
      hide Processed, Stream;
      WaitForJobs();
      WriteAll();
    }

    /** An identifier enters the batch, and a full batch goes to a worker. */
    method Add(id: Identifier)
      requires taken == |ids| < max == points.Length && BatchOk(ids, max, b)
      requires Processed(derive, ids, b.start, jobs, points[..]) && wg == |jobs| + 1
      modifies this`b, this`ids, this`taken, this`jobs, this`wg
      ensures taken == |ids| <= max && ids == old(ids) + [id]
      ensures taken < max ==> BatchOk(ids, max, b)
      ensures Processed(derive, ids, Dispatched(), jobs, points[..])
      ensures wg == |jobs| + if taken < max then 1 else 0
    {
      hide Processed, BatchOk;
      NextPlace(ids, max, b, id);
      OneMore(derive, ids, b.start, jobs, points[..], id);
      var next := taken % BATCH;
      b := b.(batch := b.batch[next := id]);
      ids := ids + [id];
      taken := taken + 1;
      if next == |b.batch| - 1 {
        Dispatch(derive, ids, b.start, jobs, points[..], b.batch);
        jobs := jobs + [Job(b.start, b.batch, 0)];
        var s := Min(BATCH, max - taken);
        if s != 0 {
          b := MakeBatch(taken, s);
          wg := wg + 1;
        }
      }
    }

    /** Shuffle, with workers running before and after. */
    method Shuffle(id: Identifier) returns (status: Status)
      requires Valid()
      modifies this, points
      ensures Valid()
      ensures status.Accepted? <==> |old(ids)| < max
      ensures status.Accepted? ==> ids == old(ids) + [id]
      ensures status.ErrUnexpectedPoint? ==> ids == old(ids) && out == old(out)
    {
      hide Processed, Stream, Inside, BatchOk;
      WorkersRun();
      if taken == max {
        return ErrUnexpectedPoint;
      }
      Add(id);
      WorkersRun();
      if taken == max {
        Flush();
      }
      return Accepted;
    }

    lemma Complete()
      requires Valid() && |ids| == max
      ensures Inside(p, max) && out == Stream(derive, p, ids, max)
    {
    }
  }

  lemma AllProcessed(derive: Identifier -> Point, ids: seq<Identifier>, points: seq<Point>)
    requires Processed(derive, ids, |ids|, [], points) && |points| == |ids|
    ensures forall i: nat :: i < |ids| ==> points[i] == derive(ids[i])
  {
    forall i: nat | i < |ids|
      ensures points[i] == derive(ids[i])
    {
      assert !Waiting([], i);
    }
  }

  lemma StreamStart(derive: Identifier -> Point, p: nat -> nat, ids: seq<Identifier>)
    ensures Stream(derive, p, ids, 0) == []
  {
  }

  lemma JobInside(derive: Identifier -> Point, ids: seq<Identifier>, n: nat, jobs: seq<Job>, points: seq<Point>, k: nat)
    requires Processed(derive, ids, n, jobs, points) && k < |jobs|
    ensures jobs[k].done <= |jobs[k].batch| && jobs[k].start + |jobs[k].batch| <= |points|
  {
    assert JobOk(ids, n, jobs[k]);
  }

  /** All identifiers through the parallel shuffler, for every schedule of the workers: what is
      written is what the sequential shuffler writes. */
  method ParallelShuffleAll(ids: seq<Identifier>, derive: Identifier -> Point, p: nat -> nat) returns (out: seq<Point>)
    requires Inside(p, |ids|)
    ensures out == Stream(derive, p, ids, |ids|)
  {
    hide Inside, Processed, Stream, DeriveMultiplyParallelShuffler.Valid;
    var enc := new DeriveMultiplyParallelShuffler(|ids|, derive, p);
    for i := 0 to |ids|
      invariant fresh(enc) && fresh(enc.points) && enc.Valid()
      invariant enc.ids == ids[..i]
    {
      assert ids[..i + 1] == ids[..i] + [ids[i]];
      var status := enc.Shuffle(ids[i]);
    }
    assert ids[..|ids|] == ids;
    enc.Complete();
    out := enc.out;
  }
}
