/** The protocol of pkg/dhpsi from end to end. The receiver's stages 2.1 and 2.2, the sender's stage 2
    and the loop that joins them run in any order. */
module Dhpsi {
  import opened Sequences
  import opened UintBits
  import opened CycleWalk
  import opened Kensler
  import opened DhpsiShufflers
  import opened DhpsiReader

  /** The points that come back to the receiver, in order. */
  ghost function Returned(derive: Identifier -> Point, reply: Point -> Point, p: nat -> nat, ids: seq<Identifier>)
    : (r: seq<Point>)
    requires Inside(p, |ids|)
    ensures |r| == |ids|
    ensures forall k: nat :: k < |r| ==> r[k] == reply(derive(ids[p(k)]))
  {
    Mapped(reply, Stream(derive, p, ids, |ids|))
  }

  // ----- the matches

  /** Point k is remote, and the first of its like. */
  ghost predicate IsMatch(remote: set<Point>, all: seq<Point>, k: nat) {
    k < |all| && all[k] in remote && forall k': nat :: k' < k ==> all[k'] != all[k]
  }

  /** Of the first i points, those at `hits` matched, and their like is no longer in `left`. */
  ghost predicate MatchesOk(remote: set<Point>, all: seq<Point>, i: nat, left: set<Point>, hits: seq<nat>) {
    && i <= |all|
    && (forall q :: q in left <==> q in remote && forall k: nat :: k < i ==> all[k] != q)
    && (forall k: nat :: k in hits <==> k < i && IsMatch(remote, all, k))
    && (forall a: nat :: a < |hits| ==> hits[a] < i && hits[a] in hits)
    && forall a: nat, b: nat :: a < b < |hits| ==> hits[a] < hits[b]
  }

  lemma MatchStep(remote: set<Point>, all: seq<Point>, i: nat, left: set<Point>, hits: seq<nat>)
    requires MatchesOk(remote, all, i, left, hits) && i < |all|
    ensures all[i] in left ==> MatchesOk(remote, all, i + 1, left - {all[i]}, hits + [i])
    ensures all[i] !in left ==> MatchesOk(remote, all, i + 1, left, hits)
  {
    assert all[i] in left <==> IsMatch(remote, all, i);
    assert forall a: nat :: a < |hits| ==> hits[a] in hits;
  }

  /** The identifiers of the matches. */
  ghost function IdsOf(p: nat -> nat, ids: seq<Identifier>, hits: seq<nat>): (r: seq<Identifier>)
    requires Inside(p, |ids|) && forall a: nat :: a < |hits| ==> hits[a] < |ids|
    ensures |r| == |hits|
    ensures forall a: nat :: a < |r| ==> r[a] == ids[p(hits[a])]
  {
    seq(|hits|, a requires 0 <= a < |hits| => IdAt(p, ids, hits[a]))
  }

  ghost function IdAt(p: nat -> nat, ids: seq<Identifier>, k: nat): Identifier
    requires Inside(p, |ids|)
  {
    if k < |ids| then ids[p(k)] else []
  }

  lemma PrefixOfPrefix<T>(s: seq<T>, t: seq<T>, all: seq<T>, n: nat)
    requires n <= |s| <= |t| <= |all| && s == all[..|s|] && t == all[..|t|]
    ensures s[..n] == t[..n]
  {
  }

  // ----- stage 2 of the sender

  /** The sender reads the receiver's points with a parallel reader and writes them back. */
  class Replier {
    const mult: Point -> Point
    const parallelism: nat
    var fill: Fill?                          // null until the points come
    var written: seq<Point>

    ghost predicate Valid()
      reads this, fill
    {
      && parallelism > 0
      && (fill == null ==> written == [])
      && (fill != null ==>
            && fill.Valid() && fill.mult == mult
            && |written| <= |fill.c| && written == fill.c[..|written|])
    }

    constructor (mult: Point -> Point, parallelism: nat)
      requires parallelism > 0
      ensures Valid() && this.mult == mult && this.parallelism == parallelism && fill == null
    {
      this.mult, this.parallelism, fill, written := mult, parallelism, null, [];
    }

    /** A bound on the steps left for n points. */
    ghost function StepsLeft(n: nat): int
      requires Valid()
      reads this, fill
    {
      (n - |written|) + if fill == null then 4 * TotalBatches(n) + 2 else fill.StepsLeft()
    }

    /** The points come. */
    method Open(points: seq<Point>)
      requires Valid() && fill == null
      modifies this`fill
      ensures Valid() && fresh(fill) && fill.input == points && StepsLeft(|points|) < old(StepsLeft(|points|))
    {
      hide Fill.Valid, Fill.StepsLeft, TotalBatches;
      fill := new Fill(points, mult, parallelism);
    }

    /** A step of a goroutine of the reader. */
    method Work(g: nat)
      requires Valid() && fill != null && fill.Enabled(g)
      modifies fill
      ensures Valid() && forall n: nat :: StepsLeft(n) < old(StepsLeft(n))
    {
      hide Fill.Valid, Fill.StepsLeft, Fill.Enabled, Mapped;
      ghost var c := fill.c;
      fill.GivenOut();
      fill.Step(g);
      fill.GivenOut();
      PrefixOfPrefix(c, fill.c, Mapped(mult, fill.input), |written|);
    }

    /** The next point is written back. */
    method Write()
      requires Valid() && fill != null && |written| < |fill.c|
      modifies this`written
      ensures Valid() && written == old(written) + [fill.c[old(|written|)]]
      ensures forall n: nat :: StepsLeft(n) < old(StepsLeft(n))
    {
      hide Fill.Valid, Fill.StepsLeft;
      written := written + [fill.c[|written|]];
    }

    /** What is written are the first points, multiplied. */
    lemma Written()
      requires Valid() && fill != null
      ensures |written| <= |fill.input| && written == Mapped(mult, fill.input)[..|written|]
    {
      fill.GivenOut();
    }

    /** Until all points are written back, the sender can go on. */
    lemma Progress()
      requires Valid() && fill != null && |written| < |fill.input|
      ensures |written| < |fill.c| || exists g: nat :: g <= |fill.ws| + 1 && fill.Enabled(g)
    {
      GivenAll(mult, fill.input);
      hide Mapped, WorkersOk, CountdownOk, DrainOk, Given;
      if !fill.finished {
        fill.Progress();
      }
    }
  }

  // ----- the receiver

  class Receiver {
    const ids: seq<Identifier>
    const derive: Identifier -> Point
    const reply: Point -> Point              // what the sender does to a point
    const p: nat -> nat
    const localIDs: array<Identifier>
    const enc: DeriveMultiplyParallelShuffler
    const sender: Replier
    ghost const remote: set<Point>
    var remoteIDs: set<Point>
    var intersection: seq<Identifier>
    var saved: nat                           // identifiers sent on receiverIDs
    var finished21: bool
    var i: nat
    var waiting: bool                        // stage 2.2 is about to send i on matchedIDs
    var finished22: bool
    var errs: nat                            // stages that have reported and are not yet counted
    var done: nat
    ghost var hits: seq<nat>

    ghost predicate Shape()
      reads this, enc, enc.points
    {
      && enc.Valid() && enc.max == |ids| == localIDs.Length && enc.derive == derive && enc.p == p
      && Inside(p, |ids|)
      && localIDs != enc.points
    }

    /** What comes back. */
    ghost function All(): seq<Point>
      requires Inside(p, |ids|)
    {
      Returned(derive, reply, p, ids)
    }

    ghost predicate Valid()
      reads this, localIDs, enc, enc.points, sender, sender.fill
    {
      && Shape()
      && sender.Valid() && sender.mult == reply
      && (sender.fill != null ==> |enc.ids| == |ids| && sender.fill.input == enc.out)
      && |enc.ids| <= saved <= |enc.ids| + 1 && saved <= |ids|
      && enc.ids == ids[..|enc.ids|] && localIDs[..saved] == ids[..saved]
      && i <= |sender.written| && (waiting ==> i < |sender.written| && sender.written[i] in remoteIDs)
      && MatchesOk(remote, All(), i, remoteIDs, hits)
      && intersection == IdsOf(p, ids, hits)
      && (finished21 ==> |enc.ids| == |ids|)
      && (finished22 ==> i == |ids| && !waiting)
      && done == errs + (if finished21 then 0 else 1) + (if finished22 then 0 else 1)
    }

    constructor (ids: seq<Identifier>, derive: Identifier -> Point, reply: Point -> Point, p: nat -> nat,
                 remoteIDs: set<Point>, parallelism: nat)
      requires Inside(p, |ids|) && parallelism > 0
      ensures Valid() && fresh(localIDs) && fresh(enc) && fresh(enc.points) && fresh(sender) && sender.fill == null
      ensures this.ids == ids && this.derive == derive && this.reply == reply && this.p == p && this.remote == remoteIDs
    {
      this.ids, this.derive, this.reply, this.p, this.remote := ids, derive, reply, p, remoteIDs;
      this.remoteIDs, intersection, hits := remoteIDs, [], [];
      localIDs := new Identifier[|ids|](_ => []);
      enc := new DeriveMultiplyParallelShuffler(|ids|, derive, p);
      sender := new Replier(reply, parallelism);
      saved, finished21, i, waiting, finished22, errs, done := 0, false, 0, false, false, 0, 2;
    }

    /** Stage 2.1 sends an identifier on receiverIDs, and the loop stores it. */
    method SaveNext()
      requires Valid() && saved == |enc.ids| < |ids|
      modifies this`saved, localIDs
      ensures Valid() && saved == old(saved) + 1
    {
      hide MatchesOk, Returned, IdsOf, Inside, DeriveMultiplyParallelShuffler.Valid;
      assert enc.Valid();
      localIDs[saved] := ids[saved];
      saved := saved + 1;
    }

    /** Stage 2.1 shuffles the identifier it has just sent. */
    method ShuffleNext()
      requires Valid() && saved == |enc.ids| + 1
      modifies enc, enc.points
      ensures Valid() && |enc.ids| == saved
    {
      hide MatchesOk, Returned, IdsOf, Inside, DeriveMultiplyParallelShuffler.Valid;
      NothingOutYet();
      ghost var before := |enc.ids|;
      var status := enc.Shuffle(ids[saved - 1]);
      assert ids[..before + 1] == ids[..before] + [ids[before]];
    }

    lemma NothingOutYet()
      requires enc.Valid()
      ensures |enc.ids| < enc.max ==> enc.out == []
      ensures |enc.ids| == enc.max ==> Inside(enc.p, enc.max) && enc.out == Stream(enc.derive, enc.p, enc.ids, enc.max)
    {
    }

    /** Once a point has come back, all identifiers have been stored; and the points that come back
        are the expected ones. */
    lemma AllStored()
      requires Valid()
      ensures |All()| == |ids| && |sender.written| <= |ids|
      ensures forall k: nat :: k < |sender.written| ==> sender.written[k] == All()[k]
      ensures sender.written != [] ==> localIDs[..] == ids
    {
      hide MatchesOk, IdsOf, Inside, DeriveMultiplyParallelShuffler.Valid, Fill.Valid;
      assert enc.Valid();
      NothingOutYet();
      if sender.fill != null {
        sender.Written();
      }
      assert localIDs[..localIDs.Length] == localIDs[..] && ids[..|ids|] == ids;
    }

    method Finish21()
      requires Valid() && |enc.ids| == |ids| && !finished21
      modifies this`finished21, this`errs
      ensures Valid() && finished21 && errs == old(errs) + 1
    {
      hide MatchesOk, Returned, IdsOf, Inside, DeriveMultiplyParallelShuffler.Valid;
      finished21 := true;
      errs := errs + 1;
    }

    /** The points reach the sender. */
    method ArriveAtSender()
      requires Valid() && |enc.ids| == |ids| && sender.fill == null
      modifies sender`fill
      ensures Valid() && fresh(sender.fill) && StepsLeft() < old(StepsLeft())
    {
      hide MatchesOk, IdsOf, Inside, Returned, DeriveMultiplyParallelShuffler.Valid, Replier.Valid, Replier.StepsLeft;
      assert enc.Valid();
      NothingOutYet();
      assert sender.written == [] by {
        NothingWritten();
      }
      sender.Open(enc.out);
    }

    lemma NothingWritten()
      requires sender.Valid() && sender.fill == null
      ensures sender.written == []
    {
    }

    /** A step of a goroutine of the sender's reader. */
    method SenderWorks(g: nat)
      requires Valid() && sender.fill != null && sender.fill.Enabled(g)
      modifies sender.fill
      ensures Valid() && StepsLeft() < old(StepsLeft())
    {
      hide MatchesOk, IdsOf, Inside, Returned, DeriveMultiplyParallelShuffler.Valid, Replier.Valid, Replier.StepsLeft;
      sender.Work(g);
    }

    /** The sender writes back one point. */
    method SenderWrites()
      requires Valid() && sender.fill != null && |sender.written| < |sender.fill.c|
      modifies sender`written
      ensures Valid() && StepsLeft() < old(StepsLeft())
    {
      hide MatchesOk, IdsOf, Inside, Returned, DeriveMultiplyParallelShuffler.Valid, Replier.Valid, Replier.StepsLeft;
      sender.Write();
    }

    /** Stage 2.2 reads a point. */
    method ReadNext()
      requires Valid() && !waiting && i < |sender.written|
      modifies this`i, this`waiting
      ensures Valid()
      ensures (waiting && i == old(i)) || (!waiting && i == old(i) + 1)
    {
      hide MatchesOk, Returned, IdsOf, Inside, DeriveMultiplyParallelShuffler.Valid, Replier.Valid;
      AllStored();
      if sender.written[i] in remoteIDs {
        waiting := true;
      } else {
        ghost var all := All();
        assert all[i] == sender.written[i];
        MatchStep(remote, all, i, remoteIDs, hits);
        i := i + 1;
      }
    }

    /** Stage 2.2 sends a position on matchedIDs, and the loop looks up the identifier: by now all
        identifiers have been stored. */
    method MatchNext()
      requires Valid() && waiting
      modifies this`i, this`waiting, this`remoteIDs, this`intersection, this`hits
      ensures Valid() && !waiting && i == old(i) + 1
      ensures localIDs[..] == ids
      ensures intersection == old(intersection) + [ids[p(old(i))]]
    {
      hide MatchesOk, Returned, IdsOf, Inside, DeriveMultiplyParallelShuffler.Valid, Replier.Valid;
      AllStored();
      MatchStep(remote, All(), i, remoteIDs, hits);
      MatchNextId(p, ids, remote, All(), i, remoteIDs, hits);
      assert localIDs[..][p(i)] == localIDs[p(i)];
      intersection := intersection + [localIDs[p(i)]];
      hits := hits + [i];
      remoteIDs := remoteIDs - {sender.written[i]};
      waiting := false;
      i := i + 1;
    }

    method Finish22()
      requires Valid() && !waiting && i == |ids| && !finished22
      modifies this`finished22, this`errs
      ensures Valid() && finished22 && errs == old(errs) + 1
    {
      hide MatchesOk, Returned, IdsOf, Inside, DeriveMultiplyParallelShuffler.Valid;
      finished22 := true;
      errs := errs + 1;
    }

    /** The loop takes the report of a stage. */
    method CountDown()
      requires Valid() && errs > 0
      modifies this`errs, this`done
      ensures Valid() && errs == old(errs) - 1 && done == old(done) - 1
      ensures StepsLeft() < old(StepsLeft())
    {
      hide MatchesOk, Returned, IdsOf, Inside, DeriveMultiplyParallelShuffler.Valid, Replier.Valid, Replier.StepsLeft;
      errs := errs - 1;
      done := done - 1;
    }

    /** What can go on: stage 2.1 (0), the sender that gets the points (1), its reader (2) and its
        writer (3), stage 2.2 (4) and the count of reports (5). */
    predicate Enabled(g: nat)
      requires enc.taken == |enc.ids|
      reads this, enc, sender, sender.fill
    {
      match g
      case 0 => !finished21
      case 1 => sender.fill == null && enc.taken == |ids|
      case 2 => sender.fill != null && exists w: nat :: w <= |sender.fill.ws| + 1 && sender.fill.Enabled(w)
      case 3 => sender.fill != null && |sender.written| < |sender.fill.c|
      case 4 => !finished22 && (waiting || i < |sender.written| || i == |ids|)
      case 5 => errs > 0
      case _ => false
    }

    lemma TakenAll()
      requires enc.Valid()
      ensures enc.taken == |enc.ids|
    {
    }

    /** No deadlock: until both stages have reported, something can go on. */
    lemma Progress()
      requires Valid() && done != 0
      ensures enc.taken == |enc.ids| && exists g: nat :: g < 6 && Enabled(g)
    {
      hide MatchesOk, IdsOf, Inside, Returned, Fill.Enabled, Fill.Valid, DeriveMultiplyParallelShuffler.Valid;
      assert enc.Valid();
      TakenAll();
      NothingOutYet();
      AllStored();
      if !finished21 {
        assert Enabled(0);
      } else if sender.fill == null {
        assert Enabled(1);
      } else if |sender.written| < |ids| {
        sender.Progress();
        if |sender.written| < |sender.fill.c| {
          assert Enabled(3);
        } else {
          assert Enabled(2);
        }
      } else if !finished22 {
        assert Enabled(4);
      } else {
        assert Enabled(5);
      }
    }

    ghost function StepsLeft(): int
      requires sender.Valid()
      reads this, enc, sender, sender.fill
    {
      (|ids| - saved) + (|ids| - |enc.ids|) + sender.StepsLeft(|ids|) + 2 * (|ids| - i)
      - (if waiting then 1 else 0) + (if finished21 then 0 else 1) + (if finished22 then 0 else 1) + done
    }

    lemma StepsBounded()
      requires Valid()
      ensures StepsLeft() >= 0
    {
      hide MatchesOk, IdsOf, Inside, Returned, Fill.Valid;
      AllStored();
    }

    method Stage21()
      requires Valid() && enc.taken == |enc.ids| && !finished21
      modifies this`saved, this`finished21, this`errs, localIDs, enc, enc.points
      ensures Valid() && StepsLeft() < old(StepsLeft())
    {
      hide MatchesOk, IdsOf, Inside, Returned, DeriveMultiplyParallelShuffler.Valid;
      if saved == |ids| && enc.taken == |ids| {
        Finish21();
      } else if saved == enc.taken {
        SaveNext();
      } else {
        ShuffleNext();
      }
    }

    method Stage22()
      requires Valid() && !finished22 && (waiting || i < |sender.written| || i == |ids|)
      modifies this`i, this`waiting, this`remoteIDs, this`intersection, this`hits, this`finished22, this`errs
      ensures Valid() && StepsLeft() < old(StepsLeft())
    {
      hide MatchesOk, IdsOf, Inside, Returned, DeriveMultiplyParallelShuffler.Valid;
      AllStored();
      if waiting {
        MatchNext();
      } else if i < |ids| {
        ReadNext();
      } else {
        Finish22();
      }
    }

    method Step(g: nat)
      requires Valid() && enc.taken == |enc.ids| && Enabled(g)
      modifies this, localIDs, enc, enc.points, sender, sender.fill
      ensures Valid() && StepsLeft() < old(StepsLeft())
      ensures sender.fill == old(sender.fill) || fresh(sender.fill)
    {
      hide Valid, StepsLeft, Fill.Enabled;
      match g {
        case 0 => Stage21();
        case 1 => ArriveAtSender();
        case 2 =>
          var w: nat :| w <= |sender.fill.ws| + 1 && sender.fill.Enabled(w);
          SenderWorks(w);
        case 3 => SenderWrites();
        case 4 => Stage22();
        case _ => CountDown();
      }
    }

    /** The loop of Intersect, until done is zero. No match is left over. */
    method Join()
      requires Valid() && sender.fill == null
      modifies this, localIDs, enc, enc.points, sender
      ensures Valid() && i == |ids| && !waiting
    {
      while done != 0
        invariant Valid() && (sender.fill == null || fresh(sender.fill))
        decreases StepsLeft()
      {
        hide Valid, Enabled, StepsLeft;
        Progress();
        StepsBounded();
        var g: nat :| g < 6 && Enabled(g);
        Step(g);
      }
    }
  }

  lemma MatchNextId(p: nat -> nat, ids: seq<Identifier>, remote: set<Point>, all: seq<Point>, i: nat,
                    left: set<Point>, hits: seq<nat>)
    requires Inside(p, |ids|) && |all| == |ids| && i < |ids| && MatchesOk(remote, all, i, left, hits)
    ensures forall a: nat :: a < |hits| ==> hits[a] < |ids|
    ensures p(i) < |ids| && IdsOf(p, ids, hits + [i]) == IdsOf(p, ids, hits) + [ids[p(i)]]
  {
  }

  // ----- the result

  lemma {:induction false} FirstOfLike(all: seq<Point>, k: nat) returns (first: nat)
    requires k < |all|
    ensures first <= k && all[first] == all[k] && forall k': nat :: k' < first ==> all[k'] != all[first]
  {
    if k': nat :| k' < k && all[k'] == all[k] {
      first := FirstOfLike(all, k');
    } else {
      first := k;
    }
  }

  /** No identifier is twice among the matches. */
  lemma MatchesDiffer(derive: Identifier -> Point, reply: Point -> Point, p: nat -> nat, ids: seq<Identifier>,
                      remote: set<Point>, left: set<Point>, hits: seq<nat>)
    requires Inside(p, |ids|) && MatchesOk(remote, Returned(derive, reply, p, ids), |ids|, left, hits)
    ensures NoDuplicates(IdsOf(p, ids, hits))
  {
    var all, result := Returned(derive, reply, p, ids), IdsOf(p, ids, hits);
    forall a: nat, b: nat | a < b < |hits|
      ensures result[a] != result[b]
    {
      assert IsMatch(remote, all, hits[b]);
      assert all[hits[a]] != all[hits[b]];
    }
  }

  /** The identifiers that a shuffler with the order p sends. */
  ghost function Drawn(p: nat -> nat, ids: seq<Identifier>): (r: seq<Identifier>)
    requires Inside(p, |ids|)
    ensures |r| == |ids| && forall k: nat :: k < |r| ==> r[k] == ids[p(k)]
  {
    seq(|ids|, k requires 0 <= k < |ids| => IdAt(p, ids, k))
  }

  /** A match is an identifier that was sent and comes back as a remote point. */
  lemma MatchIsRemote(derive: Identifier -> Point, reply: Point -> Point, p: nat -> nat, ids: seq<Identifier>,
                      remote: set<Point>, left: set<Point>, hits: seq<nat>, y: Identifier)
    requires Inside(p, |ids|) && MatchesOk(remote, Returned(derive, reply, p, ids), |ids|, left, hits)
    requires y in IdsOf(p, ids, hits)
    ensures y in Drawn(p, ids) && reply(derive(y)) in remote
  {
    var all, result := Returned(derive, reply, p, ids), IdsOf(p, ids, hits);
    var a: nat :| a < |result| && result[a] == y;
    assert IsMatch(remote, all, hits[a]);
    assert Drawn(p, ids)[hits[a]] == y;
  }

  /** Every identifier that was sent and comes back as a remote point is matched, or another one with
      the same point is. */
  lemma RemoteIsMatched(derive: Identifier -> Point, reply: Point -> Point, p: nat -> nat, ids: seq<Identifier>,
                        remote: set<Point>, left: set<Point>, hits: seq<nat>, y: Identifier) returns (y': Identifier)
    requires Inside(p, |ids|) && MatchesOk(remote, Returned(derive, reply, p, ids), |ids|, left, hits)
    requires y in Drawn(p, ids) && reply(derive(y)) in remote
    ensures y' in IdsOf(p, ids, hits) && reply(derive(y')) == reply(derive(y))
  {
    var all, result := Returned(derive, reply, p, ids), IdsOf(p, ids, hits);
    var k: nat :| k < |ids| && Drawn(p, ids)[k] == y;
    var first := FirstOfLike(all, k);
    assert IsMatch(remote, all, first);
    var a: nat :| a < |hits| && hits[a] == first;
    y' := result[a];
  }

  // ----- what a shuffler sends

  /** A permutation leaves no identifier out. */
  lemma DrawnIsAll(p: nat -> nat, ids: seq<Identifier>)
    requires Permutes(p, |ids|)
    ensures forall x :: x in Drawn(p, ids) <==> x in ids
  {
    forall x | x in ids
      ensures x in Drawn(p, ids)
    {
      var j: nat :| j < |ids| && ids[j] == x;
      var k := InjectionIsOnto(p, |ids|, j);
      assert Drawn(p, ids)[k] == x;
    }
  }

  lemma {:induction false} FewElements(s: seq<nat>)
    ensures |Elements(s)| <= |s|
  {
    if s != [] {
      var n := |s| - 1;
      FewElements(s[..n]);
      assert s == s[..n] + [s[n]];
      assert Elements(s) == Elements(s[..n]) + {s[n]};
    }
  }

  /** The values of p on [0, n) without that at b. */
  ghost function Others(p: nat -> nat, n: nat, b: nat): seq<nat> {
    if n == 0 then [] else Others(p, n - 1, b) + if n - 1 == b then [] else [p(n - 1)]
  }

  lemma {:induction false} OthersSize(p: nat -> nat, n: nat, b: nat)
    ensures |Others(p, n, b)| == if b < n then n - 1 else n
  {
    if n > 0 {
      OthersSize(p, n - 1, b);
    }
  }

  lemma {:induction false} InOthers(p: nat -> nat, n: nat, b: nat, k: nat)
    requires k < n && k != b
    ensures p(k) in Others(p, n, b)
  {
    if k < n - 1 {
      InOthers(p, n - 1, b, k);
    }
  }

  /** A function that takes one value twice leaves a value out. */
  lemma CollisionMisses(p: nat -> nat, n: nat, a: nat, b: nat) returns (j: nat)
    requires a < b < n && p(a) == p(b)
    ensures j < n && forall k: nat :: k < n ==> p(k) != j
  {
    hide Others;
    var values := Elements(Others(p, n, b));
    FewElements(Others(p, n, b));
    assert |Others(p, n, b)| == n - 1 by {
      OthersSize(p, n, b);
    }
    assert !(Below(n) <= values) by {
      if Below(n) <= values {
        SubsetCount(Below(n), values);
      }
    }
    j :| j in Below(n) && j !in values;
    forall k: nat | k < n
      ensures p(k) != j
    {
      InOthers(p, n, b, if k == b then a else k);
    }
  }

  /** Of distinct identifiers, none is left out if and only if the order is a permutation. */
  lemma DrawnIsAllIff(p: nat -> nat, ids: seq<Identifier>)
    requires Inside(p, |ids|) && NoDuplicates(ids)
    ensures (forall x :: x in ids ==> x in Drawn(p, ids)) <==> Permutes(p, |ids|)
  {
    if Permutes(p, |ids|) {
      DrawnIsAll(p, ids);
    } else {
      var a: nat, b: nat :| a < |ids| && b < |ids| && a != b && p(a) == p(b);
      var j := CollisionMisses(p, |ids|, if a < b then a else b, if a < b then b else a);
      assert ids[j] in ids && ids[j] !in Drawn(p, ids);
    }
  }

  /** The point under which both parties know an identifier. */
  ghost function Shared(derive: Identifier -> Point, mulS: Point -> Point, mulR: Point -> Point, x: Identifier): Point {
    mulR(mulS(derive(x)))
  }

  /** No identifier of Y shares its point with another identifier. */
  ghost predicate NoSharing(derive: Identifier -> Point, mulS: Point -> Point, mulR: Point -> Point,
                            X: seq<Identifier>, Y: seq<Identifier>) {
    forall x, y :: x in X + Y && y in Y && Shared(derive, mulS, mulR, x) == Shared(derive, mulS, mulR, y) ==> x == y
  }

  method IndexPoints(points: seq<Point>) returns (index: set<Point>)
    ensures forall q :: q in index <==> q in points
  {
    index := {};
    for k := 0 to |points|
      invariant forall q :: q in index <==> q in points[..k]
    {
      index := index + {points[k]};
      assert points[..k + 1] == points[..k] + [points[k]];
    }
    assert points[..|points|] == points;
  }

  lemma PointsOfAll(share: Identifier -> Point, X: seq<Identifier>, points: seq<Point>)
    requires |points| == |X| && forall k: nat :: k < |X| ==> points[k] == share(X[k])
    ensures forall x :: x in X ==> share(x) in points
    ensures forall q :: q in points ==> HasLike(share, X, q)
  {
    forall x | x in X
      ensures share(x) in points
    {
      var k: nat :| k < |X| && X[k] == x;
      assert points[k] == share(x);
    }
    forall q | q in points
      ensures HasLike(share, X, q)
    {
      var k: nat :| k < |points| && points[k] == q;
      assert X[k] in X;
    }
  }

  /** Stage 1 of both parties: the sender's points, shuffled in parallel, are read and multiplied in
      parallel and indexed. */
  method Stage1(X: seq<Identifier>, derive: Identifier -> Point, mulS: Point -> Point, mulR: Point -> Point,
                p: nat -> nat, parallelism: nat, ghost share: Identifier -> Point)
    returns (remoteIDs: set<Point>)
    requires Inside(p, |X|) && parallelism > 0
    requires forall x :: share(x) == Shared(derive, mulS, mulR, x)
    ensures IndexesValues(share, Drawn(p, X), remoteIDs)
  {
    var written := ParallelShuffleAll(X, x => mulS(derive(x)), p);
    var points := ReadAll(written, mulR, parallelism);
    remoteIDs := IndexPoints(points);
    PointsOfAll(share, Drawn(p, X), points);
  }

  /** Stages 2.1 and 2.2, joined; `share` is what comes back for an identifier. */
  method Stage2(Y: seq<Identifier>, encrypt: Identifier -> Point, reply: Point -> Point, p: nat -> nat,
                remoteIDs: set<Point>, parallelism: nat, ghost share: Identifier -> Point)
    returns (intersection: seq<Identifier>)
    requires Inside(p, |Y|) && parallelism > 0 && forall y :: reply(encrypt(y)) == share(y)
    ensures NoDuplicates(intersection)
    ensures Matched(share, Drawn(p, Y), remoteIDs, intersection)
  {
    hide MatchesOk, Returned, IdsOf, Inside, Drawn, Matched, NoDuplicates;
    var r := new Receiver(Y, encrypt, reply, p, remoteIDs, parallelism);
    r.Join();
    intersection := r.intersection;
    MatchesDiffer(encrypt, reply, p, Y, remoteIDs, r.remoteIDs, r.hits);
    MatchedIds(encrypt, reply, p, Y, remoteIDs, r.remoteIDs, r.hits, share);
  }

  lemma MatchedIds(encrypt: Identifier -> Point, reply: Point -> Point, p: nat -> nat, ids: seq<Identifier>,
                   remote: set<Point>, left: set<Point>, hits: seq<nat>, share: Identifier -> Point)
    requires Inside(p, |ids|) && MatchesOk(remote, Returned(encrypt, reply, p, ids), |ids|, left, hits)
    requires forall y :: reply(encrypt(y)) == share(y)
    ensures forall a: nat :: a < |hits| ==> hits[a] < |ids|
    ensures Matched(share, Drawn(p, ids), remote, IdsOf(p, ids, hits))
  {
    hide Returned, IdsOf, Inside, Drawn;
    var result := IdsOf(p, ids, hits);
    forall y | y in result
      ensures y in Drawn(p, ids) && share(y) in remote
    {
      MatchIsRemote(encrypt, reply, p, ids, remote, left, hits, y);
    }
    forall y | y in Drawn(p, ids) && share(y) in remote
      ensures HasLike(share, result, share(y))
    {
      var y' := RemoteIsMatched(encrypt, reply, p, ids, remote, left, hits, y);
      assert share(y') == share(y);
    }
  }

  /** The protocol for the sender's X and the receiver's Y, for every schedule and all orders pX and
      pY. Without assumptions on `derive`, no identifier is reported twice, and all reported ones
      share a point with an identifier that the sender sent. When identifiers share no points, exactly
      the common ones among those sent are reported; and when the orders are permutations, that is the
      intersection. */
  method Run(X: seq<Identifier>, Y: seq<Identifier>, derive: Identifier -> Point, mulS: Point -> Point,
             mulR: Point -> Point, pX: nat -> nat, pY: nat -> nat, parallelism: nat)
    returns (intersection: seq<Identifier>)
    requires Inside(pX, |X|) && Inside(pY, |Y|) && parallelism > 0
    requires forall q :: mulS(mulR(q)) == mulR(mulS(q))
    ensures NoDuplicates(intersection)
    ensures forall y :: y in intersection ==>
              && y in Drawn(pY, Y)
              && exists x :: x in Drawn(pX, X) && Shared(derive, mulS, mulR, x) == Shared(derive, mulS, mulR, y)
    ensures forall y :: y in Drawn(pX, X) && y in Drawn(pY, Y) ==>
              exists y' :: y' in intersection && Shared(derive, mulS, mulR, y') == Shared(derive, mulS, mulR, y)
    ensures NoSharing(derive, mulS, mulR, X, Y) ==>
              forall y :: y in intersection <==> y in Drawn(pX, X) && y in Drawn(pY, Y)
    ensures NoSharing(derive, mulS, mulR, X, Y) && Permutes(pX, |X|) && Permutes(pY, |Y|) ==>
              forall y :: y in intersection <==> y in X && y in Y
  {
    hide Permutes, Inside, NoDuplicates, Drawn, Found, HasLike, Shared, NoSharing;
    ghost var share := x => Shared(derive, mulS, mulR, x);
    intersection := Exchange(X, Y, derive, mulS, mulR, pX, pY, parallelism, share);
    FoundShared(derive, mulS, mulR, share, Drawn(pX, X), Drawn(pY, Y), intersection);
    if NoSharing(derive, mulS, mulR, X, Y) {
      FoundExact(derive, mulS, mulR, share, X, Y, pX, pY, intersection);
    }
  }

  lemma FoundShared(derive: Identifier -> Point, mulS: Point -> Point, mulR: Point -> Point, share: Identifier -> Point,
                    X: seq<Identifier>, Y: seq<Identifier>, result: seq<Identifier>)
    requires Found(share, X, Y, result) && forall x :: share(x) == Shared(derive, mulS, mulR, x)
    ensures forall y :: y in result ==>
              y in Y && exists x :: x in X && Shared(derive, mulS, mulR, x) == Shared(derive, mulS, mulR, y)
    ensures forall y :: y in X && y in Y ==>
              exists y' :: y' in result && Shared(derive, mulS, mulR, y') == Shared(derive, mulS, mulR, y)
  {
    hide Shared, HasLike, Found;
    forall y
      ensures y in result ==>
                y in Y && exists x :: x in X && Shared(derive, mulS, mulR, x) == Shared(derive, mulS, mulR, y)
      ensures y in X && y in Y ==>
                exists y' :: y' in result && Shared(derive, mulS, mulR, y') == Shared(derive, mulS, mulR, y)
    {
      FoundMeans(derive, mulS, mulR, share, X, Y, result, y);
    }
  }

  lemma FoundExact(derive: Identifier -> Point, mulS: Point -> Point, mulR: Point -> Point, share: Identifier -> Point,
                   X: seq<Identifier>, Y: seq<Identifier>, pX: nat -> nat, pY: nat -> nat, result: seq<Identifier>)
    requires Inside(pX, |X|) && Inside(pY, |Y|) && NoSharing(derive, mulS, mulR, X, Y)
    requires Found(share, Drawn(pX, X), Drawn(pY, Y), result) && forall x :: share(x) == Shared(derive, mulS, mulR, x)
    ensures forall y :: y in result <==> y in Drawn(pX, X) && y in Drawn(pY, Y)
    ensures Permutes(pX, |X|) && Permutes(pY, |Y|) ==> forall y :: y in result <==> y in X && y in Y
  {
    hide Permutes, Inside, Drawn, Found, Shared, NoSharing, Unshared;
    DrawnInside(pX, X);
    DrawnInside(pY, Y);
    UnsharedMeans(derive, mulS, mulR, share, X, Y, Drawn(pX, X), Drawn(pY, Y));
    forall y
      ensures y in result <==> y in Drawn(pX, X) && y in Drawn(pY, Y)
    {
      FoundIsExact(share, Drawn(pX, X), Drawn(pY, Y), result, y);
    }
    if Permutes(pX, |X|) && Permutes(pY, |Y|) {
      DrawnIsAll(pX, X);
      DrawnIsAll(pY, Y);
    }
  }

  lemma FoundMeans(derive: Identifier -> Point, mulS: Point -> Point, mulR: Point -> Point, share: Identifier -> Point,
                   X: seq<Identifier>, Y: seq<Identifier>, result: seq<Identifier>, y: Identifier)
    requires Found(share, X, Y, result) && forall x :: share(x) == Shared(derive, mulS, mulR, x)
    ensures y in result ==>
              y in Y && exists x :: x in X && Shared(derive, mulS, mulR, x) == Shared(derive, mulS, mulR, y)
    ensures y in X && y in Y ==>
              exists y' :: y' in result && Shared(derive, mulS, mulR, y') == Shared(derive, mulS, mulR, y)
  {
    hide Shared, HasLike;
    if y in result {
      var x := LikeOf(share, X, share(y));
    }
    if y in X && y in Y {
      var y' := LikeOf(share, result, share(y));
    }
  }

  lemma UnsharedMeans(derive: Identifier -> Point, mulS: Point -> Point, mulR: Point -> Point,
                      share: Identifier -> Point,
                      X: seq<Identifier>, Y: seq<Identifier>, X': seq<Identifier>, Y': seq<Identifier>)
    requires NoSharing(derive, mulS, mulR, X, Y) && forall x :: share(x) == Shared(derive, mulS, mulR, x)
    requires (forall x :: x in X' ==> x in X) && forall y :: y in Y' ==> y in Y
    ensures Unshared(share, X', Y')
  {
    hide Shared;
  }

  lemma DrawnInside(p: nat -> nat, ids: seq<Identifier>)
    requires Inside(p, |ids|)
    ensures forall x :: x in Drawn(p, ids) ==> x in ids
  {
  }

  /** The stages one after the other. */
  method Exchange(X: seq<Identifier>, Y: seq<Identifier>, derive: Identifier -> Point, mulS: Point -> Point,
                  mulR: Point -> Point, pX: nat -> nat, pY: nat -> nat, parallelism: nat,
                  ghost share: Identifier -> Point)
    returns (intersection: seq<Identifier>)
    requires Inside(pX, |X|) && Inside(pY, |Y|) && parallelism > 0
    requires forall q :: mulS(mulR(q)) == mulR(mulS(q))
    requires forall y :: share(y) == Shared(derive, mulS, mulR, y)
    ensures NoDuplicates(intersection)
    ensures Found(share, Drawn(pX, X), Drawn(pY, Y), intersection)
  {
    hide Shared, Inside, NoDuplicates, Drawn, IndexesValues, Matched, Found;
    var remoteIDs := Stage1(X, derive, mulS, mulR, pX, parallelism, share);
    var encrypt := x => mulR(derive(x));
    Commute(derive, mulS, mulR, encrypt, share);
    intersection := Stage2(Y, encrypt, mulS, pY, remoteIDs, parallelism, share);
    Exchanged(Drawn(pX, X), Drawn(pY, Y), share, remoteIDs, intersection);
  }

  lemma Commute(derive: Identifier -> Point, mulS: Point -> Point, mulR: Point -> Point, encrypt: Identifier -> Point,
                share: Identifier -> Point)
    requires forall q :: mulS(mulR(q)) == mulR(mulS(q))
    requires forall y :: encrypt(y) == mulR(derive(y))
    requires forall y :: share(y) == Shared(derive, mulS, mulR, y)
    ensures forall y :: mulS(encrypt(y)) == share(y)
  {
  }

  // ----- shufflers that are drawn at random

  /** The bound of the draw for n elements. */
  function DrawBound(n: nat): nat {
    (if n > 2 then n else 2) - 1
  }

  /** The sum in Shuffle does not overflow. */
  predicate Fits(n: nat, r: nat) {
    n < 2 || n - 1 + r < TWO32
  }

  /** A shuffler of n elements made by NewKensler sends each to one of the n, and permutes them
      exactly when the sum in Shuffle does not overflow. */
  lemma ShufflerPermutes(n: nat, r: nat, p: nat -> nat)
    requires n <= MAX_UINT32 && r < DrawBound(n)
    requires forall i: nat :: i < n ==> p(i) == Shuffled(ShufflerFor(n, r), i)
    ensures Inside(p, n) && (Permutes(p, n) <==> Fits(n, r))
  {
    hide Shuffled;
    var k := ShufflerFor(n, r);
    if n == 1 {
      SingleElement(r);
      assert (i => Shuffled(k, i))(0) == p(0);
    } else if n >= 2 {
      ShuffleIsPermutationIff(k);
      SamePermutation(i => Shuffled(k, i), p, n);
    }
  }

  lemma SamePermutation(f: nat -> nat, g: nat -> nat, n: nat)
    requires forall i: nat :: i < n ==> f(i) == g(i)
    ensures Permutes(f, n) <==> Permutes(g, n)
  {
  }

  /** The order in which a shuffler for n elements sends them. */
  method Order(n: nat, r: nat) returns (p: nat -> nat)
    requires n <= MAX_UINT32 && r < DrawBound(n)
    ensures forall i: nat :: i < n ==> p(i) == Shuffled(ShufflerFor(n, r), i)
    ensures Inside(p, n) && (Permutes(p, n) <==> Fits(n, r))
  {
    hide Shuffled, Ends, Permutes, Inside;
    var k := ShufflerFor(n, r);
    var s: seq<nat> := [];
    for i := 0 to n
      invariant |s| == i && forall j: nat :: j < i ==> s[j] == Shuffled(k, j)
    {
      EndsBelow(k, i);
      var next := Shuffle(k, i);
      s := s + [next];
    }
    p := (i: nat) => if i < |s| then s[i] else 0;
    ShufflerPermutes(n, r, p);
  }

  /** The shuffler made with the number r sends y among the identifiers. */
  ghost predicate Sends(ids: seq<Identifier>, r: nat, y: Identifier)
    requires |ids| <= MAX_UINT32 && r < DrawBound(|ids|)
  {
    exists i: nat :: i < |ids| && Shuffled(ShufflerFor(|ids|, r), i) < |ids|
                     && ids[Shuffled(ShufflerFor(|ids|, r), i)] == y
  }

  lemma DrawnIsSent(ids: seq<Identifier>, r: nat, p: nat -> nat)
    requires |ids| <= MAX_UINT32 && r < DrawBound(|ids|) && Inside(p, |ids|)
    requires forall i: nat :: i < |ids| ==> p(i) == Shuffled(ShufflerFor(|ids|, r), i)
    ensures forall y :: y in Drawn(p, ids) <==> Sends(ids, r, y)
  {
    hide Shuffled;
    forall y
      ensures y in Drawn(p, ids) <==> Sends(ids, r, y)
    {
      if y in Drawn(p, ids) {
        var i: nat :| i < |ids| && Drawn(p, ids)[i] == y;
        assert p(i) == Shuffled(ShufflerFor(|ids|, r), i);
      }
      if Sends(ids, r, y) {
        var i: nat :| i < |ids| && Shuffled(ShufflerFor(|ids|, r), i) < |ids|
                      && ids[Shuffled(ShufflerFor(|ids|, r), i)] == y;
        assert Drawn(p, ids)[i] == y;
      }
    }
  }

  /** The protocol with the orders that NewKensler gives for the numbers rX and rY. When no sum in
      Shuffle overflows, as for all sizes up to 2^31 + 1, the result is the intersection; and for
      distinct identifiers all of which are common it is only then. */
  method RunShuffled(X: seq<Identifier>, Y: seq<Identifier>, derive: Identifier -> Point, mulS: Point -> Point,
                     mulR: Point -> Point, rX: nat, rY: nat, parallelism: nat)
    returns (intersection: seq<Identifier>)
    requires |X| <= MAX_UINT32 && |Y| <= MAX_UINT32 && rX < DrawBound(|X|) && rY < DrawBound(|Y|) && parallelism > 0
    requires forall q :: mulS(mulR(q)) == mulR(mulS(q))
    ensures NoDuplicates(intersection) && forall y :: y in intersection ==> y in Y
    ensures forall y :: y in intersection ==>
              exists x :: x in X && Shared(derive, mulS, mulR, x) == Shared(derive, mulS, mulR, y)
    ensures forall y :: Sends(X, rX, y) && Sends(Y, rY, y) ==>
              exists y' :: y' in intersection && Shared(derive, mulS, mulR, y') == Shared(derive, mulS, mulR, y)
    ensures NoSharing(derive, mulS, mulR, X, Y) ==>
              forall y :: y in intersection <==> Sends(X, rX, y) && Sends(Y, rY, y)
    ensures NoSharing(derive, mulS, mulR, X, Y) && Fits(|X|, rX) && Fits(|Y|, rY) ==>
              forall y :: y in intersection <==> y in X && y in Y
    ensures NoSharing(derive, mulS, mulR, X, Y) && |X| <= 0x8000_0001 && |Y| <= 0x8000_0001 ==>
              forall y :: y in intersection <==> y in X && y in Y
    ensures NoSharing(derive, mulS, mulR, X, Y) && NoDuplicates(X) && NoDuplicates(Y) &&
            (forall x :: x in X <==> x in Y) ==>
              ((forall y :: y in intersection <==> y in X && y in Y) <==> Fits(|X|, rX) && Fits(|Y|, rY))
  {
    hide Permutes, Inside, NoDuplicates, Drawn, NoSharing, Shared, Sends;
    var pX := Order(|X|, rX);
    var pY := Order(|Y|, rY);
    DrawnIsSent(X, rX, pX);
    DrawnIsSent(Y, rY, pY);
    intersection := Run(X, Y, derive, mulS, mulR, pX, pY, parallelism);
    DrawnInside(pX, X);
    DrawnInside(pY, Y);
    if NoDuplicates(X) && NoDuplicates(Y) {
      DrawnIsAllIff(pX, X);
      DrawnIsAllIff(pY, Y);
    }
  }
}
