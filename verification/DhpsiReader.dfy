/** fill of pkg/dhpsi: batches of points go to workers, come back in any order, and are put in order
    again; the workers count down to know who closes the channel. */
module DhpsiReader {
  import opened Sequences
  import opened UintBits
  import opened DhpsiShufflers

  /** Where batch n starts. */
  function Prefix(max: nat, n: nat): nat {
    Min(BATCH * n, max)
  }

  function TotalBatches(max: nat): (t: nat)
    ensures Prefix(max, t) == max
    ensures forall n: nat :: n < t <==> Prefix(max, n) < max
  {
    max / BATCH + if max % BATCH != 0 then 1 else 0
  }

  function Mapped(mult: Point -> Point, s: seq<Point>): (r: seq<Point>)
    ensures |r| == |s| && forall i: nat :: i < |s| ==> r[i] == mult(s[i])
  {
    seq(|s|, i requires 0 <= i < |s| => mult(s[i]))
  }

  /** The points of batch n. */
  ghost function BatchOf(input: seq<Point>, n: nat): seq<Point> {
    input[Prefix(|input|, n)..Prefix(|input|, n + 1)]
  }

  /** What the reader gives out for the first n batches. */
  ghost function Given(mult: Point -> Point, input: seq<Point>, n: nat): seq<Point> {
    Mapped(mult, input[..Prefix(|input|, n)])
  }

  lemma GivenNext(mult: Point -> Point, input: seq<Point>, n: nat)
    ensures Given(mult, input, n + 1) == Given(mult, input, n) + Mapped(mult, BatchOf(input, n))
  {
  }

  lemma GivenAll(mult: Point -> Point, input: seq<Point>)
    ensures Given(mult, input, TotalBatches(|input|)) == Mapped(mult, input)
    ensures TotalBatches(|input|) == 0 <==> input == []
  {
    assert input[..|input|] == input;
  }

  // ----- the workers

  datatype Worker = Idle | Busy(n: nat, batch: seq<Point>) | Sending(n: nat, points: seq<Point>) | Asking {
    predicate Holds(k: nat) {
      !Idle? && !Asking? && n == k
    }

    ghost function StepsLeft(): nat {
      match this case Idle => 0 case Asking => 1 case Sending(_, _) => 2 case Busy(_, _) => 3
    }
  }

  ghost predicate WorkerOk(mult: Point -> Point, input: seq<Point>, next: nat, arrived: set<nat>, w: Worker) {
    match w
    case Idle => true
    case Asking => true
    case Busy(n, batch) => n < next && n !in arrived && batch == BatchOf(input, n)
    case Sending(n, points) => n < next && n !in arrived && points == Mapped(mult, BatchOf(input, n))
  }

  /** Each of the first `next` batches has arrived or is held by just one worker. */
  ghost predicate WorkersOk(mult: Point -> Point, input: seq<Point>, next: nat, arrived: set<nat>, ws: seq<Worker>) {
    && arrived <= Below(next)
    && (forall w: nat :: w < |ws| ==> WorkerOk(mult, input, next, arrived, ws[w]))
    && (forall v: nat, w: nat, n: nat :: v < |ws| && w < |ws| && ws[v].Holds(n) && ws[w].Holds(n) ==> v == w)
    && forall n: nat :: n < next && n !in arrived ==> exists w: nat :: w < |ws| && ws[w].Holds(n)
  }

  ghost function Askers(ws: seq<Worker>): seq<nat> {
    seq(|ws|, w requires 0 <= w < |ws| => if ws[w].Asking? then 1 else 0)
  }

  ghost function WorkLeft(ws: seq<Worker>): seq<nat> {
    seq(|ws|, w requires 0 <= w < |ws| => ws[w].StepsLeft())
  }

  /** Worker w takes batch `next`. */
  lemma Takes(mult: Point -> Point, input: seq<Point>, next: nat, arrived: set<nat>, ws: seq<Worker>, w: nat)
    requires WorkersOk(mult, input, next, arrived, ws) && w < |ws| && ws[w].Idle?
    ensures WorkersOk(mult, input, next + 1, arrived, ws[w := Busy(next, BatchOf(input, next))])
  {
    hide BatchOf, Mapped;
    var ws' := ws[w := Busy(next, BatchOf(input, next))];
    forall n: nat | n < next + 1 && n !in arrived
      ensures exists v: nat :: v < |ws'| && ws'[v].Holds(n)
    {
      if n == next {
        assert ws'[w].Holds(n);
      } else {
        var v: nat :| v < |ws| && ws[v].Holds(n);
        assert ws'[v].Holds(n);
      }
    }
  }

  /** Worker w has multiplied its batch. */
  lemma Multiplies(mult: Point -> Point, input: seq<Point>, next: nat, arrived: set<nat>, ws: seq<Worker>, w: nat)
    requires WorkersOk(mult, input, next, arrived, ws) && w < |ws| && ws[w].Busy?
    ensures WorkersOk(mult, input, next, arrived, ws[w := Sending(ws[w].n, Mapped(mult, ws[w].batch))])
  {
    hide BatchOf, Mapped;
    var ws' := ws[w := Sending(ws[w].n, Mapped(mult, ws[w].batch))];
    assert forall v: nat, n: nat :: v < |ws| ==> (ws'[v].Holds(n) <==> ws[v].Holds(n));
  }

  /** The batch of worker w arrives. */
  lemma Arrives(mult: Point -> Point, input: seq<Point>, next: nat, arrived: set<nat>, ws: seq<Worker>, w: nat)
    requires WorkersOk(mult, input, next, arrived, ws) && w < |ws| && ws[w].Sending?
    ensures WorkersOk(mult, input, next, arrived + {ws[w].n}, ws[w := Asking])
    ensures Sum(Askers(ws[w := Asking])) == Sum(Askers(ws)) + 1
  {
    hide BatchOf, Mapped, Sum;
    var ws', n := ws[w := Asking], ws[w].n;
    assert ws[w].Holds(n);
    assert forall v: nat, k: nat :: v < |ws| && v != w ==> (ws'[v].Holds(k) <==> ws[v].Holds(k));
    forall v: nat | v < |ws| && v != w
      ensures WorkerOk(mult, input, next, arrived + {n}, ws'[v])
    {
      assert WorkerOk(mult, input, next, arrived, ws[v]);
      assert !ws[v].Holds(n);
    }
    forall k: nat | k < next && k !in arrived + {n}
      ensures exists v: nat :: v < |ws'| && ws'[v].Holds(k)
    {
      var v: nat :| v < |ws| && ws[v].Holds(k);
      assert ws'[v].Holds(k);
    }
    SumUpdate(Askers(ws), Askers(ws'), w);
  }

  /** Worker w has its answer. */
  lemma Rests(mult: Point -> Point, input: seq<Point>, next: nat, arrived: set<nat>, ws: seq<Worker>, w: nat)
    requires WorkersOk(mult, input, next, arrived, ws) && w < |ws| && ws[w].Asking?
    ensures WorkersOk(mult, input, next, arrived, ws[w := Idle])
    ensures Sum(Askers(ws[w := Idle])) + 1 == Sum(Askers(ws))
  {
    hide BatchOf, Mapped;
    var ws' := ws[w := Idle];
    assert forall v: nat, k: nat :: v < |ws| ==> (ws'[v].Holds(k) <==> ws[v].Holds(k));
    SumUpdate(Askers(ws), Askers(ws'), w);
  }

  // ----- the countdown

  /** `asked` answers have been given out of T. */
  ghost predicate CountdownOk(T: nat, asked: nat, left: int, lbClosed: bool) {
    if lbClosed then T >= 2 && T - 1 <= asked && left == 0
    else left == T - 1 - asked && (T >= 2 ==> asked < T - 1)
  }

  /** The answer is 0 for the last of T askers and for no other one. */
  function Answer(left: int, lbClosed: bool): int {
    if lbClosed then 0 else left
  }

  lemma LastAskerIsTold(T: nat, asked: nat, left: int, lbClosed: bool)
    requires CountdownOk(T, asked, left, lbClosed) && asked < T
    ensures Answer(left, lbClosed) == 0 <==> asked + 1 == T
    ensures CountdownOk(T, asked + 1, if lbClosed then left else left - 1, lbClosed || left - 1 == 0)
  {
  }

  // ----- the ring

  /** The first `sent` batches are given out, and the others that have arrived are in the ring. */
  ghost predicate DrainOk(mult: Point -> Point, input: seq<Point>, arrived: set<nat>, sent: nat,
                          ring: map<nat, seq<Point>>, c: seq<Point>) {
    && Below(sent) <= arrived
    && c == Given(mult, input, sent)
    && (forall n: nat :: n in ring <==> n in arrived && sent <= n)
    && forall n: nat :: n in ring ==> ring[n] == Mapped(mult, BatchOf(input, n))
  }

  lemma DrainNext(mult: Point -> Point, input: seq<Point>, arrived: set<nat>, sent: nat, ring: map<nat, seq<Point>>,
                  c: seq<Point>)
    requires DrainOk(mult, input, arrived, sent, ring, c) && sent !in arrived
    ensures DrainOk(mult, input, arrived + {sent}, sent + 1, ring, c + Mapped(mult, BatchOf(input, sent)))
  {
    hide BatchOf, Given, Mapped;
    GivenNext(mult, input, sent);
  }

  lemma DrainKeep(mult: Point -> Point, input: seq<Point>, arrived: set<nat>, sent: nat, ring: map<nat, seq<Point>>,
                  c: seq<Point>, n: nat)
    requires DrainOk(mult, input, arrived, sent, ring, c) && n !in arrived && n != sent
    ensures DrainOk(mult, input, arrived + {n}, sent, ring[n := Mapped(mult, BatchOf(input, n))], c)
  {
    hide BatchOf, Given, Mapped;
    assert n < sent ==> n in Below(sent);
  }

  lemma DrainBuffered(mult: Point -> Point, input: seq<Point>, arrived: set<nat>, sent: nat,
                      ring: map<nat, seq<Point>>, c: seq<Point>)
    requires DrainOk(mult, input, arrived, sent, ring, c) && sent in ring
    ensures DrainOk(mult, input, arrived, sent + 1, ring - {sent}, c + ring[sent])
  {
    hide BatchOf, Given, Mapped;
    GivenNext(mult, input, sent);
  }

  lemma KeysCounted<V>(m: map<nat, V>, low: nat, high: nat)
    requires low <= high && forall n: nat :: n in m <==> low <= n < high
    ensures |m| == high - low
  {
    assert m.Keys == Below(high) - Below(low);
    assert Below(high) == Below(low) + m.Keys;
    assert |m| == |m.Keys|;
  }

  /** When all have arrived, the ring holds those from `sent` on. */
  lemma RingIsRest(mult: Point -> Point, input: seq<Point>, T: nat, sent: nat, ring: map<nat, seq<Point>>,
                   c: seq<Point>)
    requires DrainOk(mult, input, Below(T), sent, ring, c)
    ensures sent <= T && |ring| == T - sent && c == Given(mult, input, sent)
  {
    hide BatchOf, Given, Mapped;
    SubsetCount(Below(sent), Below(T));
    KeysCounted(ring, sent, T);
  }

  lemma FlushNext(mult: Point -> Point, input: seq<Point>, T: nat, sent: nat, ring: map<nat, seq<Point>>,
                  c: seq<Point>, n: nat)
    requires DrainOk(mult, input, Below(T), sent, ring, c) && sent <= n < T
    ensures n in ring && Given(mult, input, n) + ring[n] == Given(mult, input, n + 1)
  {
    hide BatchOf, Given, Mapped;
    GivenNext(mult, input, n);
  }

  // ----- the goroutines of fill

  class Fill {
    const input: seq<Point>      // what the sender of the points has written
    const mult: Point -> Point
    const total: nat
    var read: nat                // points read
    var next: nat                // the next batch to make
    var ws: seq<Worker>
    var left: int
    var lbClosed: bool
    var closed: bool             // the channel `batches`
    var ring: map<nat, seq<Point>>
    var sent: nat
    var c: seq<Point>            // what has been given out
    var finished: bool           // c is closed
    ghost var arrived: set<nat>
    ghost var asked: nat

    ghost predicate Valid()
      reads this
    {
      && total == TotalBatches(|input|)
      && next <= total && read == Prefix(|input|, next) && |ws| > 0
      && WorkersOk(mult, input, next, arrived, ws)
      && |arrived| == asked + Sum(Askers(ws))
      && CountdownOk(total, asked, left, lbClosed)
      && (closed <==> asked == total > 0)
      && (if finished then closed && c == Mapped(mult, input) else DrainOk(mult, input, arrived, sent, ring, c))
    }

    constructor (input: seq<Point>, mult: Point -> Point, parallelism: nat)
      requires parallelism > 0
      ensures Valid() && this.input == input && this.mult == mult && !closed && !finished && c == []
      ensures StepsLeft() == 4 * TotalBatches(|input|) + 1
    {
      this.input, this.mult := input, mult;
      total := TotalBatches(|input|);
      read, next, ws := 0, 0, seq(parallelism, _ => Idle);
      left, lbClosed, closed := TotalBatches(|input|) - 1, false, false;
      ring, sent, c, finished := map[], 0, [], false;
      arrived, asked := {}, 0;
      new;
      SumZero(Askers(ws));
      SumZero(WorkLeft(ws));
    }

    /** The reader hands a new batch to worker w. */
    method TakeBatch(w: nat)
      requires Valid() && next < total && w < |ws| && ws[w].Idle?
      modifies this`read, this`next, this`ws
      ensures Valid() && next == old(next) + 1
      ensures ws == old(ws)[w := Busy(old(next), BatchOf(input, old(next)))]
    {
      hide Sum, WorkersOk, CountdownOk, DrainOk;
      ArrivedBelow(mult, input, next, arrived, ws);
      Takes(mult, input, next, arrived, ws, w);
      var size := Min(BATCH, |input| - read);
      var batch := input[read..read + size];
      assert Prefix(|input|, next + 1) == read + size;
      SumUpdate(Askers(ws), Askers(ws[w := Busy(next, batch)]), w);
      ws := ws[w := Busy(next, batch)];
      read := read + size;
      next := next + 1;
    }

    method MultiplyBatch(w: nat)
      requires Valid() && w < |ws| && ws[w].Busy?
      modifies this`ws
      ensures Valid()
      ensures ws == old(ws)[w := Sending(old(ws)[w].n, Mapped(mult, old(ws)[w].batch))]
    {
      hide Sum, WorkersOk, CountdownOk, DrainOk, Mapped;
      Multiplies(mult, input, next, arrived, ws, w);
      var batch := ws[w].batch;
      var points: seq<Point> := [];
      for k := 0 to |batch|
        invariant |points| == k && forall i: nat :: i < k ==> points[i] == mult(batch[i])
      {
        points := points + [mult(batch[k])];
      }
      MappedIs(mult, batch, points);
      SumUpdate(Askers(ws), Askers(ws[w := Sending(ws[w].n, points)]), w);
      ws := ws[w := Sending(ws[w].n, points)];
    }

    /** The loop body over `batches`: a batch in turn is given out, any other put into the ring;
        then one batch may leave the ring. */
    method Drain(n: nat, points: seq<Point>)
      requires DrainOk(mult, input, arrived, sent, ring, c) && n !in arrived
      requires points == Mapped(mult, BatchOf(input, n))
      modifies this`arrived, this`sent, this`ring, this`c
      ensures arrived == old(arrived) + {n} && DrainOk(mult, input, arrived, sent, ring, c)
      ensures |c| >= old(|c|)
    {
      hide DrainOk, Mapped, BatchOf;
      if sent == n {
        DrainNext(mult, input, arrived, sent, ring, c);
        c := c + points;
        sent := sent + 1;
      } else {
        DrainKeep(mult, input, arrived, sent, ring, c, n);
        ring := ring[n := points];
      }
      arrived := arrived + {n};
      if sent in ring {
        DrainBuffered(mult, input, arrived, sent, ring, c);
        c := c + ring[sent];
        ring := ring - {sent};
        sent := sent + 1;
      }
    }

    /** A finished batch is sent on `batches`, which is open. */
    method SendBatch(w: nat)
      requires Valid() && w < |ws| && ws[w].Sending?
      modifies this`ws, this`arrived, this`sent, this`ring, this`c
      ensures Valid() && !closed && ws == old(ws)[w := Asking] && |c| >= old(|c|)
    {
      hide Sum, CountdownOk, DrainOk, Mapped, BatchOf, WorkersOk, TotalBatches, Prefix;
      HeldMeansOpen(mult, input, next, arrived, ws, w);
      ghost var n := ws[w].n;
      Arrives(mult, input, next, arrived, ws, w);
      Drain(ws[w].n, ws[w].points);
      assert |arrived| == old(|arrived|) + 1;
      ws := ws[w := Asking];
    }

    /** The worker asks the countdown whether its batch was the last. The answer is 0 when all
        batches have been sent and the other workers have asked; then it closes `batches`, which is
        open. */
    method Ask(w: nat)
      requires Valid() && w < |ws| && ws[w].Asking?
      modifies this`ws, this`left, this`lbClosed, this`closed, this`asked
      ensures Valid() && !old(closed) && ws == old(ws)[w := Idle] && asked == old(asked) + 1
      ensures closed <==> asked == total
      ensures closed ==> arrived == Below(total)
    {
      hide Sum, WorkersOk, CountdownOk, DrainOk, Mapped, BatchOf, TotalBatches, Prefix;
      Rests(mult, input, next, arrived, ws, w);
      Counted(mult, input, total, next, arrived, asked + 1, ws[w := Idle]);
      LastAskerIsTold(total, asked, left, lbClosed);
      var answer := Answer(left, lbClosed);
      if !lbClosed {
        left := left - 1;
        lbClosed := left == 0;
      }
      if answer == 0 {
        closed := true;
      }
      asked := asked + 1;
      ws := ws[w := Idle];
    }

    method EmptyRing()
      requires DrainOk(mult, input, Below(total), sent, ring, c)
      modifies this`c
      ensures c == Given(mult, input, total) && |c| >= old(|c|)
    {
      hide DrainOk, Given, Below, Mapped, BatchOf, Prefix, TotalBatches;
      RingIsRest(mult, input, total, sent, ring, c);
      ghost var c0 := c;
      for i := 0 to |ring|
        invariant c == Given(mult, input, sent + i) && |c| >= |c0|
      {
        FlushNext(mult, input, total, sent, ring, c0, sent + i);
        var points := ring[sent + i];
        c := c + points;
      }
    }

    /** The loop over `batches` ends, and the rest of the ring is given out in order. */
    method FlushRing()
      requires Valid() && closed && !finished
      modifies this`c, this`finished
      ensures Valid() && finished && |c| >= old(|c|)
    {
      hide Sum, WorkersOk, CountdownOk, Mapped, BatchOf, TotalBatches, Prefix, Given;
      Counted(mult, input, total, next, arrived, asked, ws);
      EmptyRing();
      GivenAll(mult, input);
      finished := true;
    }

    /** Goroutine g can go on: the reader, worker g - 1 or the drain. */
    predicate Enabled(g: nat)
      reads this
    {
      if g == 0 then next < total && exists w: nat :: w < |ws| && ws[w].Idle?
      else if g <= |ws| then !ws[g - 1].Idle?
      else g == |ws| + 1 && closed && !finished
    }

    /** No deadlock: until the last batch is out, some goroutine can go on. */
    lemma Progress()
      requires Valid() && total > 0 && !finished
      ensures exists g: nat :: g <= |ws| + 1 && Enabled(g)
    {
      hide Sum, CountdownOk, DrainOk, Mapped, BatchOf;
      if w: nat :| w < |ws| && !ws[w].Idle? {
        assert Enabled(w + 1);
      } else if next < total {
        assert ws[0].Idle?;
        assert Enabled(0);
      } else {
        AllArrived(mult, input, next, arrived, ws);
        SumZero(Askers(ws));
        assert Enabled(|ws| + 1);
      }
    }

    ghost function StepsLeft(): nat
      requires next <= total
      reads this
    {
      4 * (total - next) + Sum(WorkLeft(ws)) + if finished then 0 else 1
    }

    method Step(g: nat)
      requires Valid() && Enabled(g)
      modifies this
      ensures Valid() && StepsLeft() < old(StepsLeft()) && |c| >= old(|c|)
    {
      hide Sum, WorkersOk, CountdownOk, DrainOk, Mapped, BatchOf;
      ghost var before := ws;
      if g == 0 {
        var w: nat :| w < |ws| && ws[w].Idle?;
        TakeBatch(w);
        SumUpdate(WorkLeft(before), WorkLeft(ws), w);
      } else if g <= |ws| {
        var w: nat := g - 1;
        match ws[w] {
          case Busy(_, _) => MultiplyBatch(w);
          case Sending(_, _) => SendBatch(w);
          case Asking => Ask(w);
        }
        SumUpdate(WorkLeft(before), WorkLeft(ws), w);
      } else {
        FlushRing();
      }
    }

    /** When there are no points, nothing can go on and nobody closes the channels. */
    lemma NothingToDo()
      requires Valid() && total == 0
      ensures !closed && !finished && c == Mapped(mult, input)
      ensures forall g: nat :: g <= |ws| + 1 ==> !Enabled(g)
    {
      hide Sum, CountdownOk, BatchOf;
      Counted(mult, input, total, next, arrived, asked, ws);
      SumZero(Askers(ws));
      forall w: nat | w < |ws|
        ensures ws[w].Idle?
      {
        assert WorkerOk(mult, input, next, arrived, ws[w]);
        assert Askers(ws)[w] == 0;
      }
    }

    /** What has been given out are the first points, multiplied. */
    lemma GivenOut()
      requires Valid()
      ensures |c| <= |input| && c == Mapped(mult, input)[..|c|]
    {
      hide Sum, WorkersOk, CountdownOk, BatchOf;
    }

    /** Any goroutine that can go on goes on, until none can: the channel of the points has carried
        all of them in order, and is closed unless there are none. */
    method Run()
      requires Valid()
      modifies this
      ensures Valid() && c == Mapped(mult, input) && (finished <==> |input| > 0)
      ensures |input| == 0 ==> !closed
    {
      while exists g: nat :: g <= |ws| + 1 && Enabled(g)
        invariant Valid()
        decreases StepsLeft()
      {
        var g: nat :| g <= |ws| + 1 && Enabled(g);
        hide Valid, StepsLeft, Enabled;
        Step(g);
      }
      GivenAll(mult, input);
      if total == 0 {
        NothingToDo();
      } else if !finished {
        Progress();
      }
    }
  }

  /** While a worker holds a batch, not all have arrived. */
  lemma HeldMeansOpen(mult: Point -> Point, input: seq<Point>, next: nat, arrived: set<nat>, ws: seq<Worker>, w: nat)
    requires WorkersOk(mult, input, next, arrived, ws) && w < |ws| && ws[w].Sending?
    ensures |arrived| < next && ws[w].n !in arrived && ws[w].points == Mapped(mult, BatchOf(input, ws[w].n))
  {
    hide BatchOf, Mapped;
    assert WorkerOk(mult, input, next, arrived, ws[w]);
    SubsetCount(arrived, Below(next));
  }

  lemma AllArrived(mult: Point -> Point, input: seq<Point>, next: nat, arrived: set<nat>, ws: seq<Worker>)
    requires WorkersOk(mult, input, next, arrived, ws) && forall w: nat :: w < |ws| ==> ws[w].Idle?
    ensures |arrived| == next
  {
    hide BatchOf, Mapped;
    assert arrived == Below(next);
  }

  lemma MappedIs(mult: Point -> Point, batch: seq<Point>, points: seq<Point>)
    requires |points| == |batch| && forall i: nat :: i < |batch| ==> points[i] == mult(batch[i])
    ensures points == Mapped(mult, batch)
  {
  }

  lemma ArrivedBelow(mult: Point -> Point, input: seq<Point>, next: nat, arrived: set<nat>, ws: seq<Worker>)
    requires WorkersOk(mult, input, next, arrived, ws)
    ensures |arrived| <= next
    ensures |arrived| == next ==> arrived == Below(next)
  {
    SubsetCount(arrived, Below(next));
  }

  /** All have been answered when all have arrived, and nobody waits for an answer. */
  lemma Counted(mult: Point -> Point, input: seq<Point>, total: nat, next: nat, arrived: set<nat>, asked: nat,
                ws: seq<Worker>)
    requires WorkersOk(mult, input, next, arrived, ws) && next <= total
    requires |arrived| == asked + Sum(Askers(ws))
    ensures asked <= total
    ensures asked == total ==> next == total && arrived == Below(total) && Sum(Askers(ws)) == 0
  {
    hide WorkersOk, Sum;
    ArrivedBelow(mult, input, next, arrived, ws);
  }

  // ----- the readers

  datatype ReadResult = Read(point: Point) | EOF | ErrUnexpectedEOF

  /** MultiplyReader reads and multiplies one point at a time. */
  class MultiplyReader {
    const input: seq<Point>
    const mult: Point -> Point
    var count: nat

    ghost predicate Valid()
      reads this
    {
      count <= |input|
    }

    constructor (input: seq<Point>, mult: Point -> Point)
      ensures Valid() && count == 0 && this.input == input && this.mult == mult
    {
      this.input, this.mult, count := input, mult, 0;
    }

    method Read() returns (r: ReadResult)
      requires Valid()
      modifies this
      ensures Valid()
      ensures r == if old(count) < |input| then ReadResult.Read(mult(input[old(count)])) else EOF
      ensures count == if old(count) < |input| then old(count) + 1 else old(count)
    {
      if count == |input| {
        return EOF;
      }
      var b := input[count];
      count := count + 1;
      return ReadResult.Read(mult(b));
    }
  }

  /** MultiplyParallelReader gives the same points as MultiplyReader and then EOF, whatever the order
      in which the workers run. */
  class MultiplyParallelReader {
    const input: seq<Point>
    const mult: Point -> Point
    var count: nat
    var bus: seq<Point>          // what is to come from the channel of fill

    ghost predicate Valid()
      reads this
    {
      count <= |input| && bus == Mapped(mult, input)[count..]
    }

    constructor (input: seq<Point>, mult: Point -> Point, parallelism: nat)
      requires parallelism > 0
      ensures Valid() && count == 0 && this.input == input && this.mult == mult
    {
      this.input, this.mult, count := input, mult, 0;
      var fill := new Fill(input, mult, parallelism);
      fill.Run();
      bus := fill.c;
    }

    method Read() returns (r: ReadResult)
      requires Valid()
      modifies this
      ensures Valid()
      ensures r == if old(count) < |input| then ReadResult.Read(mult(input[old(count)])) else EOF
      ensures count == if old(count) < |input| then old(count) + 1 else old(count)
    {
      if count == |input| {
        return EOF;
      }
      if bus == [] {
        return ErrUnexpectedEOF;
      }
      r := ReadResult.Read(bus[0]);
      bus := bus[1..];
      count := count + 1;
    }
  }

  /** All reads of the parallel reader. */
  method ReadAll(input: seq<Point>, mult: Point -> Point, parallelism: nat) returns (points: seq<Point>)
    requires parallelism > 0
    ensures points == Mapped(mult, input)
  {
    hide Mapped;
    var reader := new MultiplyParallelReader(input, mult, parallelism);
    points := [];
    for i := 0 to |input|
      invariant fresh(reader) && reader.Valid() && reader.count == i
      invariant |points| == i && forall k: nat :: k < i ==> points[k] == mult(input[k])
    {
      var r := reader.Read();
      points := points + [r.point];
    }
    MappedIs(mult, input, points);
  }
}
